/**
 Range reads of OGB-1 blobs (`OgbReader`): a blob is a tree of index nodes of height at most 8
 over chunks; a read visits only the children that overlap the requested range.
 */
module RangeRead {
  import opened Prelude

  type Oid = seq<byte>

  const MAX_LENGTH: nat := 0x7fff_ffff_ffff_ffff
  const MAX_CHUNK: nat := 0x10_0000
  const MAX_HEIGHT: nat := 8
  const FANOUT: nat := 256
  const MAX_READ: nat := 0x80_0000

  /** One index entry: the exclusive end offset of a child, its id, and a chunk's digest. */
  datatype Entry = Entry(end: nat, oid: Oid, digest: Option<seq<byte>>)

  datatype Index = Index(height: nat, total: nat, entries: seq<Entry>)

  datatype Descriptor = Descriptor(digest: seq<byte>, length: nat, dataOid: Oid)

  /** Objects that matched their Git ids and whose index or meta record decoded. */
  datatype Store = Store(
    roots: map<Oid, Descriptor>, nodes: map<Oid, Index>, chunks: map<Oid, seq<byte>>,
    sha256: seq<byte> -> seq<byte>)

  // ----- _node -----

  /** Offsets rise strictly from `begin`, and leaf and internal entries have their own shapes. */
  predicate EntriesOk(entries: seq<Entry>, begin: nat, height: nat) {
    if |entries| == 0 then true
    else
      var e := entries[0];
      && begin < e.end <= MAX_LENGTH
      && (if height == 0 then e.digest.Some? && |e.digest.value| == 32 && e.end - begin <= MAX_CHUNK
          else e.digest.None?)
      && EntriesOk(entries[1..], e.end, height)
  }

  function LastEnd(entries: seq<Entry>, begin: nat): nat {
    if |entries| == 0 then begin else entries[|entries| - 1].end
  }

  predicate NodeOk(n: Index, expectedLength: nat, expectedHeight: Option<nat>) {
    && n.height <= MAX_HEIGHT && n.total <= MAX_LENGTH && |n.entries| <= FANOUT
    && (|n.entries| == 0 ==> n.height == 0 && n.total == 0)
    && n.total == expectedLength
    && (expectedHeight.Some? ==> n.height == expectedHeight.value)
    && EntriesOk(n.entries, 0, n.height)
    && LastEnd(n.entries, 0) == n.total
  }

  function LoadNode(s: Store, oid: Oid, expectedLength: nat, expectedHeight: Option<nat>): (r: Result<Index>)
    ensures r.Ok? ==> oid in s.nodes && r.value == s.nodes[oid] && NodeOk(r.value, expectedLength, expectedHeight)
  {
    if oid in s.nodes && NodeOk(s.nodes[oid], expectedLength, expectedHeight) then Ok(s.nodes[oid]) else Err
  }

  // ----- _walk -----

  function Bound(height: Option<nat>): nat {
    match height case None => MAX_HEIGHT + 1 case Some(h) => h
  }

  function Chunk(s: Store, e: Entry, size: nat): Result<seq<byte>> {
    if e.oid in s.chunks && |s.chunks[e.oid]| == size && e.digest == Some(s.sha256(s.chunks[e.oid]))
    then Ok(s.chunks[e.oid]) else Err
  }

  function Walk(s: Store, oid: Oid, start: nat, stop: nat, length: nat, height: Option<nat>): Result<seq<byte>>
    decreases Bound(height), 1
  {
    var n :- LoadNode(s, oid, length, height);
    WalkEntries(s, n.height, n.entries, 0, start, stop)
  }

  /** The part of one child that lies in the range; children outside it are not visited. */
  function WalkEntry(s: Store, height: nat, e: Entry, begin: nat, start: nat, stop: nat): Result<seq<byte>>
    decreases height, 0, 0
  {
    if e.end <= start || begin >= stop || e.end <= begin then Ok([])
    else
      var size := e.end - begin;
      var from, to := Max(start - begin, 0), Min(stop - begin, size);
      if height == 0 then
        var data :- Chunk(s, e, size);
        if from <= to then Ok(data[from..to]) else Ok([])
      else Walk(s, e.oid, from, to, size, Some(height - 1))
  }

  function WalkEntries(s: Store, height: nat, entries: seq<Entry>, begin: nat, start: nat, stop: nat): Result<seq<byte>>
    decreases height, 0, 1, |entries|
  {
    if |entries| == 0 then Ok([])
    else
      var part :- WalkEntry(s, height, entries[0], begin, start, stop);
      var rest :- WalkEntries(s, height, entries[1..], entries[0].end, start, stop);
      Ok(part + rest)
  }

  // ----- The content: all chunks below a node, in order -----

  function Content(s: Store, oid: Oid, height: nat): seq<byte>
    decreases height, 1
  {
    if oid in s.nodes then ContentOf(s, s.nodes[oid].entries, height) else []
  }

  function ContentOf(s: Store, entries: seq<Entry>, height: nat): seq<byte>
    decreases height, 0, |entries|
  {
    if |entries| == 0 then []
    else ContentAt(s, entries[0], height) + ContentOf(s, entries[1..], height)
  }

  function ContentAt(s: Store, e: Entry, height: nat): seq<byte>
    decreases height, 0, 0
  {
    if height == 0 then (if e.oid in s.chunks then s.chunks[e.oid] else []) else Content(s, e.oid, height - 1)
  }

  // ----- Clipping -----

  function Clip(n: int, length: nat): nat { if n < 0 then 0 else if n > length then length else n }

  /** The bytes of `d`, which begins at offset `begin`, that lie in [start, stop). */
  function Part(d: seq<byte>, begin: nat, start: nat, stop: nat): seq<byte>
    requires start <= stop
  {
    d[Clip(start - begin, |d|)..Clip(stop - begin, |d|)]
  }

  lemma SliceJoins(d: seq<byte>, e: seq<byte>, a: nat, b: nat)
    requires a <= b <= |d| + |e|
    ensures b <= |d| ==> (d + e)[a..b] == d[a..b]
    ensures a >= |d| ==> (d + e)[a..b] == e[a - |d|..b - |d|]
    ensures a <= |d| <= b ==> (d + e)[a..b] == d[a..] + e[..b - |d|]
  {
  }

  lemma PartJoins(d: seq<byte>, e: seq<byte>, begin: nat, start: nat, stop: nat)
    requires start <= stop
    ensures Part(d + e, begin, start, stop) == Part(d, begin, start, stop) + Part(e, begin + |d|, start, stop)
  {
    var a, b := Clip(start - begin, |d + e|), Clip(stop - begin, |d + e|);
    SliceJoins(d, e, a, b);
    ClipJoins(start - begin, |d|, |e|);
    ClipJoins(stop - begin, |d|, |e|);
    hide Clip;
  }

  lemma ClipJoins(n: int, d: nat, e: nat)
    ensures Clip(n, d + e) == if Clip(n, d + e) <= d then Clip(n, d) else d + Clip(n - d, e)
    ensures Clip(n, d + e) <= d ==> Clip(n - d, e) == 0
    ensures Clip(n, d + e) >= d ==> Clip(n, d) == d
  {
  }

  // ----- A verified tree answers every range -----

  lemma {:induction false} WalkExact(s: Store, oid: Oid, start: nat, stop: nat, length: nat, height: Option<nat>)
    requires Walk(s, oid, 0, length, length, height).Ok? && start <= stop <= length
    ensures oid in s.nodes && |Content(s, oid, s.nodes[oid].height)| == length
    ensures Walk(s, oid, start, stop, length, height) == Ok(Content(s, oid, s.nodes[oid].height)[start..stop])
    decreases Bound(height), 1
  {
    hide WalkEntries, EntriesOk, ContentOf;
    var n := s.nodes[oid];
    EntriesExact(s, n.height, n.entries, 0, start, stop, length);
  }

  lemma {:induction false} EntriesExact(
      s: Store, height: nat, entries: seq<Entry>, begin: nat, start: nat, stop: nat, length: nat)
    requires EntriesOk(entries, begin, height) && LastEnd(entries, begin) == length
    requires start <= stop <= length && height <= MAX_HEIGHT
    requires WalkEntries(s, height, entries, begin, 0, length).Ok?
    ensures begin <= length && |ContentOf(s, entries, height)| == length - begin
    ensures WalkEntries(s, height, entries, begin, start, stop)
         == Ok(Part(ContentOf(s, entries, height), begin, start, stop))
    decreases height, 0, 1, |entries|
  {
    hide WalkEntry, ContentAt;
    if |entries| > 0 {
      var e, tail := entries[0], entries[1..];
      LastEndGrows(tail, e.end, height);
      assert LastEnd(tail, e.end) == length;
      EntriesExact(s, height, tail, e.end, start, stop, length);
      EntryExact(s, height, e, begin, start, stop, length);
      PartJoins(ContentAt(s, e, height), ContentOf(s, tail, height), begin, start, stop);
    }
  }

  lemma {:induction false} LastEndGrows(entries: seq<Entry>, begin: nat, height: nat)
    requires EntriesOk(entries, begin, height)
    ensures begin <= LastEnd(entries, begin)
  {
    if |entries| > 0 { LastEndGrows(entries[1..], entries[0].end, height); }
  }

  lemma {:induction false} EntryExact(
      s: Store, height: nat, e: Entry, begin: nat, start: nat, stop: nat, length: nat)
    requires begin < e.end <= length && start <= stop <= length && height <= MAX_HEIGHT
    requires WalkEntry(s, height, e, begin, 0, length).Ok?
    ensures |ContentAt(s, e, height)| == e.end - begin
    ensures WalkEntry(s, height, e, begin, start, stop) == Ok(Part(ContentAt(s, e, height), begin, start, stop))
    decreases height, 0, 0
  {
    hide Walk, Content;
    var size := e.end - begin;
    var from, to := Clip(start - begin, size), Clip(stop - begin, size);
    if e.end <= start || begin >= stop {
      assert from == to;
    } else {
      assert from == Max(start - begin, 0) && to == Min(stop - begin, size);
    }
    if height > 0 {
      WalkExact(s, e.oid, from, to, size, Some(height - 1));
      WalkHeight(s, e.oid, 0, size, size, height - 1);
    }
    if from == to { assert Part(ContentAt(s, e, height), begin, start, stop) == []; }
  }

  lemma WalkHeight(s: Store, oid: Oid, start: nat, stop: nat, length: nat, height: nat)
    requires Walk(s, oid, start, stop, length, Some(height)).Ok?
    ensures oid in s.nodes && s.nodes[oid].height == height
  {
  }

  // ----- descriptor, read_range and verify -----

  function ReadRange(s: Store, root: Oid, offset: nat, length: nat): Result<seq<byte>> {
    if root !in s.roots then Err
    else
      var d := s.roots[root];
      if offset > d.length || length > MAX_READ then Err
      else
        var stop := Min(d.length, offset + length);
        if stop == offset then Ok([])
        else
          var data :- Walk(s, d.dataOid, offset, stop, d.length, None);
          if |data| != stop - offset then Err else Ok(data)
  }

  function Verify(s: Store, root: Oid): Result<seq<byte>> {
    if root !in s.roots then Err
    else
      var d := s.roots[root];
      var data :- Walk(s, d.dataOid, 0, d.length, d.length, None);
      if |data| == d.length && s.sha256(data) == d.digest then Ok(d.digest) else Err
  }

  /** The bytes of a blob: its chunks in order, through index nodes of any admitted height. */
  function BlobBytes(s: Store, root: Oid): seq<byte>
    requires root in s.roots
  {
    var oid := s.roots[root].dataOid;
    if oid in s.nodes then Content(s, oid, s.nodes[oid].height) else []
  }

  /**
   * For every blob that verifies, every admissible range is read and is exactly that slice of the
   * content; so the refusal of an incomplete read never fires.
   */
  lemma RangeIsSlice(s: Store, root: Oid, offset: nat, length: nat)
    requires Verify(s, root).Ok? && offset <= s.roots[root].length && length <= MAX_READ
    ensures var total := s.roots[root].length;
            && |BlobBytes(s, root)| == total && s.sha256(BlobBytes(s, root)) == s.roots[root].digest
            && ReadRange(s, root, offset, length) == Ok(BlobBytes(s, root)[offset..Min(total, offset + length)])
  {
    hide Walk, Content;
    var d := s.roots[root];
    var stop := Min(d.length, offset + length);
    WalkExact(s, d.dataOid, offset, stop, d.length, None);
    WalkExact(s, d.dataOid, 0, d.length, d.length, None);
    assert BlobBytes(s, root)[0..d.length] == BlobBytes(s, root);
    if stop == offset { assert BlobBytes(s, root)[offset..stop] == []; }
  }

  /** Adjacent reads join to the read of the whole range. */
  lemma AdjacentReads(s: Store, root: Oid, offset: nat, first: nat, second: nat)
    requires Verify(s, root).Ok? && offset + first <= s.roots[root].length && first + second <= MAX_READ
    ensures var a, b := ReadRange(s, root, offset, first), ReadRange(s, root, offset + first, second);
            a.Ok? && b.Ok? && ReadRange(s, root, offset, first + second) == Ok(a.value + b.value)
  {
    hide ReadRange, Verify, BlobBytes;
    RangeIsSlice(s, root, offset, first);
    RangeIsSlice(s, root, offset + first, second);
    RangeIsSlice(s, root, offset, first + second);
    VerifyHasRoot(s, root);
    var bytes, total := BlobBytes(s, root), s.roots[root].length;
    var stop := Min(total, offset + first + second);
    assert bytes[offset..offset + first] + bytes[offset + first..stop] == bytes[offset..stop];
  }

  lemma VerifyHasRoot(s: Store, root: Oid)
    requires Verify(s, root).Ok?
    ensures root in s.roots
  {
  }

  // ----- Which blobs verify -----

  function Begin(entries: seq<Entry>, first: nat, i: nat): nat
    requires i < |entries|
  {
    if i == 0 then first else entries[i - 1].end
  }

  /** One entry of a node: a non-empty stretch, of at most 1 MiB with a 32-byte digest when it is a chunk. */
  predicate EntrySound(e: Entry, begin: nat, height: nat) {
    && begin < e.end <= 0x7fff_ffff_ffff_ffff
    && (height == 0 ==> e.digest.Some? && |e.digest.value| == 32 && e.end - begin <= 1_048_576)
    && (height > 0 ==> e.digest.None?)
  }

  predicate NodeSound(n: Index, length: nat) {
    && n.height <= 8 && n.total == length <= 0x7fff_ffff_ffff_ffff && |n.entries| <= 256
    && (if |n.entries| == 0 then n.height == 0 && length == 0 else n.entries[|n.entries| - 1].end == length)
    && forall i | 0 <= i < |n.entries| :: EntrySound(n.entries[i], Begin(n.entries, 0, i), n.height)
  }

  /** A tree that holds exactly what it says: at every entry a chunk or a smaller tree of the entry's size. */
  ghost predicate Intact(s: Store, oid: Oid, length: nat, height: nat)
    decreases height, 1
  {
    && oid in s.nodes && s.nodes[oid].height == height && NodeSound(s.nodes[oid], length)
    && forall i | 0 <= i < |s.nodes[oid].entries| ::
         EntryIntact(s, s.nodes[oid].entries[i], Begin(s.nodes[oid].entries, 0, i), height)
  }

  ghost predicate EntryIntact(s: Store, e: Entry, begin: nat, height: nat)
    decreases height, 0
  {
    begin < e.end
    && if height == 0 then
         && e.oid in s.chunks && |s.chunks[e.oid]| == e.end - begin
         && e.digest == Some(s.sha256(s.chunks[e.oid]))
       else Intact(s, e.oid, e.end - begin, height - 1)
  }

  lemma BeginTail(entries: seq<Entry>, first: nat, i: nat)
    requires 0 < i < |entries|
    ensures Begin(entries, first, i) == Begin(entries[1..], entries[0].end, i - 1)
  {
  }

  lemma {:induction false} EntriesSound(entries: seq<Entry>, begin: nat, height: nat)
    ensures EntriesOk(entries, begin, height) <==>
      forall i | 0 <= i < |entries| :: EntrySound(entries[i], Begin(entries, begin, i), height)
    decreases |entries|
  {
    if |entries| > 0 {
      var tail := entries[1..];
      EntriesSound(tail, entries[0].end, height);
      hide EntrySound, Begin;
      assert Begin(entries, begin, 0) == begin by { FirstBegin(entries, begin); }
      forall i | 0 < i < |entries|
        ensures EntrySound(entries[i], Begin(entries, begin, i), height) <==>
          EntrySound(tail[i - 1], Begin(tail, entries[0].end, i - 1), height)
      {
        BeginTail(entries, begin, i);
      }
      assert forall i | 0 <= i < |tail| :: EntrySound(tail[i], Begin(tail, entries[0].end, i), height) <==>
        EntrySound(entries[i + 1], Begin(entries, begin, i + 1), height);
      FirstSound(entries, begin, height);
    }
  }

  lemma FirstBegin(entries: seq<Entry>, begin: nat)
    requires |entries| > 0
    ensures Begin(entries, begin, 0) == begin
  {
  }

  lemma FirstSound(entries: seq<Entry>, begin: nat, height: nat)
    requires |entries| > 0
    ensures EntriesOk(entries, begin, height) <==>
      EntrySound(entries[0], begin, height) && EntriesOk(entries[1..], entries[0].end, height)
  {
  }

  lemma NodeExact(n: Index, length: nat)
    ensures NodeOk(n, length, None) <==> NodeSound(n, length)
  {
    EntriesSound(n.entries, 0, n.height);
    hide EntrySound, EntriesOk, Begin;
  }

  lemma {:induction false} WalkSucceeds(s: Store, oid: Oid, length: nat, height: Option<nat>)
    ensures Walk(s, oid, 0, length, length, height).Ok? <==>
      oid in s.nodes && (height.Some? ==> height.value == s.nodes[oid].height)
      && Intact(s, oid, length, s.nodes[oid].height)
    decreases Bound(height), 1
  {
    hide EntriesOk, EntrySound, EntryIntact, WalkEntries;
    if oid in s.nodes {
      var n := s.nodes[oid];
      NodeExact(n, length);
      if NodeOk(n, length, height) { EntriesSucceed(s, n.height, n.entries, 0, length); }
    }
  }

  lemma {:induction false} EntriesSucceed(s: Store, height: nat, entries: seq<Entry>, begin: nat, length: nat)
    requires EntriesOk(entries, begin, height) && LastEnd(entries, begin) == length && height <= MAX_HEIGHT
    ensures WalkEntries(s, height, entries, begin, 0, length).Ok? <==>
      forall i | 0 <= i < |entries| :: EntryIntact(s, entries[i], Begin(entries, begin, i), height)
    decreases height, 0, 1, |entries|
  {
    hide EntryIntact, WalkEntry;
    if |entries| > 0 {
      var e, tail := entries[0], entries[1..];
      LastEndGrows(tail, e.end, height);
      assert LastEnd(tail, e.end) == length;
      EntriesSucceed(s, height, tail, e.end, length);
      EntrySucceeds(s, height, e, begin, length);
      hide Begin;
      FirstBegin(entries, begin);
      forall i | 0 < i < |entries|
        ensures EntryIntact(s, entries[i], Begin(entries, begin, i), height) <==>
          EntryIntact(s, tail[i - 1], Begin(tail, e.end, i - 1), height)
      {
        BeginTail(entries, begin, i);
      }
      assert forall i | 0 <= i < |tail| :: EntryIntact(s, tail[i], Begin(tail, e.end, i), height) <==>
        EntryIntact(s, entries[i + 1], Begin(entries, begin, i + 1), height);
    }
  }

  lemma {:induction false} EntrySucceeds(s: Store, height: nat, e: Entry, begin: nat, length: nat)
    requires begin < e.end <= length && height <= MAX_HEIGHT
    ensures WalkEntry(s, height, e, begin, 0, length).Ok? <==> EntryIntact(s, e, begin, height)
    decreases height, 0, 0
  {
    hide Walk, NodeSound;
    if height > 0 { WalkSucceeds(s, e.oid, e.end - begin, Some(height - 1)); }
  }

  /** A blob verifies exactly when its tree is intact and its bytes have the recorded digest. */
  lemma VerifyExact(s: Store, root: Oid)
    ensures Verify(s, root).Ok? <==>
      && root in s.roots
      && var d := s.roots[root];
         && d.dataOid in s.nodes && Intact(s, d.dataOid, d.length, s.nodes[d.dataOid].height)
         && s.sha256(BlobBytes(s, root)) == d.digest
  {
    hide Walk, Content, Intact;
    if root in s.roots {
      var d := s.roots[root];
      WalkSucceeds(s, d.dataOid, d.length, None);
      if Walk(s, d.dataOid, 0, d.length, d.length, None).Ok? {
        WalkExact(s, d.dataOid, 0, d.length, d.length, None);
        assert BlobBytes(s, root)[0..d.length] == BlobBytes(s, root);
      }
    }
  }

  // ----- The walk as the generator runs it -----

  /** _node: the entries of a node, checked with a running offset. */
  method ReadNode(s: Store, oid: Oid, expectedLength: nat, expectedHeight: Option<nat>) returns (r: Result<Index>)
    ensures r == LoadNode(s, oid, expectedLength, expectedHeight)
  {
    if oid !in s.nodes { return Err; }
    var n := s.nodes[oid];
    if n.height > MAX_HEIGHT || n.total > MAX_LENGTH || |n.entries| > FANOUT { return Err; }
    if |n.entries| == 0 && (n.height != 0 || n.total != 0) { return Err; }
    if n.total != expectedLength { return Err; }
    if expectedHeight.Some? && n.height != expectedHeight.value { return Err; }
    var begin := 0;
    for i := 0 to |n.entries|
      invariant 0 <= begin && begin == if i == 0 then 0 else n.entries[i - 1].end
      invariant EntriesOk(n.entries, 0, n.height) <==> EntriesOk(n.entries[i..], begin, n.height)
    {
      var e := n.entries[i];
      assert n.entries[i..][0] == e && n.entries[i..][1..] == n.entries[i + 1..];
      if !(begin < e.end <= MAX_LENGTH) { return Err; }
      if n.height == 0 {
        if e.digest.None? || |e.digest.value| != 32 || e.end - begin > MAX_CHUNK { return Err; }
      } else if e.digest.Some? {
        return Err;
      }
      begin := e.end;
    }
    if begin != n.total { return Err; }
    r := Ok(n);
  }

  ghost function Joined(done: seq<byte>, rest: Result<seq<byte>>): Result<seq<byte>> {
    match rest
    case Err => Err
    case Ok(more) => Ok(done + more)
  }

  method WalkTree(s: Store, oid: Oid, start: nat, stop: nat, length: nat, height: Option<nat>)
    returns (r: Result<seq<byte>>)
    requires start <= stop
    ensures r == Walk(s, oid, start, stop, length, height)
    decreases Bound(height)
  {
    hide NodeOk, Chunk, Joined, WalkEntries;
    var node := ReadNode(s, oid, length, height);
    if node.Err? { return Err; }
    NodeHeight(node.value, length, height);
    var h, entries := node.value.height, node.value.entries;
    var begin: nat := 0;
    var out: seq<byte> := [];
    ghost var goal := WalkEntries(s, h, entries, 0, start, stop);
    assert entries[0..] == entries;
    JoinEnds(s, h, entries, start, stop);
    for i := 0 to |entries|
      invariant goal == Joined(out, WalkEntries(s, h, entries[i..], begin, start, stop))
      invariant EntriesOk(entries[i..], begin, h)
    {
      var e := entries[i];
      assert entries[i..][0] == e && entries[i..][1..] == entries[i + 1..];
      var lo, hi := begin, e.end;
      var size := e.end - begin;
      JoinStep(s, h, entries[i..], begin, start, stop, out);
      begin := e.end;
      if !(hi <= start || lo >= stop) {
        var from, to := Max(start - lo, 0), Min(stop - lo, size);
        if h == 0 {
          var data := Chunk(s, e, size);
          if data.Err? { return Err; }
          assert |data.value| == size by { ChunkSize(s, e, size); }
          out := out + data.value[from..to];
        } else {
          var below := WalkTree(s, e.oid, from, to, size, Some(h - 1));
          if below.Err? { return Err; }
          out := out + below.value;
        }
      }
    }
    JoinDone(s, h, begin, start, stop, out);
    r := Ok(out);
  }

  lemma JoinEnds(s: Store, height: nat, entries: seq<Entry>, start: nat, stop: nat)
    ensures WalkEntries(s, height, entries, 0, start, stop)
        == Joined([], WalkEntries(s, height, entries, 0, start, stop))
  {
    hide WalkEntries;
    var goal := WalkEntries(s, height, entries, 0, start, stop);
    if goal.Ok? { assert [] + goal.value == goal.value; }
  }

  lemma JoinDone(s: Store, height: nat, begin: nat, start: nat, stop: nat, out: seq<byte>)
    ensures Joined(out, WalkEntries(s, height, [], begin, start, stop)) == Ok(out)
  {
    assert out + [] == out;
  }

  lemma JoinStep(s: Store, height: nat, entries: seq<Entry>, begin: nat, start: nat, stop: nat, out: seq<byte>)
    requires |entries| > 0
    ensures Joined(out, WalkEntries(s, height, entries, begin, start, stop))
         == match WalkEntry(s, height, entries[0], begin, start, stop)
            case Err => Err
            case Ok(part) => Joined(out + part, WalkEntries(s, height, entries[1..], entries[0].end, start, stop))
    ensures out + [] == out
  {
    hide WalkEntry;
    var rest := WalkEntries(s, height, entries[1..], entries[0].end, start, stop);
    match WalkEntry(s, height, entries[0], begin, start, stop)
    case Err =>
    case Ok(part) => if rest.Ok? { assert out + (part + rest.value) == out + part + rest.value; }
  }

  lemma ChunkSize(s: Store, e: Entry, size: nat)
    requires Chunk(s, e, size).Ok?
    ensures |Chunk(s, e, size).value| == size
  {
  }

  lemma NodeHeight(n: Index, length: nat, height: Option<nat>)
    requires NodeOk(n, length, height)
    ensures n.height <= MAX_HEIGHT && (height.Some? ==> n.height == height.value) && EntriesOk(n.entries, 0, n.height)
  {
  }

  method ReadBlobRange(s: Store, root: Oid, offset: nat, length: nat) returns (r: Result<seq<byte>>)
    ensures r == ReadRange(s, root, offset, length)
  {
    hide Walk;
    if root !in s.roots { return Err; }
    var d := s.roots[root];
    if offset > d.length || length > MAX_READ { return Err; }
    var stop := Min(d.length, offset + length);
    if stop == offset { return Ok([]); }
    var data := WalkTree(s, d.dataOid, offset, stop, d.length, None);
    if data.Err? || |data.value| != stop - offset { return Err; }
    r := data;
  }
}
