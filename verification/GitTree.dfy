/**
 Git trees admitted in a blob root (`parse_git_tree`, `_git_tree_bytes`): a scan of mode, name and
 object id, accepted only when writing the entries back in canonical order gives the same bytes.
 */
module GitTree {
  import opened Prelude
  import opened Sorting

  datatype Kind = Tree | Blob

  datatype Entry = Entry(name: seq<byte>, kind: Kind, oid: seq<byte>)

  const SPACE: byte := 32
  const NUL: byte := 0
  const SLASH: byte := 47

  function Mode(kind: Kind): seq<byte> {
    if kind == Tree then [52, 48, 48, 48, 48] else [49, 48, 48, 54, 52, 52]
  }

  /** Names are non-empty ASCII without a slash; object ids have the repository's width. */
  predicate Admitted(e: Entry, width: nat) {
    && e.name != [] && |e.oid| == width
    && forall i | 0 <= i < |e.name| :: 0 < e.name[i] < 128 && e.name[i] != SLASH
  }

  predicate AllAdmitted(es: seq<Entry>, width: nat) {
    forall i | 0 <= i < |es| :: Admitted(es[i], width)
  }

  predicate DistinctNames(es: seq<Entry>) {
    forall i, j | 0 <= i < j < |es| :: es[i].name != es[j].name
  }

  predicate HasName(es: seq<Entry>, name: seq<byte>) {
    exists i | 0 <= i < |es| :: es[i].name == name
  }

  function Line(e: Entry): seq<byte> {
    Mode(e.kind) + [SPACE] + e.name + [NUL] + e.oid
  }

  function Lines(es: seq<Entry>): seq<byte> {
    if |es| == 0 then [] else Line(es[0]) + Lines(es[1..])
  }

  /** A directory sorts as if its name ended in a slash. */
  function SortKey(e: Entry): seq<byte> {
    e.name + [if e.kind == Tree then SLASH else NUL]
  }

  predicate Earlier(a: Entry, b: Entry) {
    LexLess(SortKey(a), SortKey(b))
  }

  function TreeBytes(es: seq<Entry>): seq<byte> {
    Lines(SortBy(es, Earlier))
  }

  predicate Ordered(es: seq<Entry>) {
    forall i, j | 0 <= i < j < |es| :: Earlier(es[i], es[j])
  }

  // ----- Scanning -----

  /** The first place of a byte, or the end. */
  function Find(s: seq<byte>, b: byte): (i: nat)
    ensures i <= |s| && (i < |s| ==> s[i] == b) && forall k | 0 <= k < i :: s[k] != b
  {
    if |s| == 0 || s[0] == b then 0 else
    var i := 1 + Find(s[1..], b);
    assert forall k | 0 < k < i :: s[k] == s[1..][k - 1];
    i
  }

  /** What a mode says the entry is, unless mode or name is not admitted. */
  function KindOf(mode: seq<byte>, name: seq<byte>): Option<Kind> {
    if exists i | 0 <= i < |name| :: name[i] >= 128 then None
    else if name == [] || SLASH in name then None
    else if mode == Mode(Tree) then Some(Tree)
    else if mode == Mode(Blob) then Some(Blob)
    else None
  }

  /** One entry at the front, and what follows it. */
  function ReadLine(s: seq<byte>, width: nat): (r: Result<(Entry, seq<byte>)>)
    ensures r.Ok? ==> |r.value.1| < |s|
  {
    var sep := Find(s, SPACE);
    if sep == |s| then Err else
    var rest := s[sep + 1..];
    var end := Find(rest, NUL);
    if end == |rest| then Err else
    var name, tail := rest[..end], rest[end + 1..];
    var kind := KindOf(s[..sep], name);
    if kind.None? || |tail| < width then Err
    else Ok((Entry(name, kind.value, tail[..width]), tail[width..]))
  }

  function Scan(s: seq<byte>, width: nat, found: seq<Entry>): Result<seq<Entry>>
    decreases |s|
  {
    if |s| == 0 then Ok(found) else
    match ReadLine(s, width)
    case Err => Err
    case Ok(p) => if HasName(found, p.0.name) then Err else Scan(p.1, width, found + [p.0])
  }

  function ParseTree(data: seq<byte>, width: nat): Result<seq<Entry>> {
    match Scan(data, width, [])
    case Err => Err
    case Ok(es) => if TreeBytes(es) != data then Err else Ok(es)
  }

  // ----- Reading back what was written -----

  lemma {:induction false} FindStops(s: seq<byte>, b: byte, rest: seq<byte>)
    requires b !in s
    ensures Find(s + [b] + rest, b) == |s|
  {
    var t := s + [b] + rest;
    if |s| > 0 {
      FindStops(s[1..], b, rest);
      assert t[1..] == s[1..] + [b] + rest;
    }
  }

  lemma ReadWritten(e: Entry, width: nat, rest: seq<byte>)
    requires Admitted(e, width)
    ensures ReadLine(Line(e) + rest, width) == Ok((e, rest))
  {
    hide Find, KindOf, Mode, Admitted, ReadLine, Line;
    KindRead(e, width);
    var mode, tail := Mode(e.kind), e.oid + rest;
    var after := e.name + [NUL] + tail;
    var s := mode + [SPACE] + after;
    LineSplits(e, rest);
    FindStops(mode, SPACE, after);
    AfterMark(mode, SPACE, after);
    FindStops(e.name, NUL, tail);
    AfterMark(e.name, NUL, tail);
    assert tail[..width] == e.oid && tail[width..] == rest;
    ReadParts(s, width, mode, e.kind, e.name, tail);
  }

  lemma LineSplits(e: Entry, rest: seq<byte>)
    ensures Line(e) + rest == Mode(e.kind) + [SPACE] + (e.name + [NUL] + (e.oid + rest))
  {
    hide Mode;
  }

  lemma AfterMark(a: seq<byte>, b: byte, rest: seq<byte>)
    ensures (a + [b] + rest)[..|a|] == a && (a + [b] + rest)[|a| + 1..] == rest
  {
  }

  lemma ReadParts(s: seq<byte>, width: nat, mode: seq<byte>, kind: Kind, name: seq<byte>, tail: seq<byte>)
    requires Find(s, SPACE) == |mode| < |s| && s[..|mode|] == mode && width <= |tail|
    requires var after := s[|mode| + 1..];
      Find(after, NUL) == |name| < |after| && after[..|name|] == name && after[|name| + 1..] == tail
    requires KindOf(mode, name) == Some(kind)
    ensures ReadLine(s, width) == Ok((Entry(name, kind, tail[..width]), tail[width..]))
  {
    hide Find, KindOf;
  }

  lemma KindRead(e: Entry, width: nat)
    requires Admitted(e, width)
    ensures KindOf(Mode(e.kind), e.name) == Some(e.kind)
    ensures SPACE !in Mode(e.kind) && NUL !in e.name && |e.oid| == width
  {
    NoSpace(e.kind);
    assert |Mode(Tree)| != |Mode(Blob)|;
    hide Mode;
  }

  lemma NoSpace(kind: Kind)
    ensures SPACE !in Mode(kind)
  {
    if kind == Tree { assert SPACE !in [52, 48, 48, 48, 48]; } else { assert SPACE !in [49, 48, 48, 54, 52, 52]; }
  }

  lemma LineRead(s: seq<byte>, width: nat)
    requires ReadLine(s, width).Ok?
    ensures Admitted(ReadLine(s, width).value.0, width)
    ensures s == Line(ReadLine(s, width).value.0) + ReadLine(s, width).value.1
  {
    hide Find, KindOf, Mode, Line;
    var sep := Find(s, SPACE);
    var rest := s[sep + 1..];
    var end := Find(rest, NUL);
    var name, tail := rest[..end], rest[end + 1..];
    var (e, left) := ReadLine(s, width).value;
    KindChecked(s[..sep], name);
    NameAdmitted(rest, end, name);
    SplitAt(s, sep);
    SplitAt(rest, end);
    assert tail == e.oid + left;
    LineJoins(s, e, rest, tail, left);
  }

  lemma KindChecked(mode: seq<byte>, name: seq<byte>)
    requires KindOf(mode, name).Some?
    ensures mode == Mode(KindOf(mode, name).value) && name != [] && SLASH !in name
    ensures forall i | 0 <= i < |name| :: name[i] < 128
  {
    hide Mode;
  }

  lemma NameAdmitted(rest: seq<byte>, end: nat, name: seq<byte>)
    requires end < |rest| && name == rest[..end] && (forall k | 0 <= k < end :: rest[k] != NUL)
    requires SLASH !in name && forall i | 0 <= i < |name| :: name[i] < 128
    ensures forall i | 0 <= i < |name| :: 0 < name[i] < 128 && name[i] != SLASH
  {
    assert forall i | 0 <= i < |name| :: name[i] == rest[i] && name[i] in name;
  }

  lemma SplitAt(s: seq<byte>, i: nat)
    requires i < |s|
    ensures s == s[..i] + [s[i]] + s[i + 1..]
  {
  }

  lemma LineJoins(s: seq<byte>, e: Entry, rest: seq<byte>, tail: seq<byte>, left: seq<byte>)
    requires s == Mode(e.kind) + [SPACE] + rest && rest == e.name + [NUL] + tail && tail == e.oid + left
    ensures s == Line(e) + left
  {
    hide Mode;
  }

  lemma {:induction false} ScanWritten(es: seq<Entry>, width: nat, found: seq<Entry>)
    requires AllAdmitted(es, width) && DistinctNames(found + es)
    ensures Scan(Lines(es), width, found) == Ok(found + es)
    decreases |es|
  {
    hide ReadLine, Line, Admitted;
    if |es| == 0 {
      assert found + es == found;
    } else {
      ReadWritten(es[0], width, Lines(es[1..]));
      LineNotEmpty(es[0]);
      forall i | 0 <= i < |found| ensures found[i].name != es[0].name {
        assert (found + es)[i].name != (found + es)[|found|].name;
      }
      assert found + [es[0]] + es[1..] == found + es;
      ScanWritten(es[1..], width, found + [es[0]]);
    }
  }

  lemma LineNotEmpty(e: Entry)
    ensures |Line(e)| > 0
  {
  }

  lemma {:induction false} ScanRead(s: seq<byte>, width: nat, found: seq<Entry>)
    requires Scan(s, width, found).Ok? && AllAdmitted(found, width) && DistinctNames(found)
    ensures var es := Scan(s, width, found).value;
      found <= es && s == Lines(es[|found|..]) && AllAdmitted(es, width) && DistinctNames(es)
    decreases |s|
  {
    hide ReadLine, Line, Admitted;
    var es := Scan(s, width, found).value;
    if |s| > 0 {
      var (e, rest) := ReadLine(s, width).value;
      LineRead(s, width);
      ScanRead(rest, width, found + [e]);
      assert es[|found|] == (found + [e])[|found|] == e;
      assert es[|found|..][1..] == es[|found| + 1..];
    }
  }

  // ----- Canonical order -----

  lemma NamesDecide(a: Entry, b: Entry, width: nat)
    requires Admitted(a, width) && Admitted(b, width) && SortKey(a) == SortKey(b)
    ensures a.name == b.name
  {
    assert SortKey(a)[..|SortKey(a)| - 1] == a.name && SortKey(b)[..|SortKey(b)| - 1] == b.name;
  }

  /** What an entry is ordered by after the first `k` bytes of its name: a directory's name goes on with a slash. */
  function NextByte(e: Entry, k: nat): byte
    requires k <= |e.name|
  {
    if k < |e.name| then e.name[k] else if e.kind == Tree then 47 else 0
  }

  /** The names agree up to a place where the first entry goes on with the smaller byte. */
  ghost predicate Diverges(a: Entry, b: Entry, k: nat) {
    k <= |a.name| && k <= |b.name| && a.name[..k] == b.name[..k] && NextByte(a, k) < NextByte(b, k)
  }

  /** Entries of different names are ordered by the first place where their names go on differently. */
  lemma OrderExact(a: Entry, b: Entry, width: nat)
    requires Admitted(a, width) && Admitted(b, width) && a.name != b.name
    ensures Earlier(a, b) <==> exists k: nat :: Diverges(a, b, k)
  {
    var s, t := SortKey(a), SortKey(b);
    LexExact(s, t);
    assert forall k | 0 <= k <= |a.name| :: s[..k] == a.name[..k] && s[k] == NextByte(a, k);
    assert forall k | 0 <= k <= |b.name| :: t[..k] == b.name[..k] && t[k] == NextByte(b, k);
    if k: nat :| Diverges(a, b, k) { assert s[..k] == t[..k] && s[k] < t[k]; }
    if |s| < |t| { NoPrefix(a, b, width); }
    if LexBefore(s, t) {
      var k: nat :| k < |s| && k < |t| && s[..k] == t[..k] && s[k] < t[k];
      assert Diverges(a, b, k);
    }
  }

  lemma NoPrefix(a: Entry, b: Entry, width: nat)
    requires Admitted(a, width) && Admitted(b, width) && |SortKey(a)| < |SortKey(b)|
    ensures SortKey(a) != SortKey(b)[..|SortKey(a)|]
  {
    var k := |a.name|;
    assert SortKey(b)[..|SortKey(a)|][k] == b.name[k] && SortKey(a)[k] == NextByte(a, k);
  }

  lemma OrderedStrictly(es: seq<Entry>)
    requires Ordered(es)
    ensures StrictlySortedBy(es, Earlier)
  {
    hide LexLess, SortKey;
    forall i, j | 0 <= i < j < |es| ensures !Earlier(es[j], es[i]) {
      LexAsymmetric(SortKey(es[i]), SortKey(es[j]));
    }
  }

  lemma {:induction false} NeighboursOrdered(es: seq<Entry>, width: nat, i: nat, j: nat)
    requires SortedBy(es, Earlier) && AllAdmitted(es, width) && DistinctNames(es) && i < j < |es|
    ensures Earlier(es[i], es[j])
    decreases j - i
  {
    hide LexLess, SortKey, Admitted;
    var k := j - 1;
    assert !Earlier(es[k + 1], es[k]);
    LexTotal(SortKey(es[k]), SortKey(es[k + 1]));
    if SortKey(es[k]) == SortKey(es[k + 1]) { NamesDecide(es[k], es[k + 1], width); }
    if i < k {
      NeighboursOrdered(es, width, i, k);
      LexTransitive(SortKey(es[i]), SortKey(es[k]), SortKey(es[j]));
    }
  }

  lemma DistinctSorted(es: seq<Entry>, sorted: seq<Entry>)
    requires DistinctNames(es) && multiset(es) == multiset(sorted)
    ensures DistinctNames(sorted)
  {
    forall i, j | 0 <= i < j < |sorted| ensures sorted[i].name != sorted[j].name {
      MemberByMultiset(sorted, es, sorted[i]);
      MemberByMultiset(sorted, es, sorted[j]);
      if sorted[i].name == sorted[j].name {
        var a :| 0 <= a < |es| && es[a] == sorted[i];
        var b :| 0 <= b < |es| && es[b] == sorted[j];
        assert a == b;
        OnceInSequence(es, a);
        TwiceInSequence(sorted, i, j);
      }
    }
  }

  /** Sorting keeps the entries and puts them in canonical order. */
  lemma SortCanonical(es: seq<Entry>, width: nat)
    requires AllAdmitted(es, width) && DistinctNames(es)
    ensures var sorted := SortBy(es, Earlier);
      AllAdmitted(sorted, width) && DistinctNames(sorted) && Ordered(sorted) && multiset(sorted) == multiset(es)
  {
    hide LexLess, SortKey, Admitted, SortBy, DistinctNames;
    var sorted := SortBy(es, Earlier);
    SortByPermutes(es, Earlier);
    forall a, b | a in es && b in es && Earlier(a, b) ensures !Earlier(b, a) { LexAsymmetric(SortKey(a), SortKey(b)); }
    SortBySorts(es, Earlier);
    DistinctSorted(es, sorted);
    forall i | 0 <= i < |sorted| ensures Admitted(sorted[i], width) { MemberByMultiset(sorted, es, sorted[i]); }
    forall i, j | 0 <= i < j < |sorted| ensures Earlier(sorted[i], sorted[j]) {
      NeighboursOrdered(sorted, width, i, j);
    }
  }

  /**
   * A tree is accepted exactly when it is the canonical writing of admitted entries with distinct
   * names, and what is returned is those entries.
   */
  lemma ParseExact(data: seq<byte>, width: nat, es: seq<Entry>)
    ensures ParseTree(data, width) == Ok(es) <==>
      AllAdmitted(es, width) && DistinctNames(es) && Ordered(es) && data == Lines(es)
  {
    hide Lines, Ordered, DistinctNames, AllAdmitted, SortBy, Scan;
    if ParseTree(data, width) == Ok(es) {
      assert AllAdmitted([], width) && DistinctNames([]) by { NoEntries(width); }
      ScanRead(data, width, []);
      assert es[0..] == es;
      SortCanonical(es, width);
      var sorted := SortBy(es, Earlier);
      assert [] + sorted == sorted;
      ScanWritten(sorted, width, []);
    }
    if AllAdmitted(es, width) && DistinctNames(es) && Ordered(es) && data == Lines(es) {
      assert [] + es == es;
      ScanWritten(es, width, []);
      OrderedStrictly(es);
      SortFixed(es, Earlier);
    }
  }

  lemma NoEntries(width: nat)
    ensures AllAdmitted([], width) && DistinctNames([])
  {
  }

  /** Any admitted entries, in whatever order they were gathered, survive writing and reading. */
  lemma RoundTrip(es: seq<Entry>, width: nat)
    requires AllAdmitted(es, width) && DistinctNames(es)
    ensures ParseTree(TreeBytes(es), width).Ok?
    ensures multiset(ParseTree(TreeBytes(es), width).value) == multiset(es)
  {
    hide Lines, Ordered, DistinctNames, AllAdmitted, SortBy, ParseTree;
    SortCanonical(es, width);
    ParseExact(TreeBytes(es), width, SortBy(es, Earlier));
  }

  // ----- The cursor -----

  method FindFrom(data: seq<byte>, b: byte, start: nat) returns (i: nat)
    requires start <= |data|
    ensures start <= i <= |data| && i == start + Find(data[start..], b)
  {
    i := start;
    while i < |data| && data[i] != b
      invariant start <= i <= |data|
      invariant i + Find(data[i..], b) == start + Find(data[start..], b)
    {
      assert data[i..][1..] == data[i + 1..];
      i := i + 1;
    }
  }

  method ParseGitTree(data: seq<byte>, width: nat) returns (r: Result<seq<Entry>>)
    ensures r == ParseTree(data, width)
  {
    hide Find, TreeBytes, HasName, Mode;
    var entries: seq<Entry> := [];
    var pos := 0;
    assert data[0..] == data;
    while pos < |data|
      invariant pos <= |data|
      invariant Scan(data, width, []) == Scan(data[pos..], width, entries)
      decreases |data| - pos
    {
      var line := LineAt(data, pos, width);
      if line.Err? { return Err; }
      var (e, next) := line.value;
      if HasName(entries, e.name) { return Err; }
      entries, pos := entries + [e], next;
    }
    if TreeBytes(entries) != data { return Err; }
    r := Ok(entries);
  }

  method LineAt(data: seq<byte>, pos: nat, width: nat) returns (r: Result<(Entry, nat)>)
    requires pos <= |data|
    ensures r.Err? <==> ReadLine(data[pos..], width).Err?
    ensures r.Ok? ==> pos < r.value.1 <= |data| && ReadLine(data[pos..], width) == Ok((r.value.0, data[r.value.1..]))
  {
    hide Find, KindOf, Mode;
    var s := data[pos..];
    var sep := FindFrom(data, SPACE, pos);
    if sep == |data| { return Err; }
    assert s[sep - pos + 1..] == data[sep + 1..] && s[..sep - pos] == data[pos..sep];
    var end := FindFrom(data, NUL, sep + 1);
    if end == |data| { return Err; }
    assert data[sep + 1..][..end - sep - 1] == data[sep + 1..end] && data[sep + 1..][end - sep..] == data[end + 1..];
    var name := data[sep + 1..end];
    var kind := KindOf(data[pos..sep], name);
    if kind.None? { return Err; }
    if end + 1 + width > |data| { return Err; }
    assert data[end + 1..][..width] == data[end + 1..end + 1 + width]
      && data[end + 1..][width..] == data[end + 1 + width..];
    r := Ok((Entry(name, kind.value, data[end + 1..end + 1 + width]), end + 1 + width));
  }
}
