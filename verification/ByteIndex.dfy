/**
 OGB-2 byte indexes (`Graph.byte_index`): a tree of spans over content-defined chunks. The walk
 checks every span, the chunker's boundaries and the canonical grouping of every level; the bytes it
 streams determine the whole tree.
 */
module ByteIndex {
  import opened Prelude
  import opened Cbor
  import P = Partition
  import G = Gear
  import M = MapStructure

  type Oid = P.Oid
  type Length = P.Length

  /** One entry: a chunk with its SHA-256 at height 0, a smaller index without one above it. */
  datatype Span = Span(span: Length, target: Oid, digest: Option<seq<byte>>)

  datatype Index = Index(height: nat, total: Length, spans: seq<Span>)

  datatype Store = Store(nodes: map<Oid, Index>, chunks: map<Oid, seq<byte>>)

  /** Object identity and digests: functions of content. */
  datatype Context = Context(
    nodeId: Index -> Oid,
    chunkId: seq<byte> -> Oid,
    sha256: seq<byte> -> seq<byte>,
    anchor: (nat, seq<byte>) -> bool,
    gear: G.Table)

  function Total(spans: seq<Span>): nat {
    if |spans| == 0 then 0 else spans[0].span + Total(spans[1..])
  }

  /** The shape `node_tuple` checks of a kind-4 node. */
  predicate Shaped(n: Index) {
    && 1 <= |n.spans| <= P.MAX_PAGE_ENTRIES
    && Total(n.spans) == n.total
    && forall i | 0 <= i < |n.spans| :: n.spans[i].span > 0 && (n.height > 0 ==> n.spans[i].digest.None?)
  }

  /** Every object is named by the hash of its content, and every index node is well shaped. */
  ghost predicate Loaded(x: Context, store: Store) {
    && (forall oid | oid in store.nodes :: x.nodeId(store.nodes[oid]) == oid && Shaped(store.nodes[oid]))
    && (forall oid | oid in store.chunks :: x.chunkId(store.chunks[oid]) == oid)
  }

  // ----- The checks of the walk -----

  predicate ChunkOk(x: Context, store: Store, s: Span) {
    && s.span <= G.GEAR_MAXIMUM && s.target in store.chunks
    && |store.chunks[s.target]| == s.span && s.digest == Some(x.sha256(store.chunks[s.target]))
  }

  predicate ChildOk(store: Store, height: nat, s: Span) {
    s.target in store.nodes && store.nodes[s.target].height + 1 == height && store.nodes[s.target].total == s.span
  }

  /** Every entry of every node below checks out. */
  predicate Sound(x: Context, store: Store, n: Index)
    decreases n.height, |n.spans| + 1
  {
    SpansSound(x, store, n.height, n.spans)
  }

  predicate SpansSound(x: Context, store: Store, height: nat, spans: seq<Span>)
    decreases height, |spans|
  {
    |spans| == 0
    || ((if height == 0 then ChunkOk(x, store, spans[0])
         else ChildOk(store, height, spans[0]) && Sound(x, store, store.nodes[spans[0].target]))
        && SpansSound(x, store, height, spans[1..]))
  }

  /** The chunk an entry names; a missing one reads as empty. */
  function Chunk(store: Store, s: Span): seq<byte> {
    if s.target in store.chunks then store.chunks[s.target] else []
  }

  function Chunks(store: Store, spans: seq<Span>): seq<seq<byte>> {
    seq(|spans|, i requires 0 <= i < |spans| => Chunk(store, spans[i]))
  }

  /** The nodes at one height below a node, from left to right. */
  function At(store: Store, n: Index, k: nat): seq<Index>
    decreases n.height, |n.spans| + 1
  {
    if n.height <= k then (if n.height == k then [n] else []) else AtAll(store, n.height, n.spans, k)
  }

  function AtAll(store: Store, height: nat, spans: seq<Span>, k: nat): seq<Index>
    decreases height, |spans|
  {
    if |spans| == 0 then [] else
    var first := if ChildOk(store, height, spans[0]) then At(store, store.nodes[spans[0].target], k) else [];
    first + AtAll(store, height, spans[1..], k)
  }

  function Spans(level: seq<Index>): seq<Span> {
    if |level| == 0 then [] else level[0].spans + Spans(level[1..])
  }

  function Sizes(level: seq<Index>): seq<nat> {
    seq(|level|, i requires 0 <= i < |level| => |level[i].spans|)
  }

  function DigestValue(d: Option<seq<byte>>): Value {
    if d.Some? then Bytes(d.value) else Null
  }

  function SpanValue(s: Span): Value {
    Array([Int(s.span), Bytes(s.target), DigestValue(s.digest)])
  }

  /** A chunk is anchored by its length and digest, a smaller index by its identity. */
  function Token(height: nat, s: Span): seq<byte> {
    if height == 0 then Encode(Array([Int(s.span), DigestValue(s.digest)])) else s.target
  }

  function EntryOf(height: nat, s: Span): P.Entry {
    P.Entry(1 + |Encode(Int(s.span))| + |Encode(Bytes(s.target))| + |Encode(DigestValue(s.digest))|,
            {s.target}, Token(height, s), s.span)
  }

  function EntriesOf(height: nat, spans: seq<Span>): (es: seq<P.Entry>)
    ensures |es| == |spans|
  {
    seq(|spans|, i requires 0 <= i < |spans| => EntryOf(height, spans[i]))
  }

  function LevelRule(x: Context, height: nat): P.Rule {
    P.Rule(3 + |Encode(Int(height))|, true, token => x.anchor(height, token))
  }

  predicate GroupingOk(x: Context, level: seq<Index>, height: nat) {
    P.Greedy(LevelRule(x, height), EntriesOf(height, Spans(level))) == Ok(Sizes(level))
  }

  /** The chunks under a root, in order. */
  function ChunksOf(store: Store, n: Index): seq<seq<byte>> {
    Chunks(store, Spans(At(store, n, 0)))
  }

  /** What `byte_index` accepts. */
  ghost predicate Accepts(x: Context, store: Store, root: Oid, length: nat) {
    && root in store.nodes
    && store.nodes[root].total == length
    && (store.nodes[root].height > 0 ==> |store.nodes[root].spans| >= 2)
    && Sound(x, store, store.nodes[root])
    && G.Admits(x.gear, false, ChunksOf(store, store.nodes[root]))
    && forall k | 0 <= k <= store.nodes[root].height :: GroupingOk(x, At(store, store.nodes[root], k), k)
  }

  /** The bytes an accepted index streams. */
  function Stream(store: Store, root: Oid): seq<byte>
    requires root in store.nodes
  {
    G.Concat(ChunksOf(store, store.nodes[root]))
  }

  // ----- Each level describes the one below -----

  function SpanFor(x: Context, n: Index): Span { Span(n.total, x.nodeId(n), None) }

  function SpansFor(x: Context, level: seq<Index>): seq<Span> {
    seq(|level|, i requires 0 <= i < |level| => SpanFor(x, level[i]))
  }

  lemma {:induction false} SpansJoin(a: seq<Index>, b: seq<Index>)
    ensures Spans(a + b) == Spans(a) + Spans(b)
  {
    if |a| == 0 {
      assert a + b == b;
    } else {
      SpansJoin(a[1..], b);
      var c := a + b;
      assert c[1..] == a[1..] + b && c[0] == a[0];
      assert Spans(c) == a[0].spans + Spans(c[1..]);
    }
  }

  ghost predicate Uniform(level: seq<Index>, k: nat) {
    forall i | 0 <= i < |level| :: level[i].height == k && Shaped(level[i])
  }

  lemma {:induction false} LevelStep(x: Context, store: Store, n: Index, k: nat)
    requires Loaded(x, store) && Shaped(n) && Sound(x, store, n)
    ensures k < n.height ==> Spans(At(store, n, k + 1)) == SpansFor(x, At(store, n, k))
    ensures Uniform(At(store, n, k), k)
    decreases n.height, |n.spans| + 1
  {
    assert n.height > 0 ==> forall i | 0 <= i < |n.spans| :: n.spans[i].digest.None?;
    hide Shaped;
    if k < n.height {
      LevelSteps(x, store, n.height, n.spans, k);
      if n.height == k + 1 {
        assert [n][1..] == [] && Spans([n]) == n.spans + Spans([]) == n.spans;
      }
    }
  }

  lemma {:induction false} LevelSteps(x: Context, store: Store, height: nat, spans: seq<Span>, k: nat)
    requires Loaded(x, store) && SpansSound(x, store, height, spans) && k < height
    requires forall i | 0 <= i < |spans| :: spans[i].digest.None?
    ensures Uniform(AtAll(store, height, spans, k), k)
    ensures height == k + 1 ==> spans == SpansFor(x, AtAll(store, height, spans, k))
    ensures height > k + 1 ==> Spans(AtAll(store, height, spans, k + 1)) == SpansFor(x, AtAll(store, height, spans, k))
    decreases height, |spans|
  {
    hide Shaped;
    if |spans| > 0 {
      var child := store.nodes[spans[0].target];
      LevelStep(x, store, child, k);
      LevelSteps(x, store, height, spans[1..], k);
      var here, rest := At(store, child, k), AtAll(store, height, spans[1..], k);
      assert SpansFor(x, here + rest) == SpansFor(x, here) + SpansFor(x, rest);
      if height > k + 1 {
        SpansJoin(At(store, child, k + 1), AtAll(store, height, spans[1..], k + 1));
      } else {
        assert here == [child];
        assert SpansFor(x, here) == [spans[0]];
        assert spans == [spans[0]] + spans[1..];
      }
    }
  }

  // ----- The lowest level is fixed by the chunks -----

  function SpanOf(x: Context, chunk: seq<byte>): Span
    requires |chunk| <= G.GEAR_MAXIMUM
  {
    Span(|chunk|, x.chunkId(chunk), Some(x.sha256(chunk)))
  }

  ghost predicate ChunksOk(x: Context, store: Store, spans: seq<Span>) {
    forall i | 0 <= i < |spans| :: ChunkOk(x, store, spans[i])
  }

  lemma {:induction false} SoundBottom(x: Context, store: Store, n: Index)
    requires Loaded(x, store) && Sound(x, store, n)
    ensures ChunksOk(x, store, Spans(At(store, n, 0)))
    decreases n.height, |n.spans| + 1
  {
    hide ChunkOk, Shaped;
    if n.height == 0 {
      SpansBottom(x, store, n.spans);
      assert [n][1..] == [] && Spans([n]) == n.spans + Spans([]) == n.spans;
    } else {
      SoundBottoms(x, store, n.height, n.spans);
    }
  }

  lemma {:induction false} SpansBottom(x: Context, store: Store, spans: seq<Span>)
    requires SpansSound(x, store, 0, spans)
    ensures ChunksOk(x, store, spans)
  {
    hide ChunkOk;
    if |spans| > 0 {
      SpansBottom(x, store, spans[1..]);
      assert spans == [spans[0]] + spans[1..];
    }
  }

  lemma {:induction false} SoundBottoms(x: Context, store: Store, height: nat, spans: seq<Span>)
    requires Loaded(x, store) && SpansSound(x, store, height, spans) && height > 0
    ensures ChunksOk(x, store, Spans(AtAll(store, height, spans, 0)))
    decreases height, |spans|
  {
    hide ChunkOk, Shaped;
    if |spans| > 0 {
      var child := store.nodes[spans[0].target];
      SoundBottom(x, store, child);
      SoundBottoms(x, store, height, spans[1..]);
      SpansJoin(At(store, child, 0), AtAll(store, height, spans[1..], 0));
    }
  }

  /** The same chunks give the same lowest entries, in any two stores. */
  lemma SameBottom(x: Context, storeA: Store, storeB: Store, a: seq<Span>, b: seq<Span>)
    requires Loaded(x, storeA) && Loaded(x, storeB) && ChunksOk(x, storeA, a) && ChunksOk(x, storeB, b)
    requires Chunks(storeA, a) == Chunks(storeB, b)
    ensures a == b
  {
    hide Shaped;
    assert |a| == |Chunks(storeA, a)| == |Chunks(storeB, b)| == |b|;
    forall i | 0 <= i < |a| ensures a[i] == b[i] {
      assert Chunks(storeA, a)[i] == Chunks(storeB, b)[i];
      assert ChunkOk(x, storeA, a[i]) && ChunkOk(x, storeB, b[i]);
      assert a[i] == SpanOf(x, Chunk(storeA, a[i])) && b[i] == SpanOf(x, Chunk(storeB, b[i]));
    }
  }

  // ----- Canonical form -----

  lemma {:induction false} SameNodes(a: seq<Index>, b: seq<Index>, k: nat)
    requires Uniform(a, k) && Uniform(b, k) && Sizes(a) == Sizes(b) && Spans(a) == Spans(b)
    ensures a == b
    decreases |a|
  {
    assert |a| == |Sizes(a)| == |Sizes(b)| == |b|;
    if |a| > 0 {
      var n := |a[0].spans|;
      assert Sizes(a)[0] == n && Sizes(b)[0] == |b[0].spans|;
      assert a[0].spans == Spans(a)[..n] && b[0].spans == Spans(b)[..n];
      assert Spans(a[1..]) == Spans(a)[n..] && Spans(b[1..]) == Spans(b)[n..];
      assert Sizes(a[1..]) == Sizes(a)[1..] && Sizes(b[1..]) == Sizes(b)[1..];
      SameNodes(a[1..], b[1..], k);
      assert a[0] == b[0] by { assert Shaped(a[0]) && Shaped(b[0]); }
      assert a == [a[0]] + a[1..] && b == [b[0]] + b[1..];
    }
  }

  lemma {:induction false} ManySpans(level: seq<Index>, k: nat)
    requires Uniform(level, k)
    ensures |Spans(level)| >= |level|
    decreases |level|
  {
    if |level| > 0 {
      assert Shaped(level[0]);
      ManySpans(level[1..], k);
    }
  }

  /** Only the root stands alone at its height. */
  lemma {:induction false} ManyBelow(x: Context, store: Store, n: Index, k: nat)
    requires Loaded(x, store) && Shaped(n) && Sound(x, store, n) && k < n.height && |n.spans| >= 2
    ensures |At(store, n, k)| >= 2
    decreases n.height - k
  {
    hide Shaped, Spans, Loaded;
    LevelStep(x, store, n, k);
    assert |Spans(At(store, n, k + 1))| == |At(store, n, k)|;
    if k + 1 < n.height {
      ManyBelow(x, store, n, k + 1);
      LevelStep(x, store, n, k + 1);
      ManySpans(At(store, n, k + 1), k + 1);
    } else {
      OneNode(n);
    }
  }

  lemma OneNode(n: Index)
    ensures Spans([n]) == n.spans
  {
    assert [n][1..] == [] && Spans([n]) == n.spans + Spans([]);
  }

  lemma {:induction false} LevelsAgree(x: Context, storeA: Store, a: Index, storeB: Store, b: Index, k: nat)
    requires Loaded(x, storeA) && Shaped(a) && Sound(x, storeA, a)
    requires Loaded(x, storeB) && Shaped(b) && Sound(x, storeB, b)
    requires k <= a.height && k <= b.height && ChunksOf(storeA, a) == ChunksOf(storeB, b)
    requires forall i | 0 <= i <= k :: GroupingOk(x, At(storeA, a, i), i) && GroupingOk(x, At(storeB, b, i), i)
    ensures At(storeA, a, k) == At(storeB, b, k)
    decreases k
  {
    hide Shaped, Spans, Loaded, Uniform, Sound, At, Sizes, ChunksOk, GroupingOk;
    LevelStep(x, storeA, a, k);
    LevelStep(x, storeB, b, k);
    if k == 0 {
      SoundBottom(x, storeA, a);
      SoundBottom(x, storeB, b);
      SameBottom(x, storeA, storeB, Spans(At(storeA, a, 0)), Spans(At(storeB, b, 0)));
    } else {
      LevelStep(x, storeA, a, k - 1);
      LevelStep(x, storeB, b, k - 1);
      LevelsAgree(x, storeA, a, storeB, b, k - 1);
    }
    SameLevel(x, At(storeA, a, k), At(storeB, b, k), k);
  }

  /** Two canonical levels with the same entries have the same nodes. */
  lemma SameLevel(x: Context, a: seq<Index>, b: seq<Index>, k: nat)
    requires Uniform(a, k) && Uniform(b, k) && Spans(a) == Spans(b) && GroupingOk(x, a, k) && GroupingOk(x, b, k)
    ensures a == b
  {
    hide Uniform, Spans, Sizes, EntriesOf;
    SameNodes(a, b, k);
  }

  lemma HeightsAgree(x: Context, storeA: Store, a: Index, storeB: Store, b: Index)
    requires Loaded(x, storeA) && Shaped(a) && Sound(x, storeA, a)
    requires Loaded(x, storeB) && Shaped(b) && Sound(x, storeB, b)
    requires ChunksOf(storeA, a) == ChunksOf(storeB, b)
    requires forall i | 0 <= i <= a.height :: GroupingOk(x, At(storeA, a, i), i)
    requires forall i | 0 <= i <= b.height :: GroupingOk(x, At(storeB, b, i), i)
    requires b.height > 0 ==> |b.spans| >= 2
    ensures a.height >= b.height
  {
    hide Shaped, Loaded, Sound, GroupingOk, ChunksOf;
    if a.height < b.height {
      LevelsAgree(x, storeA, a, storeB, b, a.height);
      ManyBelow(x, storeB, b, a.height);
    }
  }

  lemma ChunksPositive(x: Context, store: Store, n: Index)
    requires Loaded(x, store) && Shaped(n) && Sound(x, store, n)
    ensures forall i | 0 <= i < |ChunksOf(store, n)| :: |ChunksOf(store, n)[i]| > 0
  {
    var bottom := Spans(At(store, n, 0));
    SoundBottom(x, store, n);
    LevelStep(x, store, n, 0);
    SpansPositive(At(store, n, 0), 0);
    hide Sound, At, Shaped, Loaded;
    forall i | 0 <= i < |ChunksOf(store, n)| ensures |ChunksOf(store, n)[i]| > 0 {
      assert ChunkOk(x, store, bottom[i]);
    }
  }

  /** The chunks of an accepted index are the chunker's own chunks of the bytes it streams. */
  lemma AcceptedChunks(x: Context, store: Store, root: Oid, length: nat)
    requires Loaded(x, store) && Accepts(x, store, root, length)
    ensures ChunksOf(store, store.nodes[root]) == G.Chunks(x.gear, Stream(store, root))
  {
    hide Sound, GroupingOk, G.Admits, G.Chunks, At, ChunksOf;
    ChunksPositive(x, store, store.nodes[root]);
    G.AdmitsCanonical(x.gear, ChunksOf(store, store.nodes[root]));
  }

  lemma {:induction false} SpansPositive(level: seq<Index>, k: nat)
    requires Uniform(level, k)
    ensures forall i | 0 <= i < |Spans(level)| :: Spans(level)[i].span > 0
    decreases |level|
  {
    if |level| > 0 {
      assert Shaped(level[0]);
      SpansPositive(level[1..], k);
    }
  }

  /**
   * History independence of byte indexes: two accepted indexes that stream the same bytes, in any
   * two stores, are one and the same tree.
   */
  lemma CanonicalIndex(x: Context, storeA: Store, rootA: Oid, lengthA: nat, storeB: Store, rootB: Oid, lengthB: nat)
    requires Loaded(x, storeA) && Accepts(x, storeA, rootA, lengthA)
    requires Loaded(x, storeB) && Accepts(x, storeB, rootB, lengthB)
    requires Stream(storeA, rootA) == Stream(storeB, rootB)
    ensures rootA == rootB && storeA.nodes[rootA] == storeB.nodes[rootB]
    ensures forall k | 0 <= k <= storeA.nodes[rootA].height ::
              At(storeA, storeA.nodes[rootA], k) == At(storeB, storeB.nodes[rootB], k)
  {
    AcceptedChunks(x, storeA, rootA, lengthA);
    AcceptedChunks(x, storeB, rootB, lengthB);
    hide Shaped, Sound, GroupingOk, ChunksOf, AtAll;
    var a, b := storeA.nodes[rootA], storeB.nodes[rootB];
    HeightsAgree(x, storeA, a, storeB, b);
    HeightsAgree(x, storeB, b, storeA, a);
    forall k | 0 <= k <= a.height ensures At(storeA, a, k) == At(storeB, b, k) {
      LevelsAgree(x, storeA, a, storeB, b, k);
    }
    assert [a] == At(storeA, a, a.height) == At(storeB, b, a.height) == [b];
    assert [a][0] == [b][0];
  }

  // ----- The recorded length -----

  lemma {:induction false} TotalJoin(a: seq<Span>, b: seq<Span>)
    ensures Total(a + b) == Total(a) + Total(b)
  {
    if |a| == 0 {
      assert a + b == b;
    } else {
      TotalJoin(a[1..], b);
      assert (a + b)[1..] == a[1..] + b;
    }
  }

  lemma {:induction false} TotalBelow(x: Context, store: Store, n: Index, k: nat)
    requires Loaded(x, store) && Shaped(n) && Sound(x, store, n) && k <= n.height
    ensures Total(Spans(At(store, n, k))) == n.total
    decreases n.height - k
  {
    hide Loaded, Sound, AtAll, Spans;
    if k == n.height {
      OneNode(n);
    } else {
      TotalBelow(x, store, n, k + 1);
      LevelStep(x, store, n, k);
      TotalOfLevel(x, At(store, n, k), k);
    }
  }

  lemma {:induction false} TotalOfLevel(x: Context, level: seq<Index>, k: nat)
    requires Uniform(level, k)
    ensures Total(SpansFor(x, level)) == Total(Spans(level))
    decreases |level|
  {
    if |level| > 0 {
      assert Shaped(level[0]);
      TotalOfLevel(x, level[1..], k);
      assert SpansFor(x, level)[1..] == SpansFor(x, level[1..]);
      TotalJoin(level[0].spans, Spans(level[1..]));
    }
  }

  lemma {:induction false} ConcatLength(x: Context, store: Store, spans: seq<Span>)
    requires ChunksOk(x, store, spans)
    ensures |G.Concat(Chunks(store, spans))| == Total(spans)
    decreases |spans|
  {
    if |spans| > 0 {
      assert ChunkOk(x, store, spans[0]);
      ConcatLength(x, store, spans[1..]);
      assert Chunks(store, spans)[1..] == Chunks(store, spans[1..]);
    }
  }

  /** An accepted index streams exactly as many bytes as its owner records. */
  lemma StreamLength(x: Context, store: Store, root: Oid, length: nat)
    requires Loaded(x, store) && Accepts(x, store, root, length)
    ensures |Stream(store, root)| == length
  {
    hide Shaped, Sound, GroupingOk, ChunksOk, G.Admits, At;
    var n := store.nodes[root];
    SoundBottom(x, store, n);
    ConcatLength(x, store, Spans(At(store, n, 0)));
    TotalBelow(x, store, n, 0);
  }

  // ----- The size the grouping tracks -----

  function SpanValues(spans: seq<Span>): seq<Value> {
    seq(|spans|, i requires 0 <= i < |spans| => SpanValue(spans[i]))
  }

  /** The data [1, 4, height, total, entries] of a node that holds these entries. */
  function NodeData(height: nat, spans: seq<Span>): Value {
    Array([Int(1), Int(4), Int(height), Int(Total(spans)), Array(SpanValues(spans))])
  }

  function NodeValue(n: Index): Value {
    Array([Int(1), Int(4), Int(n.height), Int(n.total), Array(SpanValues(n.spans))])
  }

  lemma SpanValueSize(height: nat, s: Span)
    ensures |Encode(SpanValue(s))| == EntryOf(height, s).size
  {
    var items := [Int(s.span), Bytes(s.target), DigestValue(s.digest)];
    M.Encode3(items[0], items[1], items[2]);
    assert |Head(4, 3)| == 1;
    hide Head, EncodeAll;
    assert Encode(Array(items)) == Head(4, 3) + EncodeAll(items);
  }

  lemma {:induction false} SpanSums(height: nat, spans: seq<Span>)
    ensures P.SpanSum(EntriesOf(height, spans)) == Total(spans)
    decreases |spans|
  {
    hide EntryOf;
    if |spans| > 0 {
      var init, last := spans[..|spans| - 1], spans[|spans| - 1];
      SpanSums(height, init);
      var es := EntriesOf(height, spans);
      assert es[..|es| - 1] == EntriesOf(height, init);
      assert es[|es| - 1].span == last.span by { EntrySpan(height, last); }
      TotalJoin(init, [last]);
      assert spans == init + [last] && [last][1..] == [];
    }
  }

  lemma EntrySpan(height: nat, s: Span)
    ensures EntryOf(height, s).span == s.span
  {
  }

  lemma DataSize(x: Context, height: nat, spans: seq<Span>)
    ensures |Encode(NodeData(height, spans))| == P.NodeSize(LevelRule(x, height), EntriesOf(height, spans))
  {
    assert |Encode(Int(1))| == 1 && |Encode(Int(4))| == 1 && |Head(4, 4)| == 1 && |Head(4, 5)| == 1;
    hide Encode, Head, EncodeAll, SpanValue, EntryOf;
    var es := EntriesOf(height, spans);
    var vs := SpanValues(spans);
    forall i | 0 <= i < |vs| ensures |Encode(vs[i])| == es[i].size { SpanValueSize(height, spans[i]); }
    M.PayloadSize(vs, es);
    M.ArraySize(vs);
    M.HeaderSizeAt(Int(height), Array(vs), Int(4), Some(Int(Total(spans))));
    SpanSums(height, spans);
  }

  /** The size the grouping tracks, running total included, is the exact length of the node data. */
  lemma NodeSize(x: Context, n: Index)
    requires Shaped(n)
    ensures |Encode(NodeValue(n))| == P.NodeSize(LevelRule(x, n.height), EntriesOf(n.height, n.spans))
  {
    hide Encode, SpanValues, EntriesOf, LevelRule, P.NodeSize;
    DataSize(x, n.height, n.spans);
    assert NodeValue(n) == NodeData(n.height, n.spans);
  }

  /** The entries of a node are one page of its level's grouping. */
  lemma {:induction false} NodePage(level: seq<Index>, k: nat, i: nat)
    requires i < |level|
    ensures P.PageAt(EntriesOf(k, Spans(level)), Sizes(level), i) == EntriesOf(k, level[i].spans)
    decreases |level|
  {
    hide EntryOf;
    var es, sizes := EntriesOf(k, Spans(level)), Sizes(level);
    var n := |level[0].spans|;
    assert Spans(level) == level[0].spans + Spans(level[1..]);
    assert sizes[0] == n && sizes[1..] == Sizes(level[1..]);
    if i == 0 {
      assert P.Sum(sizes[..0]) == 0;
      assert es[0..n] == EntriesOf(k, level[0].spans);
    } else {
      NodePage(level[1..], k, i - 1);
      P.PageAtTail(es, sizes, i);
      assert es[n..] == EntriesOf(k, Spans(level[1..]));
    }
  }

  /** Every node of an accepted index keeps the node limits. */
  lemma NodeBounds(x: Context, store: Store, root: Oid, length: nat, k: nat, i: nat)
    requires Loaded(x, store) && Accepts(x, store, root, length) && k <= store.nodes[root].height
    requires i < |At(store, store.nodes[root], k)|
    ensures var n := At(store, store.nodes[root], k)[i];
      n.height == k && |Encode(NodeValue(n))| <= P.NODE_DATA_LIMIT
  {
    hide Encode, NodeValue, P.NodeSize, P.References, At, Sound, P.Greedy, G.Admits, Spans;
    var level := At(store, store.nodes[root], k);
    var rule, es := LevelRule(x, k), EntriesOf(k, Spans(level));
    assert GroupingOk(x, level, k);
    P.GreedyCanonical(rule, es);
    P.CanonicalBounds(rule, es, Sizes(level));
    assert P.PageFits(rule, es, Sizes(level), i);
    NodePage(level, k, i);
    LevelStep(x, store, store.nodes[root], k);
    NodeSize(x, level[i]);
  }

  // ----- The walk -----

  /** Whether an unfinished chunk is open after a run of admitted pushes. */
  ghost function OpenAfter(g: G.Table, open: bool, chunks: seq<seq<byte>>): bool
    decreases |chunks|
  {
    if |chunks| == 0 then open else OpenAfter(g, !G.IsCut(g, chunks[0], |chunks[0]|), chunks[1..])
  }

  lemma {:induction false} AdmitsJoin(g: G.Table, open: bool, a: seq<seq<byte>>, b: seq<seq<byte>>)
    ensures G.Admits(g, open, a + b) <==> G.Admits(g, open, a) && G.Admits(g, OpenAfter(g, open, a), b)
    ensures OpenAfter(g, open, a + b) == OpenAfter(g, OpenAfter(g, open, a), b)
    decreases |a|
  {
    hide G.IsCut, G.NoCutBefore;
    if |a| == 0 {
      assert a + b == b;
    } else {
      AdmitsJoin(g, !G.IsCut(g, a[0], |a[0]|), a[1..], b);
      assert (a + b)[1..] == a[1..] + b && (a + b)[0] == a[0];
    }
  }

  function Level(levels: map<nat, seq<Index>>, k: nat): seq<Index> {
    if k in levels then levels[k] else []
  }

  /** The chunks some entries at a height stand for. */
  function ChunksUnder(store: Store, height: nat, spans: seq<Span>): seq<seq<byte>> {
    Chunks(store, if height == 0 then spans else Spans(AtAll(store, height, spans, 0)))
  }

  /** What walking some entries at a height adds: nodes at every height, chunks, bytes. */
  ghost predicate Extends(
      store: Store, height: nat, spans: seq<Span>, before: map<nat, seq<Index>>, after: map<nat, seq<Index>>)
  {
    forall k: nat :: Level(after, k) == Level(before, k) + AtAll(store, height, spans, k)
  }

  lemma {:induction false} AtAllJoin(store: Store, height: nat, a: seq<Span>, b: seq<Span>, k: nat)
    ensures AtAll(store, height, a + b, k) == AtAll(store, height, a, k) + AtAll(store, height, b, k)
    decreases |a|
  {
    hide At, ChildOk;
    if |a| == 0 {
      assert a + b == b;
    } else {
      AtAllJoin(store, height, a[1..], b, k);
      var c := a + b;
      assert c[1..] == a[1..] + b && c[0] == a[0];
    }
  }

  lemma ChunksUnderJoin(store: Store, height: nat, a: seq<Span>, b: seq<Span>)
    ensures ChunksUnder(store, height, a + b) == ChunksUnder(store, height, a) + ChunksUnder(store, height, b)
  {
    AtAllJoin(store, height, a, b, 0);
    SpansJoin(AtAll(store, height, a, 0), AtAll(store, height, b, 0));
  }

  /** No entry at a height leads to a node at that height or above. */
  lemma {:induction false} NothingAbove(store: Store, height: nat, spans: seq<Span>, k: nat)
    requires k >= height
    ensures AtAll(store, height, spans, k) == []
    decreases |spans|
  {
    if |spans| > 0 { NothingAbove(store, height, spans[1..], k); }
  }

  lemma AtSplit(store: Store, n: Index, k: nat)
    ensures At(store, n, k) == (if k == n.height then [n] else []) + AtAll(store, n.height, n.spans, k)
  {
    if k >= n.height { NothingAbove(store, n.height, n.spans, k); }
  }

  lemma AtOne(store: Store, height: nat, s: Span, k: nat)
    requires ChildOk(store, height, s)
    ensures AtAll(store, height, [s], k) == At(store, store.nodes[s.target], k)
  {
    assert [s][1..] == [];
    assert AtAll(store, height, [], k) == [];
    hide At;
  }

  lemma ChunksOfNode(store: Store, n: Index)
    ensures ChunksOf(store, n) == ChunksUnder(store, n.height, n.spans)
  {
    if n.height == 0 { OneNode(n); }
  }

  lemma ConcatJoin(a: seq<seq<byte>>, b: seq<seq<byte>>)
    ensures G.Concat(a + b) == G.Concat(a) + G.Concat(b)
    decreases |a|
  {
    if |a| == 0 {
      assert a + b == b;
    } else {
      ConcatJoin(a[1..], b);
      assert (a + b)[1..] == a[1..] + b;
    }
  }

  function NoChunks(): seq<seq<byte>> { [] }

  /** The next entry's share of what is still to be checked. */
  lemma RestSplits(x: Context, store: Store, height: nat, spans: seq<Span>, i: nat, open: bool)
    requires i < |spans|
    ensures SpansSound(x, store, height, spans[i..]) <==>
      SpansSound(x, store, height, [spans[i]]) && SpansSound(x, store, height, spans[i + 1..])
    ensures G.Admits(x.gear, open, ChunksUnder(store, height, spans[i..])) <==>
      G.Admits(x.gear, open, ChunksUnder(store, height, [spans[i]]))
      && G.Admits(x.gear, OpenAfter(x.gear, open, ChunksUnder(store, height, [spans[i]])),
        ChunksUnder(store, height, spans[i + 1..]))
  {
    hide G.Admits, OpenAfter, ChunksUnder, Sound, ChunkOk, ChildOk;
    var rest := spans[i..];
    assert rest == [spans[i]] + spans[i + 1..] && rest[1..] == spans[i + 1..] && [spans[i]][1..] == [];
    assert SpansSound(x, store, height, []);
    ChunksUnderJoin(store, height, [spans[i]], spans[i + 1..]);
    AdmitsJoin(x.gear, open, ChunksUnder(store, height, [spans[i]]), ChunksUnder(store, height, spans[i + 1..]));
  }

  /** The next entry's share of what has been gathered. */
  lemma PrefixGrows(x: Context, store: Store, height: nat, spans: seq<Span>, i: nat, open: bool)
    requires i < |spans|
    ensures forall k: nat ::
      AtAll(store, height, spans[..i + 1], k)
        == AtAll(store, height, spans[..i], k) + AtAll(store, height, [spans[i]], k)
    ensures var done, next := ChunksUnder(store, height, spans[..i]), ChunksUnder(store, height, [spans[i]]);
      && G.Concat(ChunksUnder(store, height, spans[..i + 1])) == G.Concat(done) + G.Concat(next)
      && OpenAfter(x.gear, open, ChunksUnder(store, height, spans[..i + 1]))
        == OpenAfter(x.gear, OpenAfter(x.gear, open, done), next)
  {
    hide G.Admits, OpenAfter, ChunksUnder, AtAll;
    assert spans[..i + 1] == spans[..i] + [spans[i]];
    forall k: nat ensures
      AtAll(store, height, spans[..i + 1], k)
        == AtAll(store, height, spans[..i], k) + AtAll(store, height, [spans[i]], k)
    {
      AtAllJoin(store, height, spans[..i], [spans[i]], k);
    }
    ChunksUnderJoin(store, height, spans[..i], [spans[i]]);
    ConcatJoin(ChunksUnder(store, height, spans[..i]), ChunksUnder(store, height, [spans[i]]));
    AdmitsJoin(x.gear, open, ChunksUnder(store, height, spans[..i]), ChunksUnder(store, height, [spans[i]]));
  }

  lemma NothingYet(x: Context, store: Store, height: nat, open: bool, levels: map<nat, seq<Index>>)
    ensures ChunksUnder(store, height, []) == NoChunks() && G.Concat(NoChunks()) == []
    ensures OpenAfter(x.gear, open, NoChunks()) == open && G.Admits(x.gear, open, NoChunks())
    ensures SpansSound(x, store, height, []) && Extends(store, height, [], levels, levels)
  {
  }

  /** The node itself and everything below its entries. */
  lemma WalkedNode(store: Store, n: Index, before: map<nat, seq<Index>>, after: map<nat, seq<Index>>)
    requires Extends(store, n.height, n.spans, before[n.height := Level(before, n.height) + [n]], after)
    ensures forall k: nat :: Level(after, k) == Level(before, k) + At(store, n, k)
  {
    hide At, AtAll;
    forall k: nat ensures Level(after, k) == Level(before, k) + At(store, n, k) {
      AtSplit(store, n, k);
    }
  }

  /** The walk's state: the nodes met at each height, the chunker and the bytes streamed. */
  class Walker {
    const x: Context
    const store: Store
    const boundaries: G.GearBoundaries
    var levels: map<nat, seq<Index>>
    var sink: seq<byte>

    ghost predicate Valid()
      reads this
    {
      boundaries.g == x.gear
    }

    constructor (x: Context, store: Store)
      ensures Valid() && fresh(boundaries) && this.x == x && this.store == store
      ensures levels == map[] && sink == [] && !boundaries.open
    {
      this.x, this.store, levels, sink := x, store, map[], [];
      boundaries := new G.GearBoundaries(x.gear);
    }

    /** A chunk: its length, its digest, its boundaries; then its bytes go to the sink. */
    method VisitChunk(s: Span) returns (ok: bool)
      requires Valid()
      modifies this`sink, boundaries
      ensures ok <==> ChunkOk(x, store, s) && G.Admits(x.gear, old(boundaries.open), [Chunk(store, s)])
      ensures ok ==> sink == old(sink) + Chunk(store, s)
      ensures ok ==> boundaries.open == OpenAfter(x.gear, old(boundaries.open), [Chunk(store, s)])
    {
      hide G.IsCut, G.NoCutBefore;
      if s.span > G.GEAR_MAXIMUM || s.target !in store.chunks { return false; }
      var chunk := store.chunks[s.target];
      if |chunk| != s.span || s.digest != Some(x.sha256(chunk)) { return false; }
      assert [chunk][1..] == NoChunks();
      assert OpenAfter(x.gear, !G.IsCut(x.gear, chunk, |chunk|), NoChunks()) == !G.IsCut(x.gear, chunk, |chunk|);
      assert G.Admits(x.gear, !G.IsCut(x.gear, chunk, |chunk|), NoChunks());
      ok := boundaries.Push(chunk);
      if ok { sink := sink + chunk; }
    }

    /** One entry: a chunk, or a smaller index walked in turn. */
    method Visit(height: nat, s: Span) returns (ok: bool)
      requires Valid()
      modifies this, boundaries
      ensures ok <==>
        SpansSound(x, store, height, [s]) && G.Admits(x.gear, old(boundaries.open), ChunksUnder(store, height, [s]))
      ensures ok ==> Extends(store, height, [s], old(levels), levels)
      ensures ok ==> sink == old(sink) + G.Concat(ChunksUnder(store, height, [s]))
      ensures ok ==> boundaries.open == OpenAfter(x.gear, old(boundaries.open), ChunksUnder(store, height, [s]))
      decreases height, 0
    {
      hide G.Admits, G.IsCut, At, ChunkOk, Sound, ChunksOf;
      assert [s][1..] == [];
      if height == 0 {
        assert ChunksUnder(store, 0, [s]) == [Chunk(store, s)];
        assert G.Concat([Chunk(store, s)]) == Chunk(store, s) + G.Concat([Chunk(store, s)][1..]);
        forall k: nat ensures AtAll(store, 0, [s], k) == [] { NothingAbove(store, 0, [s], k); }
        ok := VisitChunk(s);
      } else if ChildOk(store, height, s) {
        var child := store.nodes[s.target];
        forall k: nat ensures AtAll(store, height, [s], k) == At(store, child, k) { AtOne(store, height, s, k); }
        assert ChunksUnder(store, height, [s]) == ChunksOf(store, child) by {
          ChunksOfNode(store, child);
          ChunksOfChild(store, height, s);
        }
        ok := Walk(child);
      } else {
        ok := false;
      }
    }

    method Walk(n: Index) returns (ok: bool)
      requires Valid()
      modifies this, boundaries
      ensures ok <==> Sound(x, store, n) && G.Admits(x.gear, old(boundaries.open), ChunksOf(store, n))
      ensures ok ==> forall k: nat :: Level(levels, k) == Level(old(levels), k) + At(store, n, k)
      ensures ok ==> sink == old(sink) + G.Concat(ChunksOf(store, n))
      ensures ok ==> boundaries.open == OpenAfter(x.gear, old(boundaries.open), ChunksOf(store, n))
      decreases n.height, 1
    {
      hide G.Admits, OpenAfter, ChunksUnder, AtAll, At, SpansSound, ChunksOf, G.Concat, Level;
      levels := levels[n.height := Level(levels, n.height) + [n]];
      ghost var start, open, streamed := levels, boundaries.open, sink;
      ChunksOfNode(store, n);
      NothingYet(x, store, n.height, open, start);
      assert n.spans[0..] == n.spans && n.spans[..0] == [];
      for i := 0 to |n.spans|
        invariant Valid()
        invariant Sound(x, store, n) <==> SpansSound(x, store, n.height, n.spans[i..])
        invariant G.Admits(x.gear, open, ChunksOf(store, n)) <==>
                    G.Admits(x.gear, boundaries.open, ChunksUnder(store, n.height, n.spans[i..]))
        invariant Extends(store, n.height, n.spans[..i], start, levels)
        invariant sink == streamed + G.Concat(ChunksUnder(store, n.height, n.spans[..i]))
        invariant boundaries.open == OpenAfter(x.gear, open, ChunksUnder(store, n.height, n.spans[..i]))
      {
        RestSplits(x, store, n.height, n.spans, i, boundaries.open);
        PrefixGrows(x, store, n.height, n.spans, i, open);
        var visited := Visit(n.height, n.spans[i]);
        if !visited { return false; }
      }
      assert n.spans[..|n.spans|] == n.spans && n.spans[|n.spans|..] == [];
      NothingYet(x, store, n.height, boundaries.open, levels);
      WalkedNode(store, n, old(levels), levels);
      ok := true;
    }
  }

  lemma ChunksOfChild(store: Store, height: nat, s: Span)
    requires ChildOk(store, height, s)
    ensures ChunksUnder(store, height, [s]) == ChunksOf(store, store.nodes[s.target])
  {
    AtOne(store, height, s, 0);
  }

  /** `byte_index`: the bytes streamed when every check passes. */
  method ReadByteIndex(x: Context, store: Store, root: Oid, length: nat) returns (r: Result<seq<byte>>)
    ensures r.Ok? <==> Accepts(x, store, root, length)
    ensures r.Ok? ==> r.value == Stream(store, root)
  {
    hide Sound, G.Admits, OpenAfter, At, GroupingOk, G.Concat, ChunksOf, Level;
    if root !in store.nodes { return Err; }
    var n := store.nodes[root];
    if n.total != length || (n.height > 0 && |n.spans| < 2) { return Err; }
    var walker := new Walker(x, store);
    var walked := walker.Walk(n);
    if !walked { return Err; }
    var grouped := CheckGroupings(x, walker.levels, n.height);
    forall k: nat ensures Level(walker.levels, k) == At(store, n, k) {
      EmptyLevel(k);
    }
    if !grouped { return Err; }
    r := Ok(walker.sink);
  }

  lemma EmptyLevel(k: nat)
    ensures Level(map[], k) == []
  {
  }

  method CheckGroupings(x: Context, levels: map<nat, seq<Index>>, height: nat) returns (ok: bool)
    ensures ok <==> forall k | 0 <= k <= height :: GroupingOk(x, Level(levels, k), k)
  {
    hide GroupingOk, Level;
    for k := 0 to height + 1
      invariant forall j | 0 <= j < k :: GroupingOk(x, Level(levels, j), j)
    {
      var fine := CheckGrouping(x, Level(levels, k), k);
      if !fine { return false; }
    }
    ok := true;
  }

  method CheckGrouping(x: Context, level: seq<Index>, height: nat) returns (ok: bool)
    ensures ok <==> GroupingOk(x, level, height)
  {
    hide P.Greedy;
    var expected := P.ReplayPartition(LevelRule(x, height), EntriesOf(height, Spans(level)));
    ok := expected == Ok(Sizes(level));
  }
}
