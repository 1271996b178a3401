/**
 What an accepted byte index is (`byte_index`): which chunks end its nodes, what has room in them,
 and that nothing else decides acceptance.
 */
module IndexPages {
  import opened Prelude
  import opened Cbor
  import opened ByteIndex
  import P = Partition
  import G = Gear

  /** What an entry is anchored by: a chunk by its length and digest, a smaller index by its identity. */
  function Anchored(height: nat, s: Span): seq<byte> {
    if height > 0 then s.target
    else Encode(Array([Int(s.span), if s.digest.Some? then Bytes(s.digest.value) else Null]))
  }

  /** Entries that may share one node. */
  ghost predicate WithinLimits(height: nat, spans: seq<Span>) {
    && |spans| <= 256
    && |Encode(NodeData(height, spans))| <= 65_536
    && |set s | s in spans :: s.target| <= 256
  }

  /** A node ends after these entries: it is full, or long enough and the last one is anchored. */
  predicate EndsAt(x: Context, height: nat, spans: seq<Span>) {
    |spans| == 256 || (|spans| >= 16 && x.anchor(height, Anchored(height, spans[|spans| - 1])))
  }

  /**
   * A node of a level is right: it keeps the limits, no earlier entry ends it, and if a node follows it
   * either ends itself or has no room for the next entry.
   */
  ghost predicate NodeIsRight(x: Context, level: seq<Index>, height: nat, p: nat)
    requires p < |level|
  {
    var spans := level[p].spans;
    && |spans| > 0 && WithinLimits(height, spans)
    && (forall m | 0 < m < |spans| :: !EndsAt(x, height, spans[..m]))
    && (p + 1 < |level| && |level[p + 1].spans| > 0 ==>
          EndsAt(x, height, spans) || !WithinLimits(height, spans + [level[p + 1].spans[0]]))
  }

  // ----- The grouping rule says the same -----

  lemma TargetsExact(height: nat, spans: seq<Span>)
    ensures P.References(EntriesOf(height, spans)) == set s | s in spans :: s.target
  {
    hide Encode;
    var es := EntriesOf(height, spans);
    forall o ensures o in P.References(es) <==> exists s :: s in spans && s.target == o {
      P.ReferencesExact(es, o);
      if i :| 0 <= i < |es| && o in es[i].references { assert spans[i] in spans && spans[i].target == o; }
      if s :| s in spans && s.target == o {
        var i :| 0 <= i < |spans| && spans[i] == s;
        assert o in es[i].references;
      }
    }
  }

  lemma FitsExact(x: Context, height: nat, spans: seq<Span>)
    ensures P.Fits(LevelRule(x, height), EntriesOf(height, spans)) <==> WithinLimits(height, spans)
  {
    hide Encode, NodeData, P.NodeSize, P.References, EntryOf, LevelRule;
    DataSize(x, height, spans);
    TargetsExact(height, spans);
  }

  lemma ClosesExact(x: Context, height: nat, spans: seq<Span>)
    ensures P.Closes(LevelRule(x, height), EntriesOf(height, spans)) <==> EndsAt(x, height, spans)
  {
    hide Encode;
    if |spans| > 0 {
      assert EntriesOf(height, spans)[|spans| - 1].token == Anchored(height, spans[|spans| - 1]);
    }
  }

  /** Where the next node begins among the entries, and with what. */
  lemma NextStart(level: seq<Index>, height: nat, p: nat)
    requires p + 1 < |level| && |level[p + 1].spans| > 0
    ensures var es, at := EntriesOf(height, Spans(level)), P.PageStart(Sizes(level), p) + |level[p].spans|;
      at < |es| && es[at] == EntryOf(height, level[p + 1].spans[0])
  {
    hide EntryOf, Spans;
    P.StartGrows(Sizes(level), p);
    NodePage(level, height, p + 1);
  }

  lemma {:induction false} LevelSum(level: seq<Index>)
    ensures P.Sum(Sizes(level)) == |Spans(level)|
    decreases |level|
  {
    if |level| > 0 {
      LevelSum(level[1..]);
      assert Sizes(level)[0] == |level[0].spans| && Sizes(level)[1..] == Sizes(level[1..]);
    }
  }

  lemma EntriesPrefix(height: nat, spans: seq<Span>, m: nat, s: Span)
    requires m <= |spans|
    ensures EntriesOf(height, spans)[..m] == EntriesOf(height, spans[..m])
    ensures EntriesOf(height, spans) + [EntryOf(height, s)] == EntriesOf(height, spans + [s])
  {
    hide EntryOf;
  }

  /** The grouping rule asks of a node exactly what makes it right. */
  lemma NodeMeans(x: Context, level: seq<Index>, height: nat, p: nat)
    requires p < |level| && forall i | 0 <= i < |level| :: |level[i].spans| > 0
    ensures P.PageRight(LevelRule(x, height), EntriesOf(height, Spans(level)), Sizes(level), p) <==>
      NodeIsRight(x, level, height, p)
  {
    hide Encode, EntriesOf, P.Fits, P.Closes, WithinLimits, EndsAt, LevelRule, Spans, EntryOf, P.PageStart, P.PageAt;
    var spans := level[p].spans;
    var es, sizes := EntriesOf(height, Spans(level)), Sizes(level);
    NodePage(level, height, p);
    FitsExact(x, height, spans);
    ClosesExact(x, height, spans);
    forall m | 0 < m < |spans|
      ensures P.Closes(LevelRule(x, height), EntriesOf(height, spans)[..m]) <==> EndsAt(x, height, spans[..m])
    {
      EntriesPrefix(height, spans, m, spans[0]);
      ClosesExact(x, height, spans[..m]);
    }
    LevelSum(level);
    P.StartGrows(sizes, p);
    if p + 1 < |level| {
      NextStart(level, height, p);
      EntriesPrefix(height, spans, 0, level[p + 1].spans[0]);
      FitsExact(x, height, spans + [level[p + 1].spans[0]]);
    } else {
      assert sizes[..p + 1] == sizes;
      P.WholeStart(sizes);
    }
  }

  ghost predicate NodesRight(x: Context, level: seq<Index>, height: nat) {
    forall p | 0 <= p < |level| :: NodeIsRight(x, level, height, p)
  }

  /** A level passes the grouping check exactly when every node of it is right. */
  lemma LevelExact(x: Context, level: seq<Index>, height: nat)
    requires forall i | 0 <= i < |level| :: |level[i].spans| > 0
    ensures GroupingOk(x, level, height) <==> NodesRight(x, level, height)
  {
    hide Encode, P.Greedy, P.Canonical, P.PageRight, LevelRule, NodeIsRight, EntryOf, Spans;
    var rule, es, sizes := LevelRule(x, height), EntriesOf(height, Spans(level)), Sizes(level);
    P.GreedyExact(rule, es, sizes);
    P.CanonicalByPages(rule, es, sizes);
    LevelSum(level);
    forall p | 0 <= p < |level| ensures P.PageRight(rule, es, sizes, p) <==> NodeIsRight(x, level, height, p) {
      NodeMeans(x, level, height, p);
    }
  }

  // ----- Acceptance -----

  /**
   * A canonical byte index: every entry describes the chunk or the smaller index it names, every chunk
   * ends where it must, and every node of every height is right.
   */
  ghost predicate CanonicalIndex(x: Context, store: Store, root: Oid, length: nat) {
    && root in store.nodes && store.nodes[root].total == length
    && (store.nodes[root].height > 0 ==> |store.nodes[root].spans| >= 2)
    && Described(x, store, store.nodes[root])
    && ChunksRight(x.gear, ChunksOf(store, store.nodes[root]))
    && forall k | 0 <= k <= store.nodes[root].height :: NodesRight(x, At(store, store.nodes[root], k), k)
  }

  ghost predicate ChunksRight(g: G.Table, chunks: seq<seq<byte>>) {
    forall i | 0 <= i < |chunks| :: G.ChunkRight(g, chunks, i)
  }

  /** Every entry below a node describes what it names. */
  ghost predicate Described(x: Context, store: Store, n: Index)
    decreases n.height
  {
    forall i | 0 <= i < |n.spans| ::
      var s := n.spans[i];
      if n.height == 0 then
        && s.target in store.chunks && |store.chunks[s.target]| == s.span <= 1_048_576
        && s.digest == Some(x.sha256(store.chunks[s.target]))
      else
        && s.target in store.nodes && store.nodes[s.target].height == n.height - 1
        && store.nodes[s.target].total == s.span && Described(x, store, store.nodes[s.target])
  }

  lemma {:induction false} SoundExact(x: Context, store: Store, n: Index)
    ensures Sound(x, store, n) <==> Described(x, store, n)
    decreases n.height, |n.spans| + 1
  {
    SpansExact(x, store, n.height, n.spans);
  }

  ghost predicate Fine(x: Context, store: Store, height: nat, s: Span) {
    if height == 0 then ChunkOk(x, store, s)
    else ChildOk(store, height, s) && Described(x, store, store.nodes[s.target])
  }

  lemma {:induction false} SpansExact(x: Context, store: Store, height: nat, spans: seq<Span>)
    ensures SpansSound(x, store, height, spans) <==> forall i | 0 <= i < |spans| :: Fine(x, store, height, spans[i])
    decreases height, |spans|
  {
    if |spans| > 0 {
      if height > 0 && ChildOk(store, height, spans[0]) { SoundExact(x, store, store.nodes[spans[0].target]); }
      SpansExact(x, store, height, spans[1..]);
      hide Fine, Described;
      assert forall i | 0 < i < |spans| :: spans[i] == spans[1..][i - 1];
    }
  }

  lemma LevelsSized(x: Context, store: Store, n: Index, k: nat)
    requires Loaded(x, store) && Shaped(n) && Sound(x, store, n)
    ensures forall i | 0 <= i < |At(store, n, k)| :: |At(store, n, k)[i].spans| > 0
  {
    LevelStep(x, store, n, k);
    hide At, Sound, Loaded;
  }

  /** The walk accepts exactly the canonical byte indexes. */
  lemma AcceptExactly(x: Context, store: Store, root: Oid, length: nat)
    requires Loaded(x, store)
    ensures Accepts(x, store, root, length) <==> CanonicalIndex(x, store, root, length)
  {
    hide Sound, Described, GroupingOk, NodesRight, G.Admits, G.ChunkRight, At, Shaped, ChunksOf;
    if root in store.nodes {
      var n := store.nodes[root];
      assert Shaped(n);
      SoundExact(x, store, n);
      if Sound(x, store, n) {
        forall k | 0 <= k <= n.height
          ensures GroupingOk(x, At(store, n, k), k) <==> NodesRight(x, At(store, n, k), k)
        {
          LevelsSized(x, store, n, k);
          LevelExact(x, At(store, n, k), k);
        }
        ChunksPositive(x, store, n);
        G.AdmitsByChunk(x.gear, false, ChunksOf(store, n));
      }
    }
  }
}
