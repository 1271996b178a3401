/**
 Expansion of value overflow (`Graph.overflow`, `Graph.expand`, `semantic`, `make_map`): a stored
 value may name other stored values by tag 60113, and each expanded one is kept in a memo.
 */
module Overflow {
  import opened Prelude
  import opened Cbor
  import opened Sorting

  type Oid = seq<byte>

  const SEMANTIC_BLOB_TAG := 60112
  const OVERFLOW_TAG := 60113

  // ----- make_map -----

  /** Entries compare by encoded key. */
  predicate KeyLess(p: Pair, q: Pair) { LexLess(Encode(p.key), Encode(q.key)) }

  /** Some key is the encoding of its neighbour's key. */
  predicate AdjacentRepeat(ps: seq<Pair>) {
    exists i | 0 <= i < |ps| - 1 :: Encode(ps[i].key) == Encode(ps[i + 1].key)
  }

  function MakeMap(ps: seq<Pair>): Result<Value> {
    var sorted := SortBy(ps, KeyLess);
    if AdjacentRepeat(sorted) then Err else Ok(Map(sorted))
  }

  lemma {:induction false} StrictlySorted(ps: seq<Pair>)
    requires SortedBy(ps, KeyLess) && !AdjacentRepeat(ps)
    ensures KeysAscend(ps)
  {
    hide LexLess, Encode;
    if |ps| > 1 {
      assert !KeyLess(ps[0 + 1], ps[0]);
      LexTotal(Encode(ps[0].key), Encode(ps[0 + 1].key));
      var tail := ps[1..];
      forall i | 0 <= i < |tail| - 1
        ensures !KeyLess(tail[i + 1], tail[i]) && Encode(tail[i].key) != Encode(tail[i + 1].key)
      {
        assert tail[i] == ps[i + 1] && tail[i + 1] == ps[i + 1 + 1];
      }
      StrictlySorted(tail);
    }
  }

  /** A map built from pairs holds exactly those pairs, in canonical key order. */
  lemma MakeMapCanonical(ps: seq<Pair>)
    requires MakeMap(ps).Ok?
    ensures var m := MakeMap(ps).value;
            m.Map? && KeysAscend(m.entries) && multiset(m.entries) == multiset(ps)
  {
    hide Encode, SortBy, SortedBy, AdjacentRepeat, LexLess;
    SortByPermutes(ps, KeyLess);
    forall p, q | p in ps && q in ps && KeyLess(p, q) ensures !KeyLess(q, p) {
      LexAsymmetric(Encode(p.key), Encode(q.key));
    }
    SortBySorts(ps, KeyLess);
    StrictlySorted(SortBy(ps, KeyLess));
  }

  // ----- The semantic form -----

  datatype Semantic = Form(value: Value) | DuplicateKey | OverflowSurvived

  datatype SemanticList<T> = Forms(values: seq<T>) | ListFailed(why: Semantic)

  /** The first four fields of a stored Blob reference, without its descriptor. */
  function WithoutDescriptor(payload: Value): Value {
    if payload.Array? then Array(payload.items[..Min(4, |payload.items|)]) else payload
  }

  function SemanticOf(v: Value): Semantic
    decreases v, 0
  {
    match v
    case Tag(number, payload) =>
      if number == STORED_BLOB_TAG then Form(Tag(SEMANTIC_BLOB_TAG, WithoutDescriptor(payload)))
      else if number == OVERFLOW_TAG then OverflowSurvived
      else
        (match SemanticOf(payload)
         case Form(s) => Form(Tag(number, s))
         case failed => failed)
    case Array(items) =>
      (match SemanticAll(items)
       case Forms(vs) => Form(Array(vs))
       case ListFailed(why) => why)
    case Map(entries) =>
      (match SemanticPairs(entries)
       case Forms(ps) => (match MakeMap(ps) case Ok(m) => Form(m) case Err => DuplicateKey)
       case ListFailed(why) => why)
    case _ => Form(v)
  }

  function SemanticAll(vs: seq<Value>): SemanticList<Value>
    decreases vs, 0
  {
    if |vs| == 0 then Forms([])
    else
      match SemanticOf(vs[0])
      case Form(s) =>
        (match SemanticAll(vs[1..])
         case Forms(rest) => Forms([s] + rest)
         case failed => failed)
      case failed => ListFailed(failed)
  }

  function SemanticPairs(ps: seq<Pair>): SemanticList<Pair>
    decreases ps, 0
  {
    if |ps| == 0 then Forms([])
    else
      assert (ps decreases to ps[0]);
      match ps[0]
      case Pair(key, value) =>
        match (SemanticOf(key), SemanticOf(value))
        case (Form(k), Form(v)) =>
          (match SemanticPairs(ps[1..])
           case Forms(rest) => Forms([Pair(k, v)] + rest)
           case failed => failed)
        case (Form(_), failed) => ListFailed(failed)
        case (failed, _) => ListFailed(failed)
  }

  // ----- Expansion without a memo -----

  /**
   * `stored` holds the value of every overflow node whose bytes, size rule and dependency index
   * checked out; `digestMatches` compares a node's recorded digest with a semantic form.
   */
  datatype Graph = Graph(width: nat, stored: map<Oid, Value>, digestMatches: (Oid, Value) -> bool)

  function OverflowOid(payload: Value, width: nat): Result<Oid> {
    if payload.Array? && |payload.items| == 1 && payload.items[0].Bytes? && |payload.items[0].data| == width
    then Ok(payload.items[0].data) else Err
  }

  function DigestOk(g: Graph, oid: Oid, expanded: Value): bool {
    match SemanticOf(expanded)
    case Form(s) => g.digestMatches(oid, s)
    case _ => false
  }

  function Resolve(g: Graph, oid: Oid, active: set<Oid>): Result<Value>
    decreases g.stored.Keys - active, 0
  {
    if oid in active || oid !in g.stored then Err
    else
      var expanded :- Expand(g, g.stored[oid], active + {oid});
      if DigestOk(g, oid, expanded) then Ok(expanded) else Err
  }

  function Expand(g: Graph, v: Value, active: set<Oid>): Result<Value>
    decreases g.stored.Keys - active, 1, v
  {
    match v
    case Tag(number, payload) =>
      if number == OVERFLOW_TAG then
        var oid :- OverflowOid(payload, g.width);
        Resolve(g, oid, active)
      else if number == STORED_BLOB_TAG then Ok(v)
      else
        var p :- Expand(g, payload, active);
        Ok(Tag(number, p))
    case Array(items) =>
      var vs :- ExpandAll(g, items, active);
      Ok(Array(vs))
    case Map(entries) =>
      var ps :- ExpandPairs(g, entries, active);
      MakeMap(ps)
    case _ => Ok(v)
  }

  function ExpandAll(g: Graph, vs: seq<Value>, active: set<Oid>): Result<seq<Value>>
    decreases g.stored.Keys - active, 1, vs
  {
    if |vs| == 0 then Ok([])
    else
      var v :- Expand(g, vs[0], active);
      var rest :- ExpandAll(g, vs[1..], active);
      Ok([v] + rest)
  }

  function ExpandPairs(g: Graph, ps: seq<Pair>, active: set<Oid>): Result<seq<Pair>>
    decreases g.stored.Keys - active, 1, ps
  {
    if |ps| == 0 then Ok([])
    else
      assert (ps decreases to ps[0]);
      match ps[0]
      case Pair(key, value) =>
        var k :- Expand(g, key, active);
        var v :- Expand(g, value, active);
        var rest :- ExpandPairs(g, ps[1..], active);
        Ok([Pair(k, v)] + rest)
  }

  // ----- The overflow graph -----

  /** The overflow nodes a value names itself. */
  function Names(g: Graph, v: Value): set<Oid>
    decreases v, 0
  {
    match v
    case Tag(number, payload) =>
      if number == OVERFLOW_TAG then
        (match OverflowOid(payload, g.width) case Ok(oid) => {oid} case Err => {})
      else if number == STORED_BLOB_TAG then {}
      else Names(g, payload)
    case Array(items) => NamesAll(g, items)
    case Map(entries) => NamesPairs(g, entries)
    case _ => {}
  }

  function NamesAll(g: Graph, vs: seq<Value>): set<Oid>
    decreases vs, 0
  {
    if |vs| == 0 then {} else Names(g, vs[0]) + NamesAll(g, vs[1..])
  }

  function NamesPairs(g: Graph, ps: seq<Pair>): set<Oid>
    decreases ps, 0
  {
    if |ps| == 0 then {}
    else
      assert (ps decreases to ps[0]);
      match ps[0]
      case Pair(key, value) => Names(g, key) + Names(g, value) + NamesPairs(g, ps[1..])
  }

  predicate Edge(g: Graph, a: Oid, b: Oid) { a in g.stored && b in Names(g, g.stored[a]) }

  ghost predicate IsPath(g: Graph, p: seq<Oid>) {
    |p| > 0 && forall i | 0 <= i < |p| - 1 :: Edge(g, p[i], p[i + 1])
  }

  ghost predicate PathBetween(g: Graph, p: seq<Oid>, a: Oid, b: Oid) {
    IsPath(g, p) && p[0] == a && p[|p| - 1] == b
  }

  ghost predicate Reaches(g: Graph, a: Oid, b: Oid) {
    exists p :: PathBetween(g, p, a, b)
  }

  lemma ReachesSelf(g: Graph, a: Oid)
    ensures Reaches(g, a, a)
  {
    assert PathBetween(g, [a], a, a);
  }

  lemma ReachesVia(g: Graph, a: Oid, b: Oid, c: Oid)
    requires Edge(g, a, b) && Reaches(g, b, c)
    ensures Reaches(g, a, c)
  {
    hide Edge;
    var p :| PathBetween(g, p, b, c);
    var q := [a] + p;
    forall i | 0 <= i < |q| - 1 ensures Edge(g, q[i], q[i + 1]) {
      if i > 0 { assert q[i] == p[i - 1] && q[i + 1] == p[i - 1 + 1]; }
    }
    assert PathBetween(g, q, a, c);
  }

  lemma ReachesThen(g: Graph, a: Oid, b: Oid, c: Oid)
    requires Reaches(g, a, b) && Edge(g, b, c)
    ensures Reaches(g, a, c)
  {
    hide Edge;
    var p :| PathBetween(g, p, a, b);
    var q := p + [c];
    forall i | 0 <= i < |q| - 1 ensures Edge(g, q[i], q[i + 1]) {
      if i < |p| - 1 { assert q[i] == p[i] && q[i + 1] == p[i + 1]; }
    }
    assert PathBetween(g, q, a, c);
  }

  // ----- An expanded value names only expanded values -----

  lemma {:induction false} ExpandResolves(g: Graph, v: Value, active: set<Oid>)
    requires Expand(g, v, active).Ok?
    ensures forall b | b in Names(g, v) :: Resolve(g, b, active).Ok?
    decreases v, 0
  {
    hide MakeMap, Resolve;
    match v
    case Tag(number, payload) =>
      if number != OVERFLOW_TAG && number != STORED_BLOB_TAG { ExpandResolves(g, payload, active); }
    case Array(items) => ExpandAllResolves(g, items, active);
    case Map(entries) => ExpandPairsResolves(g, entries, active);
    case _ =>
  }

  lemma {:induction false} ExpandAllResolves(g: Graph, vs: seq<Value>, active: set<Oid>)
    requires ExpandAll(g, vs, active).Ok?
    ensures forall b | b in NamesAll(g, vs) :: Resolve(g, b, active).Ok?
    decreases vs, 0
  {
    hide Expand, Names, Resolve;
    if |vs| > 0 {
      ExpandResolves(g, vs[0], active);
      ExpandAllResolves(g, vs[1..], active);
    }
  }

  lemma {:induction false} ExpandPairsResolves(g: Graph, ps: seq<Pair>, active: set<Oid>)
    requires ExpandPairs(g, ps, active).Ok?
    ensures forall b | b in NamesPairs(g, ps) :: Resolve(g, b, active).Ok?
    decreases ps, 0
  {
    hide Expand, Names, Resolve;
    if |ps| > 0 {
      assert (ps decreases to ps[0]);
      match ps[0]
      case Pair(key, value) =>
        ExpandResolves(g, key, active);
        ExpandResolves(g, value, active);
        ExpandPairsResolves(g, ps[1..], active);
    }
  }

  /** Below a resolved node nothing is active and nothing repeats: every path is simple. */
  lemma {:induction false} ResolvedPath(g: Graph, p: seq<Oid>, active: set<Oid>)
    requires IsPath(g, p) && Resolve(g, p[0], active).Ok?
    ensures forall i | 0 <= i < |p| :: p[i] !in active
    ensures forall i, j | 0 <= i < j < |p| :: p[i] != p[j]
    decreases |p|
  {
    hide Expand, Names;
    if |p| > 1 {
      var a, tail := p[0], p[1..];
      assert Edge(g, p[0], p[0 + 1]);
      ExpandResolves(g, g.stored[a], active + {a});
      assert IsPath(g, tail) by {
        forall i | 0 <= i < |tail| - 1 ensures Edge(g, tail[i], tail[i + 1]) {
          assert tail[i] == p[i + 1] && tail[i + 1] == p[i + 1 + 1];
        }
      }
      ResolvedPath(g, tail, active + {a});
      forall i | 0 <= i < |p| ensures p[i] !in active { if i > 0 { assert p[i] == tail[i - 1]; } }
      forall i, j | 0 <= i < j < |p| ensures p[i] != p[j] {
        assert p[j] == tail[j - 1];
        if i > 0 { assert p[i] == tail[i - 1]; }
      }
    }
  }

  /** No node on a cycle, and no node that reaches a cycle, ever resolves. */
  lemma AcceptedIsAcyclic(g: Graph, root: Oid, a: Oid, b: Oid)
    requires Resolve(g, root, {}).Ok? && Reaches(g, root, a) && Edge(g, a, b)
    ensures !Reaches(g, b, a)
  {
    hide Resolve, Edge;
    if Reaches(g, b, a) {
      var p :| PathBetween(g, p, root, a);
      var q :| PathBetween(g, q, b, a);
      var r := p + q;
      forall i | 0 <= i < |r| - 1 ensures Edge(g, r[i], r[i + 1]) {
        if i < |p| - 1 {
          assert r[i] == p[i] && r[i + 1] == p[i + 1];
        } else if i >= |p| {
          assert r[i] == q[i - |p|] && r[i + 1] == q[i - |p| + 1];
        }
      }
      assert r[|p| - 1] == r[|r| - 1];
      ResolvedPath(g, r, {});
    }
  }

  // ----- The active set only ever refuses -----

  lemma {:induction false} ResolveFewer(g: Graph, oid: Oid, active: set<Oid>, fewer: set<Oid>)
    requires Resolve(g, oid, active).Ok? && fewer <= active
    ensures Resolve(g, oid, fewer) == Resolve(g, oid, active)
    decreases g.stored.Keys - active, 0
  {
    hide DigestOk;
    ExpandFewer(g, g.stored[oid], active + {oid}, fewer + {oid});
  }

  lemma {:induction false} ExpandFewer(g: Graph, v: Value, active: set<Oid>, fewer: set<Oid>)
    requires Expand(g, v, active).Ok? && fewer <= active
    ensures Expand(g, v, fewer) == Expand(g, v, active)
    decreases g.stored.Keys - active, 1, v
  {
    hide MakeMap, Resolve;
    match v
    case Tag(number, payload) =>
      if number == OVERFLOW_TAG {
        ResolveFewer(g, OverflowOid(payload, g.width).value, active, fewer);
      } else if number != STORED_BLOB_TAG {
        ExpandFewer(g, payload, active, fewer);
      }
    case Array(items) => ExpandAllFewer(g, items, active, fewer);
    case Map(entries) => ExpandPairsFewer(g, entries, active, fewer);
    case _ =>
  }

  lemma {:induction false} ExpandAllFewer(g: Graph, vs: seq<Value>, active: set<Oid>, fewer: set<Oid>)
    requires ExpandAll(g, vs, active).Ok? && fewer <= active
    ensures ExpandAll(g, vs, fewer) == ExpandAll(g, vs, active)
    decreases g.stored.Keys - active, 1, vs
  {
    hide Expand;
    if |vs| > 0 {
      ExpandFewer(g, vs[0], active, fewer);
      ExpandAllFewer(g, vs[1..], active, fewer);
    }
  }

  lemma {:induction false} ExpandPairsFewer(g: Graph, ps: seq<Pair>, active: set<Oid>, fewer: set<Oid>)
    requires ExpandPairs(g, ps, active).Ok? && fewer <= active
    ensures ExpandPairs(g, ps, fewer) == ExpandPairs(g, ps, active)
    decreases g.stored.Keys - active, 1, ps
  {
    hide Expand;
    if |ps| > 0 {
      assert (ps decreases to ps[0]);
      match ps[0]
      case Pair(key, value) =>
        ExpandFewer(g, key, active, fewer);
        ExpandFewer(g, value, active, fewer);
        ExpandPairsFewer(g, ps[1..], active, fewer);
    }
  }

  /** No node a value names reaches any of `extra`. */
  ghost predicate Clear(g: Graph, names: set<Oid>, extra: set<Oid>) {
    forall a, b | a in extra && b in names :: !Reaches(g, b, a)
  }

  lemma {:induction false} ResolveMore(g: Graph, oid: Oid, active: set<Oid>, extra: set<Oid>)
    requires Resolve(g, oid, active).Ok? && Clear(g, {oid}, extra)
    ensures Resolve(g, oid, active + extra) == Resolve(g, oid, active)
    decreases g.stored.Keys - active, 0
  {
    hide DigestOk, Reaches, Expand;
    ReachesSelf(g, oid);
    var v := g.stored[oid];
    forall a, b | a in extra && b in Names(g, v) ensures !Reaches(g, b, a) {
      if Reaches(g, b, a) { ReachesVia(g, oid, b, a); }
    }
    ExpandMore(g, v, active + {oid}, extra);
    assert active + {oid} + extra == active + extra + {oid};
  }

  lemma {:induction false} ExpandMore(g: Graph, v: Value, active: set<Oid>, extra: set<Oid>)
    requires Expand(g, v, active).Ok? && Clear(g, Names(g, v), extra)
    ensures Expand(g, v, active + extra) == Expand(g, v, active)
    decreases g.stored.Keys - active, 1, v
  {
    hide MakeMap, Resolve, Reaches;
    match v
    case Tag(number, payload) =>
      if number == OVERFLOW_TAG {
        ResolveMore(g, OverflowOid(payload, g.width).value, active, extra);
      } else if number != STORED_BLOB_TAG {
        ExpandMore(g, payload, active, extra);
      }
    case Array(items) => ExpandAllMore(g, items, active, extra);
    case Map(entries) => ExpandPairsMore(g, entries, active, extra);
    case _ =>
  }

  lemma {:induction false} ExpandAllMore(g: Graph, vs: seq<Value>, active: set<Oid>, extra: set<Oid>)
    requires ExpandAll(g, vs, active).Ok? && Clear(g, NamesAll(g, vs), extra)
    ensures ExpandAll(g, vs, active + extra) == ExpandAll(g, vs, active)
    decreases g.stored.Keys - active, 1, vs
  {
    hide Expand, Names, Reaches;
    if |vs| > 0 {
      ExpandMore(g, vs[0], active, extra);
      ExpandAllMore(g, vs[1..], active, extra);
    }
  }

  lemma {:induction false} ExpandPairsMore(g: Graph, ps: seq<Pair>, active: set<Oid>, extra: set<Oid>)
    requires ExpandPairs(g, ps, active).Ok? && Clear(g, NamesPairs(g, ps), extra)
    ensures ExpandPairs(g, ps, active + extra) == ExpandPairs(g, ps, active)
    decreases g.stored.Keys - active, 1, ps
  {
    hide Expand, Names, Reaches;
    if |ps| > 0 {
      assert (ps decreases to ps[0]);
      match ps[0]
      case Pair(key, value) =>
        ExpandMore(g, key, active, extra);
        ExpandMore(g, value, active, extra);
        ExpandPairsMore(g, ps[1..], active, extra);
    }
  }

  // ----- No overflow reference survives -----

  /** A tag-60113 reference occurs outside stored Blob references. */
  predicate HasOverflow(v: Value)
    decreases v, 0
  {
    match v
    case Tag(number, payload) =>
      number == OVERFLOW_TAG || (number != STORED_BLOB_TAG && HasOverflow(payload))
    case Array(items) => exists i | 0 <= i < |items| :: HasOverflow(items[i])
    case Map(entries) => exists i | 0 <= i < |entries| :: PairHasOverflow(entries[i])
    case _ => false
  }

  predicate PairHasOverflow(p: Pair)
    decreases p, 0
  {
    match p
    case Pair(key, value) => HasOverflow(key) || HasOverflow(value)
  }

  lemma MakeMapClean(ps: seq<Pair>)
    requires MakeMap(ps).Ok? && forall i | 0 <= i < |ps| :: !PairHasOverflow(ps[i])
    ensures !HasOverflow(MakeMap(ps).value)
  {
    hide MakeMap;
    MakeMapCanonical(ps);
    var qs := MakeMap(ps).value.entries;
    forall i | 0 <= i < |qs| ensures !PairHasOverflow(qs[i]) {
      assert qs[i] in multiset(qs);
      assert qs[i] in multiset(ps);
      var j :| 0 <= j < |ps| && ps[j] == qs[i];
    }
  }

  lemma {:induction false} ResolveClean(g: Graph, oid: Oid, active: set<Oid>)
    requires Resolve(g, oid, active).Ok?
    ensures !HasOverflow(Resolve(g, oid, active).value)
    decreases g.stored.Keys - active, 0
  {
    hide DigestOk, HasOverflow;
    ExpandClean(g, g.stored[oid], active + {oid});
  }

  lemma {:induction false} ExpandClean(g: Graph, v: Value, active: set<Oid>)
    requires Expand(g, v, active).Ok?
    ensures !HasOverflow(Expand(g, v, active).value)
    decreases g.stored.Keys - active, 1, v
  {
    hide MakeMap, Resolve;
    match v
    case Tag(number, payload) =>
      if number == OVERFLOW_TAG {
        ResolveClean(g, OverflowOid(payload, g.width).value, active);
      } else if number != STORED_BLOB_TAG {
        ExpandClean(g, payload, active);
      }
    case Array(items) => ExpandAllClean(g, items, active);
    case Map(entries) =>
      ExpandPairsClean(g, entries, active);
      MakeMapClean(ExpandPairs(g, entries, active).value);
    case _ =>
  }

  lemma {:induction false} ExpandAllClean(g: Graph, vs: seq<Value>, active: set<Oid>)
    requires ExpandAll(g, vs, active).Ok?
    ensures forall i | 0 <= i < |ExpandAll(g, vs, active).value| :: !HasOverflow(ExpandAll(g, vs, active).value[i])
    decreases g.stored.Keys - active, 1, vs
  {
    hide Expand, HasOverflow;
    if |vs| > 0 {
      ExpandClean(g, vs[0], active);
      ExpandAllClean(g, vs[1..], active);
    }
  }

  lemma {:induction false} ExpandPairsClean(g: Graph, ps: seq<Pair>, active: set<Oid>)
    requires ExpandPairs(g, ps, active).Ok?
    ensures forall i | 0 <= i < |ExpandPairs(g, ps, active).value| ::
              !PairHasOverflow(ExpandPairs(g, ps, active).value[i])
    decreases g.stored.Keys - active, 1, ps
  {
    hide Expand, HasOverflow;
    if |ps| > 0 {
      assert (ps decreases to ps[0]);
      match ps[0]
      case Pair(key, value) =>
        ExpandClean(g, key, active);
        ExpandClean(g, value, active);
        ExpandPairsClean(g, ps[1..], active);
    }
  }

  /** The semantic form meets no overflow reference where there is none. */
  lemma {:induction false} SemanticMeets(v: Value)
    requires !HasOverflow(v)
    ensures !SemanticOf(v).OverflowSurvived?
    decreases v, 0
  {
    hide MakeMap;
    match v
    case Tag(number, payload) =>
      if number != OVERFLOW_TAG && number != STORED_BLOB_TAG { SemanticMeets(payload); }
    case Array(items) => SemanticAllMeets(items);
    case Map(entries) => SemanticPairsMeets(entries);
    case _ =>
  }

  lemma {:induction false} SemanticAllMeets(vs: seq<Value>)
    requires forall i | 0 <= i < |vs| :: !HasOverflow(vs[i])
    ensures SemanticAll(vs).ListFailed? ==> !SemanticAll(vs).why.OverflowSurvived?
    decreases vs, 0
  {
    hide SemanticOf, HasOverflow;
    if |vs| > 0 {
      SemanticMeets(vs[0]);
      SemanticAllMeets(vs[1..]);
    }
  }

  lemma {:induction false} SemanticPairsMeets(ps: seq<Pair>)
    requires forall i | 0 <= i < |ps| :: !PairHasOverflow(ps[i])
    ensures SemanticPairs(ps).ListFailed? ==> !SemanticPairs(ps).why.OverflowSurvived?
    decreases ps, 0
  {
    hide SemanticOf, HasOverflow;
    if |ps| > 0 {
      assert (ps decreases to ps[0]);
      match ps[0]
      case Pair(key, value) =>
        assert !PairHasOverflow(ps[0]);
        SemanticMeets(key);
        SemanticMeets(value);
        SemanticPairsMeets(ps[1..]);
    }
  }

  /** The refusal "an overflow reference survived expansion" never fires. */
  lemma SurvivalUnreachable(g: Graph, v: Value, active: set<Oid>)
    requires Expand(g, v, active).Ok?
    ensures !HasOverflow(Expand(g, v, active).value)
    ensures !SemanticOf(Expand(g, v, active).value).OverflowSurvived?
  {
    ExpandClean(g, v, active);
    SemanticMeets(Expand(g, v, active).value);
  }
}
