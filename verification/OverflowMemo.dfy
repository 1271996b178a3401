/**
 Overflow expansion as the extractor runs it: one memo shared by every call, and an active set
 that grows along the current chain of references.
 */
module OverflowMemo {
  import opened Prelude
  import opened Cbor
  import opened Overflow

  /** Every active node leads to every node named from here. */
  ghost predicate Ancestors(g: Graph, active: set<Oid>, names: set<Oid>) {
    forall a, b | a in active && b in names :: Reaches(g, a, b)
  }

  /** A node resolved once resolves to the same value below any of its ancestors. */
  lemma MemoHit(g: Graph, oid: Oid, active: set<Oid>)
    requires Resolve(g, oid, {}).Ok? && oid !in active && Ancestors(g, active, {oid})
    ensures Resolve(g, oid, active) == Resolve(g, oid, {})
  {
    hide Resolve, Edge;
    forall a | a in active ensures !Reaches(g, oid, a) {
      if Reaches(g, oid, a) {
        assert Reaches(g, a, oid);
        var p :| PathBetween(g, p, oid, a);
        var q :| PathBetween(g, q, a, oid);
        NoWayBack(g, p, q);
      }
    }
    ResolveMore(g, oid, {}, active);
    assert {} + active == active;
  }

  /** A node with a way to another node and back never resolves. */
  lemma NoWayBack(g: Graph, p: seq<Oid>, q: seq<Oid>)
    requires IsPath(g, p) && IsPath(g, q) && p[|p| - 1] == q[0] && q[|q| - 1] == p[0] && p[0] != q[0]
    ensures Resolve(g, p[0], {}).Err?
  {
    hide Resolve, Edge;
    var r := p + q[1..];
    forall i | 0 <= i < |r| - 1 ensures Edge(g, r[i], r[i + 1]) {
      if i < |p| - 1 {
        assert r[i] == p[i] && r[i + 1] == p[i + 1];
      } else {
        var k := i - (|p| - 1);
        assert r[i] == q[k] && r[i + 1] == q[k + 1];
      }
    }
    assert r[0] == r[|r| - 1];
    if Resolve(g, r[0], {}).Ok? { ResolvedPath(g, r, {}); }
  }

  /** Descending into a stored value keeps the ancestry. */
  lemma Descendants(g: Graph, oid: Oid, active: set<Oid>)
    requires oid in g.stored && Ancestors(g, active, {oid})
    ensures Ancestors(g, active + {oid}, Names(g, g.stored[oid]))
  {
    hide Names, Reaches;
    forall a, b | a in active + {oid} && b in Names(g, g.stored[oid]) ensures Reaches(g, a, b) {
      if a == oid { ReachesSelf(g, oid); }
      assert Reaches(g, a, oid);
      ReachesThen(g, a, oid, b);
    }
  }

  class Expander {
    const g: Graph
    var overflows: map<Oid, Value>

    constructor (g: Graph)
      ensures this.g == g && Valid()
    {
      this.g, overflows := g, map[];
    }

    /** Everything remembered is what expansion from scratch returns. */
    ghost predicate Valid()
      reads this
    {
      forall oid | oid in overflows :: Resolve(g, oid, {}) == Ok(overflows[oid])
    }

    method OverflowValue(oid: Oid, active: set<Oid>) returns (r: Result<Value>)
      requires Valid() && Ancestors(g, active, {oid})
      modifies this
      ensures Valid() && r == Resolve(g, oid, active)
      decreases g.stored.Keys - active, 0
    {
      hide Reaches, Expand, DigestOk, Names;
      if oid in active { return Err; }
      if oid in overflows && overflows[oid] != Null {
        MemoHit(g, oid, active);
        return Ok(overflows[oid]);
      }
      if oid !in g.stored { return Err; }
      Descendants(g, oid, active);
      var expanded := ExpandValue(g.stored[oid], active + {oid});
      if expanded.Err? || !DigestOk(g, oid, expanded.value) { return Err; }
      r := expanded;
      ResolveFewer(g, oid, active, {});
      overflows := overflows[oid := expanded.value];
    }

    method ExpandValue(v: Value, active: set<Oid>) returns (r: Result<Value>)
      requires Valid() && Ancestors(g, active, Names(g, v))
      modifies this
      ensures Valid() && r == Expand(g, v, active)
      decreases g.stored.Keys - active, 1, v
    {
      hide Reaches, Resolve, MakeMap, ExpandAll, ExpandPairs, NamesAll, NamesPairs;
      match v
      case Tag(number, payload) =>
        if number == OVERFLOW_TAG {
          var oid := OverflowOid(payload, g.width);
          if oid.Err? { return Err; }
          r := OverflowValue(oid.value, active);
        } else if number == STORED_BLOB_TAG {
          r := Ok(v);
        } else {
          var p := ExpandValue(payload, active);
          r := if p.Err? then Err else Ok(Tag(number, p.value));
        }
      case Array(items) =>
        var vs := ExpandItems(items, active);
        r := if vs.Err? then Err else Ok(Array(vs.value));
      case Map(entries) =>
        var ps := ExpandEntries(entries, active);
        r := if ps.Err? then Err else MakeMap(ps.value);
      case _ => r := Ok(v);
    }

    method ExpandItems(vs: seq<Value>, active: set<Oid>) returns (r: Result<seq<Value>>)
      requires Valid() && Ancestors(g, active, NamesAll(g, vs))
      modifies this
      ensures Valid() && r == ExpandAll(g, vs, active)
      decreases g.stored.Keys - active, 1, vs
    {
      hide Reaches, Expand, Names;
      if |vs| == 0 { return Ok([]); }
      var head := ExpandValue(vs[0], active);
      if head.Err? { return Err; }
      var tail := ExpandItems(vs[1..], active);
      r := if tail.Err? then Err else Ok([head.value] + tail.value);
    }

    method ExpandEntries(ps: seq<Pair>, active: set<Oid>) returns (r: Result<seq<Pair>>)
      requires Valid() && Ancestors(g, active, NamesPairs(g, ps))
      modifies this
      ensures Valid() && r == ExpandPairs(g, ps, active)
      decreases g.stored.Keys - active, 1, ps
    {
      hide Reaches, Expand, Names;
      if |ps| == 0 { return Ok([]); }
      assert (ps decreases to ps[0]);
      match ps[0]
      case Pair(key, value) =>
        var k := ExpandValue(key, active);
        if k.Err? { return Err; }
        var v := ExpandValue(value, active);
        if v.Err? { return Err; }
        var tail := ExpandEntries(ps[1..], active);
        r := if tail.Err? then Err else Ok([Pair(k.value, v.value)] + tail.value);
    }
  }

  /** Any sequence of top-level expansions returns, value by value, what no memo would return. */
  method ExpandRows(g: Graph, values: seq<Value>) returns (rs: seq<Result<Value>>)
    ensures |rs| == |values|
    ensures forall i | 0 <= i < |values| :: rs[i] == Expand(g, values[i], {})
    ensures forall i | 0 <= i < |values| :: rs[i].Ok? ==> !HasOverflow(rs[i].value)
  {
    hide Expand, HasOverflow, Names;
    var expander := new Expander(g);
    rs := [];
    for i := 0 to |values|
      invariant expander.Valid() && expander.g == g && |rs| == i
      invariant forall j | 0 <= j < i :: rs[j] == Expand(g, values[j], {})
      invariant forall j | 0 <= j < i :: rs[j].Ok? ==> !HasOverflow(rs[j].value)
    {
      var r := expander.ExpandValue(values[i], {});
      if r.Ok? { SurvivalUnreachable(g, values[i], {}); }
      rs := rs + [r];
    }
  }
}
