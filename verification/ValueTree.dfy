/**
 Decoded values as trees: the values a value holds directly, in order, and the form they are held in.
 A form and its kids determine the value, so a law about forms and kids leaves nothing of it open.
 */
module ValueTree {
  import opened Prelude
  import opened Cbor

  /** The payload of a tag, the items of an array, the keys and values of a map in turn. */
  function Kids(v: Value): seq<Value> {
    match v
    case Tag(_, payload) => [payload]
    case Array(items) => items
    case Map(entries) => EntryKids(entries)
    case _ => []
  }

  function EntryKids(entries: seq<Pair>): (r: seq<Value>)
    ensures |r| == 2 * |entries|
    ensures forall i | 0 <= i < |entries| :: r[2 * i] == entries[i].key && r[2 * i + 1] == entries[i].value
  {
    if |entries| == 0 then []
    else
      var rest := EntryKids(entries[1..]);
      assert forall i | 0 < i < |entries| :: entries[i] == entries[1..][i - 1];
      [entries[0].key, entries[0].value] + rest
  }

  /** Every kid of a map is the key or the value of an entry. */
  lemma EntryKidAt(entries: seq<Pair>, k: nat)
    requires k < 2 * |entries|
    ensures EntryKids(entries)[k] == if k % 2 == 0 then entries[k / 2].key else entries[k / 2].value
  {
    var i := k / 2;
    assert k == 2 * i || k == 2 * i + 1;
  }

  /** One constructor, the same tag number or length; a value that holds nothing is equal to its like. */
  predicate SameForm(v: Value, w: Value) {
    match v
    case Tag(number, _) => w.Tag? && w.number == number
    case Array(items) => w.Array? && |w.items| == |items|
    case Map(entries) => w.Map? && |w.entries| == |entries|
    case _ => w == v
  }

  lemma EntriesDetermined(ps: seq<Pair>, qs: seq<Pair>)
    requires EntryKids(ps) == EntryKids(qs)
    ensures ps == qs
  {
    assert |ps| == |qs|;
    forall i | 0 <= i < |ps| ensures ps[i] == qs[i] {
      assert EntryKids(ps)[2 * i] == ps[i].key && EntryKids(ps)[2 * i + 1] == ps[i].value;
      assert EntryKids(qs)[2 * i] == qs[i].key && EntryKids(qs)[2 * i + 1] == qs[i].value;
    }
  }

  lemma KidsDetermine(v: Value, w: Value)
    requires SameForm(v, w) && Kids(v) == Kids(w)
    ensures v == w
  {
    match v {
      case Tag(_, payload) => assert Kids(v)[0] == Kids(w)[0];
      case Map(entries) => EntriesDetermined(entries, w.entries);
      case _ =>
    }
  }

  // ----- Depth -----

  /** What is nested directly in a value as encoded: a wide integer is a tag over its bytes. */
  function Nested(v: Value): seq<Value> {
    if v.Int? && !Small(v.i) then [Bytes(Minimal(Magnitude(v.i)))] else Kids(v)
  }

  /** A way down into a value, by positions. */
  ghost predicate LeadsDown(v: Value, path: seq<nat>)
    decreases |path|
  {
    path == [] || (path[0] < |Nested(v)| && LeadsDown(Nested(v)[path[0]], path[1..]))
  }

  lemma {:induction false} ItemDepth(vs: seq<Value>, i: nat)
    requires i < |vs|
    ensures 1 + Depth(vs[i]) <= DepthAll(vs)
    decreases |vs|
  {
    hide Depth;
    if i > 0 { ItemDepth(vs[1..], i - 1); }
  }

  lemma {:induction false} DeepestItem(vs: seq<Value>) returns (i: nat)
    requires |vs| > 0
    ensures i < |vs| && DepthAll(vs) == 1 + Depth(vs[i])
    decreases |vs|
  {
    hide Depth;
    i := 0;
    if |vs| > 1 {
      var j := DeepestItem(vs[1..]);
      if Depth(vs[1..][j]) > Depth(vs[0]) { i := j + 1; }
    } else {
      assert DepthAll(vs[1..]) == 0;
    }
  }

  lemma {:induction false} EntryDepth(ps: seq<Pair>)
    ensures DepthPairs(ps) == DepthAll(EntryKids(ps))
  {
    hide Depth;
    if |ps| > 0 {
      EntryDepth(ps[1..]);
      var kids := EntryKids(ps);
      assert kids[1..][1..] == EntryKids(ps[1..]) && kids[1..][0] == kids[1];
    }
  }

  lemma NestedDepth(v: Value)
    ensures Depth(v) == DepthAll(Nested(v))
  {
    if v.Tag? || Nested(v) != Kids(v) {
      assert Nested(v)[1..] == [] && DepthAll([]) == 0;
    }
    if v.Map? { EntryDepth(v.entries); }
    hide DepthPairs;
  }

  lemma {:induction false} PathBound(v: Value, path: seq<nat>)
    requires LeadsDown(v, path)
    ensures |path| <= Depth(v)
    decreases |path|
  {
    if path != [] {
      hide Depth, Nested, DepthAll;
      NestedDepth(v);
      ItemDepth(Nested(v), path[0]);
      PathBound(Nested(v)[path[0]], path[1..]);
    }
  }

  lemma {:induction false} DeepPath(v: Value) returns (path: seq<nat>)
    ensures LeadsDown(v, path) && |path| == Depth(v)
    decreases Depth(v)
  {
    hide Depth, Nested, DepthAll;
    NestedDepth(v);
    if |Nested(v)| == 0 {
      path := [];
      assert DepthAll([]) == 0 by { NothingDeep(); }
      assert Nested(v) == [];
    } else {
      var i := DeepestItem(Nested(v));
      var rest := DeepPath(Nested(v)[i]);
      path := [i] + rest;
      assert path[1..] == rest;
    }
  }

  lemma NothingDeep()
    ensures DepthAll([]) == 0
  {
  }

  /** A value is no deeper than a bound exactly when no way down into it is longer. */
  lemma DepthExact(v: Value, bound: nat)
    ensures Depth(v) <= bound <==> forall path | LeadsDown(v, path) :: |path| <= bound
  {
    hide Depth, LeadsDown;
    forall path | LeadsDown(v, path) ensures |path| <= Depth(v) { PathBound(v, path); }
    var deep := DeepPath(v);
  }
}
