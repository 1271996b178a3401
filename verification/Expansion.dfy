/**
 What expansion and the semantic form keep of a value (`expand`, `semantic`): each is told apart from
 any other transformation by what it does at every position. Overflow references give way to what
 their nodes resolve to, and everything else keeps its form.
 */
module Expansion {
  import opened Prelude
  import opened Cbor
  import opened Sorting
  import opened ValueTree
  import opened Overflow

  // ----- make_map, told by its result -----

  lemma {:induction false} AscendStrictly(ps: seq<Pair>, i: nat, j: nat)
    requires KeysAscend(ps) && i < j < |ps|
    ensures KeyLess(ps[i], ps[j]) && !KeyLess(ps[j], ps[i])
    decreases |ps|
  {
    hide Encode, LexLess;
    if i > 0 {
      AscendStrictly(ps[1..], i - 1, j - 1);
    } else {
      if j > 1 {
        AscendStrictly(ps[1..], 0, j - 1);
        LexTransitive(Encode(ps[0].key), Encode(ps[1].key), Encode(ps[j].key));
      }
      LexAsymmetric(Encode(ps[0].key), Encode(ps[j].key));
    }
  }

  lemma AscendSorted(ps: seq<Pair>)
    requires KeysAscend(ps)
    ensures StrictlySortedBy(ps, KeyLess)
  {
    hide KeysAscend, KeyLess;
    forall i, j | 0 <= i < j < |ps| ensures KeyLess(ps[i], ps[j]) && !KeyLess(ps[j], ps[i]) {
      AscendStrictly(ps, i, j);
    }
  }

  /** Pairs that have a strict order by encoded key have no two equal encoded keys. */
  lemma NoRepeat(sorted: seq<Pair>, strict: seq<Pair>)
    requires KeysAscend(strict) && multiset(sorted) == multiset(strict)
    ensures !AdjacentRepeat(sorted)
  {
    hide KeysAscend, Encode, LexLess;
    if i :| 0 <= i < |sorted| - 1 && Encode(sorted[i].key) == Encode(sorted[i + 1].key) {
      MemberByMultiset(sorted, strict, sorted[i]);
      MemberByMultiset(sorted, strict, sorted[i + 1]);
      var a :| 0 <= a < |strict| && strict[a] == sorted[i];
      var b :| 0 <= b < |strict| && strict[b] == sorted[i + 1];
      LexIrreflexive(Encode(sorted[i].key));
      if a < b { AscendStrictly(strict, a, b); }
      if b < a { AscendStrictly(strict, b, a); }
      AscendSorted(strict);
      DistinctMembers(strict, a);
      OnceInSequence(strict, a);
      TwiceInSequence(sorted, i, i + 1);
    }
  }

  lemma DistinctMembers(ps: seq<Pair>, a: nat)
    requires StrictlySortedBy(ps, KeyLess) && a < |ps|
    ensures forall i | 0 <= i < |ps| && i != a :: ps[i] != ps[a]
  {
    hide KeyLess;
  }

  /** A map is made of pairs exactly when it holds those pairs and no others, in canonical key order. */
  lemma MakeMapExact(ps: seq<Pair>, w: Value)
    ensures MakeMap(ps) == Ok(w) <==> w.Map? && KeysAscend(w.entries) && multiset(w.entries) == multiset(ps)
  {
    hide KeysAscend, SortBy, AdjacentRepeat, SortedBy;
    if MakeMap(ps) == Ok(w) { MakeMapCanonical(ps); }
    if w.Map? && KeysAscend(w.entries) && multiset(w.entries) == multiset(ps) {
      var sorted := SortBy(ps, KeyLess);
      SortByPermutes(ps, KeyLess);
      NoRepeat(sorted, w.entries);
      MakeMapCanonical(ps);
      AscendSorted(sorted);
      AscendSorted(w.entries);
      StrictUnique(sorted, w.entries, KeyLess);
    }
  }

  // ----- Expansion, position by position -----

  /** A value-overflow reference: tag 60113 over an array of one object id. */
  predicate OverflowReference(g: Graph, v: Value, oid: Oid) {
    v == Tag(OVERFLOW_TAG, Array([Bytes(oid)])) && |oid| == g.width
  }

  /**
   * The expansion of a value: of an overflow reference, what the node it names resolves to; of a
   * stored Blob reference, itself; of any other value, the value of the same form that holds the
   * expansions of its kids, in their places or, in a map, in canonical key order.
   */
  ghost predicate Expanded(g: Graph, v: Value, active: set<Oid>, w: Value) {
    if v.Tag? && v.number == OVERFLOW_TAG then
      exists oid :: OverflowReference(g, v, oid) && Resolve(g, oid, active) == Ok(w)
    else if v.Tag? && v.number == STORED_BLOB_TAG then w == v
    else if v.Map? then
      exists ps :: KidsExpand(g, Kids(v), EntryKids(ps), active)
                   && w.Map? && KeysAscend(w.entries) && multiset(w.entries) == multiset(ps)
    else SameForm(v, w) && KidsExpand(g, Kids(v), Kids(w), active)
  }

  ghost predicate KidsExpand(g: Graph, vs: seq<Value>, ws: seq<Value>, active: set<Oid>) {
    |vs| == |ws| && forall i | 0 <= i < |vs| :: Expand(g, vs[i], active) == Ok(ws[i])
  }

  lemma {:induction false} ExpandAllExact(g: Graph, vs: seq<Value>, active: set<Oid>, ws: seq<Value>)
    ensures ExpandAll(g, vs, active) == Ok(ws) <==> KidsExpand(g, vs, ws, active)
    decreases |vs|
  {
    hide Expand;
    if |vs| > 0 && |ws| > 0 {
      ExpandAllExact(g, vs[1..], active, ws[1..]);
      assert ws == [ws[0]] + ws[1..] && vs == [vs[0]] + vs[1..];
      assert KidsExpand(g, vs, ws, active) <==>
        Expand(g, vs[0], active) == Ok(ws[0]) && KidsExpand(g, vs[1..], ws[1..], active) by {
        KidsExpandSplit(g, vs, ws, active);
      }
    }
  }

  lemma KidsExpandSplit(g: Graph, vs: seq<Value>, ws: seq<Value>, active: set<Oid>)
    requires |vs| > 0 && |ws| > 0
    ensures KidsExpand(g, vs, ws, active) <==>
      Expand(g, vs[0], active) == Ok(ws[0]) && KidsExpand(g, vs[1..], ws[1..], active)
  {
    hide Expand;
    assert |vs| == |ws| ==> forall i | 0 < i < |vs| :: vs[i] == vs[1..][i - 1] && ws[i] == ws[1..][i - 1];
  }

  lemma {:induction false} ExpandPairsExact(g: Graph, ps: seq<Pair>, active: set<Oid>, qs: seq<Pair>)
    ensures ExpandPairs(g, ps, active) == Ok(qs) <==> KidsExpand(g, EntryKids(ps), EntryKids(qs), active)
    decreases |ps|
  {
    hide Expand;
    if |ps| > 0 && |qs| > 0 {
      ExpandPairsExact(g, ps[1..], active, qs[1..]);
      assert qs == [qs[0]] + qs[1..];
      var vs, ws := EntryKids(ps), EntryKids(qs);
      KidsExpandSplit(g, vs, ws, active);
      KidsExpandSplit(g, vs[1..], ws[1..], active);
      assert vs[1..][1..] == EntryKids(ps[1..]) && ws[1..][1..] == EntryKids(qs[1..]);
      PairsStep(g, ps, active, qs);
    }
  }

  lemma PairsStep(g: Graph, ps: seq<Pair>, active: set<Oid>, qs: seq<Pair>)
    requires |ps| > 0 && |qs| > 0
    ensures ExpandPairs(g, ps, active) == Ok(qs) <==>
      Expand(g, ps[0].key, active) == Ok(qs[0].key) && Expand(g, ps[0].value, active) == Ok(qs[0].value)
      && ExpandPairs(g, ps[1..], active) == Ok(qs[1..])
  {
    hide Expand;
    assert qs == [qs[0]] + qs[1..];
  }

  /** Expansion is exactly that, at every value. */
  lemma ExpandExact(g: Graph, v: Value, active: set<Oid>, w: Value)
    ensures Expand(g, v, active) == Ok(w) <==> Expanded(g, v, active, w)
  {
    hide Resolve, MakeMap, ExpandAll, ExpandPairs, KeysAscend;
    match v {
      case Tag(number, payload) =>
        if number == OVERFLOW_TAG {
          OverflowExact(g, payload);
        } else if number != STORED_BLOB_TAG {
          if w.Tag? { OneKid(g, payload, w.value, active); }
        }
      case Array(items) =>
        if w.Array? { ExpandAllExact(g, items, active, w.items); }
        if ExpandAll(g, items, active).Ok? { ExpandAllExact(g, items, active, ExpandAll(g, items, active).value); }
      case Map(entries) => ExpandMapExact(g, entries, active, w);
      case _ =>
    }
  }

  lemma OneKid(g: Graph, a: Value, b: Value, active: set<Oid>)
    ensures KidsExpand(g, [a], [b], active) <==> Expand(g, a, active) == Ok(b)
  {
    hide Expand;
    assert [a][0] == a && [b][0] == b;
  }

  lemma OverflowExact(g: Graph, payload: Value)
    ensures OverflowOid(payload, g.width).Ok? <==> exists oid :: OverflowReference(g, Tag(OVERFLOW_TAG, payload), oid)
    ensures forall oid | OverflowReference(g, Tag(OVERFLOW_TAG, payload), oid) ::
              OverflowOid(payload, g.width) == Ok(oid)
  {
    if OverflowOid(payload, g.width).Ok? {
      assert payload.items == [payload.items[0]];
      assert OverflowReference(g, Tag(OVERFLOW_TAG, payload), payload.items[0].data);
    }
  }

  lemma ExpandMapExact(g: Graph, entries: seq<Pair>, active: set<Oid>, w: Value)
    ensures Expand(g, Map(entries), active) == Ok(w) <==> Expanded(g, Map(entries), active, w)
  {
    hide Resolve, MakeMap, ExpandPairs, KeysAscend;
    if ExpandPairs(g, entries, active).Ok? {
      var ps := ExpandPairs(g, entries, active).value;
      ExpandPairsExact(g, entries, active, ps);
      MakeMapExact(ps, w);
    }
    if Expanded(g, Map(entries), active, w) {
      var ps :| KidsExpand(g, Kids(Map(entries)), EntryKids(ps), active)
                && w.Map? && KeysAscend(w.entries) && multiset(w.entries) == multiset(ps);
      ExpandPairsExact(g, entries, active, ps);
    }
  }

  // ----- What has nothing to expand stays -----

  lemma {:induction false} KidsWellFormed(ps: seq<Pair>, tags: set<nat>, i: nat)
    requires PairsWellFormed(ps, tags) && i < |ps|
    ensures WellFormed(ps[i].key, tags) && WellFormed(ps[i].value, tags)
  {
    hide WellFormed;
    if i > 0 { KidsWellFormed(ps[1..], tags, i - 1); }
  }

  lemma {:induction false} ItemsWellFormed(vs: seq<Value>, tags: set<nat>, i: nat)
    requires AllWellFormed(vs, tags) && i < |vs|
    ensures WellFormed(vs[i], tags)
  {
    hide WellFormed;
    if i > 0 { ItemsWellFormed(vs[1..], tags, i - 1); }
  }

  /** A well-formed value that names no overflow node expands to itself. */
  lemma {:induction false} ExpandFixed(g: Graph, v: Value, tags: set<nat>, active: set<Oid>)
    requires WellFormed(v, tags) && !HasOverflow(v)
    ensures Expand(g, v, active) == Ok(v)
    decreases v, 1
  {
    hide Resolve, MakeMap, KeysAscend;
    match v {
      case Tag(number, payload) => if number != STORED_BLOB_TAG { ExpandFixed(g, payload, tags, active); }
      case Array(items) => ExpandAllFixed(g, items, tags, active);
      case Map(entries) =>
        ExpandPairsFixed(g, entries, tags, active);
        MakeMapExact(entries, v);
      case _ =>
    }
  }

  lemma {:induction false} ExpandAllFixed(g: Graph, vs: seq<Value>, tags: set<nat>, active: set<Oid>)
    requires AllWellFormed(vs, tags) && forall i | 0 <= i < |vs| :: !HasOverflow(vs[i])
    ensures ExpandAll(g, vs, active) == Ok(vs)
    decreases vs, 0
  {
    hide Expand, WellFormed, HasOverflow;
    if |vs| > 0 {
      ExpandFixed(g, vs[0], tags, active);
      ExpandAllFixed(g, vs[1..], tags, active);
      assert vs == [vs[0]] + vs[1..];
    }
  }

  lemma {:induction false} ExpandPairsFixed(g: Graph, ps: seq<Pair>, tags: set<nat>, active: set<Oid>)
    requires PairsWellFormed(ps, tags) && forall i | 0 <= i < |ps| :: !PairHasOverflow(ps[i])
    ensures ExpandPairs(g, ps, active) == Ok(ps)
    decreases ps, 0
  {
    hide Expand, WellFormed, HasOverflow;
    if |ps| > 0 {
      assert (ps decreases to ps[0]) && !PairHasOverflow(ps[0]);
      ExpandFixed(g, ps[0].key, tags, active);
      ExpandFixed(g, ps[0].value, tags, active);
      ExpandPairsFixed(g, ps[1..], tags, active);
      assert ps == [ps[0]] + ps[1..];
      PairsStep(g, ps, active, ps);
    }
  }

  // ----- Where overflow references are -----

  /** A value holds an overflow reference itself or in a kid, stored Blob references apart. */
  lemma HasOverflowExact(v: Value)
    ensures HasOverflow(v) <==>
      (v.Tag? && v.number == OVERFLOW_TAG)
      || (!(v.Tag? && v.number == STORED_BLOB_TAG) && exists i | 0 <= i < |Kids(v)| :: HasOverflow(Kids(v)[i]))
  {
    match v {
      case Tag(_, payload) => assert Kids(v)[0] == payload;
      case Array(items) => assert Kids(v) == items;
      case Map(entries) =>
        EntriesOverflow(entries);
        assert v == Map(entries) && Kids(v) == EntryKids(entries);
      case _ => assert Kids(v) == [];
    }
  }

  lemma EntriesOverflow(entries: seq<Pair>)
    ensures HasOverflow(Map(entries)) <==> exists k | 0 <= k < 2 * |entries| :: HasOverflow(EntryKids(entries)[k])
  {
    assert HasOverflow(Map(entries)) <==> exists i | 0 <= i < |entries| :: PairHasOverflow(entries[i]);
    hide EntryKids, HasOverflow;
    if i: nat :| i < |entries| && PairHasOverflow(entries[i]) { EntryHasOverflow(entries, i); }
    if k: nat :| k < 2 * |entries| && HasOverflow(EntryKids(entries)[k]) {
      EntryKidAt(entries, k);
      assert PairHasOverflow(entries[k / 2]);
    }
  }

  lemma EntryHasOverflow(entries: seq<Pair>, i: nat)
    requires i < |entries| && PairHasOverflow(entries[i])
    ensures HasOverflow(EntryKids(entries)[2 * i]) || HasOverflow(EntryKids(entries)[2 * i + 1])
  {
    hide HasOverflow;
    EntryKidAt(entries, 2 * i);
    EntryKidAt(entries, 2 * i + 1);
  }

  /** The nodes a value names are those of the overflow references in it, stored Blob references apart. */
  lemma NamesExact(g: Graph, v: Value, oid: Oid)
    ensures oid in Names(g, v) <==>
      if v.Tag? && v.number == OVERFLOW_TAG then OverflowReference(g, v, oid)
      else !(v.Tag? && v.number == STORED_BLOB_TAG) && exists i | 0 <= i < |Kids(v)| :: oid in Names(g, Kids(v)[i])
  {
    match v {
      case Tag(number, payload) =>
        assert Kids(v)[0] == payload;
        if number == OVERFLOW_TAG { OverflowExact(g, payload); }
      case Array(items) =>
        assert v == Array(items) && Kids(v) == items;
        NamesAllExact(g, items, oid);
      case Map(entries) =>
        assert v == Map(entries) && Kids(v) == EntryKids(entries);
        NamesPairsExact(g, entries, oid);
      case _ => assert Kids(v) == [];
    }
  }

  lemma {:induction false} NamesAllExact(g: Graph, vs: seq<Value>, oid: Oid)
    ensures oid in NamesAll(g, vs) <==> exists i | 0 <= i < |vs| :: oid in Names(g, vs[i])
    decreases |vs|
  {
    hide Names;
    if |vs| > 0 {
      NamesAllExact(g, vs[1..], oid);
      if i :| 0 <= i < |vs[1..]| && oid in Names(g, vs[1..][i]) { assert oid in Names(g, vs[i + 1]); }
      if i :| 0 <= i < |vs| && oid in Names(g, vs[i]) { if i > 0 { assert oid in Names(g, vs[1..][i - 1]); } }
    }
  }

  lemma {:induction false} NamesPairsExact(g: Graph, ps: seq<Pair>, oid: Oid)
    ensures oid in NamesPairs(g, ps) <==> exists k | 0 <= k < |EntryKids(ps)| :: oid in Names(g, EntryKids(ps)[k])
    decreases |ps|
  {
    NamesAllExact(g, EntryKids(ps), oid);
    hide Names;
    if |ps| > 0 {
      NamesPairsExact(g, ps[1..], oid);
      NamesAllExact(g, EntryKids(ps[1..]), oid);
      var kids := EntryKids(ps);
      assert kids[1..][1..] == EntryKids(ps[1..]) && kids[1..][0] == ps[0].value && kids[0] == ps[0].key;
      match ps[0]
      case Pair(key, value) =>
    }
  }

  // ----- The semantic form, position by position -----

  /**
   * The semantic form of a value: a stored Blob reference loses its descriptor and changes its tag; an
   * overflow reference has none; any other value keeps its form over the semantic forms of its kids,
   * in their places or, in a map, in canonical key order.
   */
  ghost predicate Denotes(v: Value, w: Value) {
    if v.Tag? && v.number == STORED_BLOB_TAG then
      w == Tag(SEMANTIC_BLOB_TAG,
               if v.value.Array? && |v.value.items| > 4 then Array(v.value.items[..4]) else v.value)
    else if v.Tag? && v.number == OVERFLOW_TAG then false
    else if v.Map? then
      exists ps :: KidsDenote(Kids(v), EntryKids(ps))
                   && w.Map? && KeysAscend(w.entries) && multiset(w.entries) == multiset(ps)
    else SameForm(v, w) && KidsDenote(Kids(v), Kids(w))
  }

  ghost predicate KidsDenote(vs: seq<Value>, ws: seq<Value>) {
    |vs| == |ws| && forall i | 0 <= i < |vs| :: SemanticOf(vs[i]) == Form(ws[i])
  }

  lemma KidsDenoteSplit(vs: seq<Value>, ws: seq<Value>)
    requires |vs| > 0 && |ws| > 0
    ensures KidsDenote(vs, ws) <==> SemanticOf(vs[0]) == Form(ws[0]) && KidsDenote(vs[1..], ws[1..])
  {
    hide SemanticOf;
    assert |vs| == |ws| ==> forall i | 0 < i < |vs| :: vs[i] == vs[1..][i - 1] && ws[i] == ws[1..][i - 1];
  }

  lemma {:induction false} SemanticAllExact(vs: seq<Value>, ws: seq<Value>)
    ensures SemanticAll(vs) == Forms(ws) <==> KidsDenote(vs, ws)
    decreases |vs|
  {
    hide SemanticOf;
    if |vs| > 0 && |ws| > 0 {
      SemanticAllExact(vs[1..], ws[1..]);
      assert ws == [ws[0]] + ws[1..];
      KidsDenoteSplit(vs, ws);
    }
  }

  lemma {:induction false} SemanticPairsExact(ps: seq<Pair>, qs: seq<Pair>)
    ensures SemanticPairs(ps) == Forms(qs) <==> KidsDenote(EntryKids(ps), EntryKids(qs))
    decreases |ps|
  {
    hide SemanticOf;
    if |ps| > 0 && |qs| > 0 {
      SemanticPairsExact(ps[1..], qs[1..]);
      var vs, ws := EntryKids(ps), EntryKids(qs);
      KidsDenoteSplit(vs, ws);
      KidsDenoteSplit(vs[1..], ws[1..]);
      assert vs[1..][1..] == EntryKids(ps[1..]) && ws[1..][1..] == EntryKids(qs[1..]);
      SemanticPairsStep(ps, qs);
    }
  }

  /** A list fails for a refusal, never for a form. */
  lemma {:induction false} RefusalsRefuse(vs: seq<Value>, ps: seq<Pair>)
    ensures SemanticAll(vs).ListFailed? ==> !SemanticAll(vs).why.Form?
    ensures SemanticPairs(ps).ListFailed? ==> !SemanticPairs(ps).why.Form?
    decreases |vs| + |ps|
  {
    hide SemanticOf;
    if |vs| > 0 { RefusalsRefuse(vs[1..], []); }
    if |ps| > 0 {
      RefusalsRefuse([], ps[1..]);
      match ps[0]
      case Pair(key, value) =>
    }
  }

  lemma SemanticPairsStep(ps: seq<Pair>, qs: seq<Pair>)
    requires |ps| > 0 && |qs| > 0
    ensures SemanticPairs(ps) == Forms(qs) <==>
      SemanticOf(ps[0].key) == Form(qs[0].key) && SemanticOf(ps[0].value) == Form(qs[0].value)
      && SemanticPairs(ps[1..]) == Forms(qs[1..])
  {
    hide SemanticOf;
    assert qs == [qs[0]] + qs[1..];
    match ps[0]
    case Pair(key, value) =>
  }

  /** The semantic form is exactly that, at every value. */
  lemma SemanticExact(v: Value, w: Value)
    ensures SemanticOf(v) == Form(w) <==> Denotes(v, w)
  {
    hide MakeMap, SemanticAll, SemanticPairs, KeysAscend;
    if v.Array? { RefusalsRefuse(v.items, []); }
    match v {
      case Tag(number, payload) =>
        if number == STORED_BLOB_TAG {
          if payload.Array? && |payload.items| <= 4 { assert payload.items[..|payload.items|] == payload.items; }
        } else if number != OVERFLOW_TAG {
          if w.Tag? { OneKidDenotes(payload, w.value); }
        }
      case Array(items) =>
        if w.Array? { SemanticAllExact(items, w.items); }
        if SemanticAll(items).Forms? { SemanticAllExact(items, SemanticAll(items).values); }
      case Map(entries) => SemanticMapExact(entries, w);
      case _ =>
    }
  }

  lemma OneKidDenotes(a: Value, b: Value)
    ensures KidsDenote([a], [b]) <==> SemanticOf(a) == Form(b)
  {
    hide SemanticOf;
    assert [a][0] == a && [b][0] == b;
  }

  lemma SemanticMapExact(entries: seq<Pair>, w: Value)
    ensures SemanticOf(Map(entries)) == Form(w) <==> Denotes(Map(entries), w)
  {
    hide MakeMap, SemanticPairs, KeysAscend;
    RefusalsRefuse([], entries);
    if SemanticPairs(entries).Forms? {
      var ps := SemanticPairs(entries).values;
      SemanticPairsExact(entries, ps);
      MakeMapExact(ps, w);
    }
    if Denotes(Map(entries), w) {
      var ps :| KidsDenote(Kids(Map(entries)), EntryKids(ps))
                && w.Map? && KeysAscend(w.entries) && multiset(w.entries) == multiset(ps);
      SemanticPairsExact(entries, ps);
    }
  }
}
