/**
 Completion of provisional Blob references in migrated values (`replace_subtree`, `blob_tuple`): a
 row is lowered against an empty descriptor, which is replaced once the descriptor is written.
 */
module BlobCompletion {
  import opened Prelude
  import opened Cbor
  import opened ValueTree

  /** UTF-8 of application/octet-stream */
  const BLOB_MEDIA_TYPE: seq<byte> :=
    [97, 112, 112, 108, 105, 99, 97, 116, 105, 111, 110, 47, 111, 99, 116, 101, 116, 45, 115, 116, 114, 101, 97, 109]

  datatype Identity = Identity(length: nat, sha256: seq<byte>)

  /** The stored Blob reference; the descriptor is empty while provisional. */
  function BlobTuple(identity: Identity, descriptor: seq<byte>): Value {
    Tag(STORED_BLOB_TAG, Array([
      Int(identity.length), Bytes(identity.sha256), Text(BLOB_MEDIA_TYPE), Null, Bytes(descriptor)]))
  }

  function Replace(raw: Value, from: Value, to: Value): Value
    decreases raw
  {
    if raw == from then to
    else
      match raw
      case Array(items) => Array(seq(|items|, i requires 0 <= i < |items| => Replace(items[i], from, to)))
      case Map(entries) => Map(seq(|entries|, i requires 0 <= i < |entries| => ReplacePair(entries[i], from, to)))
      case Tag(number, inner) => Tag(number, Replace(inner, from, to))
      case _ => raw
  }

  function ReplacePair(p: Pair, from: Value, to: Value): Pair
    decreases p
  {
    match p
    case Pair(key, value) => Pair(Replace(key, from, to), Replace(value, from, to))
  }

  /** `x` is the value itself or sits somewhere inside it. */
  predicate Occurs(x: Value, v: Value)
    decreases v
  {
    x == v ||
    match v
    case Array(items) => exists i | 0 <= i < |items| :: Occurs(x, items[i])
    case Map(entries) => exists i | 0 <= i < |entries| :: OccursInPair(x, entries[i])
    case Tag(_, inner) => Occurs(x, inner)
    case _ => false
  }

  predicate OccursInPair(x: Value, p: Pair)
    decreases p
  {
    match p
    case Pair(key, value) => Occurs(x, key) || Occurs(x, value)
  }

  // ----- What replacement does at every position -----

  /** The sought value becomes the other; anything else keeps its form over its replaced kids. */
  lemma ReplaceExact(raw: Value, from: Value, to: Value)
    ensures raw == from ==> Replace(raw, from, to) == to
    ensures raw != from ==>
      var w := Replace(raw, from, to);
      SameForm(raw, w) && |Kids(w)| == |Kids(raw)|
      && forall i | 0 <= i < |Kids(raw)| :: Kids(w)[i] == Replace(Kids(raw)[i], from, to)
  {
    if raw != from && raw.Map? { ReplaceEntries(raw.entries, from, to); }
  }

  lemma ReplaceEntries(entries: seq<Pair>, from: Value, to: Value)
    requires Map(entries) != from
    ensures var w := Replace(Map(entries), from, to);
      w.Map? && |w.entries| == |entries| && |EntryKids(w.entries)| == |EntryKids(entries)|
      && forall k | 0 <= k < |EntryKids(entries)| ::
           EntryKids(w.entries)[k] == Replace(EntryKids(entries)[k], from, to)
  {
    hide Replace, EntryKids, ReplacePair;
    ReplaceMap(entries, from, to);
    var w := Replace(Map(entries), from, to);
    forall k | 0 <= k < |EntryKids(entries)|
      ensures EntryKids(w.entries)[k] == Replace(EntryKids(entries)[k], from, to)
    {
      EntryKidAt(entries, k);
      EntryKidAt(w.entries, k);
      ReplacedPair(entries[k / 2], from, to);
    }
  }

  lemma ReplaceMap(entries: seq<Pair>, from: Value, to: Value)
    requires Map(entries) != from
    ensures var w := Replace(Map(entries), from, to);
      w.Map? && |w.entries| == |entries|
      && forall i | 0 <= i < |entries| :: w.entries[i] == ReplacePair(entries[i], from, to)
  {
    hide ReplacePair;
  }

  lemma ReplacedPair(p: Pair, from: Value, to: Value)
    ensures ReplacePair(p, from, to) == Pair(Replace(p.key, from, to), Replace(p.value, from, to))
  {
    hide Replace;
    match p
    case Pair(key, value) =>
  }

  lemma OccursExact(x: Value, v: Value)
    ensures Occurs(x, v) <==> x == v || exists i | 0 <= i < |Kids(v)| :: Occurs(x, Kids(v)[i])
  {
    match v {
      case Tag(_, inner) => assert Kids(v)[0] == inner;
      case Array(items) => assert Kids(v) == items;
      case Map(entries) => OccursInEntries(x, entries);
      case _ => assert Kids(v) == [];
    }
  }

  lemma OccursInEntries(x: Value, entries: seq<Pair>)
    ensures (exists i | 0 <= i < |entries| :: OccursInPair(x, entries[i])) <==>
      exists k | 0 <= k < |Kids(Map(entries))| :: Occurs(x, Kids(Map(entries))[k])
  {
    var kids := EntryKids(entries);
    assert Kids(Map(entries)) == kids;
    hide EntryKids, Occurs;
    if i: nat :| i < |entries| && OccursInPair(x, entries[i]) {
      EntryKidAt(entries, 2 * i);
      EntryKidAt(entries, 2 * i + 1);
      PairOccurs(x, entries[i]);
      assert Occurs(x, kids[2 * i]) || Occurs(x, kids[2 * i + 1]);
    }
    if k: nat :| k < |kids| && Occurs(x, kids[k]) {
      EntryKidAt(entries, k);
      PairOccurs(x, entries[k / 2]);
      assert OccursInPair(x, entries[k / 2]);
    }
  }

  lemma PairOccurs(x: Value, p: Pair)
    ensures OccursInPair(x, p) <==> Occurs(x, p.key) || Occurs(x, p.value)
  {
    match p
    case Pair(key, value) =>
  }

  // ----- A value never sits inside itself -----

  function Size(v: Value): (n: nat)
    ensures n > 0
    decreases v, 0
  {
    match v
    case Array(items) => 1 + SizeAll(items)
    case Map(entries) => 1 + SizePairs(entries)
    case Tag(_, inner) => 1 + Size(inner)
    case _ => 1
  }

  function SizeAll(vs: seq<Value>): nat
    decreases vs, 0
  {
    if |vs| == 0 then 0 else Size(vs[0]) + SizeAll(vs[1..])
  }

  function SizePairs(ps: seq<Pair>): nat
    decreases ps, 0
  {
    if |ps| == 0 then 0
    else
      assert (ps decreases to ps[0]);
      match ps[0]
      case Pair(key, value) => Size(key) + Size(value) + SizePairs(ps[1..])
  }

  lemma {:induction false} SizeOfItem(vs: seq<Value>, i: nat)
    requires i < |vs|
    ensures Size(vs[i]) <= SizeAll(vs)
  {
    hide Size;
    if i > 0 { SizeOfItem(vs[1..], i - 1); }
  }

  lemma {:induction false} SizeOfPair(ps: seq<Pair>, i: nat)
    requires i < |ps|
    ensures Size(ps[i].key) + Size(ps[i].value) <= SizePairs(ps)
  {
    hide Size;
    if i > 0 { SizeOfPair(ps[1..], i - 1); }
  }

  lemma {:induction false} OccursNoLarger(x: Value, v: Value)
    requires Occurs(x, v)
    ensures Size(x) <= Size(v)
    decreases v
  {
    if x != v {
      match v
      case Array(items) =>
        var i :| 0 <= i < |items| && Occurs(x, items[i]);
        OccursNoLarger(x, items[i]);
        SizeOfItem(items, i);
      case Map(entries) =>
        var i :| 0 <= i < |entries| && OccursInPair(x, entries[i]);
        OccursInPairNoLarger(x, entries[i]);
        SizeOfPair(entries, i);
      case Tag(_, inner) => OccursNoLarger(x, inner);
    }
  }

  lemma {:induction false} OccursInPairNoLarger(x: Value, p: Pair)
    requires OccursInPair(x, p)
    ensures Size(x) <= Size(p.key) + Size(p.value)
    decreases p
  {
    hide Occurs, Size;
    match p
    case Pair(key, value) =>
      if Occurs(x, key) { OccursNoLarger(x, key); } else { OccursNoLarger(x, value); }
  }

  // ----- Where nothing was replaced, nothing changed -----

  lemma {:induction false} Untouched(v: Value, from: Value, to: Value)
    requires !Occurs(from, v)
    ensures Replace(v, from, to) == v
    decreases v
  {
    match v
    case Array(items) =>
      forall i | 0 <= i < |items| ensures Replace(items[i], from, to) == items[i] { Untouched(items[i], from, to); }
    case Map(entries) =>
      forall i | 0 <= i < |entries| ensures ReplacePair(entries[i], from, to) == entries[i] {
        UntouchedPair(entries[i], from, to);
      }
    case Tag(_, inner) => Untouched(inner, from, to);
    case _ =>
  }

  lemma {:induction false} UntouchedPair(p: Pair, from: Value, to: Value)
    requires !OccursInPair(from, p)
    ensures ReplacePair(p, from, to) == p
    decreases p
  {
    hide Occurs, Replace;
    match p
    case Pair(key, value) =>
      Untouched(key, from, to);
      Untouched(value, from, to);
  }

  /** Any replacement shows: a result without `to` is the value it came from. */
  lemma {:induction false} ReplacementShows(v: Value, from: Value, to: Value)
    requires !Occurs(to, Replace(v, from, to))
    ensures Replace(v, from, to) == v
    decreases v
  {
    var w := Replace(v, from, to);
    if v != from {
      match v
      case Array(items) =>
        forall i | 0 <= i < |items| ensures w.items[i] == items[i] {
          assert !Occurs(to, w.items[i]);
          ReplacementShows(items[i], from, to);
        }
      case Map(entries) =>
        forall i | 0 <= i < |entries| ensures w.entries[i] == entries[i] {
          assert !OccursInPair(to, w.entries[i]);
          ReplacementShowsPair(entries[i], from, to);
        }
      case Tag(_, inner) => ReplacementShows(inner, from, to);
      case _ =>
    }
  }

  lemma {:induction false} ReplacementShowsPair(p: Pair, from: Value, to: Value)
    requires !OccursInPair(to, ReplacePair(p, from, to))
    ensures ReplacePair(p, from, to) == p
    decreases p
  {
    hide Occurs, Replace;
    match p
    case Pair(key, value) =>
      ReplacementShows(key, from, to);
      ReplacementShows(value, from, to);
  }

  /** A value turns into `to` only by being `from`, unless it was `to` already. */
  lemma {:induction false} BecomesTarget(v: Value, from: Value, to: Value)
    requires Replace(v, from, to) == to
    ensures v == from || v == to
  {
    if v != from {
      match v
      case Array(items) =>
        forall i | 0 <= i < |items| ensures to.items[i] == items[i] {
          assert Replace(items[i], from, to) == to.items[i];
          SizeOfItem(to.items, i);
          if Occurs(to, to.items[i]) { OccursNoLarger(to, to.items[i]); }
          ReplacementShows(items[i], from, to);
        }
      case Map(entries) =>
        forall i | 0 <= i < |entries| ensures to.entries[i] == entries[i] {
          assert ReplacePair(entries[i], from, to) == to.entries[i];
          SizeOfPair(to.entries, i);
          if OccursInPair(to, to.entries[i]) { OccursInPairNoLarger(to, to.entries[i]); }
          ReplacementShowsPair(entries[i], from, to);
        }
      case Tag(_, inner) =>
        if Occurs(to, to.value) { OccursNoLarger(to, to.value); }
        ReplacementShows(inner, from, to);
      case _ =>
    }
  }

  // ----- Nothing provisional is left, and completion can be undone -----

  lemma {:induction false} NoneLeft(v: Value, from: Value, to: Value)
    requires !Occurs(from, to) && !Occurs(to, from)
    ensures !Occurs(from, Replace(v, from, to))
    decreases v
  {
    var w := Replace(v, from, to);
    if v != from {
      if w == from { ReplacementShows(v, from, to); }
      match v
      case Array(items) =>
        forall i | 0 <= i < |items| ensures !Occurs(from, w.items[i]) { NoneLeft(items[i], from, to); }
      case Map(entries) =>
        forall i | 0 <= i < |entries| ensures !OccursInPair(from, w.entries[i]) {
          NoneLeftInPair(entries[i], from, to);
        }
      case Tag(_, inner) => NoneLeft(inner, from, to);
      case _ =>
    }
  }

  lemma {:induction false} NoneLeftInPair(p: Pair, from: Value, to: Value)
    requires !Occurs(from, to) && !Occurs(to, from)
    ensures !OccursInPair(from, ReplacePair(p, from, to))
    decreases p
  {
    hide Occurs, Replace;
    match p
    case Pair(key, value) =>
      NoneLeft(key, from, to);
      NoneLeft(value, from, to);
  }

  lemma {:induction false} Undone(v: Value, from: Value, to: Value)
    requires !Occurs(to, v)
    ensures Replace(Replace(v, from, to), to, from) == v
    decreases v
  {
    if v != from {
      if Replace(v, from, to) == to { BecomesTarget(v, from, to); }
      match v
      case Array(items) =>
        forall i | 0 <= i < |items| ensures Replace(Replace(items[i], from, to), to, from) == items[i] {
          Undone(items[i], from, to);
        }
        UndoneArray(items, from, to);
      case Map(entries) =>
        forall i | 0 <= i < |entries| ensures ReplacePair(ReplacePair(entries[i], from, to), to, from) == entries[i] {
          UndonePair(entries[i], from, to);
        }
        UndoneMap(entries, from, to);
      case Tag(_, inner) => Undone(inner, from, to);
      case _ =>
    }
  }

  lemma UndoneArray(items: seq<Value>, from: Value, to: Value)
    requires Array(items) != from && Replace(Array(items), from, to) != to
    requires forall i | 0 <= i < |items| :: Replace(Replace(items[i], from, to), to, from) == items[i]
    ensures Replace(Replace(Array(items), from, to), to, from) == Array(items)
  {
    var w := Replace(Array(items), from, to);
    assert forall i | 0 <= i < |items| :: w.items[i] == Replace(items[i], from, to);
    assert Replace(w, to, from).items == items;
  }

  lemma UndoneMap(entries: seq<Pair>, from: Value, to: Value)
    requires Map(entries) != from && Replace(Map(entries), from, to) != to
    requires forall i | 0 <= i < |entries| :: ReplacePair(ReplacePair(entries[i], from, to), to, from) == entries[i]
    ensures Replace(Replace(Map(entries), from, to), to, from) == Map(entries)
  {
    hide ReplacePair;
    var w := Replace(Map(entries), from, to);
    assert forall i | 0 <= i < |entries| :: w.entries[i] == ReplacePair(entries[i], from, to);
    assert Replace(w, to, from).entries == entries;
  }

  lemma {:induction false} UndonePair(p: Pair, from: Value, to: Value)
    requires !OccursInPair(to, p)
    ensures ReplacePair(ReplacePair(p, from, to), to, from) == p
    decreases p
  {
    hide Occurs, Replace;
    match p
    case Pair(key, value) =>
      Undone(key, from, to);
      Undone(value, from, to);
  }

  lemma TuplesApart(identity: Identity, descriptor: seq<byte>)
    requires |descriptor| > 0
    ensures !Occurs(BlobTuple(identity, []), BlobTuple(identity, descriptor))
    ensures !Occurs(BlobTuple(identity, descriptor), BlobTuple(identity, []))
  {
    var a, b := BlobTuple(identity, []), BlobTuple(identity, descriptor);
    assert a.value.items[4] == Bytes([]) && b.value.items[4] == Bytes(descriptor);
    assert a != b;
    forall i | 0 <= i < 5 ensures !Occurs(a, b.value.items[i]) && !Occurs(b, a.value.items[i]) {}
  }

  /**
   * Completing a lowered value with a non-empty descriptor leaves no provisional reference in it,
   * changes nothing where none occurred, and is undone by the reverse replacement when the
   * completed reference was absent before.
   */
  lemma Completion(lowered: Value, identity: Identity, descriptor: seq<byte>)
    requires |descriptor| > 0
    ensures var provisional, complete := BlobTuple(identity, []), BlobTuple(identity, descriptor);
            var completed := Replace(lowered, provisional, complete);
            && !Occurs(provisional, completed)
            && (!Occurs(provisional, lowered) ==> completed == lowered)
            && (!Occurs(complete, lowered) ==> Replace(completed, complete, provisional) == lowered)
  {
    var provisional, complete := BlobTuple(identity, []), BlobTuple(identity, descriptor);
    TuplesApart(identity, descriptor);
    NoneLeft(lowered, provisional, complete);
    if !Occurs(provisional, lowered) { Untouched(lowered, provisional, complete); }
    if !Occurs(complete, lowered) { Undone(lowered, provisional, complete); }
  }
}
