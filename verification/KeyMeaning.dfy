/**
 What the logical key order is (`compare_keys`): which of two keys comes first, and which pairs are
 refused, told by the values themselves rather than by the comparison.
 */
module KeyMeaning {
  import opened Prelude
  import opened Cbor
  import opened KeyOrder
  import Decimals

  // ----- Components -----

  /** The exact value of a decimal, scaled by a power of ten that makes both sides whole. */
  predicate SmallerDecimal(c1: int, e1: int, c2: int, e2: int) {
    var m := Min(e1, e2);
    c1 * Pow(10, e1 - m) < c2 * Pow(10, e2 - m)
  }

  predicate Uuid(v: Value) { v.Tag? && v.number == UUID_TAG && v.value.Bytes? && |v.value.data| == 16 }

  predicate TwoInts(v: Value) { v.Array? && |v.items| == 2 && v.items[0].Int? && v.items[1].Int? }

  /** A permitted component with no component inside. */
  predicate Plain(v: Value) {
    match v
    case Null => true
    case Bool(_) => true
    case Int(_) => true
    case Text(_) => true
    case Bytes(_) => true
    case Tag(number, payload) =>
      if number == UUID_TAG then Uuid(v)
      else if number == DECIMAL_TAG then TwoInts(payload) && Decimals.Normalised(payload.items[0].i, payload.items[1].i)
      else if number == DATE_TAG then payload.Text?
      else if number == INSTANT_TAG then TwoInts(payload)
      else if number == ENUM_TAG then
        && payload.Array? && |payload.items| == 3
        && Uuid(payload.items[0]) && Uuid(payload.items[1]) && payload.items[2].Null?
      else false
    case _ => false
  }

  predicate Reference(v: Value) {
    && v.Tag? && v.number == STORED_REFERENCE_TAG && v.value.Array? && |v.value.items| == 3
    && Uuid(v.value.items[0]) && Uuid(v.value.items[1])
  }

  /** The two identifiers of an enum or a reference, in a row. */
  function Ids(v: Value): seq<byte>
    requires v.Tag? && v.value.Array? && |v.value.items| >= 2 && Uuid(v.value.items[0]) && Uuid(v.value.items[1])
  {
    v.value.items[0].value.data + v.value.items[1].value.data
  }

  /** Keys of one type: the same kind of plain value, or the same tag. */
  predicate SameType(l: Value, r: Value) {
    && (l.Null? <==> r.Null?) && (l.Bool? <==> r.Bool?) && (l.Int? <==> r.Int?) && (l.Text? <==> r.Text?)
    && (l.Bytes? <==> r.Bytes?) && (l.Array? <==> r.Array?)
    && (l.Tag? <==> r.Tag?) && (l.Tag? ==> l.number == r.number)
  }

  /** Which of two plain components of one type comes first. */
  ghost predicate PlainPrecedes(l: Value, r: Value)
    requires Plain(l) && Plain(r) && SameType(l, r)
  {
    match l
    case Null => false
    case Bool(b) => !b && r.b
    case Int(i) => i < r.i
    case Text(s) => LexBefore(s, r.utf8)
    case Bytes(s) => LexBefore(s, r.data)
    case Tag(number, payload) =>
      if number == UUID_TAG then LexBefore(payload.data, r.value.data)
      else if number == DECIMAL_TAG then
        SmallerDecimal(payload.items[0].i, payload.items[1].i, r.value.items[0].i, r.value.items[1].i)
      else if number == DATE_TAG then LexBefore(payload.utf8, r.value.utf8)
      else if number == INSTANT_TAG then
        payload.items[0].i < r.value.items[0].i
        || (payload.items[0].i == r.value.items[0].i && payload.items[1].i < r.value.items[1].i)
      else LexBefore(Ids(l), Ids(r))
    case _ => false
  }

  lemma PlainAtoms(v: Value)
    ensures Plain(v) <==> AtomOf(v).Ok?
    ensures Plain(v) ==> Rank(v).Ok?
  {
  }

  lemma PlainMeans(l: Value, r: Value)
    requires Plain(l) && Plain(r) && SameType(l, r)
    ensures Rank(l) == Rank(r) && Rank(l).Ok? && !l.Array?
    ensures Compare(l, r).Ok? && (Compare(l, r) == Ok(-1) <==> PlainPrecedes(l, r))
  {
    PlainAtoms(l);
    PlainAtoms(r);
    match l {
      case Text(s) => OctetsMean(s, r.utf8);
      case Bytes(s) => OctetsMean(s, r.data);
      case Tag(number, payload) => TagMeans(l, r);
      case _ =>
    }
  }

  lemma OctetsMean(s: seq<byte>, t: seq<byte>)
    ensures LexOrder(s, t) == -1 <==> LexBefore(s, t)
  {
    LexExact(s, t);
    if LexLess(s, t) { LexAsymmetric(s, t); }
  }

  lemma TagMeans(l: Value, r: Value)
    requires l.Tag? && Plain(l) && Plain(r) && SameType(l, r)
    ensures Compare(l, r).Ok? && (Compare(l, r) == Ok(-1) <==> PlainPrecedes(l, r))
  {
    hide LexLess, LexBefore, Decimals.Compare, Pow;
    var a, b := l.value, r.value;
    if l.number == UUID_TAG { OctetsMean(a.data, b.data); }
    else if l.number == DATE_TAG { OctetsMean(a.utf8, b.utf8); }
    else if l.number == ENUM_TAG { OctetsMean(Ids(l), Ids(r)); }
    else if l.number == DECIMAL_TAG {
      var c1, e1, c2, e2 := a.items[0].i, a.items[1].i, b.items[0].i, b.items[1].i;
      Decimals.CompareExact(c1, e1, c2, e2, Min(e1, e2));
    }
  }

  // ----- Keys at any nesting -----

  /**
   * Which keys are compared: of one type, each permitted as far as it is looked at. Lists are looked
   * at up to their first difference, references down to the referenced key only when they name one table.
   */
  ghost predicate Comparable(l: Value, r: Value)
    decreases l, 1
  {
    SameType(l, r)
    && if l.Array? then ListsComparable(l.items, r.items)
       else if l.Tag? && l.number == TUPLE_TAG then
         l.value.Array? && r.value.Array? && ListsComparable(l.value.items, r.value.items)
       else if l.Tag? && l.number == STORED_REFERENCE_TAG then
         && Reference(l) && Reference(r)
         && (assert (l.value.items decreases to l.value.items[2]);
             Ids(l) == Ids(r) ==> Comparable(l.value.items[2], r.value.items[2]))
       else Plain(l) && Plain(r)
  }

  ghost predicate ListsComparable(ls: seq<Value>, rs: seq<Value>)
    decreases ls, 0
  {
    forall i | 0 <= i < |ls| && i < |rs| && ls[..i] == rs[..i] ::
      (assert (ls decreases to ls[i]); Comparable(ls[i], rs[i]))
  }

  /** Which of two comparable keys comes first. */
  ghost predicate Precedes(l: Value, r: Value)
    decreases l, 1
  {
    Comparable(l, r)
    && if l.Array? then ListPrecedes(l.items, r.items)
       else if l.Tag? && l.number == TUPLE_TAG then ListPrecedes(l.value.items, r.value.items)
       else if l.Tag? && l.number == STORED_REFERENCE_TAG then
         assert (l.value.items decreases to l.value.items[2]);
         LexBefore(Ids(l), Ids(r)) || (Ids(l) == Ids(r) && Precedes(l.value.items[2], r.value.items[2]))
       else PlainPrecedes(l, r)
  }

  /** A proper prefix, or smaller at the first component that differs. */
  ghost predicate ListPrecedes(ls: seq<Value>, rs: seq<Value>)
    decreases ls, 0
  {
    (|ls| < |rs| && ls == rs[..|ls|])
    || exists i | 0 <= i < |ls| && i < |rs| ::
         ls[..i] == rs[..i] && ls[i] != rs[i] && (assert (ls decreases to ls[i]); Precedes(ls[i], rs[i]))
  }

  lemma SameRank(l: Value, r: Value)
    requires Rank(l).Ok? && Rank(r).Ok?
    ensures Rank(l) == Rank(r) <==> SameType(l, r)
  {
  }

  /** Comparing is exactly that: refused unless comparable, and negative exactly when the left precedes. */
  lemma {:induction false} CompareMeans(l: Value, r: Value)
    ensures Compare(l, r).Ok? <==> Comparable(l, r)
    ensures Compare(l, r) == Ok(-1) <==> Precedes(l, r)
    decreases l, 1
  {
    hide CompareLists, ListsComparable, ListPrecedes, PlainPrecedes, LexLess, LexBefore, AtomOf;
    if Rank(l).Ok? && Rank(r).Ok? { SameRank(l, r); }
    if !SameType(l, r) || Rank(l).Err? || Rank(r).Err? {
      PlainAtoms(l);
      PlainAtoms(r);
    } else if l.Array? {
      ListsMean(l.items, r.items);
    } else if l.Tag? && l.number == TUPLE_TAG {
      if l.value.Array? && r.value.Array? { ListsMean(l.value.items, r.value.items); }
    } else if l.Tag? && l.number == STORED_REFERENCE_TAG {
      ReferencesMean(l, r);
    } else {
      PlainAtoms(l);
      PlainAtoms(r);
      if Plain(l) && Plain(r) { PlainMeans(l, r); }
    }
  }

  lemma ReferenceShape(v: Value)
    requires v.Tag? && v.number == STORED_REFERENCE_TAG
    ensures IsReference(v) <==> Reference(v)
    ensures Reference(v) ==> TargetIds(v) == Ids(v)
  {
  }

  lemma {:induction false} ReferencesMean(l: Value, r: Value)
    requires l.Tag? && l.number == STORED_REFERENCE_TAG && SameType(l, r)
    ensures Compare(l, r).Ok? <==> Comparable(l, r)
    ensures Compare(l, r) == Ok(-1) <==> Precedes(l, r)
    decreases l, 0
  {
    hide LexLess, LexBefore;
    ReferenceShape(l);
    ReferenceShape(r);
    if Reference(l) && Reference(r) {
      var x, y := l.value.items, r.value.items;
      assert (x decreases to x[2]);
      CompareMeans(x[2], y[2]);
      OctetsMean(Ids(l), Ids(r));
      OctetLaws(Ids(l), Ids(r));
    }
  }

  lemma {:induction false} ListsMean(ls: seq<Value>, rs: seq<Value>)
    ensures CompareLists(ls, rs).Ok? <==> ListsComparable(ls, rs)
    ensures CompareLists(ls, rs) == Ok(-1) <==> ListsComparable(ls, rs) && ListPrecedes(ls, rs)
    decreases ls, 0
  {
    hide Compare, Comparable, Precedes, ListsComparable, ListPrecedes;
    if |ls| == 0 || |rs| == 0 {
      EmptyLists(ls, rs);
    } else {
      CompareMeans(ls[0], rs[0]);
      ListsMean(ls[1..], rs[1..]);
      ComparableCons(ls, rs);
      PrecedesCons(ls, rs);
      if Compare(ls[0], rs[0]).Ok? { ZeroMeansEqual(ls[0], rs[0]); }
    }
  }

  lemma ZeroMeansEqual(l: Value, r: Value)
    requires Compare(l, r).Ok?
    ensures -1 <= Compare(l, r).value <= 1 && (Compare(l, r).value == 0 <==> l == r)
  {
    hide Compare, ValidKey;
    Antisymmetric(l, r);
    if l == r { Reflexive(l); }
  }

  lemma EmptyLists(ls: seq<Value>, rs: seq<Value>)
    requires |ls| == 0 || |rs| == 0
    ensures ListsComparable(ls, rs)
    ensures ListPrecedes(ls, rs) <==> |ls| < |rs|
    ensures CompareLists(ls, rs) == Ok(Sign(|ls| - |rs|))
  {
    hide Comparable, Precedes;
  }

  lemma ComparableCons(ls: seq<Value>, rs: seq<Value>)
    requires |ls| > 0 && |rs| > 0
    ensures ListsComparable(ls, rs) <==>
      Comparable(ls[0], rs[0]) && (ls[0] == rs[0] ==> ListsComparable(ls[1..], rs[1..]))
  {
    hide Comparable;
    var p, q := ls[1..], rs[1..];
    if ListsComparable(ls, rs) {
      assert ls[..0] == rs[..0];
      if ls[0] == rs[0] {
        forall i | 0 <= i < |p| && i < |q| && p[..i] == q[..i] ensures Comparable(p[i], q[i]) {
          assert ls[..i + 1] == [ls[0]] + p[..i] && rs[..i + 1] == [rs[0]] + q[..i];
          assert Comparable(ls[i + 1], rs[i + 1]);
        }
      }
    }
    if Comparable(ls[0], rs[0]) && (ls[0] == rs[0] ==> ListsComparable(p, q)) {
      forall i | 0 <= i < |ls| && i < |rs| && ls[..i] == rs[..i] ensures Comparable(ls[i], rs[i]) {
        if i > 0 {
          assert ls[0] == ls[..i][0] == rs[..i][0] == rs[0];
          assert p[..i - 1] == ls[..i][1..] && q[..i - 1] == rs[..i][1..];
          assert Comparable(p[i - 1], q[i - 1]);
        }
      }
    }
  }

  lemma PrecedesCons(ls: seq<Value>, rs: seq<Value>)
    requires |ls| > 0 && |rs| > 0
    ensures ListPrecedes(ls, rs) <==>
      if ls[0] == rs[0] then ListPrecedes(ls[1..], rs[1..]) else Precedes(ls[0], rs[0])
  {
    hide Precedes;
    var p, q := ls[1..], rs[1..];
    assert ls == [ls[0]] + p && rs == [rs[0]] + q;
    assert ls[..0] == rs[..0];
    if ls[0] == rs[0] {
      if ListPrecedes(p, q) { ListPrecedesUp(ls, rs); }
      if ListPrecedes(ls, rs) { ListPrecedesDown(ls, rs); }
    } else if ListPrecedes(ls, rs) {
      FirstDiffers(ls, rs);
    }
  }

  lemma FirstDiffers(ls: seq<Value>, rs: seq<Value>)
    requires |ls| > 0 && |rs| > 0 && ls[0] != rs[0] && ListPrecedes(ls, rs)
    ensures Precedes(ls[0], rs[0])
  {
    hide Precedes;
    forall k | 0 < k <= |ls| && k <= |rs| ensures ls[..k] != rs[..k] {
      assert ls[..k][0] == ls[0] && rs[..k][0] == rs[0];
    }
    assert ls[..|ls|] == ls;
    var i :| 0 <= i < |ls| && i < |rs| && ls[..i] == rs[..i] && ls[i] != rs[i] && Precedes(ls[i], rs[i]);
  }

  lemma ListPrecedesUp(ls: seq<Value>, rs: seq<Value>)
    requires |ls| > 0 && |rs| > 0 && ls[0] == rs[0] && ListPrecedes(ls[1..], rs[1..])
    ensures ListPrecedes(ls, rs)
  {
    hide Precedes;
    var p, q := ls[1..], rs[1..];
    if i :| 0 <= i < |p| && i < |q| && p[..i] == q[..i] && p[i] != q[i] && Precedes(p[i], q[i]) {
      assert ls[..i + 1] == [ls[0]] + p[..i] && rs[..i + 1] == [rs[0]] + q[..i];
      assert Precedes(ls[i + 1], rs[i + 1]);
    } else {
      assert ls == [ls[0]] + p && rs[..|ls|] == [rs[0]] + q[..|p|];
    }
  }

  lemma ListPrecedesDown(ls: seq<Value>, rs: seq<Value>)
    requires |ls| > 0 && |rs| > 0 && ls[0] == rs[0] && ListPrecedes(ls, rs)
    ensures ListPrecedes(ls[1..], rs[1..])
  {
    hide Precedes;
    var p, q := ls[1..], rs[1..];
    if i :| 0 <= i < |ls| && i < |rs| && ls[..i] == rs[..i] && ls[i] != rs[i] && Precedes(ls[i], rs[i]) {
      assert p[..i - 1] == ls[..i][1..] && q[..i - 1] == rs[..i][1..];
      assert Precedes(p[i - 1], q[i - 1]);
    } else {
      assert q[..|p|] == rs[..|ls|][1..];
    }
  }
}
