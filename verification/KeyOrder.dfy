/**
 The logical order of keys in one ordered map (`compare_keys`). A comparison can refuse: keys of
 different types, or a key component that is not permitted. `Err` stands for that refusal.
 */
module KeyOrder {
  import opened Prelude
  import opened Cbor
  import Decimals

  const UUID_TAG := 37
  const DECIMAL_TAG := 60000
  const DATE_TAG := 60001
  const INSTANT_TAG := 60002
  const ENUM_TAG := 60008
  const TUPLE_TAG := 60015
  const STORED_REFERENCE_TAG := 60021

  function TagRank(number: nat): Result<nat> {
    if number == UUID_TAG then Ok(5)
    else if number == DECIMAL_TAG then Ok(6)
    else if number == DATE_TAG then Ok(7)
    else if number == INSTANT_TAG then Ok(8)
    else if number == ENUM_TAG then Ok(9)
    else if number == TUPLE_TAG then Ok(10)
    else if number == STORED_REFERENCE_TAG then Ok(11)
    else Err
  }

  /** _key_rank: the type of a key component. */
  function Rank(v: Value): Result<nat> {
    match v
    case Null => Ok(0)
    case Bool(_) => Ok(1)
    case Int(_) => Ok(2)
    case Text(_) => Ok(3)
    case Bytes(_) => Ok(4)
    case Array(_) => Ok(12)
    case Tag(number, _) => TagRank(number)
    case _ => Err
  }

  function UuidBytes(v: Value): Result<seq<byte>> {
    if v.Tag? && v.number == UUID_TAG && v.value.Bytes? && |v.value.data| == 16 then Ok(v.value.data) else Err
  }

  function TwoUuids(a: Value, b: Value): Result<seq<byte>> {
    var x :- UuidBytes(a);
    var y :- UuidBytes(b);
    Ok(x + y)
  }

  // ----- Components with no component inside -----

  /** What a checked component is compared by. */
  datatype Atom =
    | Unit
    | Number(n: int)
    | Octets(s: seq<byte>)
    | Fraction(coefficient: int, exponent: int)
    | Moment(seconds: int, nanosecond: int)

  /** The checked content of a component; tuples, arrays and references have none. */
  function AtomOf(v: Value): Result<Atom> {
    match v
    case Null => Ok(Unit)
    case Bool(b) => Ok(Number(if b then 1 else 0))
    case Int(i) => Ok(Number(i))
    case Text(utf8) => Ok(Octets(utf8))
    case Bytes(data) => Ok(Octets(data))
    case Tag(number, payload) => TagAtom(number, payload)
    case _ => Err
  }

  function TagAtom(number: nat, payload: Value): Result<Atom> {
    if number == UUID_TAG then
      if payload.Bytes? && |payload.data| == 16 then Ok(Octets(payload.data)) else Err
    else if number == DECIMAL_TAG then
      if payload.Array? && |payload.items| == 2 && payload.items[0].Int? && payload.items[1].Int?
         && Decimals.Normalised(payload.items[0].i, payload.items[1].i)
      then Ok(Fraction(payload.items[0].i, payload.items[1].i)) else Err
    else if number == DATE_TAG then
      if payload.Text? then Ok(Octets(payload.utf8)) else Err
    else if number == INSTANT_TAG then
      if payload.Array? && |payload.items| == 2 && payload.items[0].Int? && payload.items[1].Int?
      then Ok(Moment(payload.items[0].i, payload.items[1].i)) else Err
    else if number == ENUM_TAG then
      if payload.Array? && |payload.items| == 3 && payload.items[2].Null? then
        var s :- TwoUuids(payload.items[0], payload.items[1]);
        Ok(Octets(s))
      else Err
    else Err
  }

  predicate SameForm(a: Atom, b: Atom) {
    && (a.Unit? <==> b.Unit?) && (a.Number? <==> b.Number?) && (a.Octets? <==> b.Octets?)
    && (a.Fraction? <==> b.Fraction?)
  }

  function CompareAtoms(a: Atom, b: Atom): int
    requires SameForm(a, b)
  {
    match a
    case Unit => 0
    case Number(n) => Sign(n - b.n)
    case Octets(s) => LexOrder(s, b.s)
    case Fraction(c, e) => Decimals.Compare(c, e, b.coefficient, b.exponent)
    case Moment(s, n) => if s != b.seconds then Sign(s - b.seconds) else Sign(n - b.nanosecond)
  }

  // ----- compare_keys -----

  /** A stored table reference: database and table, then the referenced key. */
  predicate IsReference(v: Value) {
    && v.Tag? && v.number == STORED_REFERENCE_TAG && v.value.Array? && |v.value.items| == 3
    && TwoUuids(v.value.items[0], v.value.items[1]).Ok?
  }

  function TargetIds(v: Value): seq<byte>
    requires IsReference(v)
  {
    TwoUuids(v.value.items[0], v.value.items[1]).value
  }

  function Compare(l: Value, r: Value): Result<int>
    decreases l, 1
  {
    if Rank(l).Err? || Rank(r).Err? || Rank(l) != Rank(r) then Err
    else if l.Array? then CompareLists(l.items, r.items)
    else if l.Tag? && l.number == TUPLE_TAG then
      if l.value.Array? && r.value.Array? then CompareLists(l.value.items, r.value.items) else Err
    else if l.Tag? && l.number == STORED_REFERENCE_TAG then
      if !IsReference(l) || !IsReference(r) then Err
      else
        var ordering := LexOrder(TargetIds(l), TargetIds(r));
        assert (l.value.items decreases to l.value.items[2]);
        if ordering != 0 then Ok(ordering) else Compare(l.value.items[2], r.value.items[2])
    else
      var a :- AtomOf(l);
      var b :- AtomOf(r);
      if SameForm(a, b) then Ok(CompareAtoms(a, b)) else Err
  }

  function CompareLists(ls: seq<Value>, rs: seq<Value>): Result<int>
    decreases ls, 0
  {
    if |ls| == 0 || |rs| == 0 then Ok(Sign(|ls| - |rs|))
    else
      var ordering :- Compare(ls[0], rs[0]);
      if ordering != 0 then Ok(ordering) else CompareLists(ls[1..], rs[1..])
  }

  /** A permitted key: every component, at any nesting, has the shape its tag requires. */
  predicate ValidKey(v: Value)
    decreases v, 1
  {
    if v.Array? then AllValid(v.items)
    else if v.Tag? && v.number == TUPLE_TAG then v.value.Array? && AllValid(v.value.items)
    else if v.Tag? && v.number == STORED_REFERENCE_TAG then
      IsReference(v) && (assert (v.value.items decreases to v.value.items[2]); ValidKey(v.value.items[2]))
    else AtomOf(v).Ok?
  }

  predicate AllValid(vs: seq<Value>)
    decreases vs, 0
  {
    |vs| == 0 || (ValidKey(vs[0]) && AllValid(vs[1..]))
  }

  /** The two keys are compared without refusal and the left one comes first. */
  predicate Before(l: Value, r: Value) { Compare(l, r) == Ok(-1) }

  // ----- Laws of atoms -----

  lemma AtomLaws(a: Atom, b: Atom)
    requires SameForm(a, b)
    requires a.Fraction? ==> Decimals.Normalised(a.coefficient, a.exponent)
    requires b.Fraction? ==> Decimals.Normalised(b.coefficient, b.exponent)
    ensures -1 <= CompareAtoms(a, b) <= 1
    ensures CompareAtoms(b, a) == -CompareAtoms(a, b)
    ensures CompareAtoms(a, b) == 0 <==> a == b
  {
    hide Decimals.Compare, LexLess;
    match a
    case Octets(s) => OctetLaws(s, b.s);
    case Fraction(c, e) => FractionLaws(c, e, b.coefficient, b.exponent);
    case _ =>
  }

  lemma OctetLaws(s: seq<byte>, t: seq<byte>)
    ensures LexOrder(t, s) == -LexOrder(s, t)
    ensures LexOrder(s, t) == 0 <==> s == t
  {
    LexTotal(s, t);
    LexIrreflexive(s);
    if LexLess(s, t) { LexAsymmetric(s, t); }
    if LexLess(t, s) { LexAsymmetric(t, s); }
    hide LexLess;
  }

  lemma FractionLaws(c1: int, e1: int, c2: int, e2: int)
    requires Decimals.Normalised(c1, e1) && Decimals.Normalised(c2, e2)
    ensures -1 <= Decimals.Compare(c1, e1, c2, e2) <= 1
    ensures Decimals.Compare(c2, e2, c1, e1) == -Decimals.Compare(c1, e1, c2, e2)
    ensures Decimals.Compare(c1, e1, c2, e2) == 0 <==> c1 == c2 && e1 == e2
  {
    hide Decimals.Compare, Pow;
    Decimals.CompareExact(c1, e1, c2, e2, Min(e1, e2));
    Decimals.CompareAntisymmetric(c1, e1, c2, e2);
    if Decimals.Compare(c1, e1, c2, e2) == 0 { Decimals.CompareZero(c1, e1, c2, e2); }
  }

  lemma AtomTransitive(a: Atom, b: Atom, c: Atom)
    requires SameForm(a, b) && SameForm(b, c)
    requires CompareAtoms(a, b) <= 0 && CompareAtoms(b, c) <= 0
    ensures CompareAtoms(a, c) == Min(CompareAtoms(a, b), CompareAtoms(b, c))
  {
    hide Decimals.Compare, LexLess;
    match a
    case Octets(s) => OctetTransitive(s, b.s, c.s);
    case Fraction(_, _) =>
      Decimals.CompareTransitive(a.coefficient, a.exponent, b.coefficient, b.exponent, c.coefficient, c.exponent);
    case _ =>
  }

  lemma OctetTransitive(s: seq<byte>, t: seq<byte>, u: seq<byte>)
    requires LexOrder(s, t) <= 0 && LexOrder(t, u) <= 0
    ensures LexOrder(s, u) == Min(LexOrder(s, t), LexOrder(t, u))
  {
    OctetLaws(s, t);
    OctetLaws(t, u);
    OctetLaws(s, u);
    if LexLess(s, t) && LexLess(t, u) { LexTransitive(s, t, u); }
    hide LexLess;
  }

  /** Within one type a component is determined by what it is compared by. */
  lemma AtomOfInjective(l: Value, r: Value)
    requires Rank(l).Ok? && Rank(l) == Rank(r) && AtomOf(l).Ok? && AtomOf(l) == AtomOf(r)
    ensures l == r
  {
    if l.Tag? {
      hide Decimals.Normalised;
      var x, y := l.value, r.value;
      if l.number == ENUM_TAG {
        TwoUuidsInjective(x.items[0], x.items[1], y.items[0], y.items[1]);
        assert x.items == [x.items[0], x.items[1], Null] && y.items == [y.items[0], y.items[1], Null];
      } else if x.Array? {
        assert x.items == [x.items[0], x.items[1]] && y.items == [y.items[0], y.items[1]];
      }
    }
  }

  lemma TwoUuidsInjective(a: Value, b: Value, c: Value, d: Value)
    requires TwoUuids(a, b).Ok? && TwoUuids(a, b) == TwoUuids(c, d)
    ensures a == c && b == d
  {
    var s, t := TwoUuids(a, b).value, TwoUuids(c, d).value;
    assert s[..16] == a.value.data && s[16..] == b.value.data;
    assert t[..16] == c.value.data && t[16..] == d.value.data;
  }

  lemma AtomForm(l: Value, r: Value)
    requires Rank(l).Ok? && Rank(l) == Rank(r) && AtomOf(l).Ok? && AtomOf(r).Ok?
    ensures SameForm(AtomOf(l).value, AtomOf(r).value)
    ensures AtomOf(l).value.Fraction? ==> Decimals.Normalised(AtomOf(l).value.coefficient, AtomOf(l).value.exponent)
  {
    hide Decimals.Normalised;
  }

  // ----- Laws of compare_keys -----

  lemma {:induction false} Antisymmetric(l: Value, r: Value)
    requires Compare(l, r).Ok?
    ensures -1 <= Compare(l, r).value <= 1 && Compare(r, l) == Ok(-Compare(l, r).value)
    ensures Compare(l, r) == Ok(0) ==> l == r
    decreases l, 1
  {
    hide CompareAtoms, SameForm, TwoUuids, UuidBytes, LexLess, CompareLists, TagAtom;
    if l.Array? {
      ListsAntisymmetric(l.items, r.items);
    } else if l.Tag? && l.number == TUPLE_TAG {
      ListsAntisymmetric(l.value.items, r.value.items);
    } else if l.Tag? && l.number == STORED_REFERENCE_TAG {
      ReferencesAntisymmetric(l, r);
    } else {
      AtomForm(l, r);
      AtomForm(r, l);
      AtomLaws(AtomOf(l).value, AtomOf(r).value);
      if Compare(l, r) == Ok(0) { AtomOfInjective(l, r); }
    }
  }

  lemma {:induction false} ReferencesAntisymmetric(l: Value, r: Value)
    requires IsReference(l) && IsReference(r) && Compare(l, r).Ok?
    ensures -1 <= Compare(l, r).value <= 1 && Compare(r, l) == Ok(-Compare(l, r).value)
    ensures Compare(l, r) == Ok(0) ==> l == r
    decreases l, 0
  {
    hide TwoUuids, UuidBytes, LexLess;
    OctetLaws(TargetIds(l), TargetIds(r));
    var x, y := l.value.items, r.value.items;
    assert (x decreases to x[2]);
    if TargetIds(l) == TargetIds(r) {
      Antisymmetric(x[2], y[2]);
      TwoUuidsInjective(x[0], x[1], y[0], y[1]);
      assert x == [x[0], x[1], x[2]] && y == [y[0], y[1], y[2]];
    }
  }

  lemma {:induction false} ListsAntisymmetric(ls: seq<Value>, rs: seq<Value>)
    requires CompareLists(ls, rs).Ok?
    ensures -1 <= CompareLists(ls, rs).value <= 1 && CompareLists(rs, ls) == Ok(-CompareLists(ls, rs).value)
    ensures CompareLists(ls, rs) == Ok(0) ==> ls == rs
    decreases ls, 0
  {
    hide Compare;
    if |ls| > 0 && |rs| > 0 {
      Antisymmetric(ls[0], rs[0]);
      if Compare(ls[0], rs[0]) == Ok(0) {
        ListsAntisymmetric(ls[1..], rs[1..]);
        assert ls == [ls[0]] + ls[1..] && rs == [rs[0]] + rs[1..];
      }
    }
  }

  /** Chained comparisons compose, and the composed pair is never refused. */
  lemma {:induction false} Transitive(a: Value, b: Value, c: Value)
    requires Compare(a, b).Ok? && Compare(a, b).value <= 0
    requires Compare(b, c).Ok? && Compare(b, c).value <= 0
    ensures Compare(a, c) == Ok(Min(Compare(a, b).value, Compare(b, c).value))
    decreases a, 1
  {
    hide CompareAtoms, SameForm, TwoUuids, UuidBytes, LexLess, CompareLists, TagAtom;
    if a.Array? {
      ListsTransitive(a.items, b.items, c.items);
    } else if a.Tag? && a.number == TUPLE_TAG {
      ListsTransitive(a.value.items, b.value.items, c.value.items);
    } else if a.Tag? && a.number == STORED_REFERENCE_TAG {
      ReferencesTransitive(a, b, c);
    } else {
      AtomForm(a, c);
      AtomTransitive(AtomOf(a).value, AtomOf(b).value, AtomOf(c).value);
    }
  }

  lemma {:induction false} ReferencesTransitive(a: Value, b: Value, c: Value)
    requires IsReference(a) && IsReference(b) && IsReference(c)
    requires Compare(a, b).Ok? && Compare(a, b).value <= 0
    requires Compare(b, c).Ok? && Compare(b, c).value <= 0
    ensures Compare(a, c) == Ok(Min(Compare(a, b).value, Compare(b, c).value))
    decreases a, 0
  {
    hide TwoUuids, UuidBytes, LexLess;
    OctetTransitive(TargetIds(a), TargetIds(b), TargetIds(c));
    Antisymmetric(a, b);
    Antisymmetric(b, c);
    var x := a.value.items;
    assert (x decreases to x[2]);
    if TargetIds(a) == TargetIds(b) == TargetIds(c) {
      OctetLaws(TargetIds(a), TargetIds(b));
      Transitive(x[2], b.value.items[2], c.value.items[2]);
    } else {
      OctetLaws(TargetIds(a), TargetIds(b));
      OctetLaws(TargetIds(b), TargetIds(c));
    }
  }

  lemma {:induction false} ListsTransitive(us: seq<Value>, vs: seq<Value>, ws: seq<Value>)
    requires CompareLists(us, vs).Ok? && CompareLists(us, vs).value <= 0
    requires CompareLists(vs, ws).Ok? && CompareLists(vs, ws).value <= 0
    ensures CompareLists(us, ws) == Ok(Min(CompareLists(us, vs).value, CompareLists(vs, ws).value))
    decreases us, 0
  {
    hide Compare;
    ListsAntisymmetric(us, vs);
    ListsAntisymmetric(vs, ws);
    if |us| > 0 {
      Antisymmetric(us[0], vs[0]);
      Antisymmetric(vs[0], ws[0]);
      Transitive(us[0], vs[0], ws[0]);
      if Compare(us[0], vs[0]) == Ok(0) && Compare(vs[0], ws[0]) == Ok(0) {
        ListsTransitive(us[1..], vs[1..], ws[1..]);
      }
    }
  }

  /** A key compares with itself exactly when it is permitted, and then it is equal to itself. */
  lemma {:induction false} Reflexive(v: Value)
    ensures ValidKey(v) <==> Compare(v, v).Ok?
    ensures ValidKey(v) ==> Compare(v, v) == Ok(0)
    decreases v, 1
  {
    hide CompareAtoms, SameForm, TwoUuids, UuidBytes, LexOrder, CompareLists, TagAtom, AllValid;
    if v.Array? {
      ListsReflexive(v.items);
    } else if v.Tag? && v.number == TUPLE_TAG {
      if v.value.Array? { ListsReflexive(v.value.items); }
    } else if v.Tag? && v.number == STORED_REFERENCE_TAG {
      if IsReference(v) {
        OctetLaws(TargetIds(v), TargetIds(v));
        var x := v.value.items;
        assert (x decreases to x[2]);
        Reflexive(x[2]);
      }
    } else if AtomOf(v).Ok? {
      AtomRanked(v);
      AtomForm(v, v);
      AtomLaws(AtomOf(v).value, AtomOf(v).value);
    }
  }

  lemma AtomRanked(v: Value)
    requires AtomOf(v).Ok?
    ensures Rank(v).Ok?
  {
  }

  lemma {:induction false} ListsReflexive(vs: seq<Value>)
    ensures AllValid(vs) <==> CompareLists(vs, vs).Ok?
    ensures AllValid(vs) ==> CompareLists(vs, vs) == Ok(0)
    decreases vs, 0
  {
    hide Compare, ValidKey;
    if |vs| > 0 {
      Reflexive(vs[0]);
      if Compare(vs[0], vs[0]).Ok? {
        ListsReflexive(vs[1..]);
      }
    }
  }

  // ----- Consequences for a map's keys -----

  /** Each key is compared with its successor and found to precede it. */
  predicate Ascending(ks: seq<Value>) {
    forall i :: 0 <= i < |ks| - 1 ==> Before(ks[i], ks[i + 1])
  }

  /** A neighbour-by-neighbour check orders every pair, however far apart. */
  lemma {:induction false} AscendingPairs(ks: seq<Value>, i: nat, j: nat)
    requires Ascending(ks) && i < j < |ks|
    ensures Before(ks[i], ks[j])
    decreases j - i
  {
    hide Compare;
    assert Before(ks[j - 1], ks[j - 1 + 1]);
    if i < j - 1 {
      AscendingPairs(ks, i, j - 1);
      Transitive(ks[i], ks[j - 1], ks[j]);
    }
  }

  lemma BeforeIsStrict(a: Value, b: Value)
    requires Before(a, b)
    ensures a != b && !Before(b, a) && Compare(b, a) == Ok(1)
  {
    hide Compare;
    Antisymmetric(a, b);
    if a == b { Antisymmetric(a, a); }
  }
}
