/**
 Bounded scans of an ordered map (`collect_ordered_range_with`, `ordered_node_bounds_with`): the
 rows of an interval after a resume key, up to a limit, read from the pages that can hold them.
 */
module RangeScan {
  import opened Prelude
  import opened Cbor
  import opened Sorting
  import opened OrderedMap
  import opened MapStructure
  import opened MapPages
  import KeyOrder

  type Order = (Value, Value) -> bool

  const MAX_SIGNED_LENGTH: nat := 0x7fff_ffff_ffff_ffff

  datatype Range = Range(lower: Option<Value>, upper: Option<Value>, resume: Option<Value>, limit: nat)

  // ----- What a scan is for -----

  predicate AfterResume(less: Order, range: Range, key: Value) {
    range.resume.None? || less(range.resume.value, key)
  }

  predicate AtLeast(less: Order, range: Range, key: Value) {
    range.lower.None? || !less(key, range.lower.value)
  }

  predicate BelowUpper(less: Order, range: Range, key: Value) {
    range.upper.None? || less(key, range.upper.value)
  }

  predicate Within(less: Order, range: Range, key: Value) {
    AfterResume(less, range, key) && AtLeast(less, range, key) && BelowUpper(less, range, key)
  }

  /** The rows of the interval, in order. */
  function Wanted(less: Order, range: Range, rows: seq<Row>): seq<Row> {
    if |rows| == 0 then []
    else (if Within(less, range, rows[0].key) then [rows[0]] else []) + Wanted(less, range, rows[1..])
  }

  function Take(rows: seq<Row>, n: int): seq<Row> {
    if n <= 0 then [] else rows[..Min(n, |rows|)]
  }

  /** The first rows of the interval, up to the limit. */
  function Page(less: Order, range: Range, rows: seq<Row>): seq<Row> {
    Take(Wanted(less, range, rows), range.limit)
  }

  // ----- ordered_node_bounds_with -----

  datatype Bounds = Bounds(count: nat, minimum: Value, maximum: Value)

  /** Row count and end keys of a page, read from its outermost pages. */
  function BoundsAt(less: Order, store: Store, n: Node, domain: Value, height: nat): Result<Bounds>
    decreases height, 0
  {
    match n
    case Other => Err
    case Leaf(d, rows) =>
      if d != domain || height != 0 || |rows| == 0 then Err
      else Ok(Bounds(|rows|, rows[0].key, rows[|rows| - 1].key))
    case Branch(d, h, cs) =>
      if d != domain || h == 0 || h != height || |cs| == 0 || CountSum(cs) > MAX_SIGNED_LENGTH then Err
      else
        var first :- ChildBounds(less, store, cs[0], domain, height - 1);
        if |cs| == 1 then Ok(Bounds(CountSum(cs), first.minimum, first.maximum))
        else
          var last :- ChildBounds(less, store, cs[|cs| - 1], domain, height - 1);
          if !less(first.maximum, last.minimum) then Err
          else Ok(Bounds(CountSum(cs), first.minimum, last.maximum))
  }

  /** The bounds of the page an entry names, if they are those the entry records. */
  function ChildBounds(less: Order, store: Store, c: Child, domain: Value, height: nat): Result<Bounds>
    decreases height, 1
  {
    if c.oid !in store then Err
    else
      var b :- BoundsAt(less, store, store[c.oid], domain, height);
      if b.count != c.count || b.maximum != c.fence then Err else Ok(b)
  }

  // ----- collect_ordered_range_with -----

  /** The scan of one leaf. */
  function CollectRows(
      less: Order, rows: seq<Row>, previous: Option<Value>, above: Option<Value>, range: Range, output: seq<Row>)
    : Result<seq<Row>>
    decreases |rows|
  {
    if |rows| == 0 then Ok(output)
    else
      var key := rows[0].key;
      if (previous.Some? && !less(previous.value, key)) || (above.Some? && !less(above.value, key)) then Err
      else if !AfterResume(less, range, key) || !AtLeast(less, range, key) then
        CollectRows(less, rows[1..], Some(key), above, range, output)
      else if !BelowUpper(less, range, key) then Ok(output)
      else if |output| + 1 >= range.limit then Ok(output + [rows[0]])
      else CollectRows(less, rows[1..], Some(key), above, range, output + [rows[0]])
  }

  function Collect(
      less: Order, store: Store, n: Node, domain: Value, height: nat, above: Option<Value>, range: Range,
      output: seq<Row>): Result<seq<Row>>
    decreases height, 1
  {
    if |output| >= range.limit then Ok(output)
    else
      match n
      case Other => Err
      case Leaf(d, rows) =>
        if d != domain || height != 0 then Err else CollectRows(less, rows, None, above, range, output)
      case Branch(d, h, cs) =>
        if d != domain || h == 0 || h != height || |cs| == 0 then Err
        else CollectChildren(less, store, cs, domain, height, 0, None, range, output)
  }

  /** Whether a page with this fence can hold a wanted key. */
  predicate Reaches(less: Order, range: Range, fence: Value) {
    AtLeast(less, range, fence) && AfterResume(less, range, fence)
  }

  /** The scan of the children of one branch. */
  function CollectChildren(
      less: Order, store: Store, cs: seq<Child>, domain: Value, height: nat, total: nat, previous: Option<Value>,
      range: Range, output: seq<Row>): Result<seq<Row>>
    requires height > 0
    decreases height, 0, |cs|
  {
    if |cs| == 0 then Ok(output)
    else
      var c := cs[0];
      if total + c.count > MAX_SIGNED_LENGTH || (previous.Some? && !less(previous.value, c.fence)) then Err
      else if !Reaches(less, range, c.fence) then
        CollectChildren(less, store, cs[1..], domain, height, total + c.count, Some(c.fence), range, output)
      else
        var b :- ChildBounds(less, store, c, domain, height - 1);
        if previous.Some? && !less(previous.value, b.minimum) then Err
        else if !BelowUpper(less, range, b.minimum) then Ok(output)
        else
          var more :- CollectChild(less, store, c, domain, height, previous, range, output);
          if |more| >= range.limit then Ok(more)
          else CollectChildren(less, store, cs[1..], domain, height, total + c.count, Some(c.fence), range, more)
  }

  function CollectChild(
      less: Order, store: Store, c: Child, domain: Value, height: nat, previous: Option<Value>,
      range: Range, output: seq<Row>): Result<seq<Row>>
    requires height > 0
    decreases height - 1, 2
  {
    if c.oid !in store then Err
    else Collect(less, store, store[c.oid], domain, height - 1, previous, range, output)
  }

  /** A scan of a whole map; the height is the root's own. */
  function RangeRows(less: Order, store: Store, root: Node, domain: Value, range: Range): Result<seq<Row>> {
    Collect(less, store, root, domain, RootHeight(root), None, range, [])
  }

  // ----- Sound maps -----

  predicate Ascends(less: Order, rows: seq<Row>) {
    forall i, j | 0 <= i < j < |rows| :: less(rows[i].key, rows[j].key)
  }

  /** A key below every row. */
  predicate BelowAll(less: Order, key: Option<Value>, rows: seq<Row>) {
    key.Some? ==> forall i | 0 <= i < |rows| :: less(key.value, rows[i].key)
  }

  // ----- Selecting rows -----

  lemma {:induction false} WantedJoin(less: Order, range: Range, a: seq<Row>, b: seq<Row>)
    ensures Wanted(less, range, a + b) == Wanted(less, range, a) + Wanted(less, range, b)
    decreases |a|
  {
    hide Within;
    if |a| == 0 {
      assert a + b == b;
    } else {
      WantedJoin(less, range, a[1..], b);
      var c := a + b;
      assert c[1..] == a[1..] + b && c[0] == a[0];
    }
  }

  lemma {:induction false} WantedNone(less: Order, range: Range, rows: seq<Row>)
    requires forall i | 0 <= i < |rows| :: !Within(less, range, rows[i].key)
    ensures Wanted(less, range, rows) == []
    decreases |rows|
  {
    hide Within;
    if |rows| > 0 { WantedNone(less, range, rows[1..]); }
  }

  lemma TakeJoin(a: seq<Row>, b: seq<Row>, n: int)
    ensures |a| >= n ==> Take(a + b, n) == Take(a, n)
    ensures |a| < n ==> Take(a + b, n) == a + Take(b, n - |a|) && Take(a, n) == a
  {
  }

  // ----- The bounds of a sound page -----

  /** What a page's bounds must be. */
  function BoundsOf(rows: seq<Row>): Bounds
    requires |rows| > 0
  {
    Bounds(|rows|, rows[0].key, rows[|rows| - 1].key)
  }

  lemma AscendsParts(less: Order, a: seq<Row>, b: seq<Row>)
    requires Ascends(less, a + b)
    ensures Ascends(less, a) && Ascends(less, b)
    ensures forall i, j | 0 <= i < |a| && 0 <= j < |b| :: less(a[i].key, b[j].key)
  {
    var c := a + b;
    forall i, j | 0 <= i < j < |a| ensures less(a[i].key, a[j].key) { assert a[i] == c[i] && a[j] == c[j]; }
    forall i, j | 0 <= i < j < |b| ensures less(b[i].key, b[j].key) {
      assert b[i] == c[|a| + i] && b[j] == c[|a| + j];
    }
    forall i, j | 0 <= i < |a| && 0 <= j < |b| ensures less(a[i].key, b[j].key) {
      assert a[i] == c[i] && b[j] == c[|a| + j];
    }
  }

  lemma {:induction false} BoundsExact(less: Order, store: Store, n: Node, domain: Value, height: nat)
    requires TotalOrder(less) && Shaped(store, n, domain, height)
    requires Ascends(less, Under(store, n, height)) && 0 < |Under(store, n, height)| <= MAX_SIGNED_LENGTH
    ensures BoundsAt(less, store, n, domain, height) == Ok(BoundsOf(Under(store, n, height)))
    decreases height, 0
  {
    hide TotalOrder, UnderChild, ChildBounds, Ascends;
    if height > 0 {
      var cs := n.children;
      var rows := UnderAll(store, cs, height - 1);
      assert ChildShaped(store, cs[0], domain, height - 1) && ChildShaped(store, cs[|cs| - 1], domain, height - 1);
      CountsUnder(store, cs, domain, height - 1);
      hide Shaped;
      ChildFirst(store, cs, height - 1);
      ChildLast(store, cs, height - 1);
      hide UnderAll;
      var first, last := UnderChild(store, cs[0], height - 1), UnderChild(store, cs[|cs| - 1], height - 1);
      AscendsParts(less, first, UnderAll(store, cs[1..], height - 1));
      AscendsParts(less, UnderAll(store, cs[..|cs| - 1], height - 1), last);
      ChildBoundsExact(less, store, cs[0], domain, height - 1);
      ChildBoundsExact(less, store, cs[|cs| - 1], domain, height - 1);
      if |cs| == 1 {
        assert cs[..|cs| - 1] == [];
        NoChildren(store, height - 1);
      } else {
        var init := UnderAll(store, cs[..|cs| - 1], height - 1);
        ChildFirst(store, cs[..|cs| - 1], height - 1);
        assert cs[..|cs| - 1][0] == cs[0];
        assert init[|first| - 1] == first[|first| - 1] && less(init[|first| - 1].key, last[0].key);
      }
    }
  }

  lemma {:induction false} ChildBoundsExact(less: Order, store: Store, c: Child, domain: Value, height: nat)
    requires TotalOrder(less) && ChildShaped(store, c, domain, height) && Ascends(less, UnderChild(store, c, height))
    requires |UnderChild(store, c, height)| <= MAX_SIGNED_LENGTH
    ensures |UnderChild(store, c, height)| > 0
    ensures ChildBounds(less, store, c, domain, height) == Ok(BoundsOf(UnderChild(store, c, height)))
    decreases height, 1
  {
    hide TotalOrder, Ascends, Shaped, Under, BoundsAt;
    BoundsExact(less, store, store[c.oid], domain, height);
  }

  // ----- The scan of a sound map -----

  lemma {:induction false} CollectRowsExact(
      less: Order, rows: seq<Row>, previous: Option<Value>, above: Option<Value>, range: Range, output: seq<Row>)
    requires TotalOrder(less) && Ascends(less, rows) && |output| < range.limit
    requires BelowAll(less, previous, rows) && BelowAll(less, above, rows)
    ensures CollectRows(less, rows, previous, above, range, output)
         == Ok(output + Take(Wanted(less, range, rows), range.limit - |output|))
    decreases |rows|
  {
    hide TotalOrder, Ascends, BelowAll, AfterResume, AtLeast, BelowUpper;
    if |rows| > 0 {
      var key, rest := rows[0].key, rows[1..];
      TailRows(less, rows, previous);
      TailRows(less, rows, above);
      if !AfterResume(less, range, key) || !AtLeast(less, range, key) {
        CollectRowsExact(less, rest, Some(key), above, range, output);
        assert Wanted(less, range, rows) == [] + Wanted(less, range, rest) == Wanted(less, range, rest);
      } else if !BelowUpper(less, range, key) {
        PastUpper(less, range, key, rows);
        assert output + [] == output;
      } else {
        var more := output + [rows[0]];
        TakeJoin([rows[0]], Wanted(less, range, rest), range.limit - |output|);
        if |more| < range.limit {
          CollectRowsExact(less, rest, Some(key), above, range, more);
          assert output + ([rows[0]] + Take(Wanted(less, range, rest), range.limit - |more|))
              == more + Take(Wanted(less, range, rest), range.limit - |more|);
        }
      }
    } else {
      assert output + [] == output;
    }
  }

  lemma TailRows(less: Order, rows: seq<Row>, above: Option<Value>)
    requires Ascends(less, rows) && |rows| > 0 && BelowAll(less, above, rows)
    ensures Ascends(less, rows[1..]) && BelowAll(less, Some(rows[0].key), rows[1..]) && BelowAll(less, above, rows[1..])
    ensures above.Some? ==> less(above.value, rows[0].key)
  {
    assert forall i | 0 <= i < |rows[1..]| :: rows[1..][i] == rows[i + 1];
  }

  /** From a key at or above the upper bound on, nothing is wanted. */
  lemma PastUpper(less: Order, range: Range, key: Value, rows: seq<Row>)
    requires TotalOrder(less) && !BelowUpper(less, range, key)
    requires Ascends(less, rows) && |rows| > 0 && rows[0].key == key
    ensures Wanted(less, range, rows) == []
  {
    forall i | 0 <= i < |rows| ensures !Within(less, range, rows[i].key) {
      assert i > 0 ==> less(key, rows[i].key);
    }
    WantedNone(less, range, rows);
  }

  /** A page whose fence lies outside the interval on its low side holds nothing wanted. */
  lemma UnreachedPage(less: Order, range: Range, rows: seq<Row>)
    requires TotalOrder(less) && Ascends(less, rows) && |rows| > 0
    requires !Reaches(less, range, rows[|rows| - 1].key)
    ensures Wanted(less, range, rows) == []
  {
    var fence := rows[|rows| - 1].key;
    forall i | 0 <= i < |rows| ensures !Within(less, range, rows[i].key) {
      assert i < |rows| - 1 ==> less(rows[i].key, fence);
    }
    WantedNone(less, range, rows);
  }

  /** Scanning one sound page appends the wanted rows beneath it, up to the limit. */
  lemma {:induction false} CollectExact(
      less: Order, store: Store, n: Node, domain: Value, height: nat, above: Option<Value>, range: Range,
      output: seq<Row>)
    requires TotalOrder(less) && Shaped(store, n, domain, height) && |output| < range.limit
    requires Ascends(less, Under(store, n, height)) && BelowAll(less, above, Under(store, n, height))
    requires |Under(store, n, height)| <= MAX_SIGNED_LENGTH
    ensures Collect(less, store, n, domain, height, above, range, output)
         == Ok(output + Take(Wanted(less, range, Under(store, n, height)), range.limit - |output|))
    decreases height, 1
  {
    hide TotalOrder, Ascends, BelowAll, Wanted, CollectRows, CollectChildren, UnderAll, ChildShaped;
    if height == 0 {
      NothingBelow(less, n.rows);
      CollectRowsExact(less, n.rows, None, above, range, output);
    } else {
      NothingBelow(less, UnderAll(store, n.children, height - 1));
      CollectChildrenExact(less, store, n.children, domain, height, 0, None, range, output);
    }
  }

  lemma NothingBelow(less: Order, rows: seq<Row>)
    ensures BelowAll(less, None, rows)
  {
  }

  lemma {:induction false} CollectChildrenExact(
      less: Order, store: Store, cs: seq<Child>, domain: Value, height: nat, total: nat, previous: Option<Value>,
      range: Range, output: seq<Row>)
    requires TotalOrder(less) && height > 0 && AllShaped(store, cs, domain, height - 1)
    requires total + |UnderAll(store, cs, height - 1)| <= MAX_SIGNED_LENGTH && |output| < range.limit
    requires Ascends(less, UnderAll(store, cs, height - 1)) && BelowAll(less, previous, UnderAll(store, cs, height - 1))
    ensures CollectChildren(less, store, cs, domain, height, total, previous, range, output)
         == Ok(output + Take(Wanted(less, range, UnderAll(store, cs, height - 1)), range.limit - |output|))
    decreases height, 0, |cs|
  {
    hide TotalOrder, Ascends, BelowAll, Wanted, Shaped, Collect, UnderAll, UnderChild, Take, ChildBounds, CollectChild;
    hide AfterResume, AtLeast, BelowUpper;
    if |cs| == 0 {
      NoChildren(store, height - 1);
      NothingWanted(less, range, range.limit - |output|);
      assert output + [] == output;
    } else {
      var c, here, rest := cs[0], UnderChild(store, cs[0], height - 1), UnderAll(store, cs[1..], height - 1);
      var room := range.limit - |output|;
      assert ChildShaped(store, c, domain, height - 1) && AllShaped(store, cs[1..], domain, height - 1);
      ChildFirst(store, cs, height - 1);
      ChildParts(less, here, rest, previous, c.fence);
      WantedJoin(less, range, here, rest);
      if !Reaches(less, range, c.fence) {
        UnreachedPage(less, range, here);
        CollectChildrenExact(less, store, cs[1..], domain, height, total + c.count, Some(c.fence), range, output);
        assert [] + Wanted(less, range, rest) == Wanted(less, range, rest);
      } else {
        ChildBoundsExact(less, store, c, domain, height - 1);
        if !BelowUpper(less, range, here[0].key) {
          PastUpper(less, range, here[0].key, here + rest);
          NothingWanted(less, range, room);
          assert output + [] == output;
        } else {
          CollectChildExact(less, store, c, domain, height, previous, range, output);
          var more := output + Take(Wanted(less, range, here), room);
          TakeJoin(Wanted(less, range, here), Wanted(less, range, rest), room);
          TakeLength(Wanted(less, range, here), room);
          if |more| < range.limit {
            CollectChildrenExact(less, store, cs[1..], domain, height, total + c.count, Some(c.fence), range, more);
            assert more + Take(Wanted(less, range, rest), range.limit - |more|)
                == output + (Wanted(less, range, here) + Take(Wanted(less, range, rest), range.limit - |more|));
          }
        }
      }
    }
  }

  lemma NothingWanted(less: Order, range: Range, n: int)
    ensures Wanted(less, range, []) == [] && Take([], n) == []
  {
  }

  lemma TakeLength(rows: seq<Row>, n: int)
    requires n > 0
    ensures |Take(rows, n)| == Min(n, |rows|)
  {
  }

  /** The rows of the first child and of the others, as order sees them. */
  lemma ChildParts(less: Order, here: seq<Row>, rest: seq<Row>, previous: Option<Value>, fence: Value)
    requires Ascends(less, here + rest) && BelowAll(less, previous, here + rest)
    requires |here| > 0 && here[|here| - 1].key == fence
    ensures Ascends(less, here) && Ascends(less, rest)
    ensures BelowAll(less, previous, here) && BelowAll(less, Some(fence), rest)
    ensures previous.Some? ==> less(previous.value, fence) && less(previous.value, here[0].key)
  {
    AscendsParts(less, here, rest);
    var all := here + rest;
    if previous.Some? {
      forall i | 0 <= i < |here| ensures less(previous.value, here[i].key) { assert here[i] == all[i]; }
    }
  }

  lemma {:induction false} CollectChildExact(
      less: Order, store: Store, c: Child, domain: Value, height: nat, previous: Option<Value>, range: Range,
      output: seq<Row>)
    requires TotalOrder(less) && height > 0 && ChildShaped(store, c, domain, height - 1) && |output| < range.limit
    requires Ascends(less, UnderChild(store, c, height - 1))
        && BelowAll(less, previous, UnderChild(store, c, height - 1))
    requires |UnderChild(store, c, height - 1)| <= MAX_SIGNED_LENGTH
    ensures CollectChild(less, store, c, domain, height, previous, range, output)
         == Ok(output + Take(Wanted(less, range, UnderChild(store, c, height - 1)), range.limit - |output|))
    decreases height - 1, 2
  {
    hide TotalOrder, Ascends, BelowAll, Wanted, Shaped, Collect, Under, Take;
    CollectExact(less, store, store[c.oid], domain, height - 1, previous, range, output);
  }

  /** A scan of a sound map returns exactly the first rows of the interval, up to the limit. */
  lemma RangeExact(less: Order, store: Store, root: Node, domain: Value, range: Range)
    requires TotalOrder(less) && Shaped(store, root, domain, RootHeight(root))
    requires Ascends(less, Under(store, root, RootHeight(root)))
    requires |Under(store, root, RootHeight(root))| <= MAX_SIGNED_LENGTH
    ensures RangeRows(less, store, root, domain, range) == Ok(Page(less, range, Under(store, root, RootHeight(root))))
  {
    hide TotalOrder, Ascends, Wanted, Shaped, Under;
    if range.limit > 0 {
      NothingBelow(less, Under(store, root, RootHeight(root)));
      CollectExact(less, store, root, domain, RootHeight(root), None, range, []);
      var rows := Take(Wanted(less, range, Under(store, root, RootHeight(root))), range.limit);
      assert [] + rows == rows;
    }
  }

  // ----- Which rows those are -----

  /** Below the lower bound, or not after the resume key. */
  predicate TooLow(less: Order, range: Range, key: Value) {
    || (range.lower.Some? && less(key, range.lower.value))
    || (range.resume.Some? && (key == range.resume.value || less(key, range.resume.value)))
  }

  /** At the upper bound or above it. */
  predicate TooHigh(less: Order, range: Range, key: Value) {
    range.upper.Some? && (key == range.upper.value || less(range.upper.value, key))
  }

  /** All rows before the stretch are too low, all from its end on too high, and none in it is either. */
  ghost predicate Stretch(less: Order, range: Range, rows: seq<Row>, first: nat, last: nat) {
    && first <= last <= |rows|
    && (forall i | 0 <= i < first :: TooLow(less, range, rows[i].key))
    && (forall i | first <= i < last :: !TooLow(less, range, rows[i].key) && !TooHigh(less, range, rows[i].key))
    && (forall i | last <= i < |rows| :: TooHigh(less, range, rows[i].key))
  }

  lemma WithinExact(less: Order, range: Range, key: Value)
    requires TotalOrder(less)
    ensures TooLow(less, range, key) <==> !AfterResume(less, range, key) || !AtLeast(less, range, key)
    ensures TooHigh(less, range, key) <==> !BelowUpper(less, range, key)
  {
  }

  /** Keys above one that is not too low are not too low; keys above one that is too high are too high. */
  lemma WithinAscends(less: Order, range: Range, a: Value, b: Value)
    requires TotalOrder(less) && less(a, b)
    ensures TooLow(less, range, b) ==> TooLow(less, range, a)
    ensures TooHigh(less, range, a) ==> TooHigh(less, range, b)
  {
  }

  lemma {:induction false} WantedStretch(less: Order, range: Range, rows: seq<Row>) returns (first: nat, last: nat)
    requires TotalOrder(less) && Ascends(less, rows)
    ensures Stretch(less, range, rows, first, last) && Wanted(less, range, rows) == rows[first..last]
    decreases |rows|
  {
    hide TotalOrder, TooLow, TooHigh, AfterResume, AtLeast, BelowUpper;
    if |rows| == 0 {
      first, last := 0, 0;
    } else {
      var key, rest := rows[0].key, rows[1..];
      WithinExact(less, range, key);
      first, last := WantedStretch(less, range, rest);
      forall i | 0 <= i < |rest|
        ensures rest[i] == rows[i + 1]
        ensures TooLow(less, range, rest[i].key) ==> TooLow(less, range, key)
        ensures TooHigh(less, range, key) ==> TooHigh(less, range, rest[i].key)
      {
        WithinAscends(less, range, key, rest[i].key);
      }
      StretchGrows(less, range, rows, first, last);
      if TooLow(less, range, key) {
        first, last := first + 1, last + 1;
      } else if TooHigh(less, range, key) {
        PastUpper(less, range, key, rows);
        first, last := 0, 0;
        assert forall i | 0 < i < |rows| :: rows[i] == rest[i - 1];
      } else {
        first, last := 0, last + 1;
      }
    }
  }

  /** A row in front of a stretch, of whichever kind. */
  lemma StretchGrows(less: Order, range: Range, rows: seq<Row>, first: nat, last: nat)
    requires |rows| > 0 && Stretch(less, range, rows[1..], first, last)
    requires Wanted(less, range, rows[1..]) == rows[1..][first..last]
    requires forall i | 0 <= i < |rows| - 1 ::
               TooLow(less, range, rows[1..][i].key) ==> TooLow(less, range, rows[0].key)
    requires Within(less, range, rows[0].key) <==>
               !TooLow(less, range, rows[0].key) && !TooHigh(less, range, rows[0].key)
    ensures TooLow(less, range, rows[0].key) ==>
              Stretch(less, range, rows, first + 1, last + 1)
              && Wanted(less, range, rows) == rows[first + 1..last + 1]
    ensures !TooLow(less, range, rows[0].key) && !TooHigh(less, range, rows[0].key) ==>
              Stretch(less, range, rows, 0, last + 1) && Wanted(less, range, rows) == rows[0..last + 1]
  {
    hide TooLow, TooHigh, Within;
    var rest := rows[1..];
    assert forall i | 0 < i < |rows| :: rows[i] == rest[i - 1];
    assert first > 0 ==> TooLow(less, range, rest[0].key);
  }

  /**
   * A scan of a sound map returns a stretch of its rows: it starts at the first key that is neither
   * below the lower bound nor at or before the resume key, and ends before the first key at or above
   * the upper bound or after as many rows as the limit.
   */
  lemma RangeIsStretch(less: Order, store: Store, root: Node, domain: Value, range: Range)
    returns (first: nat, last: nat)
    requires TotalOrder(less) && Shaped(store, root, domain, RootHeight(root))
    requires Ascends(less, Under(store, root, RootHeight(root)))
    requires |Under(store, root, RootHeight(root))| <= MAX_SIGNED_LENGTH
    ensures Stretch(less, range, Under(store, root, RootHeight(root)), first, last)
    ensures RangeRows(less, store, root, domain, range)
         == Ok(Under(store, root, RootHeight(root))[first..Min(last, first + range.limit)])
  {
    hide TotalOrder, Ascends, Wanted, Shaped, Under, RangeRows, Stretch;
    RangeExact(less, store, root, domain, range);
    var rows := Under(store, root, RootHeight(root));
    first, last := WantedStretch(less, range, rows);
    StretchInside(less, range, rows, first, last);
    FirstOf(rows, first, last, range.limit);
  }

  lemma FirstOf(rows: seq<Row>, first: nat, last: nat, limit: nat)
    requires first <= last <= |rows|
    ensures Take(rows[first..last], limit) == rows[first..Min(last, first + limit)]
  {
  }

  lemma StretchInside(less: Order, range: Range, rows: seq<Row>, first: nat, last: nat)
    requires Stretch(less, range, rows, first, last)
    ensures first <= last <= |rows|
  {
  }

  // ----- Accepted maps are sound -----

  /** The order extends the logical key order. */
  ghost predicate Extends(less: Order) {
    forall a, b | KeyOrder.Before(a, b) :: less(a, b)
  }

  /**
   * A scan of any accepted map, at any height, returns exactly the first rows of the interval among
   * the rows of the map, up to the limit: pages outside the interval are skipped without loss.
   */
  lemma AcceptedScan(
      x: Context, store: Store, root: Oid, domain: Value, idOf: Node -> Oid, tags: set<nat>, less: Order, range: Range)
    requires Loaded(store, idOf, tags) && WellFormed(domain, tags) && Accept(x, store, root, domain).Ok?
    requires TotalOrder(less) && Extends(less)
    requires |Rows(Bottom(Accept(x, store, root, domain).value))| <= MAX_SIGNED_LENGTH
    ensures root in store && Shaped(store, store[root], domain, RootHeight(store[root]))
    ensures Ascends(less, Under(store, store[root], RootHeight(store[root])))
    ensures RangeRows(less, store, store[root], domain, range)
         == Ok(Page(less, range, Rows(Bottom(Accept(x, store, root, domain).value))))
  {
    hide WellFormed, PartitionsOk, Rows, Under, Shaped;
    hide TotalOrder, Page, RangeRows, UnderLevel, KeyOrder.Ascending, KeyOrder.Before;
    var height := RootHeight(store[root]);
    var level := [store[root]];
    var rows := Rows(Bottom(Accept(x, store, root, domain).value));
    SearchStructure(x, store, root, domain, idOf, tags);
    DescendShape(store, level, domain, height);
    UnderDescend(store, level, domain, height, 0);
    assert AllDecoded(level, tags);
    DescendShaped(store, level, domain, height, idOf, tags);
    assert level[0] == store[root] && Under(store, store[root], height) == rows;
    RangeExact(less, store, store[root], domain, range);
  }

  // ----- The scan as it runs -----

  method ScanLeaf(less: Order, rows: seq<Row>, above: Option<Value>, range: Range, before: seq<Row>)
    returns (r: Result<seq<Row>>)
    ensures r == CollectRows(less, rows, None, above, range, before)
  {
    var output, previous: Option<Value> := before, None;
    assert rows[0..] == rows;
    for i := 0 to |rows|
      invariant CollectRows(less, rows, None, above, range, before)
             == CollectRows(less, rows[i..], previous, above, range, output)
    {
      assert rows[i..][0] == rows[i] && rows[i..][1..] == rows[i + 1..];
      var key := rows[i].key;
      if (previous.Some? && !less(previous.value, key)) || (above.Some? && !less(above.value, key)) { return Err; }
      previous := Some(key);
      if AfterResume(less, range, key) && AtLeast(less, range, key) {
        if !BelowUpper(less, range, key) { return Ok(output); }
        output := output + [rows[i]];
        if |output| >= range.limit { return Ok(output); }
      }
    }
    r := Ok(output);
  }

  /** `collect_ordered_range_with`: one page, its children read only as far as the interval needs them. */
  method ScanPage(
      less: Order, store: Store, n: Node, domain: Value, height: nat, above: Option<Value>, range: Range,
      output: seq<Row>) returns (r: Result<seq<Row>>)
    ensures r == Collect(less, store, n, domain, height, above, range, output)
    decreases height, 1
  {
    if |output| >= range.limit { return Ok(output); }
    match n
    case Other => r := Err;
    case Leaf(d, rows) =>
      if d != domain || height != 0 { return Err; }
      r := ScanLeaf(less, rows, above, range, output);
    case Branch(d, h, cs) =>
      if d != domain || h == 0 || h != height || |cs| == 0 { return Err; }
      r := ScanChildren(less, store, cs, domain, height, range, output);
  }

  method ScanChildren(
      less: Order, store: Store, cs: seq<Child>, domain: Value, height: nat, range: Range, before: seq<Row>)
    returns (r: Result<seq<Row>>)
    requires height > 0
    ensures r == CollectChildren(less, store, cs, domain, height, 0, None, range, before)
    decreases height, 0
  {
    hide Collect, ChildBounds, AfterResume, AtLeast, BelowUpper;
    var output, previous: Option<Value>, total: nat := before, None, 0;
    assert cs[0..] == cs;
    for i := 0 to |cs|
      invariant CollectChildren(less, store, cs, domain, height, 0, None, range, before)
             == CollectChildren(less, store, cs[i..], domain, height, total, previous, range, output)
    {
      assert cs[i..][0] == cs[i] && cs[i..][1..] == cs[i + 1..];
      var c := cs[i];
      total := total + c.count;
      if total > MAX_SIGNED_LENGTH || (previous.Some? && !less(previous.value, c.fence)) { return Err; }
      if Reaches(less, range, c.fence) {
        var b := ChildBounds(less, store, c, domain, height - 1);
        if b.Err? || (previous.Some? && !less(previous.value, b.value.minimum)) { return Err; }
        if !BelowUpper(less, range, b.value.minimum) { return Ok(output); }
        if c.oid !in store { return Err; }
        var more := ScanPage(less, store, store[c.oid], domain, height - 1, previous, range, output);
        if more.Err? { return Err; }
        output := more.value;
        if |output| >= range.limit { return Ok(output); }
      }
      previous := Some(c.fence);
    }
    r := Ok(output);
  }

  method ScanRange(less: Order, store: Store, root: Node, domain: Value, range: Range) returns (r: Result<seq<Row>>)
    ensures r == RangeRows(less, store, root, domain, range)
  {
    hide Collect;
    r := ScanPage(less, store, root, domain, RootHeight(root), None, range, []);
  }
}
