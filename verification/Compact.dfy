/**
 Resolution of compact-storage segments (`_resolve`).

 - segments are taken in generation order and the latest entry of each key wins
 - two entries of one key at one generation are refused
 - the order in which segments are listed does not matter
 - the outcome, told by the segments themselves
 */
module Compact {
  import opened Prelude
  import opened Cbor
  import opened KeyOrder
  import opened Sorting

  type Fields = map<string, Value>

  datatype Row = Row(key: Value, keyBytes: seq<byte>, stored: Fields)

  datatype Segment = Segment(generation: int, deletion: bool, rows: seq<Row>)

  /** A resolved row; a winning deletion has no fields. */
  datatype CompactRow = CompactRow(key: Value, keyBytes: seq<byte>, fields: Option<Fields>)

  /** One row of one segment, as resolution sees it. */
  datatype Item = Item(generation: int, row: CompactRow)

  function ItemOf(s: Segment, row: Row): Item {
    Item(s.generation, CompactRow(row.key, row.keyBytes, if s.deletion then None else Some(row.stored)))
  }

  function Items(s: Segment): seq<Item> {
    seq(|s.rows|, i requires 0 <= i < |s.rows| => ItemOf(s, s.rows[i]))
  }

  function AllItems(segments: seq<Segment>): multiset<Item> {
    if |segments| == 0 then multiset{}
    else AllItems(segments[..|segments| - 1]) + multiset(Items(segments[|segments| - 1]))
  }

  // ----- Latest generation wins -----

  /** Two items name one key at one generation. */
  ghost predicate Conflict(m: multiset<Item>) {
    exists a, b :: a in m && b in m && Clash(m, a, b)
  }

  ghost predicate Clash(m: multiset<Item>, a: Item, b: Item) {
    a.row.keyBytes == b.row.keyBytes && a.generation == b.generation && (a != b || m[a] > 1)
  }

  /** No item of the same key has a later generation. */
  ghost predicate Latest(m: multiset<Item>, x: Item) {
    x in m && forall y | y in m :: y.row.keyBytes == x.row.keyBytes ==> y.generation <= x.generation
  }

  /** The row is the content of a latest item. */
  ghost predicate Wins(m: multiset<Item>, row: CompactRow) {
    exists x :: Latest(m, x) && x.row == row
  }

  predicate RowBefore(a: CompactRow, b: CompactRow) { Before(a.key, b.key) }

  /** The resolution of some items: their latest rows, strictly ordered by key. */
  ghost predicate Resolves(m: multiset<Item>, rows: seq<CompactRow>) {
    && (forall i, j | 0 <= i < j < |rows| :: RowBefore(rows[i], rows[j]))
    && (forall i | 0 <= i < |rows| :: Wins(m, rows[i]))
    && (forall x | Latest(m, x) :: x.row in rows)
  }

  /** Key bytes are the encoding of the key, and keys of one table can be compared. */
  ghost predicate Keyed(m: multiset<Item>) {
    && (forall x | x in m :: x.row.keyBytes == Encode(x.row.key))
    && (forall x, y | x in m && y in m :: Compare(x.row.key, y.row.key).Ok?)
  }

  // ----- Order of the segments does not matter -----

  lemma SegmentRemoved(a: seq<Segment>, i: nat)
    requires i < |a|
    ensures a == a[..i] + [a[i]] + a[i + 1..]
    ensures multiset(a[..i] + a[i + 1..]) == multiset(a) - multiset{a[i]}
  {
    assert a == a[..i] + [a[i]] + a[i + 1..];
  }

  lemma {:induction false} AllItemsPermuted(a: seq<Segment>, b: seq<Segment>)
    requires multiset(a) == multiset(b)
    ensures AllItems(a) == AllItems(b)
    decreases |a|
  {
    hide Items;
    if |a| == 0 {
      assert |multiset(b)| == 0;
    } else {
      var init, last := a[..|a| - 1], a[|a| - 1];
      assert a == init + [last];
      MemberByMultiset(a, b, last);
      var i :| 0 <= i < |b| && b[i] == last;
      SegmentRemoved(a, |a| - 1);
      SegmentRemoved(b, i);
      assert a[..|a| - 1] + a[|a| - 1 + 1..] == init;
      AllItemsPermuted(init, b[..i] + b[i + 1..]);
      AllItemsSplit(b[..i], b[i + 1..], last);
    }
  }

  lemma {:induction false} AllItemsAppend(a: seq<Segment>, b: seq<Segment>)
    ensures AllItems(a + b) == AllItems(a) + AllItems(b)
    decreases |b|
  {
    hide Items;
    if |b| == 0 {
      assert a + b == a;
    } else {
      AllItemsAppend(a, b[..|b| - 1]);
      var c := a + b;
      assert c[..|c| - 1] == a + b[..|b| - 1] && c[|c| - 1] == b[|b| - 1];
    }
  }

  lemma AllItemsSplit(a: seq<Segment>, b: seq<Segment>, s: Segment)
    ensures AllItems(a + [s] + b) == AllItems(a + b) + multiset(Items(s))
  {
    hide Items;
    AllItemsAppend(a + [s], b);
    AllItemsAppend(a, [s]);
    AllItemsAppend(a, b);
    assert [s][..0] == [];
    assert AllItems([s]) == AllItems([s][..0]) + multiset(Items(s));
  }

  /** At most one row list resolves a set of items. */
  lemma ResolvesUnique(m: multiset<Item>, a: seq<CompactRow>, b: seq<CompactRow>)
    requires Resolves(m, a) && Resolves(m, b)
    ensures a == b
  {
    hide RowBefore;
    forall r ensures r in a <==> r in b {
      if r in a {
        var i :| 0 <= i < |a| && a[i] == r;
        assert Wins(m, a[i]);
        var x :| Latest(m, x) && x.row == a[i];
      }
      if r in b {
        var i :| 0 <= i < |b| && b[i] == r;
        assert Wins(m, b[i]);
        var x :| Latest(m, x) && x.row == b[i];
      }
    }
    OrderedUnique(a, b);
  }

  ghost predicate Ordered(rows: seq<CompactRow>) {
    forall i, j | 0 <= i < j < |rows| :: RowBefore(rows[i], rows[j])
  }

  lemma {:induction false} OrderedUnique(a: seq<CompactRow>, b: seq<CompactRow>)
    requires Ordered(a) && Ordered(b) && forall r :: r in a <==> r in b
    ensures a == b
    decreases |a|
  {
    hide RowBefore;
    if |b| > 0 { assert b[0] in b; }
    if |a| > 0 {
      assert a[0] in a;
      FirstAgrees(a, b);
      var ta, tb := a[1..], b[1..];
      forall r ensures r in ta <==> r in tb {
        TailMembers(a, r);
        TailMembers(b, r);
      }
      OrderedUnique(ta, tb);
      assert a == [a[0]] + ta && b == [b[0]] + tb;
    }
  }

  lemma RowBeforeStrict(a: CompactRow, b: CompactRow)
    requires RowBefore(a, b)
    ensures a != b && !RowBefore(b, a)
  {
    BeforeIsStrict(a.key, b.key);
  }

  lemma FirstAgrees(a: seq<CompactRow>, b: seq<CompactRow>)
    requires |a| > 0 && |b| > 0 && Ordered(a) && Ordered(b) && a[0] in b && b[0] in a
    ensures a[0] == b[0]
  {
    hide RowBefore;
    var i :| 0 <= i < |b| && b[i] == a[0];
    var j :| 0 <= j < |a| && a[j] == b[0];
    if i > 0 && j > 0 {
      assert RowBefore(b[0], b[i]) && RowBefore(a[0], a[j]);
      RowBeforeStrict(b[0], a[0]);
    }
  }

  lemma TailMembers(a: seq<CompactRow>, r: CompactRow)
    requires |a| > 0 && Ordered(a)
    ensures r in a[1..] <==> r in a && r != a[0]
  {
    hide RowBefore;
    if r in a[1..] {
      var i :| 0 <= i < |a[1..]| && a[1..][i] == r;
      assert RowBefore(a[0], a[i + 1]);
      RowBeforeStrict(a[0], r);
    }
    if r in a && r != a[0] {
      var i :| 0 <= i < |a| && a[i] == r;
      assert a[1..][i - 1] == r;
    }
  }

  // ----- The winners dictionary -----

  /** The dictionary holds, for each key seen, its one latest item. */
  ghost predicate Winning(winners: map<seq<byte>, Item>, seen: multiset<Item>) {
    && (forall k | k in winners :: winners[k].row.keyBytes == k && Latest(seen, winners[k]))
    && (forall x | x in seen :: x.row.keyBytes in winners)
  }

  /** Without conflicts, the latest item of a key is the only one of its generation. */
  lemma LatestUnique(m: multiset<Item>, a: Item, b: Item)
    requires !Conflict(m) && Latest(m, a) && Latest(m, b) && a.row.keyBytes == b.row.keyBytes
    ensures a == b
  {
    if a != b { assert Clash(m, a, b); }
  }

  lemma ConflictGrows(m: multiset<Item>, n: multiset<Item>)
    requires Conflict(m) && m <= n
    ensures Conflict(n)
  {
    var a, b :| a in m && b in m && Clash(m, a, b);
    assert a in n && b in n && Clash(n, a, b);
  }

  /** One step of resolution, on an item no earlier than any seen. */
  lemma WinStep(winners: map<seq<byte>, Item>, seen: multiset<Item>, x: Item)
    requires Winning(winners, seen) && !Conflict(seen)
    requires forall y | y in seen :: y.generation <= x.generation
    ensures var k := x.row.keyBytes;
            if k in winners && winners[k].generation == x.generation then Conflict(seen + multiset{x})
            else Winning(winners[k := x], seen + multiset{x}) && !Conflict(seen + multiset{x})
  {
    var k, more := x.row.keyBytes, seen + multiset{x};
    if k in winners && winners[k].generation == x.generation {
      var w := winners[k];
      assert w in seen && (w == x ==> more[w] > 1);
      assert w in more && x in more && Clash(more, w, x);
    } else {
      assert x !in seen;
      forall a, b | a in more && b in more ensures !Clash(more, a, b) {
        if a in seen && b in seen {
          assert !Clash(seen, a, b);
          assert more[a] == seen[a] || a == x;
        }
      }
      assert Latest(more, x);
      forall j | j in winners && j != k ensures Latest(more, winners[j]) {}
    }
  }

  /** The latest generation wins; `where` a key occurs twice at one generation nothing is returned. */
  method Resolve(segments: seq<Segment>) returns (r: Result<seq<CompactRow>>)
    requires Keyed(AllItems(segments))
    ensures r.Ok? <==> !Conflict(AllItems(segments))
    ensures r.Ok? ==> Resolves(AllItems(segments), r.value)
  {
    hide Items, AllItems, Keyed, Conflict, Winning, SortBy, Resolves;
    var sorted := SortBy(segments, EarlierSegment);
    SortByPermutes(segments, EarlierSegment);
    GenerationOrder(segments);
    AllItemsPermuted(segments, sorted);
    var winners: map<seq<byte>, Item> := map[];
    ghost var seen: multiset<Item> := multiset{};
    NothingSeen(segments);
    for i := 0 to |sorted|
      invariant seen == AllItems(sorted[..i])
      invariant Winning(winners, seen) && !Conflict(seen)
    {
      var s := sorted[i];
      AllItemsNext(sorted, i);
      var items := Items(s);
      ghost var start := seen;
      EarlierItems(sorted, i);
      assert items[..0] == [];
      for j := 0 to |items|
        invariant seen == start + multiset(items[..j])
        invariant Winning(winners, seen) && !Conflict(seen)
        invariant forall y | y in seen :: y.generation <= s.generation
      {
        var x := items[j];
        ItemsGeneration(s, j);
        WinStep(winners, seen, x);
        assert items[..j + 1] == items[..j] + [x];
        var key := x.row.keyBytes;
        if key in winners {
          if winners[key].generation == x.generation {
            SeenPart(sorted, i, j);
            ConflictGrows(seen + multiset{x}, AllItems(segments));
            return Err;
          }
          WinnerSeen(winners, seen, key);
          // The source also skips an item older than the current winner; none ever is.
          assert winners[key].generation < x.generation;
        }
        winners := winners[key := x];
        seen := seen + multiset{x};
      }
      assert items[..|items|] == items;
    }
    assert sorted[..|sorted|] == sorted;
    var rows := OrderWinners(winners, AllItems(segments));
    r := Ok(rows);
  }

  predicate EarlierSegment(a: Segment, b: Segment) { a.generation < b.generation }

  lemma GenerationOrder(segments: seq<Segment>)
    ensures SortedBy(SortBy(segments, EarlierSegment), EarlierSegment)
  {
    SortBySorts(segments, EarlierSegment);
  }

  lemma NothingSeen(segments: seq<Segment>)
    ensures AllItems(segments[..0]) == multiset{} && Winning(map[], multiset{}) && !Conflict(multiset{})
  {
  }

  lemma AllItemsNext(segments: seq<Segment>, i: nat)
    requires i < |segments|
    ensures AllItems(segments[..i + 1]) == AllItems(segments[..i]) + multiset(Items(segments[i]))
  {
    hide Items;
    assert segments[..i + 1][..i] == segments[..i];
  }

  lemma ItemsGeneration(s: Segment, j: nat)
    requires j < |Items(s)|
    ensures Items(s)[j].generation == s.generation
  {
  }

  lemma WinnerSeen(winners: map<seq<byte>, Item>, seen: multiset<Item>, key: seq<byte>)
    requires Winning(winners, seen) && key in winners
    ensures winners[key] in seen
  {
  }

  lemma {:induction false} SortedGenerations(segments: seq<Segment>, i: nat, j: nat)
    requires SortedBy(segments, EarlierSegment) && i <= j < |segments|
    ensures segments[i].generation <= segments[j].generation
    decreases j - i
  {
    if i < j {
      var k := j - 1;
      assert !EarlierSegment(segments[k + 1], segments[k]);
      SortedGenerations(segments, i, k);
    }
  }

  /** Items of earlier segments are no later than the next segment. */
  lemma {:induction false} EarlierItems(segments: seq<Segment>, i: nat)
    requires SortedBy(segments, EarlierSegment) && i < |segments|
    ensures forall y | y in AllItems(segments[..i]) :: y.generation <= segments[i].generation
  {
    hide SortedBy, Items;
    forall y | y in AllItems(segments[..i]) ensures y.generation <= segments[i].generation {
      var k := ItemFrom(segments[..i], y);
      SortedGenerations(segments, k, i);
    }
  }

  lemma {:induction false} ItemFrom(segments: seq<Segment>, y: Item) returns (k: nat)
    requires y in AllItems(segments)
    ensures k < |segments| && y.generation == segments[k].generation
    decreases |segments|
  {
    var last := |segments| - 1;
    if y in multiset(Items(segments[last])) {
      var j :| 0 <= j < |Items(segments[last])| && Items(segments[last])[j] == y;
      ItemsGeneration(segments[last], j);
      k := last;
    } else {
      k := ItemFrom(segments[..last], y);
    }
  }

  lemma MultisetSplits(items: seq<Item>, j: nat)
    requires j < |items|
    ensures multiset(items) == multiset(items[..j]) + multiset{items[j]} + multiset(items[j + 1..])
  {
    assert items == items[..j] + [items[j]] + items[j + 1..];
  }

  /** What has been seen in the middle of a segment is part of all items. */
  lemma SeenPart(segments: seq<Segment>, i: nat, j: nat)
    requires i < |segments| && j < |Items(segments[i])|
    ensures AllItems(segments[..i]) + multiset(Items(segments[i])[..j]) + multiset{Items(segments[i])[j]}
        <= AllItems(segments)
  {
    hide Items, AllItems;
    MultisetSplits(Items(segments[i]), j);
    AllItemsNext(segments, i);
    AllItemsAppend(segments[..i + 1], segments[i + 1..]);
    assert segments == segments[..i + 1] + segments[i + 1..];
  }

  // ----- The final order -----

  /** The rows already placed: in order, and exactly the winners whose keys are not left. */
  ghost predicate Placed(rows: seq<CompactRow>, winners: map<seq<byte>, Item>, left: set<seq<byte>>) {
    && Ordered(rows)
    && (forall i | 0 <= i < |rows| :: rows[i].keyBytes in winners && rows[i].keyBytes !in left
                                      && winners[rows[i].keyBytes].row == rows[i])
    && (forall k | k in winners && k !in left :: winners[k].row in rows)
  }

  method OrderWinners(winners: map<seq<byte>, Item>, ghost m: multiset<Item>) returns (rows: seq<CompactRow>)
    requires Winning(winners, m) && !Conflict(m) && Keyed(m)
    ensures Resolves(m, rows)
  {
    hide Conflict, Keyed, Placed, Winning, InsertBy, Resolves;
    rows := [];
    var left := winners.Keys;
    NonePlaced(winners);
    while left != {}
      invariant left <= winners.Keys && Placed(rows, winners, left)
      decreases |left|
    {
      var k :| k in left;
      PlaceNext(rows, winners, left, k, m);
      rows := InsertBy(winners[k].row, rows, RowBefore);
      left := left - {k};
    }
    AllPlaced(rows, winners, m);
  }

  lemma NonePlaced(winners: map<seq<byte>, Item>)
    ensures Placed([], winners, winners.Keys)
  {
  }

  lemma AllPlaced(rows: seq<CompactRow>, winners: map<seq<byte>, Item>, m: multiset<Item>)
    requires Placed(rows, winners, {}) && Winning(winners, m) && !Conflict(m)
    ensures Resolves(m, rows)
  {
    hide RowBefore;
    forall i | 0 <= i < |rows| ensures Wins(m, rows[i]) {
      assert Latest(m, winners[rows[i].keyBytes]);
    }
    forall x | Latest(m, x) ensures x.row in rows {
      var k := x.row.keyBytes;
      assert k in winners && k !in {};
      assert winners[k].row in rows;
      LatestUnique(m, x, winners[k]);
    }
  }

  lemma PlaceNext(
      rows: seq<CompactRow>, winners: map<seq<byte>, Item>, left: set<seq<byte>>, k: seq<byte>, m: multiset<Item>)
    requires Placed(rows, winners, left) && Winning(winners, m) && Keyed(m) && k in left && left <= winners.Keys
    ensures Placed(InsertBy(winners[k].row, rows, RowBefore), winners, left - {k})
  {
    hide RowBefore, Latest, Keyed, InsertBy;
    var x := winners[k].row;
    assert x.keyBytes == k;
    forall i | 0 <= i < |rows| ensures RowBefore(x, rows[i]) || RowBefore(rows[i], x) {
      WinnerSeen(winners, m, k);
      WinnerSeen(winners, m, rows[i].keyBytes);
      Comparable(m, winners[k], winners[rows[i].keyBytes]);
    }
    InsertKeepsOrder(x, rows);
    var after := InsertBy(x, rows, RowBefore);
    forall r ensures r in after <==> r in rows || r == x { InsertMembers(x, rows, r); }
    forall i | 0 <= i < |after|
      ensures after[i].keyBytes in winners && after[i].keyBytes !in left - {k}
          && winners[after[i].keyBytes].row == after[i]
    {
      assert after[i] in after;
      if after[i] != x { var j :| 0 <= j < |rows| && rows[j] == after[i]; }
    }
    forall j | j in winners && j !in left - {k} ensures winners[j].row in after {
      if j != k { assert j !in left; assert winners[j].row in rows; }
    }
  }

  lemma InsertMembers(x: CompactRow, rows: seq<CompactRow>, r: CompactRow)
    ensures r in InsertBy(x, rows, RowBefore) <==> r in rows || r == x
  {
    hide RowBefore, InsertBy;
    InsertByPermutes(x, rows, RowBefore);
    assert r in InsertBy(x, rows, RowBefore) <==> r in multiset(InsertBy(x, rows, RowBefore));
    assert r in rows <==> r in multiset(rows);
  }

  lemma Comparable(m: multiset<Item>, a: Item, b: Item)
    requires Keyed(m) && a in m && b in m && a.row.keyBytes != b.row.keyBytes
    ensures RowBefore(a.row, b.row) || RowBefore(b.row, a.row)
  {
    hide Compare, Encode;
    Antisymmetric(a.row.key, b.row.key);
  }

  lemma {:induction false} InsertKeepsOrder(x: CompactRow, rows: seq<CompactRow>)
    requires Ordered(rows) && forall i | 0 <= i < |rows| :: RowBefore(x, rows[i]) || RowBefore(rows[i], x)
    ensures Ordered(InsertBy(x, rows, RowBefore))
  {
    hide Before;
    if |rows| > 0 {
      if RowBefore(x, rows[0]) {
        forall i | 0 < i < |rows| ensures RowBefore(x, rows[i]) { RowBeforeTransitive(x, rows[0], rows[i]); }
      } else {
        var tail := rows[1..];
        InsertKeepsOrder(x, tail);
        InsertByPermutes(x, tail, RowBefore);
        var after := InsertBy(x, tail, RowBefore);
        forall i | 0 <= i < |after| ensures RowBefore(rows[0], after[i]) {
          assert after[i] in multiset(after);
          if after[i] != x {
            assert after[i] in tail;
            var k :| 0 <= k < |tail| && tail[k] == after[i];
            assert rows[k + 1] == after[i];
          }
        }
      }
    }
  }

  lemma RowBeforeTransitive(a: CompactRow, b: CompactRow, c: CompactRow)
    requires RowBefore(a, b) && RowBefore(b, c)
    ensures RowBefore(a, c)
  {
    hide Compare;
    Transitive(a.key, b.key, c.key);
  }

  // ----- Consequences -----

  /** A key is live exactly when its latest item is data. */
  ghost predicate Live(m: multiset<Item>, keyBytes: seq<byte>) {
    exists x :: Latest(m, x) && x.row.keyBytes == keyBytes && x.row.fields.Some?
  }

  lemma LiveRows(m: multiset<Item>, rows: seq<CompactRow>, keyBytes: seq<byte>)
    requires Resolves(m, rows)
    ensures Live(m, keyBytes) <==> exists i :: 0 <= i < |rows| && rows[i].keyBytes == keyBytes && rows[i].fields.Some?
  {
    hide RowBefore;
    if x :| Latest(m, x) && x.row.keyBytes == keyBytes && x.row.fields.Some? {
      var i :| 0 <= i < |rows| && rows[i] == x.row;
    }
    if i :| 0 <= i < |rows| && rows[i].keyBytes == keyBytes && rows[i].fields.Some? {
      assert Wins(m, rows[i]);
      var x :| Latest(m, x) && x.row == rows[i];
    }
  }

  /**
   * The order in which segments are listed changes neither whether they conflict, which is whether
   * they are refused, nor the rows they resolve to.
   */
  lemma SegmentOrderIrrelevant(a: seq<Segment>, b: seq<Segment>)
    requires multiset(a) == multiset(b)
    ensures Conflict(AllItems(a)) <==> Conflict(AllItems(b))
    ensures forall ra, rb | Resolves(AllItems(a), ra) && Resolves(AllItems(b), rb) :: ra == rb
  {
    hide Resolves, AllItems, Conflict;
    AllItemsPermuted(a, b);
    forall ra, rb | Resolves(AllItems(a), ra) && Resolves(AllItems(b), rb) ensures ra == rb {
      ResolvesUnique(AllItems(a), ra, rb);
    }
  }

  // ----- The same, told by segments -----

  /** Row `k` of a segment as an item: nothing is stored where the segment deletes. */
  predicate Lists(s: Segment, k: nat, x: Item) {
    && k < |s.rows| && x.generation == s.generation
    && x.row.key == s.rows[k].key && x.row.keyBytes == s.rows[k].keyBytes
    && (s.deletion ==> x.row.fields == None) && (!s.deletion ==> x.row.fields == Some(s.rows[k].stored))
  }

  predicate At(segments: seq<Segment>, i: nat, k: nat, x: Item) {
    i < |segments| && Lists(segments[i], k, x)
  }

  lemma ListsExact(s: Segment, k: nat, x: Item)
    ensures Lists(s, k, x) <==> k < |Items(s)| && Items(s)[k] == x
  {
  }

  lemma {:induction false} ItemsExact(segments: seq<Segment>, x: Item)
    ensures x in AllItems(segments) <==> exists i: nat, k: nat :: At(segments, i, k, x)
    decreases |segments|
  {
    hide Lists, Items;
    if |segments| > 0 {
      var n := |segments| - 1;
      var init, last := segments[..n], segments[n];
      ItemsExact(init, x);
      assert x in AllItems(segments) <==> x in AllItems(init) || x in Items(last);
      if x in Items(last) {
        var k: nat :| k < |Items(last)| && Items(last)[k] == x;
        ListsExact(last, k, x);
        assert At(segments, n, k, x);
      }
      if i: nat, k: nat :| At(init, i, k, x) { assert At(segments, i, k, x); }
      if i: nat, k: nat :| At(segments, i, k, x) {
        ListsExact(segments[i], k, x);
        assert i < n ==> At(init, i, k, x);
      }
    }
  }

  /** No segment of a later generation holds the key of this row. */
  ghost predicate Newest(segments: seq<Segment>, i: nat, k: nat) {
    && i < |segments| && k < |segments[i].rows|
    && forall j, l | 0 <= j < |segments| && 0 <= l < |segments[j].rows| ::
         segments[j].rows[l].keyBytes == segments[i].rows[k].keyBytes ==>
           segments[j].generation <= segments[i].generation
  }

  lemma NewestExact(segments: seq<Segment>, i: nat, k: nat, x: Item)
    requires At(segments, i, k, x)
    ensures Newest(segments, i, k) <==> Latest(AllItems(segments), x)
  {
    ItemsExact(segments, x);
    hide AllItems;
    if Newest(segments, i, k) {
      forall y | y in AllItems(segments) && y.row.keyBytes == x.row.keyBytes ensures y.generation <= x.generation {
        ItemsExact(segments, y);
        var j: nat, l: nat :| At(segments, j, l, y);
      }
    }
    if Latest(AllItems(segments), x) {
      forall j, l | 0 <= j < |segments| && 0 <= l < |segments[j].rows|
                    && segments[j].rows[l].keyBytes == segments[i].rows[k].keyBytes
        ensures segments[j].generation <= segments[i].generation
      {
        var y := ItemOf(segments[j], segments[j].rows[l]);
        assert At(segments, j, l, y);
        ItemsExact(segments, y);
      }
    }
  }

  /** The row is what a newest segment of its key says: the stored fields, or nothing where it deletes. */
  ghost predicate FromNewest(segments: seq<Segment>, row: CompactRow) {
    exists i: nat, k: nat, g: int :: At(segments, i, k, Item(g, row)) && Newest(segments, i, k)
  }

  /** The rows some segments resolve to are exactly those their newest segments hold. */
  lemma RowsFromSegments(segments: seq<Segment>, rows: seq<CompactRow>)
    requires Resolves(AllItems(segments), rows)
    ensures forall row :: row in rows <==> FromNewest(segments, row)
  {
    hide AllItems, RowBefore, At, Newest;
    var m := AllItems(segments);
    forall row ensures row in rows <==> FromNewest(segments, row) {
      if row in rows {
        var n :| 0 <= n < |rows| && rows[n] == row;
        assert Wins(m, rows[n]);
        var x :| Latest(m, x) && x.row == row;
        ItemsExact(segments, x);
        var i: nat, k: nat :| At(segments, i, k, x);
        NewestExact(segments, i, k, x);
        assert x == Item(x.generation, row);
      }
      if i: nat, k: nat, g: int :| At(segments, i, k, Item(g, row)) && Newest(segments, i, k) {
        NewestExact(segments, i, k, Item(g, row));
      }
    }
  }

  /** Two different rows of one key in segments of one generation. */
  ghost predicate Meet(segments: seq<Segment>, i: nat, k: nat, j: nat, l: nat) {
    && i < |segments| && k < |segments[i].rows| && j < |segments| && l < |segments[j].rows| && (i != j || k != l)
    && segments[i].rows[k].keyBytes == segments[j].rows[l].keyBytes
    && segments[i].generation == segments[j].generation
  }

  lemma ItemsWithout(segments: seq<Segment>, i: nat)
    requires i < |segments|
    ensures AllItems(segments) == AllItems(segments[..i] + segments[i + 1..]) + multiset(Items(segments[i]))
  {
    SegmentRemoved(segments, i);
    AllItemsSplit(segments[..i], segments[i + 1..], segments[i]);
  }

  lemma AtTwice(segments: seq<Segment>, i: nat, k: nat, j: nat, l: nat, x: Item)
    requires At(segments, i, k, x) && At(segments, j, l, x) && (i != j || k != l)
    ensures AllItems(segments)[x] > 1
  {
    hide AllItems, Lists, Items;
    ItemsWithout(segments, i);
    ListsExact(segments[i], k, x);
    ListsExact(segments[j], l, x);
    if i == j {
      TwiceInSequence(Items(segments[i]), Min(k, l), Max(k, l));
    } else {
      var rest := segments[..i] + segments[i + 1..];
      var n := if j < i then j else j - 1;
      assert rest[n] == segments[j] && At(rest, n, l, x);
      ItemsExact(rest, x);
      assert x in multiset(Items(segments[i]));
    }
  }

  lemma TwicePlaces(segments: seq<Segment>, x: Item) returns (i: nat, k: nat, j: nat, l: nat)
    requires AllItems(segments)[x] > 1
    ensures At(segments, i, k, x) && At(segments, j, l, x) && (i != j || k != l)
  {
    hide AllItems, Lists, Items;
    ItemsExact(segments, x);
    i, k :| At(segments, i, k, x);
    ItemsWithout(segments, i);
    var rest := segments[..i] + segments[i + 1..];
    if x in AllItems(rest) {
      ItemsExact(rest, x);
      var n: nat;
      n, l :| At(rest, n, l, x);
      j := if n < i then n else n + 1;
      assert rest[n] == segments[j];
    } else {
      ListsExact(segments[i], k, x);
      var items := Items(segments[i]);
      if forall n | 0 <= n < |items| && n != k :: items[n] != x { OnceInSequence(items, k); }
      j := i;
      l :| l < |items| && l != k && items[l] == x;
      ListsExact(segments[i], l, x);
    }
  }

  /** Segments conflict exactly when two different rows of one key are of one generation. */
  lemma ConflictExact(segments: seq<Segment>)
    ensures Conflict(AllItems(segments)) <==>
      exists i: nat, k: nat, j: nat, l: nat :: Meet(segments, i, k, j, l)
  {
    hide AllItems;
    var m := AllItems(segments);
    if a, b :| a in m && b in m && Clash(m, a, b) {
      if a == b {
        var i, k, j, l := TwicePlaces(segments, a);
        assert Meet(segments, i, k, j, l);
      } else {
        ItemsExact(segments, a);
        ItemsExact(segments, b);
        var i: nat, k: nat :| At(segments, i, k, a);
        var j: nat, l: nat :| At(segments, j, l, b);
        assert Meet(segments, i, k, j, l);
      }
    }
    if i: nat, k: nat, j: nat, l: nat :| Meet(segments, i, k, j, l) {
      var a, b := ItemOf(segments[i], segments[i].rows[k]), ItemOf(segments[j], segments[j].rows[l]);
      assert At(segments, i, k, a) && At(segments, j, l, b);
      ItemsExact(segments, a);
      ItemsExact(segments, b);
      if a == b { AtTwice(segments, i, k, j, l, a); }
      assert Clash(m, a, b);
    }
  }
}
