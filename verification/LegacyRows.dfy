/** One authoritative row per key (`one_row_per_key`): rows sorted by key, a repeated key refused. */
module LegacyRows {
  import opened Prelude
  import opened Sorting

  datatype Row<K, F> = Row(key: K, fields: F)

  function RowLess<K, F>(less: (K, K) -> bool): (Row<K, F>, Row<K, F>) -> bool {
    (a: Row<K, F>, b: Row<K, F>) => less(a.key, b.key)
  }

  predicate Distinct<K(==), F>(rows: seq<Row<K, F>>) {
    forall i, j | 0 <= i < j < |rows| :: rows[i].key != rows[j].key
  }

  predicate StrictlyOrdered<K, F>(rows: seq<Row<K, F>>, less: (K, K) -> bool) {
    forall i, j | 0 <= i < j < |rows| :: less(rows[i].key, rows[j].key)
  }

  /** Some two neighbours name one key. */
  predicate NeighboursRepeat<K(==), F>(rows: seq<Row<K, F>>) {
    exists i | 0 <= i < |rows| - 1 :: rows[i].key == rows[i + 1].key
  }

  lemma {:induction false} NeighboursToPairs<K(!new), F>(rows: seq<Row<K, F>>, less: (K, K) -> bool, i: nat, j: nat)
    requires TotalOrder(less) && i < j < |rows|
    requires SortedBy(rows, RowLess(less)) && !NeighboursRepeat(rows)
    ensures less(rows[i].key, rows[j].key)
    decreases j - i
  {
    var k := j - 1;
    assert !RowLess<K, F>(less)(rows[k + 1], rows[k]);
    assert rows[k].key != rows[k + 1].key;
    if i < k { NeighboursToPairs(rows, less, i, k); }
  }

  lemma RowLessAsymmetric<K(!new), F>(rows: seq<Row<K, F>>, less: (K, K) -> bool)
    requires TotalOrder(less)
    ensures AsymmetricOn(rows, RowLess(less))
  {
    forall a, b | a in rows && b in rows && RowLess<K, F>(less)(a, b) ensures !RowLess<K, F>(less)(b, a) {
      assert less(a.key, b.key) && less(b.key, a.key) ==> less(a.key, a.key);
    }
  }

  /** A repeated key survives any reordering. */
  lemma {:induction false} DistinctByMultiset<K, F>(rows: seq<Row<K, F>>, other: seq<Row<K, F>>)
    requires multiset(rows) == multiset(other) && Distinct(rows)
    ensures Distinct(other)
  {
    forall i, j | 0 <= i < j < |other| ensures other[i].key != other[j].key {
      MemberByMultiset(other, rows, other[i]);
      MemberByMultiset(other, rows, other[j]);
      if other[i].key == other[j].key {
        var a :| 0 <= a < |rows| && rows[a] == other[i];
        var b :| 0 <= b < |rows| && rows[b] == other[j];
        assert a == b;
        TwiceInSequence(other, i, j);
        OnceInSequence(rows, a);
      }
    }
  }

  /**
   * The result exists exactly when no key repeats; it then holds the same rows in strict key order.
   */
  method OneRowPerKey<K(==, !new), F>(rows: seq<Row<K, F>>, less: (K, K) -> bool) returns (r: Result<seq<Row<K, F>>>)
    requires TotalOrder(less)
    ensures r.Ok? <==> Distinct(rows)
    ensures r.Ok? ==> multiset(r.value) == multiset(rows) && StrictlyOrdered(r.value, less)
  {
    var sorted := SortBy(rows, RowLess(less));
    SortByPermutes(rows, RowLess(less));
    RowLessAsymmetric(rows, less);
    SortBySorts(rows, RowLess(less));
    hide SortBy, SortedBy;
    for i := 0 to |sorted|
      invariant forall k | 0 <= k < i && k < |sorted| - 1 :: sorted[k].key != sorted[k + 1].key
    {
      if i + 1 < |sorted| && sorted[i].key == sorted[i + 1].key {
        assert !Distinct(sorted);
        if Distinct(rows) { DistinctByMultiset(rows, sorted); }
        return Err;
      }
    }
    forall i, j | 0 <= i < j < |sorted| ensures less(sorted[i].key, sorted[j].key) {
      NeighboursToPairs(sorted, less, i, j);
    }
    DistinctByMultiset(sorted, rows);
    r := Ok(sorted);
  }
}
