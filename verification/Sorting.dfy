/**
 * A stable insertion sort by a strict order.
 *
 * It stands for the library sorts of the sources: Python's `sorted`, Rust's `sort_by` and the
 * iteration order of ordered maps.
 *
 * - the result is a permutation of the input
 * - no element of the result comes before its left neighbour
 */
module Sorting {

  /** Insertion after the elements that do not come later. */
  function InsertBy<T>(x: T, xs: seq<T>, less: (T, T) -> bool): seq<T> {
    if |xs| == 0 || less(x, xs[0]) then [x] + xs else [xs[0]] + InsertBy(x, xs[1..], less)
  }

  function SortBy<T>(xs: seq<T>, less: (T, T) -> bool): seq<T> {
    if |xs| == 0 then [] else InsertBy(xs[|xs| - 1], SortBy(xs[..|xs| - 1], less), less)
  }

  /** No element comes before its left neighbour. */
  predicate SortedBy<T>(xs: seq<T>, less: (T, T) -> bool) {
    forall i | 0 <= i < |xs| - 1 :: !less(xs[i + 1], xs[i])
  }

  predicate AsymmetricOn<T(==)>(xs: seq<T>, less: (T, T) -> bool) {
    forall x, y | x in xs && y in xs :: less(x, y) ==> !less(y, x)
  }

  lemma {:induction false} InsertByPermutes<T>(x: T, xs: seq<T>, less: (T, T) -> bool)
    ensures multiset(InsertBy(x, xs, less)) == multiset(xs) + multiset{x}
  {
    if !(|xs| == 0 || less(x, xs[0])) {
      InsertByPermutes(x, xs[1..], less);
      assert xs == [xs[0]] + xs[1..];
    }
  }

  lemma {:induction false} SortByPermutes<T>(xs: seq<T>, less: (T, T) -> bool)
    ensures multiset(SortBy(xs, less)) == multiset(xs) && |SortBy(xs, less)| == |xs|
  {
    if |xs| > 0 {
      var init, last := xs[..|xs| - 1], xs[|xs| - 1];
      SortByPermutes(init, less);
      InsertByPermutes(last, SortBy(init, less), less);
      assert xs == init + [last];
      assert |multiset(SortBy(xs, less))| == |multiset(xs)|;
    }
  }

  lemma {:induction false} InsertBySorts<T>(x: T, xs: seq<T>, less: (T, T) -> bool)
    requires SortedBy(xs, less) && forall y | y in xs :: less(x, y) ==> !less(y, x)
    ensures SortedBy(InsertBy(x, xs, less), less)
    ensures InsertBy(x, xs, less)[0] == x || (|xs| > 0 && InsertBy(x, xs, less)[0] == xs[0])
  {
    if !(|xs| == 0 || less(x, xs[0])) {
      var tail := xs[1..];
      forall i | 0 <= i < |tail| - 1 ensures !less(tail[i + 1], tail[i]) {
        assert tail[i] == xs[i + 1] && tail[i + 1] == xs[i + 1 + 1];
      }
      InsertBySorts(x, tail, less);
      if |tail| > 0 { assert tail[0] == xs[0 + 1]; }
    }
  }

  lemma {:induction false} SortBySorts<T>(xs: seq<T>, less: (T, T) -> bool)
    requires AsymmetricOn(xs, less)
    ensures SortedBy(SortBy(xs, less), less)
  {
    if |xs| > 0 {
      var init, last := xs[..|xs| - 1], xs[|xs| - 1];
      assert AsymmetricOn(init, less);
      SortBySorts(init, less);
      SortByPermutes(init, less);
      forall y | y in SortBy(init, less) ensures less(last, y) ==> !less(y, last) {
        assert y in multiset(SortBy(init, less));
        assert y in init;
      }
      InsertBySorts(last, SortBy(init, less), less);
    }
  }

  /** Members of a sequence and of its multiset are the same. */
  lemma MemberByMultiset<T>(xs: seq<T>, ys: seq<T>, x: T)
    requires multiset(xs) == multiset(ys) && x in xs
    ensures x in ys
  {
    assert x in multiset(xs);
    assert x in multiset(ys);
  }

  /** Every element comes strictly before every later one. */
  predicate StrictlySortedBy<T>(xs: seq<T>, less: (T, T) -> bool) {
    forall i, j | 0 <= i < j < |xs| :: less(xs[i], xs[j]) && !less(xs[j], xs[i])
  }

  lemma {:induction false} InsertLast<T>(x: T, xs: seq<T>, less: (T, T) -> bool)
    requires forall i | 0 <= i < |xs| :: !less(x, xs[i])
    ensures InsertBy(x, xs, less) == xs + [x]
  {
    if |xs| > 0 {
      InsertLast(x, xs[1..], less);
      assert xs == [xs[0]] + xs[1..];
    }
  }

  /** Sorting what is strictly sorted changes nothing. */
  lemma {:induction false} SortFixed<T>(xs: seq<T>, less: (T, T) -> bool)
    requires StrictlySortedBy(xs, less)
    ensures SortBy(xs, less) == xs
  {
    if |xs| > 0 {
      var init, last := xs[..|xs| - 1], xs[|xs| - 1];
      SortFixed(init, less);
      forall i | 0 <= i < |init| ensures !less(last, init[i]) { assert less(xs[i], xs[|xs| - 1]); }
      InsertLast(last, init, less);
    }
  }

  /** What is strictly sorted in two ways is sorted in one. */
  lemma {:induction false} StrictUnique<T>(xs: seq<T>, ys: seq<T>, less: (T, T) -> bool)
    requires StrictlySortedBy(xs, less) && StrictlySortedBy(ys, less) && multiset(xs) == multiset(ys)
    ensures xs == ys
    decreases |xs|
  {
    hide StrictlySortedBy;
    assert |xs| == |multiset(xs)| == |multiset(ys)| == |ys|;
    if |xs| > 0 {
      HeadsAgree(xs, ys, less);
      StrictTail(xs, less);
      StrictTail(ys, less);
      StrictUnique(xs[1..], ys[1..], less);
    }
  }

  lemma StrictTail<T>(xs: seq<T>, less: (T, T) -> bool)
    requires |xs| > 0 && StrictlySortedBy(xs, less)
    ensures multiset(xs[1..]) == multiset(xs) - multiset{xs[0]} && xs == [xs[0]] + xs[1..]
    ensures StrictlySortedBy(xs[1..], less)
  {
    assert xs == [xs[0]] + xs[1..];
  }

  lemma HeadsAgree<T>(xs: seq<T>, ys: seq<T>, less: (T, T) -> bool)
    requires StrictlySortedBy(xs, less) && StrictlySortedBy(ys, less) && multiset(xs) == multiset(ys)
    requires |xs| > 0 && |ys| > 0
    ensures xs[0] == ys[0]
  {
    MemberByMultiset(xs, ys, xs[0]);
    MemberByMultiset(ys, xs, ys[0]);
    var i :| 0 <= i < |ys| && ys[i] == xs[0];
    var j :| 0 <= j < |xs| && xs[j] == ys[0];
    FirstLeast(ys, less, i);
    FirstLeast(xs, less, j);
  }

  lemma FirstLeast<T>(xs: seq<T>, less: (T, T) -> bool, i: nat)
    requires StrictlySortedBy(xs, less) && i < |xs|
    ensures i == 0 || (less(xs[0], xs[i]) && !less(xs[i], xs[0]))
  {
  }

  lemma TwiceInSequence<T>(xs: seq<T>, i: nat, j: nat)
    requires i < j < |xs| && xs[i] == xs[j]
    ensures multiset(xs)[xs[i]] >= 2
  {
    assert xs == xs[..j] + [xs[j]] + xs[j + 1..];
    assert xs[i] in xs[..j];
  }

  lemma OnceInSequence<T>(xs: seq<T>, a: nat)
    requires a < |xs| && forall i | 0 <= i < |xs| && i != a :: xs[i] != xs[a]
    ensures multiset(xs)[xs[a]] == 1
  {
    assert xs == xs[..a] + [xs[a]] + xs[a + 1..];
    assert xs[a] !in xs[..a] && xs[a] !in xs[a + 1..];
  }

  // ----- Total orders and what is strictly ordered by them -----

  /** A total order, as a key type provides. */
  ghost predicate TotalOrder<K(!new)>(less: (K, K) -> bool) {
    && (forall x :: !less(x, x))
    && (forall x, y :: less(x, y) || x == y || less(y, x))
    && (forall x, y, z :: less(x, y) && less(y, z) ==> less(x, z))
  }

  /** Keys that rise strictly. */
  predicate Rising<K>(ks: seq<K>, less: (K, K) -> bool) {
    forall i, j | 0 <= i < j < |ks| :: less(ks[i], ks[j])
  }

  lemma SameLeast<K(!new)>(x: K, y: K, less: (K, K) -> bool)
    requires TotalOrder(less) && (x == y || less(x, y)) && (y == x || less(y, x))
    ensures x == y
  {
    assert !less(x, x);
  }

  /** Two rising sequences with the same members are the same. */
  lemma {:induction false} RisingUnique<K(!new)>(a: seq<K>, b: seq<K>, less: (K, K) -> bool)
    requires TotalOrder(less) && Rising(a, less) && Rising(b, less)
    requires forall k :: k in a <==> k in b
    ensures a == b
    decreases |a|
  {
    assert |a| > 0 ==> a[0] in b;
    assert |b| > 0 ==> b[0] in a;
    if |a| > 0 && |b| > 0 {
      var i :| 0 <= i < |b| && b[i] == a[0];
      var j :| 0 <= j < |a| && a[j] == b[0];
      assert b[0] == b[i] || less(b[0], b[i]);
      assert a[0] == a[j] || less(a[0], a[j]);
      SameLeast(a[0], b[0], less);
      RisingTail(a, b, less);
      RisingTail(b, a, less);
      RisingUnique(a[1..], b[1..], less);
      assert a == [a[0]] + a[1..] && b == [b[0]] + b[1..];
    }
  }

  /** Without their common first member the one still has only members of the other. */
  lemma RisingTail<K(!new)>(a: seq<K>, b: seq<K>, less: (K, K) -> bool)
    requires TotalOrder(less) && Rising(a, less) && |a| > 0 && |b| > 0 && a[0] == b[0]
    requires forall k | k in a :: k in b
    ensures forall k | k in a[1..] :: k in b[1..]
  {
    forall k | k in a[1..] ensures k in b[1..] {
      var i :| 0 <= i < |a[1..]| && a[1..][i] == k;
      assert less(a[0], a[i + 1]) && k in a;
      var j :| 0 <= j < |b| && b[j] == k;
      assert j > 0 && b[1..][j - 1] == k;
    }
  }
}
