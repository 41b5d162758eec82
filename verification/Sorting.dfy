/** Sorting by a comparison, as `sort.Slice` promises it: some permutation in order. */
module Sorting {
  import opened Prelude

  ghost predicate StrictWeakOrder<T(!new)>(less: (T, T) -> bool) {
    && (forall x :: !less(x, x))
    && (forall x, y :: less(x, y) ==> !less(y, x))
    && (forall x, y, z :: less(x, z) ==> less(x, y) || less(y, z))
  }

  ghost predicate InOrder<T>(less: (T, T) -> bool, xs: seq<T>) {
    forall i, j :: 0 <= i < j < |xs| ==> !less(xs[j], xs[i])
  }

  method InsertInOrder<T(!new)>(less: (T, T) -> bool, xs: seq<T>, x: T) returns (ys: seq<T>)
    requires StrictWeakOrder(less) && InOrder(less, xs)
    ensures InOrder(less, ys) && multiset(ys) == multiset(xs) + multiset{x}
  {
    var k := |xs|;
    while k > 0 && less(x, xs[k - 1])
      invariant 0 <= k <= |xs|
      invariant forall i :: k <= i < |xs| ==> less(x, xs[i])
    {
      k := k - 1;
    }
    forall i | 0 <= i < k ensures !less(x, xs[i]) {
      if i < k - 1 { assert !(less(x, xs[k - 1]) || less(xs[k - 1], xs[i])); }
    }
    ys := xs[..k] + [x] + xs[k..];
    InsertedInOrder(less, xs, x, k);
    assert xs == xs[..k] + xs[k..];
  }

  lemma {:induction false} InsertedInOrder<T(!new)>(less: (T, T) -> bool, xs: seq<T>, x: T, k: nat)
    requires StrictWeakOrder(less) && InOrder(less, xs) && k <= |xs|
    requires forall i :: 0 <= i < k ==> !less(x, xs[i])
    requires forall i :: k <= i < |xs| ==> less(x, xs[i])
    ensures InOrder(less, xs[..k] + [x] + xs[k..])
  {
    var ys := xs[..k] + [x] + xs[k..];
    forall i, j | 0 <= i < j < |ys| ensures !less(ys[j], ys[i]) {
      assert ys[i] == if i < k then xs[i] else if i == k then x else xs[i - 1];
      assert ys[j] == if j < k then xs[j] else if j == k then x else xs[j - 1];
    }
  }

  method SortBy<T(!new)>(less: (T, T) -> bool, xs: seq<T>) returns (ys: seq<T>)
    requires StrictWeakOrder(less)
    ensures InOrder(less, ys) && multiset(ys) == multiset(xs)
  {
    ys := [];
    for i := 0 to |xs|
      invariant InOrder(less, ys) && multiset(ys) == multiset(xs[..i])
    {
      assert xs[..i + 1] == xs[..i] + [xs[i]];
      ys := InsertInOrder(less, ys, xs[i]);
    }
    assert xs[..|xs|] == xs;
  }
}
