/** Sums of the sizes of selected elements. */
module Sums {
  /** The total size of the elements below k that are in X. */
  function SumIn(sizes: seq<nat>, X: set<nat>, k: nat): nat
    requires k <= |sizes|
  {
    if k == 0 then 0 else SumIn(sizes, X, k - 1) + if k - 1 in X then sizes[k - 1] else 0
  }

  lemma {:induction false} SumAdd(sizes: seq<nat>, X: set<nat>, x: nat, k: nat)
    requires k <= |sizes| && x !in X
    ensures SumIn(sizes, X + {x}, k) == SumIn(sizes, X, k) + (if x < k then sizes[x] else 0)
  {
    if k > 0 { SumAdd(sizes, X, x, k - 1); }
  }

  lemma {:induction false} SumEmpty(sizes: seq<nat>, k: nat)
    requires k <= |sizes|
    ensures SumIn(sizes, {}, k) == 0
  {
    if k > 0 { SumEmpty(sizes, k - 1); }
  }

  /** The total size of the elements j, ..., k - 1. */
  function SumRange(sizes: seq<nat>, j: nat, k: nat): nat
    requires j <= k <= |sizes|
    decreases k
  {
    if j == k then 0 else SumRange(sizes, j, k - 1) + sizes[k - 1]
  }

  lemma {:induction false} SumInBelowRange(sizes: seq<nat>, X: set<nat>, j: nat, k: nat)
    requires j <= k <= |sizes| && forall i :: i in X && i < k ==> j <= i
    ensures SumIn(sizes, X, k) <= SumRange(sizes, j, k)
    decreases k
  {
    if j < k {
      SumInBelowRange(sizes, X, j, k - 1);
    } else if k > 0 {
      SumInBelowRange(sizes, X, k - 1, k - 1);
    }
  }

  lemma {:induction false} SumInAboveRange(sizes: seq<nat>, X: set<nat>, j: nat, k: nat, n: nat)
    requires j <= k <= n <= |sizes|
    requires forall i :: j <= i < k ==> i in X
    ensures SumIn(sizes, X, n) >= SumRange(sizes, j, k)
    decreases n
  {
    if j < k == n {
      SumInAboveRange(sizes, X, j, k - 1, n - 1);
    } else if n > k {
      SumInAboveRange(sizes, X, j, k, n - 1);
    }
  }

  lemma {:induction false} SumRangeSplit(sizes: seq<nat>, j: nat, m: nat, k: nat)
    requires j <= m <= k <= |sizes|
    ensures SumRange(sizes, j, k) == SumRange(sizes, j, m) + SumRange(sizes, m, k)
    decreases k
  {
    if m < k { SumRangeSplit(sizes, j, m, k - 1); }
  }

  lemma {:induction false} ElementBelowSum(sizes: seq<nat>, j: nat, k: nat, i: nat)
    requires j <= i < k <= |sizes|
    ensures sizes[i] <= SumRange(sizes, j, k)
    decreases k
  {
    if i < k - 1 { ElementBelowSum(sizes, j, k - 1, i); }
  }
}
