/** Sums of a weight over a sequence. */
module Sums {

  function SumBy<T>(xs: seq<T>, w: T -> int): int {
    if xs == [] then 0 else SumBy(xs[..|xs| - 1], w) + w(xs[|xs| - 1])
  }

  lemma SumPush<T>(xs: seq<T>, x: T, w: T -> int)
    ensures SumBy(xs + [x], w) == SumBy(xs, w) + w(x)
  {
    assert (xs + [x])[..|xs|] == xs;
  }

  lemma {:induction false} SumUpdate<T>(xs: seq<T>, i: nat, x: T, w: T -> int)
    requires i < |xs|
    ensures SumBy(xs[i := x], w) == SumBy(xs, w) - w(xs[i]) + w(x)
  {
    var n := |xs| - 1;
    if i < n {
      assert xs[i := x][..n] == xs[..n][i := x];
      SumUpdate(xs[..n], i, x, w);
    } else {
      assert xs[i := x][..n] == xs[..n];
    }
  }

  lemma {:induction false} SumZero<T>(xs: seq<T>, w: T -> int)
    requires forall i :: 0 <= i < |xs| ==> w(xs[i]) == 0
    ensures SumBy(xs, w) == 0
  {
    if xs != [] {
      SumZero(xs[..|xs| - 1], w);
    }
  }

  lemma {:induction false} SumAtLeast<T>(xs: seq<T>, i: nat, w: T -> int)
    requires i < |xs| && forall j :: 0 <= j < |xs| ==> w(xs[j]) >= 0
    ensures SumBy(xs, w) >= w(xs[i])
  {
    var n := |xs| - 1;
    if i < n {
      SumAtLeast(xs[..n], i, w);
    } else {
      SumNonnegative(xs[..n], w);
    }
  }

  lemma {:induction false} SumNonnegative<T>(xs: seq<T>, w: T -> int)
    requires forall j :: 0 <= j < |xs| ==> w(xs[j]) >= 0
    ensures SumBy(xs, w) >= 0
  {
    if xs != [] {
      SumNonnegative(xs[..|xs| - 1], w);
    }
  }
}
