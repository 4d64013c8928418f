/** Sums over the parts of a state. */
module Sums {
  ghost function Sum<X>(xs: seq<X>, f: X -> int): int {
    if xs == [] then 0 else Sum(xs[..|xs| - 1], f) + f(xs[|xs| - 1])
  }

  lemma {:induction false} SumUpdate<X>(xs: seq<X>, i: nat, x: X, f: X -> int)
    requires i < |xs|
    ensures Sum(xs[i := x], f) == Sum(xs, f) - f(xs[i]) + f(x)
  {
    var n := |xs| - 1;
    if i < n {
      assert xs[i := x][..n] == xs[..n][i := x];
      SumUpdate(xs[..n], i, x, f);
    } else {
      assert xs[i := x][..n] == xs[..n];
    }
  }

  lemma SumAppend<X>(xs: seq<X>, x: X, f: X -> int)
    ensures Sum(xs + [x], f) == Sum(xs, f) + f(x)
  {
    assert (xs + [x])[..|xs|] == xs;
  }

  /** A sum of terms that are not negative is at least each of them, and is zero only if all are. */
  lemma {:induction false} SumBounds<X>(xs: seq<X>, f: X -> int)
    requires forall i :: 0 <= i < |xs| ==> f(xs[i]) >= 0
    ensures Sum(xs, f) >= 0
    ensures forall i :: 0 <= i < |xs| ==> f(xs[i]) <= Sum(xs, f)
    ensures (forall i :: 0 <= i < |xs| ==> f(xs[i]) == 0) ==> Sum(xs, f) == 0
  {
    if xs != [] {
      SumBounds(xs[..|xs| - 1], f);
    }
  }

  lemma {:induction false} SumAtMost<X>(xs: seq<X>, f: X -> int, n: int)
    requires forall i :: 0 <= i < |xs| ==> f(xs[i]) <= n
    ensures Sum(xs, f) <= |xs| * n
  {
    if xs != [] {
      SumAtMost(xs[..|xs| - 1], f, n);
      assert |xs| * n == (|xs| - 1) * n + n;
    }
  }

  lemma {:induction false} SumAtLeast<X>(xs: seq<X>, f: X -> int, n: int)
    requires forall i :: 0 <= i < |xs| ==> f(xs[i]) >= n
    ensures Sum(xs, f) >= |xs| * n
  {
    if xs != [] {
      SumAtLeast(xs[..|xs| - 1], f, n);
      assert |xs| * n == (|xs| - 1) * n + n;
    }
  }

  lemma {:induction false} SumTwo<X>(xs: seq<X>, f: X -> int, i: nat, j: nat)
    requires i < j < |xs| && forall k :: 0 <= k < |xs| ==> f(xs[k]) >= 0
    ensures f(xs[i]) + f(xs[j]) <= Sum(xs, f)
  {
    var n := |xs| - 1;
    SumBounds(xs[..n], f);
    if j < n {
      SumTwo(xs[..n], f, i, j);
    } else {
      assert xs[..n][i] == xs[i];
    }
  }

  lemma {:induction false} SumOfSame<X>(n: nat, x: X, f: X -> int)
    ensures Sum(seq(n, _ => x), f) == n * f(x)
  {
    if n > 0 {
      assert seq(n, _ => x)[..n - 1] == seq(n - 1, _ => x);
      SumOfSame(n - 1, x, f);
      assert n * f(x) == (n - 1) * f(x) + f(x);
    }
  }
}
