/** Parameter grids: numpy's `linspace(0, 1, num=n)` over the closed interval
    [0,1] and `linspace(0, 1, num=n, endpoint=False)` over [0,1), with the
    floating-point values replaced by the exact fractions they approximate. */
module Sampling {

  /** The exact grid value k/d. */
  function Fraction(k: nat, d: nat): (r: real)
    requires d > 0
    ensures 0.0 <= r
    ensures k <= d ==> r <= 1.0
    ensures k < d ==> r < 1.0
    ensures k == 0 ==> r == 0.0
    ensures k == d ==> r == 1.0
  {
    var r := k as real / d as real;
    assert r * d as real == k as real;
    r
  }

  /** Larger numerators give larger fractions over the same denominator. */
  lemma FractionsIncrease(d: nat)
    requires d > 0
    ensures forall j: nat, k: nat :: j < k ==> Fraction(j, d) < Fraction(k, d)
  {
    forall j: nat, k: nat | j < k ensures Fraction(j, d) < Fraction(k, d) {
      assert Fraction(k, d) - Fraction(j, d) == (k - j) as real / d as real;
    }
  }

  /** `linspace(0, 1, num=n)`: n equally spaced parameters, both endpoints
      included; a single sample is the start 0. */
  function LinspaceClosed(n: nat): (r: seq<real>)
    ensures |r| == n
    ensures n >= 1 ==> r[0] == 0.0
    ensures n >= 2 ==> r[n - 1] == 1.0
    ensures n >= 2 ==> forall k :: 0 <= k < n ==> r[k] == Fraction(k, n - 1)
    ensures forall k :: 0 <= k < n ==> 0.0 <= r[k] <= 1.0
    ensures forall j, k :: 0 <= j < k < n ==> r[j] < r[k]
  {
    if n <= 1 then seq(n, k => 0.0)
    else
      FractionsIncrease(n - 1);
      seq(n, k requires 0 <= k < n => Fraction(k, n - 1))
  }

  /** `linspace(0, 1, num=n, endpoint=False)`: n equally spaced parameters
      k/n, the endpoint 1 excluded. */
  function LinspaceOpen(n: nat): (r: seq<real>)
    ensures |r| == n
    ensures n >= 1 ==> r[0] == 0.0
    ensures forall k :: 0 <= k < n ==> r[k] == Fraction(k, n)
    ensures forall k :: 0 <= k < n ==> 0.0 <= r[k] < 1.0
    ensures forall j, k :: 0 <= j < k < n ==> r[j] < r[k]
  {
    if n == 0 then []
    else
      FractionsIncrease(n);
      seq(n, k requires 0 <= k < n => Fraction(k, n))
  }

  /** Neighbouring grid values over the same denominator differ by 1/d. */
  lemma FractionStep(k: nat, d: nat)
    requires d > 0
    ensures Fraction(k + 1, d) - Fraction(k, d) == Fraction(1, d)
  {
    assert Fraction(k + 1, d) * d as real == (k + 1) as real;
    assert Fraction(k, d) * d as real == k as real;
    assert Fraction(1, d) * d as real == 1.0;
  }

  /** The closed grid is equally spaced: every step is 1/(n-1). */
  lemma LinspaceClosedEquallySpaced(n: nat)
    requires n >= 2
    ensures forall k :: 0 <= k < n - 1 ==>
      LinspaceClosed(n)[k + 1] - LinspaceClosed(n)[k] == Fraction(1, n - 1)
  {
    forall k | 0 <= k < n - 1
      ensures LinspaceClosed(n)[k + 1] - LinspaceClosed(n)[k] == Fraction(1, n - 1)
    {
      FractionStep(k, n - 1);
    }
  }

  /** The half-open grid is equally spaced: every step is 1/n, and one more
      step after the last value would reach the excluded endpoint 1. */
  lemma LinspaceOpenEquallySpaced(n: nat)
    requires n >= 1
    ensures forall k :: 0 <= k < n - 1 ==>
      LinspaceOpen(n)[k + 1] - LinspaceOpen(n)[k] == Fraction(1, n)
    ensures LinspaceOpen(n)[n - 1] + Fraction(1, n) == 1.0
  {
    forall k | 0 <= k < n - 1
      ensures LinspaceOpen(n)[k + 1] - LinspaceOpen(n)[k] == Fraction(1, n)
    {
      FractionStep(k, n);
    }
    FractionStep(n - 1, n);
  }
}
