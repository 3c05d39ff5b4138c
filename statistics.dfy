/**
 * The per-group aggregates of src/feature_engineering.py (lines 20-30):
 * pandas' `mean`, `max` and `std` (sample standard deviation, ddof=1),
 * over exact reals.
 */
module Statistics {
  import opened Wrappers

  /**
   * `d` itself. A square is written `d * Copy(d)` so that the solver keeps it
   * as a product of two terms: compared with zero, a power defeats its real
   * arithmetic.
   */
  function Copy(d: real): real {
    d
  }

  function Sq(d: real): real {
    d * Copy(d)
  }

  lemma MulPositive(a: real, b: real)
    requires a > 0.0 && b > 0.0
    ensures a * b > 0.0
  {
  }

  lemma MulOfNegatives(a: real, b: real)
    requires a < 0.0 && b < 0.0
    ensures a * b > 0.0
  {
  }

  lemma SquarePositive(d: real)
    ensures d != 0.0 ==> Sq(d) > 0.0
    ensures Sq(d) >= 0.0
  {
    if d > 0.0 {
      MulPositive(d, Copy(d));
    } else if d < 0.0 {
      MulOfNegatives(d, Copy(d));
    }
  }

  /** Bounds on `s` over `n` from bounds on `s`. */
  lemma DivideBounds(s: real, n: real, lo: real, hi: real)
    requires n > 0.0 && n * lo <= s <= n * hi
    ensures lo <= s / n <= hi
  {
  }

  lemma DivideBelow(s: real, n: real, hi: real)
    requires n > 0.0 && s < n * hi
    ensures s / n < hi
  {
  }

  function Sum(xs: seq<real>): real
    decreases |xs|
  {
    if xs == [] then 0.0 else Sum(xs[..|xs| - 1]) + xs[|xs| - 1]
  }

  function MaxOf(xs: seq<real>): (m: real)
    requires |xs| > 0
    ensures m in xs
    ensures forall i :: 0 <= i < |xs| ==> xs[i] <= m
    decreases |xs|
  {
    if |xs| == 1 then xs[0]
    else
      var r := MaxOf(xs[..|xs| - 1]);
      if xs[|xs| - 1] > r then xs[|xs| - 1] else r
  }

  function MinOf(xs: seq<real>): (m: real)
    requires |xs| > 0
    ensures m in xs
    ensures forall i :: 0 <= i < |xs| ==> m <= xs[i]
    decreases |xs|
  {
    if |xs| == 1 then xs[0]
    else
      var r := MinOf(xs[..|xs| - 1]);
      if xs[|xs| - 1] < r then xs[|xs| - 1] else r
  }

  /** Bounds on every element bound the sum. */
  lemma {:induction false} SumAtLeast(xs: seq<real>, lo: real)
    requires forall i :: 0 <= i < |xs| ==> lo <= xs[i]
    ensures |xs| as real * lo <= Sum(xs)
    decreases |xs|
  {
    if xs != [] {
      SumAtLeast(xs[..|xs| - 1], lo);
    }
  }

  lemma {:induction false} SumAtMost(xs: seq<real>, hi: real)
    requires forall i :: 0 <= i < |xs| ==> xs[i] <= hi
    ensures Sum(xs) <= |xs| as real * hi
    decreases |xs|
  {
    if xs != [] {
      SumAtMost(xs[..|xs| - 1], hi);
    }
  }

  /** A sum whose elements are at most `hi`, one of them below, is below |xs| * hi. */
  lemma {:induction false} SumBelow(xs: seq<real>, hi: real, k: nat)
    requires k < |xs| && xs[k] < hi
    requires forall i :: 0 <= i < |xs| ==> xs[i] <= hi
    ensures Sum(xs) < |xs| as real * hi
    decreases |xs|
  {
    var n := |xs|;
    if k == n - 1 {
      SumAtMost(xs[..n - 1], hi);
    } else {
      SumBelow(xs[..n - 1], hi, k);
    }
  }

  lemma {:induction false} SumConstant(xs: seq<real>, c: real)
    requires forall i :: 0 <= i < |xs| ==> xs[i] == c
    ensures Sum(xs) == |xs| as real * c
    decreases |xs|
  {
    if xs != [] {
      SumConstant(xs[..|xs| - 1], c);
    }
  }

  /** Bounds on every element bound the average. */
  lemma AverageWithin(xs: seq<real>, lo: real, hi: real)
    requires |xs| > 0
    requires forall i :: 0 <= i < |xs| ==> lo <= xs[i] <= hi
    ensures lo <= Sum(xs) / |xs| as real <= hi
  {
    SumAtLeast(xs, lo);
    SumAtMost(xs, hi);
    DivideBounds(Sum(xs), |xs| as real, lo, hi);
  }

  /** The average is below `hi` when every element is at most `hi` and one is below. */
  lemma AverageBelow(xs: seq<real>, hi: real, k: nat)
    requires k < |xs| && xs[k] < hi
    requires forall i :: 0 <= i < |xs| ==> xs[i] <= hi
    ensures Sum(xs) / |xs| as real < hi
  {
    SumBelow(xs, hi, k);
    DivideBelow(Sum(xs), |xs| as real, hi);
  }

  /** pandas `mean`. */
  function Mean(xs: seq<real>): real
    requires |xs| > 0
  {
    Sum(xs) / |xs| as real
  }

  /** The mean lies between the minimum and the maximum. */
  lemma MeanWithin(xs: seq<real>)
    requires |xs| > 0
    ensures MinOf(xs) <= Mean(xs) <= MaxOf(xs)
  {
    AverageWithin(xs, MinOf(xs), MaxOf(xs));
  }

  lemma MeanOfConstant(xs: seq<real>, c: real)
    requires |xs| > 0
    requires forall i :: 0 <= i < |xs| ==> xs[i] == c
    ensures Mean(xs) == c
  {
    SumConstant(xs, c);
  }

  /** The mean is below the maximum as soon as one element is. */
  lemma MeanBelowMax(xs: seq<real>, k: nat)
    requires k < |xs| && xs[k] < MaxOf(xs)
    ensures Mean(xs) < MaxOf(xs)
  {
    AverageBelow(xs, MaxOf(xs), k);
  }

  /** Sum of squared deviations from `c`. */
  function SquaredDeviations(xs: seq<real>, c: real): (s: real)
    ensures s >= 0.0
    decreases |xs|
  {
    if xs == [] then 0.0
    else
      var d := xs[|xs| - 1] - c;
      SquarePositive(d);
      SquaredDeviations(xs[..|xs| - 1], c) + Sq(d)
  }

  /** No squared deviation from `c` means every element is `c`, and conversely. */
  lemma {:induction false} SquaredDeviationsZeroIff(xs: seq<real>, c: real)
    ensures SquaredDeviations(xs, c) == 0.0 ==> forall i :: 0 <= i < |xs| ==> xs[i] == c
    ensures (forall i :: 0 <= i < |xs| ==> xs[i] == c) ==> SquaredDeviations(xs, c) == 0.0
    decreases |xs|
  {
    if xs != [] {
      var n := |xs|;
      var init := xs[..n - 1];
      var d := xs[n - 1] - c;
      SquaredDeviationsZeroIff(init, c);
      SquarePositive(d);
      assert SquaredDeviations(xs, c) == SquaredDeviations(init, c) + Sq(d);
      assert forall i :: 0 <= i < n - 1 ==> xs[i] == init[i];
    }
  }

  /** Sample variance (ddof = 1); pandas gives NaN for fewer than two values. */
  function SampleVariance(xs: seq<real>): (v: Option<real>)
    ensures v.None? <==> |xs| < 2
    ensures v.Some? ==> v.value >= 0.0
  {
    if |xs| < 2 then None
    else Some(SquaredDeviations(xs, Mean(xs)) / (|xs| - 1) as real)
  }

  /**
   * `sqrt` is numpy's square root, which this model cannot define on the reals;
   * properties that need it assume it returns the non-negative root.
   */
  ghost predicate IsSqrt(sqrt: real -> real) {
    forall v :: 0.0 <= v ==> 0.0 <= sqrt(v) && Sq(sqrt(v)) == v
  }

  /** pandas `std`: the root of the sample variance, NaN for a single value. */
  function SampleStd(xs: seq<real>, sqrt: real -> real): (s: Option<real>)
    ensures s.None? <==> |xs| < 2
  {
    match SampleVariance(xs)
    case None => None
    case Some(v) => Some(sqrt(v))
  }

  lemma SampleStdNonNegative(xs: seq<real>, sqrt: real -> real)
    requires IsSqrt(sqrt) && |xs| >= 2
    ensures SampleStd(xs, sqrt).value >= 0.0
  {
  }

  /** With two or more values, the standard deviation is zero iff all values are equal. */
  lemma SampleStdZeroIffConstant(xs: seq<real>, sqrt: real -> real)
    requires IsSqrt(sqrt) && |xs| >= 2
    ensures SampleStd(xs, sqrt) == Some(0.0) ==> forall i :: 0 <= i < |xs| ==> xs[i] == xs[0]
    ensures (forall i :: 0 <= i < |xs| ==> xs[i] == xs[0]) ==> SampleStd(xs, sqrt) == Some(0.0)
  {
    var m := Mean(xs);
    var v := SampleVariance(xs).value;
    var ss := SquaredDeviations(xs, m);
    assert v == ss / (|xs| - 1) as real;
    assert v == 0.0 <==> ss == 0.0;
    SquaredDeviationsZeroIff(xs, m);
    var r := sqrt(v);
    assert Sq(r) == v;
    SquarePositive(r);
    assert v == 0.0 ==> r == 0.0;
    if forall i :: 0 <= i < |xs| ==> xs[i] == xs[0] {
      MeanOfConstant(xs, xs[0]);
    }
  }
}
