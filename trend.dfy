/**
 * `calculate_trend`, nested in `create_features` (src/feature_engineering.py,
 * lines 33-39): the degree-1 least-squares fit of y = systolic_bp against
 * x = 0..n-1 (`np.polyfit(x, y, 1)`), of which only the slope is returned.
 */
module Trend {
  import opened Statistics

  /** Mean of the reading indices 0..n-1. */
  function IndexMean(n: nat): real {
    (n as real - 1.0) / 2.0
  }

  /** Deviation of index `i` from the index mean of a series of length `n`. */
  function IndexDeviation(n: nat, i: nat): real {
    i as real - IndexMean(n)
  }

  /** Sum over i < k of (i - x̄)(ys[i] - c). */
  function Cross(ys: seq<real>, c: real, k: nat): real
    requires k <= |ys|
  {
    if k == 0 then 0.0
    else Cross(ys, c, k - 1) + IndexDeviation(|ys|, k - 1) * (ys[k - 1] - c)
  }

  /** Sum over i < k of (i - x̄)². */
  function Spread(n: nat, k: nat): real
    requires k <= n
  {
    if k == 0 then 0.0
    else Spread(n, k - 1) + Sq(IndexDeviation(n, k - 1))
  }

  /** The spread is never negative, and positive once it holds the first index of a series of two or more. */
  lemma {:induction false} SpreadPositive(n: nat, k: nat)
    requires k <= n
    ensures Spread(n, k) >= 0.0
    ensures n >= 2 && k >= 1 ==> Spread(n, k) > 0.0
  {
    if k > 0 {
      SpreadPositive(n, k - 1);
      SquarePositive(IndexDeviation(n, k - 1));
      if n >= 2 && k == 1 {
        assert IndexDeviation(n, 0) != 0.0;
      }
    }
  }

  /** The least-squares slope; polyfit's intercept is discarded by the source. */
  function CalculateTrend(ys: seq<real>): real
    requires |ys| >= 2
  {
    SpreadPositive(|ys|, |ys|);
    Cross(ys, Mean(ys), |ys|) / Spread(|ys|, |ys|)
  }

  // ---------------------------------------------------------------------------
  // Sums over the indices
  // ---------------------------------------------------------------------------

  /** Sum over i < k of (i - x̄). */
  function IndexDeviations(n: nat, k: nat): real {
    if k == 0 then 0.0 else IndexDeviations(n, k - 1) + IndexDeviation(n, k - 1)
  }

  lemma {:induction false} IndexDeviationsClosed(n: nat, k: nat)
    ensures IndexDeviations(n, k) == (k as real) * (k as real - 1.0) / 2.0 - (k as real) * IndexMean(n)
  {
    if k > 0 {
      IndexDeviationsClosed(n, k - 1);
    }
  }

  /** The index deviations of a whole series cancel out. */
  lemma IndexDeviationsVanish(n: nat)
    ensures IndexDeviations(n, n) == 0.0
  {
    IndexDeviationsClosed(n, n);
  }

  /** Changing the centre `c` moves the cross sum by (c2 - c1) times the index deviations. */
  lemma {:induction false} CrossRecentre(ys: seq<real>, c1: real, c2: real, k: nat)
    requires k <= |ys|
    ensures Cross(ys, c1, k) - Cross(ys, c2, k) == (c2 - c1) * IndexDeviations(|ys|, k)
  {
    if k > 0 {
      CrossRecentre(ys, c1, c2, k - 1);
    }
  }

  /** The slope, with the mean of the readings named `ybar`. */
  lemma TrendAround(ys: seq<real>, ybar: real)
    requires |ys| >= 2 && Mean(ys) == ybar
    ensures Spread(|ys|, |ys|) > 0.0 && CalculateTrend(ys) == Cross(ys, ybar, |ys|) / Spread(|ys|, |ys|)
  {
    SpreadPositive(|ys|, |ys|);
  }

  // ---------------------------------------------------------------------------
  // Small facts of real arithmetic, over plain variables
  // ---------------------------------------------------------------------------

  lemma CancelFactor(n: real, x: real)
    requires n != 0.0
    ensures (n * x) / n == x
  {
  }

  lemma SlopeOfRatio(t: real, c: real, s: real, b: real)
    requires s != 0.0 && t == c / s && c == b * s
    ensures t == b
  {
  }

  lemma MeanTimesCount(s: real, n: real, m: real)
    requires n != 0.0 && m == s / n
    ensures s - n * m == 0.0
  {
  }

  lemma Cancels(x: real, s: real, m: real)
    requires s != 0.0 && m == x / s
    ensures x == m * s
  {
  }

  lemma DivideSum(t: real, n: real, d: real)
    requires n != 0.0
    ensures (t + n * d) / n == t / n + d
  {
  }

  lemma MulZero(b: real, z: real)
    requires z == 0.0
    ensures b * z == 0.0
  {
  }

  lemma ScaleStep(b: real, s: real, s0: real, q: real)
    requires s == s0 + q
    ensures b * s == b * s0 + b * q
  {
  }

  lemma DistributeOver(b: real, s: real, q: real)
    ensures b * (s + q) == b * s + b * q
  {
  }

  lemma DividePositive(a: real, b: real)
    requires a > 0.0 && b > 0.0
    ensures a / b > 0.0
  {
  }

  lemma MulOfNonPositives(a: real, b: real)
    requires a <= 0.0 && b <= 0.0
    ensures a * b >= 0.0
  {
  }

  // ---------------------------------------------------------------------------
  // A linear series has its own slope
  // ---------------------------------------------------------------------------

  /** The series a + b·i for i = 0..n-1. */
  function Line(a: real, b: real, n: nat): (ys: seq<real>)
    ensures |ys| == n
  {
    seq(n, i requires 0 <= i < n => a + b * i as real)
  }

  lemma {:induction false} SumOfLine(a: real, b: real, n: nat)
    ensures Sum(Line(a, b, n)) == (n as real) * (a + b * IndexMean(n))
  {
    if n > 0 {
      assert Line(a, b, n)[..n - 1] == Line(a, b, n - 1);
      SumOfLine(a, b, n - 1);
    }
  }

  lemma MeanOfLine(a: real, b: real, n: nat)
    requires n > 0
    ensures Mean(Line(a, b, n)) == a + b * IndexMean(n)
  {
    var x := a + b * IndexMean(n);
    SumOfLine(a, b, n);
    var s := Sum(Line(a, b, n));
    CancelFactor(n as real, x);
    assert s / n as real == x;
  }

  /** One term of the cross sum of a line: d·((a + b·i) - (a + b·x̄)) = b·d² for d = i - x̄. */
  lemma LineTerm(a: real, b: real, i: real, xbar: real, d: real, y: real, c: real)
    requires d == i - xbar && y == a + b * i && c == a + b * xbar
    ensures d * (y - c) == b * Sq(d)
  {
    assert y - c == b * d;
  }

  /** One index of CrossOfLine: adding index k - 1 keeps the cross sum at b times the spread. */
  lemma LineStep(a: real, b: real, n: nat, k: nat)
    requires 0 < k <= n
    requires Cross(Line(a, b, n), a + b * IndexMean(n), k - 1) == b * Spread(n, k - 1)
    ensures Cross(Line(a, b, n), a + b * IndexMean(n), k) == b * Spread(n, k)
  {
    var d := IndexDeviation(n, k - 1);
    LineTerm(a, b, (k - 1) as real, IndexMean(n), d, Line(a, b, n)[k - 1], a + b * IndexMean(n));
    ScaleStep(b, Spread(n, k), Spread(n, k - 1), Sq(d));
  }

  /** Against its own mean, a line's cross sum over the first k indices is b times their spread. */
  lemma {:induction false} CrossOfLine(a: real, b: real, n: nat, k: nat)
    requires k <= n
    ensures Cross(Line(a, b, n), a + b * IndexMean(n), k) == b * Spread(n, k)
  {
    if k > 0 {
      CrossOfLine(a, b, n, k - 1);
      LineStep(a, b, n, k);
    }
  }

  /** The slope of y = a + b·i over two or more readings is b (e.g. [120, 130, 140] gives 10). */
  lemma TrendOfLine(a: real, b: real, n: nat)
    requires n >= 2
    ensures CalculateTrend(Line(a, b, n)) == b
  {
    var ys := Line(a, b, n);
    MeanOfLine(a, b, n);
    TrendAround(ys, a + b * IndexMean(n));
    CrossOfLine(a, b, n, n);
    SlopeOfRatio(CalculateTrend(ys), Cross(ys, a + b * IndexMean(n), n), Spread(n, n), b);
  }

  /** A constant series of two or more readings has slope 0. */
  lemma TrendOfConstant(ys: seq<real>, c: real)
    requires |ys| >= 2
    requires forall i :: 0 <= i < |ys| ==> ys[i] == c
    ensures CalculateTrend(ys) == 0.0
  {
    assert ys == Line(c, 0.0, |ys|);
    TrendOfLine(c, 0.0, |ys|);
  }

  lemma TrendExample()
    ensures CalculateTrend([120.0, 130.0, 140.0]) == 10.0
  {
    assert [120.0, 130.0, 140.0] == Line(120.0, 10.0, 3);
    TrendOfLine(120.0, 10.0, 3);
  }

  // ---------------------------------------------------------------------------
  // Adding a constant to every reading leaves the slope unchanged
  // ---------------------------------------------------------------------------

  function Shift(ys: seq<real>, d: real): (zs: seq<real>)
    ensures |zs| == |ys|
  {
    seq(|ys|, i requires 0 <= i < |ys| => ys[i] + d)
  }

  lemma {:induction false} SumOfShift(ys: seq<real>, d: real)
    ensures Sum(Shift(ys, d)) == Sum(ys) + (|ys| as real) * d
    decreases |ys|
  {
    if ys != [] {
      var n := |ys|;
      assert Shift(ys, d)[..n - 1] == Shift(ys[..n - 1], d);
      SumOfShift(ys[..n - 1], d);
    }
  }

  lemma MeanOfShift(ys: seq<real>, d: real)
    requires |ys| > 0
    ensures Mean(Shift(ys, d)) == Mean(ys) + d
  {
    SumOfShift(ys, d);
    DivideSum(Sum(ys), |ys| as real, d);
  }

  lemma {:induction false} CrossOfShift(ys: seq<real>, c: real, d: real, k: nat)
    requires k <= |ys|
    ensures Cross(Shift(ys, d), c + d, k) == Cross(ys, c, k)
  {
    if k > 0 {
      CrossOfShift(ys, c, d, k - 1);
    }
  }

  lemma TrendOfShift(ys: seq<real>, d: real)
    requires |ys| >= 2
    ensures CalculateTrend(Shift(ys, d)) == CalculateTrend(ys)
  {
    MeanOfShift(ys, d);
    CrossOfShift(ys, Mean(ys), d, |ys|);
  }

  // ---------------------------------------------------------------------------
  // A strictly increasing series has a positive slope
  // ---------------------------------------------------------------------------

  predicate StrictlyIncreasing(ys: seq<real>) {
    forall i, j :: 0 <= i < j < |ys| ==> ys[i] < ys[j]
  }

  /** The middle index h = (n-1) div 2 sits at or just below the index mean. */
  lemma MiddleIndex(n: nat)
    requires n >= 1
    ensures ((n - 1) / 2) as real <= IndexMean(n) < ((n - 1) / 2) as real + 1.0
  {
  }

  /** Against the middle reading, every term of the cross sum is non-negative. */
  lemma MiddleTerm(ys: seq<real>, i: nat)
    requires i < |ys| && StrictlyIncreasing(ys)
    ensures IndexDeviation(|ys|, i) * (ys[i] - ys[(|ys| - 1) / 2]) >= 0.0
  {
    var n, h := |ys|, (|ys| - 1) / 2;
    MiddleIndex(n);
    var d, e := IndexDeviation(n, i), ys[i] - ys[h];
    if i <= h {
      MulOfNonPositives(d, e);
    } else {
      assert ys[h] < ys[i];
      MulPositive(d, e);
    }
  }

  /** Against the middle reading, the cross sum over the first k indices is non-negative. */
  lemma {:induction false} CrossAgainstMiddle(ys: seq<real>, k: nat)
    requires |ys| >= 1 && k <= |ys|
    requires StrictlyIncreasing(ys)
    ensures Cross(ys, ys[(|ys| - 1) / 2], k) >= 0.0
  {
    if k > 0 {
      CrossAgainstMiddle(ys, k - 1);
      MiddleTerm(ys, k - 1);
    }
  }

  /** For two or more strictly increasing readings the slope is positive. */
  lemma TrendOfIncreasing(ys: seq<real>)
    requires |ys| >= 2
    requires StrictlyIncreasing(ys)
    ensures CalculateTrend(ys) > 0.0
  {
    var n, h := |ys|, (|ys| - 1) / 2;
    var ybar, c := Mean(ys), ys[h];
    TrendAround(ys, ybar);
    CrossRecentre(ys, ybar, c, n);
    IndexDeviationsVanish(n);
    var whole := Cross(ys, ybar, n);
    assert whole == Cross(ys, c, n);
    CrossAgainstMiddle(ys, n - 1);
    MiddleIndex(n);
    var d, e := IndexDeviation(n, n - 1), ys[n - 1] - c;
    assert ys[h] < ys[n - 1];
    MulPositive(d, e);
    assert Cross(ys, c, n) == Cross(ys, c, n - 1) + d * e;
    DividePositive(whole, Spread(n, n));
  }

  // ---------------------------------------------------------------------------
  // The slope and its intercept solve the least-squares normal equations
  // ---------------------------------------------------------------------------

  /** Term by term, e = u + m·q sums to Σu + m·Σq. */
  lemma {:induction false} SumAffine(e: seq<real>, u: seq<real>, q: seq<real>, m: real)
    requires |e| == |u| == |q|
    requires forall i :: 0 <= i < |e| ==> e[i] == u[i] + m * q[i]
    ensures Sum(e) == Sum(u) + m * Sum(q)
    decreases |e|
  {
    if e != [] {
      var n := |e|;
      SumAffine(e[..n - 1], u[..n - 1], q[..n - 1], m);
      DistributeOver(m, Sum(q[..n - 1]), q[n - 1]);
    }
  }

  /** The index deviations i - x̄. */
  function IndexDeviationTerms(n: nat): (ts: seq<real>)
    ensures |ts| == n
  {
    seq(n, i requires 0 <= i < n => IndexDeviation(n, i))
  }

  lemma {:induction false} IndexDeviationsAsSum(n: nat, k: nat)
    requires k <= n
    ensures IndexDeviations(n, k) == Sum(IndexDeviationTerms(n)[..k])
  {
    if k > 0 {
      IndexDeviationsAsSum(n, k - 1);
      assert IndexDeviationTerms(n)[..k][..k - 1] == IndexDeviationTerms(n)[..k - 1];
    }
  }

  /** Residuals ys[i] - (m·i + c) against the line m·i + c. */
  function Residuals(ys: seq<real>, m: real, c: real): (rs: seq<real>)
    ensures |rs| == |ys|
  {
    seq(|ys|, i requires 0 <= i < |ys| => ys[i] - (m * i as real + c))
  }

  /** A series weighted by its indices, i·rs[i]. */
  function Moments(rs: seq<real>): (ms: seq<real>)
    ensures |ms| == |rs|
  {
    seq(|rs|, i requires 0 <= i < |rs| => i as real * rs[i])
  }

  /** The residuals weighted by their index, i·(ys[i] - (m·i + c)). */
  function ResidualMoments(ys: seq<real>, m: real, c: real): (ms: seq<real>)
    ensures |ms| == |ys|
  {
    Moments(Residuals(ys, m, c))
  }

  /** rs holds the residuals of ys against the line m·i + c. */
  ghost predicate ResidualsOf(rs: seq<real>, ys: seq<real>, m: real, c: real) {
    |rs| == |ys| && forall i :: 0 <= i < |ys| ==> rs[i] == ys[i] - (m * i as real + c)
  }

  lemma ResidualsOfLine(ys: seq<real>, m: real, c: real)
    ensures ResidualsOf(Residuals(ys, m, c), ys, m, c)
  {
  }

  /** Against a line through (x̄, ȳ), a reading's deviation from ȳ is its residual plus m times its index deviation. */
  lemma ResidualSplit(y: real, r: real, i: real, m: real, ybar: real, xbar: real, c: real)
    requires r == y - (m * i + c) && c == ybar - m * xbar
    ensures y - ybar == r + m * (i - xbar)
  {
  }

  lemma WeightSplit(d: real, a: real, r: real, m: real)
    requires a == r + m * d
    ensures d * a == d * r + m * Sq(d)
  {
  }

  lemma MomentTerm(i: real, xbar: real, r: real)
    ensures i * r == (i - xbar) * r + xbar * r
  {
  }

  /** The deviations from the mean cancel out. */
  lemma ShiftByMeanVanishes(ys: seq<real>)
    requires |ys| > 0
    ensures Sum(Shift(ys, -Mean(ys))) == 0.0
  {
    SumOfShift(ys, -Mean(ys));
    MeanTimesCount(Sum(ys), |ys| as real, Mean(ys));
  }

  /** Each reading's deviation from ybar is rs[i] plus m times the index deviation. */
  ghost predicate SplitsAs(ys: seq<real>, ybar: real, rs: seq<real>, m: real) {
    |rs| == |ys| && forall i :: 0 <= i < |ys| ==> ys[i] - ybar == rs[i] + m * IndexDeviation(|ys|, i)
  }

  /** Against a line of slope m through (x̄, ȳ), the deviations from ȳ split into residual and m·(i - x̄). */
  lemma ResidualsSplit(ys: seq<real>, rs: seq<real>, m: real, ybar: real, c: real)
    requires ResidualsOf(rs, ys, m, c) && c == ybar - m * IndexMean(|ys|)
    ensures SplitsAs(ys, ybar, rs, m)
  {
    forall i | 0 <= i < |ys|
      ensures ys[i] - ybar == rs[i] + m * IndexDeviation(|ys|, i)
    {
      ResidualSplit(ys[i], rs[i], i as real, m, ybar, IndexMean(|ys|), c);
    }
  }

  /** When the deviations split so, the residuals sum to zero once the deviations from ybar do. */
  lemma ResidualsVanish(ys: seq<real>, ybar: real, rs: seq<real>, m: real)
    requires SplitsAs(ys, ybar, rs, m) && Sum(Shift(ys, -ybar)) == 0.0
    ensures Sum(rs) == 0.0
  {
    SumAffine(Shift(ys, -ybar), rs, IndexDeviationTerms(|ys|), m);
    DeviationTermsVanish(|ys|);
    MulZero(m, Sum(IndexDeviationTerms(|ys|)));
  }

  lemma DeviationTermsVanish(n: nat)
    ensures Sum(IndexDeviationTerms(n)) == 0.0
  {
    IndexDeviationsVanish(n);
    IndexDeviationsAsSum(n, n);
    assert IndexDeviationTerms(n)[..n] == IndexDeviationTerms(n);
  }

  /** One index of CrossSplit: adding index k - 1 keeps the split. */
  lemma CrossSplitStep(ys: seq<real>, ybar: real, rs: seq<real>, m: real, k: nat)
    requires |rs| == |ys| && 0 < k <= |ys|
    requires ys[k - 1] - ybar == rs[k - 1] + m * IndexDeviation(|ys|, k - 1)
    requires Cross(ys, ybar, k - 1) == Cross(rs, 0.0, k - 1) + m * Spread(|ys|, k - 1)
    ensures Cross(ys, ybar, k) == Cross(rs, 0.0, k) + m * Spread(|ys|, k)
  {
    var d := IndexDeviation(|ys|, k - 1);
    WeightSplit(d, ys[k - 1] - ybar, rs[k - 1], m);
    ScaleStep(m, Spread(|ys|, k), Spread(|ys|, k - 1), Sq(d));
  }

  /** When the deviations split so, the cross sum splits into the cross sum of rs and m·Spread. */
  lemma {:induction false} CrossSplit(ys: seq<real>, ybar: real, rs: seq<real>, m: real, k: nat)
    requires SplitsAs(ys, ybar, rs, m) && k <= |ys|
    ensures Cross(ys, ybar, k) == Cross(rs, 0.0, k) + m * Spread(|ys|, k)
  {
    if k > 0 {
      CrossSplit(ys, ybar, rs, m, k - 1);
      CrossSplitStep(ys, ybar, rs, m, k);
    }
  }

  /** The intercept of the fitted line, which `calculate_trend` computes and discards. */
  function Intercept(ys: seq<real>): real
    requires |ys| >= 2
  {
    Mean(ys) - CalculateTrend(ys) * IndexMean(|ys|)
  }

  /**
   * The slope and its intercept leave residuals that sum to zero and are
   * orthogonal to the indices: the two normal equations whose solution is
   * the least-squares line that `np.polyfit(x, y, 1)` returns.
   */
  lemma TrendSolvesNormalEquations(ys: seq<real>)
    requires |ys| >= 2
    ensures Sum(Residuals(ys, CalculateTrend(ys), Intercept(ys))) == 0.0
    ensures Sum(ResidualMoments(ys, CalculateTrend(ys), Intercept(ys))) == 0.0
  {
    ShiftByMeanVanishes(ys);
    SlopeBalances(ys);
    ResidualsOfLine(ys, CalculateTrend(ys), Intercept(ys));
    NormalEquations(ys, Residuals(ys, CalculateTrend(ys), Intercept(ys)), CalculateTrend(ys), Mean(ys), Intercept(ys));
  }

  /** The slope is the ratio that makes the cross sum cancel the scaled spread. */
  lemma SlopeBalances(ys: seq<real>)
    requires |ys| >= 2
    ensures Cross(ys, Mean(ys), |ys|) == CalculateTrend(ys) * Spread(|ys|, |ys|)
  {
    TrendAround(ys, Mean(ys));
    Cancels(Cross(ys, Mean(ys), |ys|), Spread(|ys|, |ys|), CalculateTrend(ys));
  }

  /** Both normal equations hold for a line through (x̄, ȳ) whose slope balances cross sum and spread. */
  lemma NormalEquations(ys: seq<real>, rs: seq<real>, m: real, ybar: real, c: real)
    requires ResidualsOf(rs, ys, m, c) && c == ybar - m * IndexMean(|ys|)
    requires Sum(Shift(ys, -ybar)) == 0.0
    requires Cross(ys, ybar, |ys|) == m * Spread(|ys|, |ys|)
    ensures Sum(rs) == 0.0 && Sum(Moments(rs)) == 0.0
  {
    ResidualsSplit(ys, rs, m, ybar, c);
    ResidualsVanish(ys, ybar, rs, m);
    CrossSplit(ys, ybar, rs, m, |ys|);
    MomentsVanish(rs);
  }

  /** Over the first k indices, the index-weighted series is its cross sum plus x̄ times its sum. */
  lemma {:induction false} MomentsSplit(rs: seq<real>, k: nat)
    requires k <= |rs|
    ensures Sum(Moments(rs)[..k]) == Cross(rs, 0.0, k) + IndexMean(|rs|) * Sum(rs[..k])
  {
    if k > 0 {
      var i := k - 1;
      assert Moments(rs)[..k][..i] == Moments(rs)[..i];
      assert rs[..k][..i] == rs[..i];
      MomentsSplit(rs, i);
      MomentTerm(i as real, IndexMean(|rs|), rs[i]);
      DistributeOver(IndexMean(|rs|), Sum(rs[..i]), rs[i]);
    }
  }

  /** A series that sums to zero and is orthogonal to the centred indices is orthogonal to the indices. */
  lemma MomentsVanish(rs: seq<real>)
    requires Sum(rs) == 0.0 && Cross(rs, 0.0, |rs|) == 0.0
    ensures Sum(Moments(rs)) == 0.0
  {
    MomentsSplit(rs, |rs|);
    assert Moments(rs)[..|rs|] == Moments(rs);
    assert rs[..|rs|] == rs;
  }
}
