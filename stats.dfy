/**
 * Column statistics used by the distance engine: the sample variance with
 * divisor n - 1, which is what pandas' `DataFrame.var()` computes by default.
 *
 * Scores are integers, so everything up to the final division is kept
 * exact over `int`: with S the column total, the deviation of x from the
 * mean S / n is (n * x - S) / n, hence
 *   sum of (x - S/n)^2 / (n - 1)  ==  sum of (n * x - S)^2 / (n^2 * (n - 1)).
 * `Variance` is the right-hand side.
 */
module Stats {
  import opened Util

  function Total(xs: seq<int>): int {
    if xs == [] then 0 else Total(xs[..|xs| - 1]) + xs[|xs| - 1]
  }

  function SumOfSquares(ds: seq<int>): (r: int)
    ensures r >= 0
  {
    if ds == [] then 0 else SumOfSquares(ds[..|ds| - 1]) + ds[|ds| - 1] * ds[|ds| - 1]
  }

  /** n times the deviation of `xs[i]` from the column mean. */
  function Deviation(xs: seq<int>, i: nat): int
    requires i < |xs|
  {
    |xs| * xs[i] - Total(xs)
  }

  function Deviations(xs: seq<int>): (ds: seq<int>)
    ensures |ds| == |xs| && forall i :: 0 <= i < |xs| ==> ds[i] == Deviation(xs, i)
  {
    seq(|xs|, i requires 0 <= i < |xs| => Deviation(xs, i))
  }

  /** n^2 * (n - 1), the divisor that turns `SumOfSquares(Deviations(xs))` into the variance. */
  function VarianceDivisor(n: nat): (d: int)
    requires n >= 2
    ensures d > 0
  {
    n * n * (n - 1)
  }

  /** Sample variance (divisor n - 1) of an integer column. */
  function Variance(xs: seq<int>): real
    requires |xs| >= 2
  {
    (SumOfSquares(Deviations(xs)) as real) / (VarianceDivisor(|xs|) as real)
  }

  /** Some value differs from the first one. */
  predicate NonConstant(xs: seq<int>) {
    exists i :: 0 < i < |xs| && xs[i] != xs[0]
  }

  function Scaled(xs: seq<int>, c: int): (r: seq<int>)
    ensures |r| == |xs| && forall i :: 0 <= i < |xs| ==> r[i] == c * xs[i]
  {
    seq(|xs|, i requires 0 <= i < |xs| => c * xs[i])
  }

  function Shifted(xs: seq<int>, t: int): (r: seq<int>)
    ensures |r| == |xs| && forall i :: 0 <= i < |xs| ==> r[i] == xs[i] + t
  {
    seq(|xs|, i requires 0 <= i < |xs| => xs[i] + t)
  }

  lemma {:induction false} SquareBound(ds: seq<int>, i: nat)
    requires i < |ds|
    ensures SumOfSquares(ds) >= ds[i] * ds[i]
  {
    if i < |ds| - 1 {
      SquareBound(ds[..|ds| - 1], i);
    }
  }

  lemma {:induction false} SumOfSquaresZero(ds: seq<int>)
    requires forall i :: 0 <= i < |ds| ==> ds[i] == 0
    ensures SumOfSquares(ds) == 0
  {
    if ds != [] { SumOfSquaresZero(ds[..|ds| - 1]); }
  }

  lemma {:induction false} TotalOfConstant(xs: seq<int>, c: int)
    requires forall i :: 0 <= i < |xs| ==> xs[i] == c
    ensures Total(xs) == |xs| * c
  {
    if xs != [] { TotalOfConstant(xs[..|xs| - 1], c); }
  }

  /** The divisor n^2 (n - 1) is positive, so positivity is decided by the deviations. */
  lemma VarianceSign(xs: seq<int>)
    requires |xs| >= 2
    ensures Variance(xs) >= 0.0
    ensures Variance(xs) > 0.0 <==> SumOfSquares(Deviations(xs)) > 0
  {
  }

  lemma {:induction false} SumOfSquaresPositive(ds: seq<int>, i: nat)
    requires i < |ds| && ds[i] != 0
    ensures SumOfSquares(ds) > 0
  {
    SquareBound(ds, i);
    assert ds[i] * ds[i] > 0;
  }

  /** Two different values cannot both sit at the mean. */
  lemma NonConstantDeviates(xs: seq<int>, i: nat)
    requires 0 < i < |xs| && xs[i] != xs[0]
    ensures Deviation(xs, i) != 0 || Deviation(xs, 0) != 0
  {
    var n := |xs|;
    assert Deviation(xs, i) - Deviation(xs, 0) == n * (xs[i] - xs[0]);
    assert n * (xs[i] - xs[0]) != 0;
  }

  /** A column's variance is positive exactly when the column is not constant. */
  lemma VariancePositiveIffNonConstant(xs: seq<int>)
    requires |xs| >= 2
    ensures Variance(xs) > 0.0 <==> NonConstant(xs)
  {
    VarianceSign(xs);
    var ds := Deviations(xs);
    if NonConstant(xs) {
      var i :| 0 < i < |xs| && xs[i] != xs[0];
      NonConstantDeviates(xs, i);
      if ds[0] != 0 {
        SumOfSquaresPositive(ds, 0);
      } else {
        SumOfSquaresPositive(ds, i);
      }
    } else {
      assert forall i :: 0 <= i < |xs| ==> xs[i] == xs[0];
      TotalOfConstant(xs, xs[0]);
      SumOfSquaresZero(ds);
    }
  }

  lemma {:induction false} TotalScaled(xs: seq<int>, c: int)
    ensures Total(Scaled(xs, c)) == c * Total(xs)
  {
    if xs != [] {
      var init := xs[..|xs| - 1];
      assert Scaled(xs, c)[..|xs| - 1] == Scaled(init, c);
      TotalScaled(init, c);
    }
  }

  lemma {:induction false} TotalShifted(xs: seq<int>, t: int)
    ensures Total(Shifted(xs, t)) == Total(xs) + |xs| * t
  {
    if xs != [] {
      var init := xs[..|xs| - 1];
      assert Shifted(xs, t)[..|xs| - 1] == Shifted(init, t);
      TotalShifted(init, t);
    }
  }

  lemma {:induction false} SumOfSquaresScaled(ds: seq<int>, c: int)
    ensures SumOfSquares(Scaled(ds, c)) == c * c * SumOfSquares(ds)
  {
    if ds != [] {
      var init, last := ds[..|ds| - 1], ds[|ds| - 1];
      assert Scaled(ds, c)[..|ds| - 1] == Scaled(init, c);
      SumOfSquaresScaled(init, c);
      assert (c * last) * (c * last) == c * c * (last * last);
    }
  }

  /** Multiplying a column by `c` multiplies every deviation by `c`. */
  lemma DeviationsScaled(xs: seq<int>, c: int)
    ensures Deviations(Scaled(xs, c)) == Scaled(Deviations(xs), c)
  {
    TotalScaled(xs, c);
    forall i | 0 <= i < |xs|
      ensures Deviation(Scaled(xs, c), i) == c * Deviation(xs, i)
    {
      DeviationDistributes(|xs|, xs[i], Total(xs), c);
    }
  }

  lemma DeviationDistributes(n: int, x: int, t: int, c: int)
    ensures n * (c * x) - c * t == c * (n * x - t)
  {
  }

  /** Adding `t` to every value of a column leaves every deviation unchanged. */
  lemma DeviationsShifted(xs: seq<int>, t: int)
    ensures Deviations(Shifted(xs, t)) == Deviations(xs)
  {
    TotalShifted(xs, t);
  }

  /** Multiplying a column by `c` multiplies its variance by c^2. */
  lemma VarianceScaled(xs: seq<int>, c: int)
    requires |xs| >= 2
    ensures SumOfSquares(Deviations(Scaled(xs, c))) == c * c * SumOfSquares(Deviations(xs))
    ensures Variance(Scaled(xs, c)) == ((c * c) as real) * Variance(xs)
  {
    DeviationsScaled(xs, c);
    SumOfSquaresScaled(Deviations(xs), c);
  }

  /** Adding `t` to every value of a column leaves its variance unchanged. */
  lemma VarianceShifted(xs: seq<int>, t: int)
    requires |xs| >= 2
    ensures Variance(Shifted(xs, t)) == Variance(xs)
  {
    DeviationsShifted(xs, t);
  }
  // ---------------------------------------------------------------------
  // The mean-based form pandas computes

  /** The column mean S / n. */
  function ColumnMean(xs: seq<int>): real
    requires |xs| >= 1
  {
    (Total(xs) as real) / (|xs| as real)
  }

  /** The squared distance of every value from `mu`. */
  function SquaredGaps(xs: seq<int>, mu: real): (g: seq<real>)
    ensures |g| == |xs|
    ensures forall i :: 0 <= i < |xs| ==> g[i] == (xs[i] as real - mu) * (xs[i] as real - mu)
  {
    seq(|xs|, i requires 0 <= i < |xs| => (xs[i] as real - mu) * (xs[i] as real - mu))
  }

  /** `var()` with ddof 1: the squared gaps from the mean, summed and divided by n - 1. */
  function MeanVariance(xs: seq<int>): real
    requires |xs| >= 2
  {
    Sum(SquaredGaps(xs, ColumnMean(xs))) / ((|xs| - 1) as real)
  }

  /** n x - S is n times the gap of x from the mean S / n. */
  lemma GapScaled(n: int, x: int, t: int)
    requires n >= 1
    ensures ((n * x - t) * (n * x - t)) as real ==
            ((n * n) as real) * ((x as real - (t as real) / (n as real)) * (x as real - (t as real) / (n as real)))
  {
    var y := x as real - (t as real) / (n as real);
    assert (n as real) * y == (n * x - t) as real;
    assert ((n as real) * y) * ((n as real) * y) == ((n * n) as real) * (y * y);
  }

  /** Each square in `ds` is `c` times the matching entry of `gs`. */
  predicate SquaresScaledBy(ds: seq<int>, gs: seq<real>, c: real) {
    |ds| == |gs| && forall i :: 0 <= i < |ds| ==> (ds[i] * ds[i]) as real == c * gs[i]
  }

  lemma {:induction false} SumOfSquaresAsReals(ds: seq<int>, gs: seq<real>, c: real)
    requires SquaresScaledBy(ds, gs, c)
    ensures SumOfSquares(ds) as real == c * Sum(gs)
  {
    if ds != [] {
      var n := |ds|;
      SumOfSquaresAsReals(ds[..n - 1], gs[..n - 1], c);
      assert c * Sum(gs) == c * Sum(gs[..n - 1]) + c * gs[n - 1];
    }
  }

  /** Cancelling the common factor a of a quotient of integers. */
  lemma CancelFactor(ss: int, d: int, x: real, a: int, b: int)
    requires a > 0 && b > 0 && d == a * b && ss as real == (a as real) * x
    ensures (ss as real) / (d as real) == x / (b as real)
  {
    assert (d as real) == (a as real) * (b as real);
  }

  /** Each squared deviation is n^2 times the squared gap from the mean. */
  lemma DeviationsAsGaps(xs: seq<int>)
    requires |xs| >= 1
    ensures SquaresScaledBy(Deviations(xs), SquaredGaps(xs, ColumnMean(xs)), (|xs| * |xs|) as real)
  {
    var n, ds, gs := |xs|, Deviations(xs), SquaredGaps(xs, ColumnMean(xs));
    forall i | 0 <= i < n
      ensures (ds[i] * ds[i]) as real == ((n * n) as real) * gs[i]
    {
      GapScaled(n, xs[i], Total(xs));
    }
  }

  /** The sum of squared deviations is n^2 times the sum of squared gaps. */
  lemma SquaredSumsScaled(xs: seq<int>)
    requires |xs| >= 1
    ensures SumOfSquares(Deviations(xs)) as real ==
            ((|xs| * |xs|) as real) * Sum(SquaredGaps(xs, ColumnMean(xs)))
  {
    DeviationsAsGaps(xs);
    SumOfSquaresAsReals(Deviations(xs), SquaredGaps(xs, ColumnMean(xs)), (|xs| * |xs|) as real);
  }

  /** `Variance` is the sample variance pandas computes from the mean. */
  lemma VarianceIsMeanVariance(xs: seq<int>)
    requires |xs| >= 2
    ensures Variance(xs) == MeanVariance(xs)
  {
    var n := |xs|;
    SquaredSumsScaled(xs);
    CancelFactor(SumOfSquares(Deviations(xs)), VarianceDivisor(n), Sum(SquaredGaps(xs, ColumnMean(xs))), n * n, n - 1);
  }
}
