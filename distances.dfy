/**
 * The scaled-Euclidean distance engine, in its two variants.
 *
 * Both take the catalog records, keep the used columns, compute each column's
 * sample variance v_d and, for every pair i < j, the sum over used d of
 * (x_i,d - x_j,d)^2 / v_d; `squareform` mirrors the pairs into a square
 * table with a zero diagonal, labelled by the record names in input order.
 *   - main.py returns the square root of every cell;
 *   - functions.py squares that root again and divides by the number k of
 *     used columns.
 * The squared table is computed here exactly. The root table is described by
 * `IsRootTable`: the unique non-negative cellwise root of the squared table.
 */
module Distances {
  import opened Util
  import opened Catalog
  import opened Stats
  import opened Frames
  import opened Columns

  /**
   * What the code can compute with: at least one record, and, once there are
   * two, no used column without variance (its division would give nan).
   */
  predicate Admissible(data: seq<Record>) {
    && |data| >= 1
    && (|data| >= 2 ==> forall d :: d in UsedColumns(data) ==> NonConstant(Column(data, d)))
  }

  /** A column the variance can divide by. */
  predicate Scalable(data: seq<Record>, d: string) {
    |data| >= 2 && Complete(data, d) && NonConstant(Column(data, d))
  }

  lemma AdmissibleScalable(data: seq<Record>, d: string)
    requires Admissible(data) && |data| >= 2 && d in UsedColumns(data)
    ensures Scalable(data, d)
  {
  }

  /** (x_i,d - x_j,d)^2 / v_d */
  function Contribution(data: seq<Record>, d: string, i: nat, j: nat): (r: real)
    requires Scalable(data, d) && i < |data| && j < |data|
    ensures r >= 0.0
  {
    var col := Column(data, d);
    var diff := col[i] - col[j];
    VariancePositiveIffNonConstant(col);
    ((diff * diff) as real) / Variance(col)
  }

  /** The sum of the contributions of the dimensions `ds`, folded from the front. */
  function SumContributions(data: seq<Record>, ds: seq<string>, i: nat, j: nat): (r: real)
    requires forall d :: d in ds ==> Scalable(data, d)
    requires i < |data| && j < |data|
    ensures r >= 0.0
  {
    if ds == [] then 0.0 else Contribution(data, ds[0], i, j) + SumContributions(data, ds[1..], i, j)
  }

  /** Squared scaled-Euclidean distance of two different records over the used columns. */
  function SquaredDistance(data: seq<Record>, i: nat, j: nat): real
    requires Admissible(data) && i < |data| && j < |data| && i != j
  {
    SumContributions(data, UsedColumns(data), i, j)
  }

  /** `squareform(pdist(...))` before the root: pairs i < j computed, mirrored, zero diagonal. */
  function PairCell(data: seq<Record>, i: nat, j: nat): real
    requires Admissible(data) && i < |data| && j < |data|
  {
    if i == j then 0.0
    else if i < j then SquaredDistance(data, i, j)
    else SquaredDistance(data, j, i)
  }

  /** The table of squared distances, labelled by record name. */
  function SquaredTable(data: seq<Record>): (f: Frame)
    requires Admissible(data)
    ensures WellShaped(f) && f.labels == Names(data)
  {
    var n := |data|;
    Frame(Names(data), seq(n, i requires 0 <= i < n => seq(n, j requires 0 <= j < n => PairCell(data, i, j))))
  }

  /** The number k of used columns. */
  function UsedCount(data: seq<Record>): nat {
    |UsedColumns(data)|
  }

  /** functions.py: the squared distance divided by k. */
  function NormalizedTable(data: seq<Record>): (f: Frame)
    requires Admissible(data) && UsedCount(data) >= 1
    ensures WellShaped(f) && f.labels == Names(data)
  {
    var s := SquaredTable(data);
    Frame(s.labels, DivideCells(s.cells, UsedCount(data) as real))
  }

  /** main.py: `f` is the table of non-negative square roots of the squared table. */
  predicate IsRootTable(data: seq<Record>, f: Frame) {
    && Admissible(data)
    && f.labels == Names(data)
    && RootsOf(f.cells, SquaredTable(data).cells)
  }

  // ---------------------------------------------------------------------
  // Real-number helpers

  /** p / (q / d) as one fraction of integers. */
  lemma FractionOfFraction(p: int, q: int, d: int)
    requires q > 0 && d > 0
    ensures (p as real) / ((q as real) / (d as real)) == ((p * d) as real) / (q as real)
  {
    var a, b, c := p as real, q as real, d as real;
    assert a / (b / c) == (a * c) / b;
  }

  /** (c^2 p) / (c^2 q) == p / q */
  lemma CancelSquare(c: int, p: int, q: int)
    requires c != 0 && q > 0
    ensures ((c * c * p) as real) / ((c * c * q) as real) == (p as real) / (q as real)
  {
  }

  lemma SquareZeroIff(x: int)
    ensures x * x >= 0 && (x * x == 0 <==> x == 0)
  {
    if x > 0 { assert x * x >= x; }
    if x < 0 { assert x * x >= -x; }
  }

  lemma ProductZeroIff(p: int, d: int)
    requires p >= 0 && d > 0
    ensures p * d >= 0 && (p * d == 0 <==> p == 0)
  {
    if p > 0 { assert p * d >= d; }
  }

  lemma FractionZeroIff(p: int, q: int)
    requires p >= 0 && q > 0
    ensures (p as real) / (q as real) == 0.0 <==> p == 0
  {
  }

  // ---------------------------------------------------------------------
  // Shape and cells

  /** A contribution written as one fraction: diff^2 * n^2 (n - 1) over the sum of squared deviations. */
  lemma ContributionFraction(data: seq<Record>, d: string, i: nat, j: nat)
    requires Scalable(data, d) && i < |data| && j < |data|
    ensures var col := Column(data, d);
            var diff := col[i] - col[j];
            SumOfSquares(Deviations(col)) > 0 &&
            Contribution(data, d, i, j) ==
              ((diff * diff * VarianceDivisor(|data|)) as real) / (SumOfSquares(Deviations(col)) as real)
  {
    var col := Column(data, d);
    var diff := col[i] - col[j];
    VariancePositiveIffNonConstant(col);
    VarianceSign(col);
    FractionOfFraction(diff * diff, SumOfSquares(Deviations(col)), VarianceDivisor(|data|));
  }

  lemma ContributionSymmetric(data: seq<Record>, d: string, i: nat, j: nat)
    requires Scalable(data, d) && i < |data| && j < |data|
    ensures Contribution(data, d, i, j) == Contribution(data, d, j, i)
  {
    var col := Column(data, d);
    assert (col[i] - col[j]) * (col[i] - col[j]) == (col[j] - col[i]) * (col[j] - col[i]);
  }

  lemma {:induction false} SumContributionsSymmetric(data: seq<Record>, ds: seq<string>, i: nat, j: nat)
    requires forall d :: d in ds ==> Scalable(data, d)
    requires i < |data| && j < |data|
    ensures SumContributions(data, ds, i, j) == SumContributions(data, ds, j, i)
  {
    if ds != [] {
      ContributionSymmetric(data, ds[0], i, j);
      SumContributionsSymmetric(data, ds[1..], i, j);
    }
  }

  /** Every off-diagonal cell of the squared table is the scaled sum for that ordered pair. */
  lemma SquaredCell(data: seq<Record>, i: nat, j: nat)
    requires Admissible(data) && i < |data| && j < |data| && i != j
    ensures SquaredTable(data).cells[i][j] == SumContributions(data, UsedColumns(data), i, j)
  {
    if j < i {
      SumContributionsSymmetric(data, UsedColumns(data), j, i);
    }
  }

  /** The squared table is n x n, symmetric, non-negative and zero on the diagonal. */
  lemma SquaredTableIsDistanceTable(data: seq<Record>)
    requires Admissible(data)
    ensures |SquaredTable(data).cells| == |data|
    ensures IsDistanceTable(SquaredTable(data).cells)
  {
  }

  lemma ContributionZeroIff(data: seq<Record>, d: string, i: nat, j: nat)
    requires Scalable(data, d) && i < |data| && j < |data|
    ensures Contribution(data, d, i, j) == 0.0 <==> Column(data, d)[i] == Column(data, d)[j]
  {
    var col := Column(data, d);
    var diff := col[i] - col[j];
    ContributionFraction(data, d, i, j);
    SquareZeroIff(diff);
    ProductZeroIff(diff * diff, VarianceDivisor(|data|));
    FractionZeroIff(diff * diff * VarianceDivisor(|data|), SumOfSquares(Deviations(col)));
  }

  /** A sum of contributions vanishes exactly when the two records agree on every dimension in it. */
  lemma {:induction false} SumContributionsZeroIff(data: seq<Record>, ds: seq<string>, i: nat, j: nat)
    requires forall d :: d in ds ==> Scalable(data, d)
    requires i < |data| && j < |data|
    ensures SumContributions(data, ds, i, j) == 0.0 <==>
            forall d :: d in ds ==> Column(data, d)[i] == Column(data, d)[j]
  {
    if ds != [] {
      ContributionZeroIff(data, ds[0], i, j);
      SumContributionsZeroIff(data, ds[1..], i, j);
      assert forall d :: d in ds <==> d == ds[0] || d in ds[1..];
    }
  }

  /** Two records are at distance zero exactly when they agree on every used column. */
  lemma DistanceZeroIffSameProfile(data: seq<Record>, i: nat, j: nat)
    requires Admissible(data) && i < |data| && j < |data| && i != j
    ensures SquaredTable(data).cells[i][j] == 0.0 <==>
            forall d :: d in UsedColumns(data) ==> Column(data, d)[i] == Column(data, d)[j]
  {
    SquaredCell(data, i, j);
    SumContributionsZeroIff(data, UsedColumns(data), i, j);
  }

  /** With no used column every distance is zero (main.py sums over nothing). */
  lemma NoColumnsNoDistance(data: seq<Record>, i: nat, j: nat)
    requires Admissible(data) && UsedCount(data) == 0 && i < |data| && j < |data|
    ensures SquaredTable(data).cells[i][j] == 0.0
  {
  }

  // ---------------------------------------------------------------------
  // The two variants

  /** The root table of main.py, where it exists, is determined by the data. */
  lemma RootTableUnique(data: seq<Record>, f: Frame, g: Frame)
    requires IsRootTable(data, f) && IsRootTable(data, g)
    ensures f == g
  {
    RootsUnique(f.cells, g.cells, SquaredTable(data).cells);
  }

  /** main.py's table is n x n, symmetric, non-negative and zero on the diagonal. */
  lemma RootTableIsDistanceTable(data: seq<Record>, f: Frame)
    requires IsRootTable(data, f)
    ensures WellShaped(f) && |f.cells| == |data|
    ensures IsDistanceTable(f.cells)
  {
    SquaredTableIsDistanceTable(data);
    RootsOfDistanceTable(f.cells, SquaredTable(data).cells);
  }

  /** main.py orders its cells as the squared table does, so its extremes sit in the same cells. */
  lemma RootTableSameOrder(data: seq<Record>, f: Frame)
    requires IsRootTable(data, f)
    ensures SameOrder(f.cells, SquaredTable(data).cells)
  {
    RootsSameOrder(f.cells, SquaredTable(data).cells);
  }

  /** functions.py's cell is main.py's cell squared and divided by k. */
  lemma NormalizedIsRootSquaredOverK(data: seq<Record>, f: Frame, i: nat, j: nat)
    requires IsRootTable(data, f) && UsedCount(data) >= 1
    requires i < |data| && j < |data|
    ensures NormalizedTable(data).cells[i][j] == f.cells[i][j] * f.cells[i][j] / (UsedCount(data) as real)
  {
  }

  /** Every off-diagonal cell of functions.py's table is the scaled sum divided by k. */
  lemma NormalizedCell(data: seq<Record>, i: nat, j: nat)
    requires Admissible(data) && UsedCount(data) >= 1 && i < |data| && j < |data|
    ensures NormalizedTable(data).cells[i][j] ==
            (if i == j then 0.0 else SumContributions(data, UsedColumns(data), i, j) / (UsedCount(data) as real))
  {
    var s, k := SquaredTable(data), UsedCount(data) as real;
    assert NormalizedTable(data).cells[i][j] == s.cells[i][j] / k;
    if i != j {
      SquaredCell(data, i, j);
    } else {
      assert s.cells[i][j] == 0.0;
    }
  }

  /** functions.py's table is a distance table ordered like the squared table. */
  lemma NormalizedTableProperties(data: seq<Record>)
    requires Admissible(data) && UsedCount(data) >= 1
    ensures |NormalizedTable(data).cells| == |data|
    ensures IsDistanceTable(NormalizedTable(data).cells)
    ensures SameOrder(NormalizedTable(data).cells, SquaredTable(data).cells)
  {
    SquaredTableIsDistanceTable(data);
    DivideCellsProperties(SquaredTable(data).cells, UsedCount(data) as real);
  }
}
