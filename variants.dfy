/**
 * What the two variants of the distance function have in common once the
 * queries run on them: main.py's root table, functions.py's table divided
 * by k and the squared table all order their cells alike, so every query
 * reports the same pairs and counterparts on each; only the values differ,
 * by a square root or by the factor 1 / k.
 */
module Variants {
  import opened Util
  import opened Catalog
  import opened Frames
  import opened Columns
  import opened Distances
  import opened Queries

  /** Pairs reported by the global query on two tables agree. */
  predicate SamePairs(r: GlobalReport, s: GlobalReport) {
    && r.maximum.row == s.maximum.row && r.maximum.column == s.maximum.column
    && r.minimum.row == s.minimum.row && r.minimum.column == s.minimum.column
  }

  /**
   * main.py's report names the pairs of the squared table, and its extremes
   * are the square roots of the squared table's extremes.
   */
  lemma RootReportMatchesSquared(data: seq<Record>, f: Frame)
    requires IsRootTable(data, f) && |data| >= 2
    ensures WellShaped(f) && |f.labels| == |data|
    ensures var r, s := FindMaxMinDistances(f), FindMaxMinDistances(SquaredTable(data));
            && SamePairs(r, s)
            && IsRoot(r.maximum.value, s.maximum.value)
            && IsRoot(r.minimum.value, s.minimum.value)
  {
    var sq := SquaredTable(data);
    RootTableIsDistanceTable(data, f);
    RootTableSameOrder(data, f);
    SameOrderSamePairs(f, sq);
    SameOrderSameCells(f.cells, sq.cells);
    var top, bottom := MaxCell(f.cells), MinCell(f.cells);
    assert IsRoot(f.cells[top.0][top.1], sq.cells[top.0][top.1]);
    assert IsRoot(f.cells[bottom.0][bottom.1], sq.cells[bottom.0][bottom.1]);
  }

  /** Dividing every cell by k divides the off-diagonal total by k. */
  lemma OffDiagonalSumDivided(m: seq<seq<real>>, k: real)
    requires IsSquare(m) && k != 0.0
    ensures IsSquare(DivideCells(m, k))
    ensures OffDiagonalSum(DivideCells(m, k)) == OffDiagonalSum(m) / k
  {
    var t := DivideCells(m, k);
    forall i | 0 <= i < |m|
      ensures RowOffSums(t)[i] == DividedBy(RowOffSums(m), k)[i]
    {
      SequencesAgree(Without(t[i], i), DividedBy(Without(m[i], i), k));
      SumDividedBy(Without(m[i], i), k);
    }
    SequencesAgree(RowOffSums(t), DividedBy(RowOffSums(m), k));
    SumDividedBy(RowOffSums(m), k);
  }

  lemma DivideCommutes(x: real, c: real, k: real)
    requires c != 0.0 && k != 0.0
    ensures (x / k) / c == (x / c) / k
  {
  }

  /** Dividing every cell by k divides the mean of the off-diagonal cells by k. */
  lemma OffDiagonalMeanDivided(m: seq<seq<real>>, k: real)
    requires IsSquare(m) && |m| >= 2 && k != 0.0
    ensures IsSquare(DivideCells(m, k))
    ensures OffDiagonalMean(DivideCells(m, k)) == OffDiagonalMean(m) / k
  {
    OffDiagonalSumDivided(m, k);
    DivideCommutes(OffDiagonalSum(m), (|m| * (|m| - 1)) as real, k);
  }

  /**
   * On a distance table divided by a positive k, the global query reports
   * the same pairs, and extremes and average divided by k.
   */
  lemma DividedReport(f: Frame, k: real)
    requires WellShaped(f) && |f.labels| >= 2 && IsDistanceTable(f.cells) && k > 0.0
    ensures WellShaped(Frame(f.labels, DivideCells(f.cells, k)))
    ensures var r, s := FindMaxMinDistances(Frame(f.labels, DivideCells(f.cells, k))), FindMaxMinDistances(f);
            && SamePairs(r, s)
            && r.maximum.value == s.maximum.value / k
            && r.minimum.value == s.minimum.value / k
            && r.average == s.average / k
  {
    var g := Frame(f.labels, DivideCells(f.cells, k));
    DivideCellsProperties(f.cells, k);
    SameOrderSamePairs(g, f);
    SameOrderSameCells(g.cells, f.cells);
    var top, bottom := MaxCell(g.cells), MinCell(g.cells);
    assert g.cells[top.0][top.1] == f.cells[top.0][top.1] / k;
    assert g.cells[bottom.0][bottom.1] == f.cells[bottom.0][bottom.1] / k;
    ReportedAverage(g);
    ReportedAverage(f);
    OffDiagonalMeanDivided(f.cells, k);
  }

  /**
   * functions.py's report names the pairs of the squared table; its
   * extremes and its average are the squared table's divided by k.
   */
  lemma NormalizedReportMatchesSquared(data: seq<Record>)
    requires Admissible(data) && UsedCount(data) >= 1 && |data| >= 2
    ensures var k := UsedCount(data) as real;
            var r, s := FindMaxMinDistances(NormalizedTable(data)), FindMaxMinDistances(SquaredTable(data));
            && SamePairs(r, s)
            && r.maximum.value == s.maximum.value / k
            && r.minimum.value == s.minimum.value / k
            && r.average == s.average / k
  {
    SquaredTableIsDistanceTable(data);
    DividedReport(SquaredTable(data), UsedCount(data) as real);
  }

  /** The two variants of the source report the same pairs on the same data. */
  lemma VariantsReportSamePairs(data: seq<Record>, f: Frame)
    requires IsRootTable(data, f) && UsedCount(data) >= 1 && |data| >= 2
    ensures WellShaped(f) && |f.labels| == |data|
    ensures SamePairs(FindMaxMinDistances(f), FindMaxMinDistances(NormalizedTable(data)))
  {
    RootReportMatchesSquared(data, f);
    NormalizedReportMatchesSquared(data);
  }

  /** With unique names, the two variants name the same counterparts for every country. */
  lemma VariantsNameSameCounterparts(data: seq<Record>, f: Frame, country: string)
    requires IsRootTable(data, f) && UsedCount(data) >= 1 && |data| >= 2
    requires Distinct(Names(data)) && country in Names(data)
    ensures WellShaped(f) && |f.labels| == |data|
    ensures var r, s := FindMaxMinForCountry(f, country).value, FindMaxMinForCountry(NormalizedTable(data), country).value;
            r.farthest == s.farthest && r.nearest == s.nearest
  {
    var nt, sq := NormalizedTable(data), SquaredTable(data);
    RootTableIsDistanceTable(data, f);
    RootTableSameOrder(data, f);
    NormalizedTableProperties(data);
    SquaredTableIsDistanceTable(data);
    SameOrderSameCounterparts(f, sq, country);
    SameOrderSameCounterparts(nt, sq, country);
  }
  /**
   * Two different countries that agree on every used dimension are at
   * distance 0, so the minimum is 0 and, looked up on the unmasked table, it
   * is reported at the first country paired with itself, in both variants.
   */
  lemma SharedProfileReportedAsSelf(data: seq<Record>, i: nat, j: nat)
    requires Admissible(data) && i < j < |data|
    requires forall d :: d in UsedColumns(data) ==> Column(data, d)[i] == Column(data, d)[j]
    ensures var r := FindMaxMinDistances(SquaredTable(data));
            r.minimum.row == data[0].name && r.minimum.column == data[0].name
    ensures UsedCount(data) >= 1 ==>
              var r := FindMaxMinDistances(NormalizedTable(data));
              r.minimum.row == data[0].name && r.minimum.column == data[0].name
  {
    var f := SquaredTable(data);
    var m := f.cells;
    SquaredTableIsDistanceTable(data);
    DistanceZeroIffSameProfile(data, i, j);
    OffDiagonalAboveMin(m, i, j);
    assert OffDiagonalMin(m) == 0.0;
    ZeroMinimumReportsFirstDiagonalCell(m);
    GlobalReportMeaning(f);
    assert f.labels[0] == data[0].name;
    if UsedCount(data) >= 1 {
      NormalizedReportMatchesSquared(data);
    }
  }

  /** The same for main.py's root table. */
  lemma RootSharedProfileReportedAsSelf(data: seq<Record>, f: Frame, i: nat, j: nat)
    requires IsRootTable(data, f) && i < j < |data|
    requires forall d :: d in UsedColumns(data) ==> Column(data, d)[i] == Column(data, d)[j]
    ensures WellShaped(f) && |f.labels| >= 2
    ensures FindMaxMinDistances(f).minimum.row == data[0].name && FindMaxMinDistances(f).minimum.column == data[0].name
  {
    SharedProfileReportedAsSelf(data, i, j);
    RootReportMatchesSquared(data, f);
  }

  /**
   * With no usable dimension every country shares the empty profile, so
   * main.py's table is all zeros and its minimum is reported between the
   * first country and itself.
   */
  lemma NoUsedDimensionReportedAsSelf(data: seq<Record>, f: Frame)
    requires IsRootTable(data, f) && UsedCount(data) == 0 && |data| >= 2
    ensures WellShaped(f) && |f.labels| >= 2
    ensures FindMaxMinDistances(f).minimum.row == data[0].name && FindMaxMinDistances(f).minimum.column == data[0].name
  {
    RootSharedProfileReportedAsSelf(data, f, 0, 1);
  }
}
