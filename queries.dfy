/**
 * Read-only queries over a distance table: the global extremes and average
 * of the off-diagonal cells, and the extremes of one country's row.
 *
 * The global query masks the diagonal (`where(~eye)`), takes every column's
 * maximum and then the maximum of those; the pair it reports is the first
 * cell, in row-major order, holding that value (`where(df == v).stack()` keeps
 * the matching cells in row-major order and `idxmax` picks the first of
 * equal values). The second lookup does not mask the diagonal.
 */
module Queries {
  import opened Util
  import opened Frames

  /** Largest element (`Series.max`). */
  function Max(s: seq<real>): (r: real)
    requires |s| >= 1
    ensures r in s
    ensures forall k :: 0 <= k < |s| ==> s[k] <= r
  {
    if |s| == 1 then s[0]
    else
      var m := Max(s[..|s| - 1]);
      assert s == s[..|s| - 1] + [s[|s| - 1]];
      if s[|s| - 1] > m then s[|s| - 1] else m
  }

  /** Smallest element (`Series.min`). */
  function Min(s: seq<real>): (r: real)
    requires |s| >= 1
    ensures r in s
    ensures forall k :: 0 <= k < |s| ==> r <= s[k]
  {
    if |s| == 1 then s[0]
    else
      var m := Min(s[..|s| - 1]);
      assert s == s[..|s| - 1] + [s[|s| - 1]];
      if s[|s| - 1] < m then s[|s| - 1] else m
  }

  /** Arithmetic mean (`Series.mean`). */
  function Mean(s: seq<real>): real
    requires |s| >= 1
  {
    Sum(s) / (|s| as real)
  }

  /** Column `j`, top to bottom. */
  function ColumnOf(m: seq<seq<real>>, j: nat): (c: seq<real>)
    requires forall i :: 0 <= i < |m| ==> j < |m[i]|
    ensures |c| == |m|
    ensures forall i :: 0 <= i < |m| ==> c[i] == m[i][j]
  {
    seq(|m|, i requires 0 <= i < |m| => m[i][j])
  }

  /** Column `j` with its diagonal cell masked out. */
  function Masked(m: seq<seq<real>>, j: nat): (c: seq<real>)
    requires IsSquare(m) && j < |m|
    ensures |c| == |m| - 1
    ensures forall p :: 0 <= p < |m| - 1 ==> c[p] == m[OffIndex(j, p)][j]
  {
    seq(|m| - 1, p requires 0 <= p < |m| - 1 => m[OffIndex(j, p)][j])
  }

  /** The masked cell at position `p` of column `j` is cell (OffIndex(j, p), j). */
  function OffIndex(j: nat, p: nat): nat {
    if p < j then p else p + 1
  }

  lemma MaskedCell(m: seq<seq<real>>, j: nat, p: nat)
    requires IsSquare(m) && j < |m| && p < |m| - 1
    ensures OffIndex(j, p) < |m| && OffIndex(j, p) != j && Masked(m, j)[p] == m[OffIndex(j, p)][j]
  {
  }

  lemma MaskedHas(m: seq<seq<real>>, i: nat, j: nat)
    requires IsSquare(m) && i < |m| && j < |m| && i != j
    ensures var p := if i < j then i else i - 1;
            p < |m| - 1 && Masked(m, j)[p] == m[i][j]
  {
  }

  // ---------------------------------------------------------------------
  // Global extremes

  /** Every column's largest masked cell. */
  function ColumnMaxima(m: seq<seq<real>>): (r: seq<real>)
    requires IsSquare(m) && |m| >= 2
    ensures |r| == |m| && forall j :: 0 <= j < |m| ==> r[j] == Max(Masked(m, j))
  {
    seq(|m|, j requires 0 <= j < |m| => Max(Masked(m, j)))
  }

  /** Every column's smallest masked cell. */
  function ColumnMinima(m: seq<seq<real>>): (r: seq<real>)
    requires IsSquare(m) && |m| >= 2
    ensures |r| == |m| && forall j :: 0 <= j < |m| ==> r[j] == Min(Masked(m, j))
  {
    seq(|m|, j requires 0 <= j < |m| => Min(Masked(m, j)))
  }

  lemma MaxOfColumnMaxima(m: seq<seq<real>>)
    requires IsSquare(m) && |m| >= 2
    ensures exists i, j :: 0 <= i < |m| && 0 <= j < |m| && i != j && m[i][j] == Max(ColumnMaxima(m))
    ensures forall i, j :: 0 <= i < |m| && 0 <= j < |m| && i != j ==> m[i][j] <= Max(ColumnMaxima(m))
  {
    var n := |m|;
    var colMax := ColumnMaxima(m);
    var r := Max(colMax);
    var j :| 0 <= j < n && colMax[j] == r;
    var p :| 0 <= p < n - 1 && Masked(m, j)[p] == r;
    MaskedCell(m, j, p);
    forall i, j' | 0 <= i < n && 0 <= j' < n && i != j'
      ensures m[i][j'] <= r
    {
      MaskedHas(m, i, j');
      var q := if i < j' then i else i - 1;
      assert Masked(m, j')[q] <= colMax[j'];
      assert colMax[j'] <= r;
    }
  }

  lemma MinOfColumnMinima(m: seq<seq<real>>)
    requires IsSquare(m) && |m| >= 2
    ensures exists i, j :: 0 <= i < |m| && 0 <= j < |m| && i != j && m[i][j] == Min(ColumnMinima(m))
    ensures forall i, j :: 0 <= i < |m| && 0 <= j < |m| && i != j ==> Min(ColumnMinima(m)) <= m[i][j]
  {
    var n := |m|;
    var colMin := ColumnMinima(m);
    var r := Min(colMin);
    var j :| 0 <= j < n && colMin[j] == r;
    var p :| 0 <= p < n - 1 && Masked(m, j)[p] == r;
    MaskedCell(m, j, p);
    forall i, j' | 0 <= i < n && 0 <= j' < n && i != j'
      ensures r <= m[i][j']
    {
      MaskedHas(m, i, j');
      var q := if i < j' then i else i - 1;
      assert colMin[j'] <= Masked(m, j')[q];
      assert r <= colMin[j'];
    }
  }

  /** `where(~eye).max().max()`: the largest off-diagonal cell. */
  function OffDiagonalMax(m: seq<seq<real>>): (r: real)
    requires IsSquare(m) && |m| >= 2
    ensures exists i, j :: 0 <= i < |m| && 0 <= j < |m| && i != j && m[i][j] == r
    ensures forall i, j :: 0 <= i < |m| && 0 <= j < |m| && i != j ==> m[i][j] <= r
  {
    MaxOfColumnMaxima(m);
    Max(ColumnMaxima(m))
  }

  /** `where(~eye).min().min()`: the smallest off-diagonal cell. */
  function OffDiagonalMin(m: seq<seq<real>>): (r: real)
    requires IsSquare(m) && |m| >= 2
    ensures exists i, j :: 0 <= i < |m| && 0 <= j < |m| && i != j && m[i][j] == r
    ensures forall i, j :: 0 <= i < |m| && 0 <= j < |m| && i != j ==> r <= m[i][j]
  {
    MinOfColumnMinima(m);
    Min(ColumnMinima(m))
  }

  /** Cell (p, q) comes before cell (i, j) in row-major order. */
  predicate Before(p: nat, q: nat, i: nat, j: nat) {
    p < i || (p == i && q < j)
  }

  /** The first cell in row-major order, from row `i` on, that holds `v`. */
  function FirstCellFrom(m: seq<seq<real>>, v: real, i: nat): (r: Option<(nat, nat)>)
    requires IsSquare(m) && i <= |m|
    decreases |m| - i
    ensures r.Some? ==> i <= r.value.0 < |m| && r.value.1 < |m| && m[r.value.0][r.value.1] == v
    ensures r.Some? ==> forall p, q :: i <= p < |m| && 0 <= q < |m| && Before(p, q, r.value.0, r.value.1) ==> m[p][q] != v
    ensures r.None? <==> forall p, q :: i <= p < |m| && 0 <= q < |m| ==> m[p][q] != v
  {
    if i == |m| then None
    else if v in m[i] then Some((i, IndexOf(m[i], v)))
    else FirstCellFrom(m, v, i + 1)
  }

  /** `where(df == v).stack().idxmax()`: the first cell, row-major, holding `v`. */
  function FirstCell(m: seq<seq<real>>, v: real): (c: (nat, nat))
    requires IsSquare(m)
    requires exists i, j :: 0 <= i < |m| && 0 <= j < |m| && m[i][j] == v
    ensures c.0 < |m| && c.1 < |m| && m[c.0][c.1] == v
    ensures forall p, q :: 0 <= p < |m| && 0 <= q < |m| && Before(p, q, c.0, c.1) ==> m[p][q] != v
  {
    FirstCellFrom(m, v, 0).value
  }

  /** `where(~eye).mean().mean()`: the mean of the masked column means. */
  function OffDiagonalAverage(m: seq<seq<real>>): real
    requires IsSquare(m) && |m| >= 2
  {
    var n := |m|;
    Mean(seq(n, j requires 0 <= j < n => Mean(Masked(m, j))))
  }

  /** An extreme value and the labels of the cell reported for it. */
  datatype Extreme = Extreme(value: real, row: string, column: string)

  datatype GlobalReport = GlobalReport(maximum: Extreme, minimum: Extreme, average: real)

  function MaxCell(m: seq<seq<real>>): (nat, nat)
    requires IsSquare(m) && |m| >= 2
  {
    FirstCell(m, OffDiagonalMax(m))
  }

  function MinCell(m: seq<seq<real>>): (nat, nat)
    requires IsSquare(m) && |m| >= 2
  {
    FirstCell(m, OffDiagonalMin(m))
  }

  /**
   * `find_max_min_distances`: the largest and smallest off-diagonal
   * distances with the pairs reported for them, and the average
   * (functions.py only; main.py prints the first two).
   */
  function FindMaxMinDistances(f: Frame): (r: GlobalReport)
    requires WellShaped(f) && |f.labels| >= 2
    ensures r.maximum.value == OffDiagonalMax(f.cells) && r.minimum.value == OffDiagonalMin(f.cells)
    ensures r.maximum.row in f.labels && r.maximum.column in f.labels
    ensures r.minimum.row in f.labels && r.minimum.column in f.labels
  {
    var m := f.cells;
    var top, bottom := MaxCell(m), MinCell(m);
    GlobalReport(
      Extreme(OffDiagonalMax(m), f.labels[top.0], f.labels[top.1]),
      Extreme(OffDiagonalMin(m), f.labels[bottom.0], f.labels[bottom.1]),
      OffDiagonalAverage(m))
  }

  /** Cell (i, j) holds `v` and no cell before it in row-major order does. */
  predicate FirstHolder(m: seq<seq<real>>, i: nat, j: nat, v: real)
    requires IsSquare(m) && i < |m| && j < |m|
  {
    m[i][j] == v && forall p, q :: 0 <= p < |m| && 0 <= q < |m| && Before(p, q, i, j) ==> m[p][q] != v
  }

  /** The reported pairs label the first cells, in row-major order, holding the extremes. */
  lemma GlobalReportMeaning(f: Frame)
    requires WellShaped(f) && |f.labels| >= 2
    ensures var r, m := FindMaxMinDistances(f), f.cells;
            var top, bottom := MaxCell(m), MinCell(m);
            && FirstHolder(m, top.0, top.1, r.maximum.value)
            && r.maximum.row == f.labels[top.0] && r.maximum.column == f.labels[top.1]
            && FirstHolder(m, bottom.0, bottom.1, r.minimum.value)
            && r.minimum.row == f.labels[bottom.0] && r.minimum.column == f.labels[bottom.1]
  {
  }

  /** The reported average is the mean of the n(n - 1) off-diagonal cells. */
  lemma ReportedAverage(f: Frame)
    requires WellShaped(f) && |f.labels| >= 2
    ensures FindMaxMinDistances(f).average == OffDiagonalMean(f.cells)
  {
    var m := f.cells;
    var avg := FindMaxMinDistances(f).average;
    assert avg == OffDiagonalAverage(m);
    AverageIsOffDiagonalMean(m);
  }

  /**
   * On a distance table with a positive maximum the reported pair lies
   * above the diagonal: its mirror image would come first otherwise.
   */
  lemma MaxCellAboveDiagonal(m: seq<seq<real>>)
    requires IsDistanceTable(m) && |m| >= 2 && OffDiagonalMax(m) > 0.0
    ensures MaxCell(m).0 < MaxCell(m).1
  {
    var (i, j) := MaxCell(m);
    assert i != j;
    if j < i {
      assert Before(j, i, i, j);
    }
  }

  /**
   * The second lookup does not mask the diagonal: when the smallest
   * off-diagonal distance is 0, the reported pair is the first entity with
   * itself.
   */
  lemma ZeroMinimumReportsFirstDiagonalCell(m: seq<seq<real>>)
    requires IsDistanceTable(m) && |m| >= 2 && OffDiagonalMin(m) == 0.0
    ensures MinCell(m) == (0, 0)
  {
  }

  /** The first off-diagonal cell, in row-major order from row `i` on, that holds `v`. */
  function FirstOffCellFrom(m: seq<seq<real>>, v: real, i: nat): (r: Option<(nat, nat)>)
    requires IsSquare(m) && i <= |m|
    decreases |m| - i
    ensures r.Some? ==> i <= r.value.0 < |m| && r.value.1 < |m| && r.value.0 != r.value.1 && m[r.value.0][r.value.1] == v
    ensures r.Some? ==> forall p, q :: i <= p < |m| && 0 <= q < |m| && p != q && Before(p, q, r.value.0, r.value.1) ==> m[p][q] != v
    ensures r.None? <==> forall p, q :: i <= p < |m| && 0 <= q < |m| && p != q ==> m[p][q] != v
  {
    if i == |m| then None
    else if v in Without(m[i], i) then
      FirstOtherOfDropped(m, i, v);
      Some((i, OffIndex(i, IndexOf(Without(m[i], i), v))))
    else
      NotInOtherCells(m, i, v);
      FirstOffCellFrom(m, v, i + 1)
  }

  lemma NotInOtherCells(m: seq<seq<real>>, i: nat, v: real)
    requires IsSquare(m) && i < |m| && v !in Without(m[i], i)
    ensures forall q :: 0 <= q < |m| && q != i ==> m[i][q] != v
  {
    forall q | 0 <= q < |m| && q != i
      ensures m[i][q] != v
    {
      var p := if q < i then q else q - 1;
      assert Without(m[i], i)[p] == m[i][q];
    }
  }

  /** Corrected: the pair for the minimum is looked up among the off-diagonal cells only. */
  function CorrectedMinCell(m: seq<seq<real>>): (c: (nat, nat))
    requires IsSquare(m) && |m| >= 2
    ensures c.0 < |m| && c.1 < |m| && c.0 != c.1 && m[c.0][c.1] == OffDiagonalMin(m)
    ensures forall p, q :: 0 <= p < |m| && 0 <= q < |m| && p != q && Before(p, q, c.0, c.1) ==> m[p][q] != OffDiagonalMin(m)
  {
    FirstOffCellFrom(m, OffDiagonalMin(m), 0).value
  }

  /**
   * The correction changes nothing unless the smallest off-diagonal
   * distance is 0: otherwise the diagonal's zeros cannot hold it.
   */
  lemma CorrectedMinCellAgrees(m: seq<seq<real>>)
    requires IsDistanceTable(m) && |m| >= 2 && OffDiagonalMin(m) > 0.0
    ensures CorrectedMinCell(m) == MinCell(m)
  {
    var c, d := MinCell(m), CorrectedMinCell(m);
    assert m[c.0][c.0] == 0.0;
    FirstCellsAgree(m, OffDiagonalMin(m), c.0, c.1, d.0, d.1);
  }

  /** An off-diagonal first holder and a first off-diagonal holder of `v` are the same cell. */
  lemma FirstCellsAgree(m: seq<seq<real>>, v: real, a: nat, b: nat, c: nat, d: nat)
    requires IsSquare(m) && a < |m| && b < |m| && c < |m| && d < |m| && a != b && c != d
    requires m[a][b] == v && m[c][d] == v
    requires forall p, q :: 0 <= p < |m| && 0 <= q < |m| && Before(p, q, a, b) ==> m[p][q] != v
    requires forall p, q :: 0 <= p < |m| && 0 <= q < |m| && p != q && Before(p, q, c, d) ==> m[p][q] != v
    ensures (a, b) == (c, d)
  {
    assert !Before(a, b, c, d) && !Before(c, d, a, b);
  }

  // ---------------------------------------------------------------------
  // The average

  /** Every row's sum without its diagonal cell. */
  function RowOffSums(m: seq<seq<real>>): (r: seq<real>)
    requires IsSquare(m)
    ensures |r| == |m| && forall i :: 0 <= i < |m| ==> r[i] == Sum(Without(m[i], i))
  {
    seq(|m|, i requires 0 <= i < |m| => Sum(Without(m[i], i)))
  }

  /** Every masked column's sum. */
  function ColumnOffSums(m: seq<seq<real>>): (r: seq<real>)
    requires IsSquare(m)
    ensures |r| == |m| && forall j :: 0 <= j < |m| ==> r[j] == Sum(Masked(m, j))
  {
    seq(|m|, j requires 0 <= j < |m| => Sum(Masked(m, j)))
  }

  function RowSums(m: seq<seq<real>>): (r: seq<real>)
    ensures |r| == |m| && forall i :: 0 <= i < |m| ==> r[i] == Sum(m[i])
  {
    seq(|m|, i requires 0 <= i < |m| => Sum(m[i]))
  }

  function ColumnSums(m: seq<seq<real>>, w: nat): (r: seq<real>)
    requires forall i :: 0 <= i < |m| ==> |m[i]| == w
    ensures |r| == w && forall j :: 0 <= j < w ==> r[j] == Sum(ColumnOf(m, j))
  {
    seq(w, j requires 0 <= j < w => Sum(ColumnOf(m, j)))
  }

  function Diagonal(m: seq<seq<real>>): (r: seq<real>)
    requires IsSquare(m)
    ensures |r| == |m| && forall k :: 0 <= k < |m| ==> r[k] == m[k][k]
  {
    seq(|m|, k requires 0 <= k < |m| => m[k][k])
  }

  /** Sum of all off-diagonal cells, row by row. */
  function OffDiagonalSum(m: seq<seq<real>>): real
    requires IsSquare(m)
  {
    Sum(RowOffSums(m))
  }

  /** Adding up by rows or by columns gives the same total. */
  lemma {:induction false} TotalsAgree(m: seq<seq<real>>, w: nat)
    requires forall i :: 0 <= i < |m| ==> |m[i]| == w
    ensures Sum(RowSums(m)) == Sum(ColumnSums(m, w))
  {
    if m == [] {
      SumZero(ColumnSums(m, w));
    } else {
      var n := |m|;
      var init, last := m[..n - 1], m[n - 1];
      TotalsAgree(init, w);
      assert RowSums(m)[..n - 1] == RowSums(init);
      ColumnSumsOfLastRow(m, w);
      SumPlus(ColumnSums(init, w), last);
    }
  }

  /** The column sums of a table are those without its last row, plus that row. */
  lemma ColumnSumsOfLastRow(m: seq<seq<real>>, w: nat)
    requires |m| >= 1 && forall i :: 0 <= i < |m| ==> |m[i]| == w
    ensures ColumnSums(m, w) == Plus(ColumnSums(m[..|m| - 1], w), m[|m| - 1])
  {
    var init, last := m[..|m| - 1], m[|m| - 1];
    forall j | 0 <= j < w
      ensures ColumnSums(m, w)[j] == ColumnSums(init, w)[j] + last[j]
    {
      assert ColumnOf(m, j)[..|m| - 1] == ColumnOf(init, j);
    }
  }

  lemma SequencesAgree(a: seq<real>, b: seq<real>)
    requires |a| == |b| && forall k :: 0 <= k < |a| ==> a[k] == b[k]
    ensures a == b
  {
  }

  lemma RowOffTotal(m: seq<seq<real>>)
    requires IsSquare(m)
    ensures Sum(RowOffSums(m)) == Sum(RowSums(m)) - Sum(Diagonal(m))
  {
    forall i | 0 <= i < |m|
      ensures RowOffSums(m)[i] == RowSums(m)[i] - Diagonal(m)[i]
    {
      SumWithout(m[i], i);
    }
    SequencesAgree(RowOffSums(m), Minus(RowSums(m), Diagonal(m)));
    SumMinus(RowSums(m), Diagonal(m));
  }

  lemma ColumnOffTotal(m: seq<seq<real>>)
    requires IsSquare(m)
    ensures Sum(ColumnOffSums(m)) == Sum(ColumnSums(m, |m|)) - Sum(Diagonal(m))
  {
    forall j | 0 <= j < |m|
      ensures ColumnOffSums(m)[j] == ColumnSums(m, |m|)[j] - Diagonal(m)[j]
    {
      SumWithout(ColumnOf(m, j), j);
      assert Masked(m, j) == Without(ColumnOf(m, j), j);
    }
    SequencesAgree(ColumnOffSums(m), Minus(ColumnSums(m, |m|), Diagonal(m)));
    SumMinus(ColumnSums(m, |m|), Diagonal(m));
  }

  /** Masking the diagonal column by column removes as much as row by row. */
  lemma MaskedTotalIsOffDiagonalSum(m: seq<seq<real>>)
    requires IsSquare(m)
    ensures Sum(ColumnOffSums(m)) == OffDiagonalSum(m)
  {
    RowOffTotal(m);
    ColumnOffTotal(m);
    TotalsAgree(m, |m|);
  }

  lemma AverageOfColumnSums(m: seq<seq<real>>)
    requires IsSquare(m) && |m| >= 2
    ensures OffDiagonalAverage(m) == (Sum(ColumnOffSums(m)) / ((|m| - 1) as real)) / (|m| as real)
  {
    var n := |m|;
    var k := (n - 1) as real;
    var means := seq(n, j requires 0 <= j < n => Mean(Masked(m, j)));
    SequencesAgree(means, DividedBy(ColumnOffSums(m), k));
    SumDividedBy(ColumnOffSums(m), k);
  }

  /**
   * Every masked column holds n - 1 cells, so the mean of the column means
   * is the sum of the off-diagonal cells divided by n (n - 1).
   */
  lemma AverageIsOffDiagonalMean(m: seq<seq<real>>)
    requires IsSquare(m) && |m| >= 2
    ensures OffDiagonalAverage(m) == OffDiagonalMean(m)
  {
    AverageOfColumnSums(m);
    MaskedTotalIsOffDiagonalSum(m);
    DivideTwice(OffDiagonalSum(m), |m|);
  }

  /** The sum of the off-diagonal cells over their number, n (n - 1). */
  function OffDiagonalMean(m: seq<seq<real>>): real
    requires IsSquare(m) && |m| >= 2
  {
    OffDiagonalSum(m) / ((|m| * (|m| - 1)) as real)
  }

  lemma DivideTwice(x: real, n: int)
    requires n >= 2
    ensures (x / ((n - 1) as real)) / (n as real) == x / ((n * (n - 1)) as real)
  {
    var a, b := (n - 1) as real, n as real;
    assert (n * (n - 1)) as real == b * a;
    assert (x / a) / b == x / (b * a);
  }

  // ---------------------------------------------------------------------
  // One country's row

  datatype CountryReport = CountryReport(maximum: real, farthest: string, minimum: real, nearest: string)

  /**
   * `find_max_min_distances_for_country`: nothing for an unknown name;
   * otherwise the extremes of the country's row with its own column dropped,
   * each with the first label reaching it.
   */
  function FindMaxMinForCountry(f: Frame, country: string): (r: Option<CountryReport>)
    requires WellShaped(f) && |f.labels| >= 2 && Distinct(f.labels)
    ensures r.Some? <==> country in f.labels
  {
    if country !in f.labels then None
    else
      var i := IndexOf(f.labels, country);
      var others := Without(f.cells[i], i);
      var names := Without(f.labels, i);
      var mx, mn := Max(others), Min(others);
      Some(CountryReport(mx, names[IndexOf(others, mx)], mn, names[IndexOf(others, mn)]))
  }

  /** Column `j` is the first column other than `i` whose cell in row `i` holds `v`. */
  predicate FirstOther(m: seq<seq<real>>, i: nat, j: nat, v: real)
    requires IsSquare(m) && i < |m| && j < |m|
  {
    j != i && m[i][j] == v && forall k :: 0 <= k < j && k != i ==> m[i][k] != v
  }

  /** The first position of `v` in the row without its diagonal cell, as a column index. */
  lemma FirstOtherOfDropped(m: seq<seq<real>>, i: nat, v: real)
    requires IsSquare(m) && i < |m| && v in Without(m[i], i)
    ensures var j := OffIndex(i, IndexOf(Without(m[i], i), v));
            j < |m| && FirstOther(m, i, j, v)
  {
    var others := Without(m[i], i);
    var p := IndexOf(others, v);
    forall k | 0 <= k < OffIndex(i, p) && k != i
      ensures m[i][k] != v
    {
      var q := if k < i then k else k - 1;
      assert others[q] == m[i][k];
    }
  }

  /** Bounds on a row without its diagonal cell bound the row's other cells. */
  lemma RowBounds(m: seq<seq<real>>, i: nat, lo: real, hi: real)
    requires IsSquare(m) && i < |m|
    requires forall q :: 0 <= q < |Without(m[i], i)| ==> lo <= Without(m[i], i)[q] <= hi
    ensures forall j :: 0 <= j < |m| && j != i ==> lo <= m[i][j] <= hi
  {
    var others := Without(m[i], i);
    forall j | 0 <= j < |m| && j != i
      ensures lo <= m[i][j] <= hi
    {
      var q := if j < i then j else j - 1;
      assert others[q] == m[i][j];
    }
  }

  /**
   * The reported extremes bound the country's other cells and are reached,
   * first, at the reported counterparts; neither counterpart is the country.
   */
  lemma CountryReportMeaning(f: Frame, country: string)
    requires WellShaped(f) && |f.labels| >= 2 && Distinct(f.labels) && country in f.labels
    ensures var i := IndexOf(f.labels, country);
            var r := FindMaxMinForCountry(f, country).value;
            && (forall j :: 0 <= j < |f.cells| && j != i ==> r.minimum <= f.cells[i][j] <= r.maximum)
            && (exists j :: 0 <= j < |f.cells| && FirstOther(f.cells, i, j, r.maximum) && r.farthest == f.labels[j])
            && (exists j :: 0 <= j < |f.cells| && FirstOther(f.cells, i, j, r.minimum) && r.nearest == f.labels[j])
            && r.farthest != country && r.nearest != country
  {
    var m := f.cells;
    var i := IndexOf(f.labels, country);
    var others := Without(m[i], i);
    var r := FindMaxMinForCountry(f, country).value;
    RowBounds(m, i, r.minimum, r.maximum);
    FirstOtherOfDropped(m, i, r.maximum);
    FirstOtherOfDropped(m, i, r.minimum);
    var jx := OffIndex(i, IndexOf(others, r.maximum));
    var jn := OffIndex(i, IndexOf(others, r.minimum));
    assert r.farthest == f.labels[jx] && r.nearest == f.labels[jn];
  }

  // ---------------------------------------------------------------------
  // Tables ordered alike report the same cells

  /** Two first cells of the same set of cells are the same cell. */
  lemma FirstCellUnique(a: seq<seq<real>>, v: real, b: seq<seq<real>>, w: real)
    requires SameOrder(a, b)
    requires forall p, q :: 0 <= p < |a| && 0 <= q < |a| ==> (a[p][q] == v <==> b[p][q] == w)
    requires exists i, j :: 0 <= i < |a| && 0 <= j < |a| && a[i][j] == v
    ensures FirstCell(a, v) == FirstCell(b, w)
  {
    var c, d := FirstCell(a, v), FirstCell(b, w);
    assert a[d.0][d.1] == v;
    assert b[c.0][c.1] == w;
  }

  /** Where `a` reaches its off-diagonal maximum, so does `b`. */
  lemma SameOrderSameMaximum(a: seq<seq<real>>, b: seq<seq<real>>)
    requires SameOrder(a, b) && |a| >= 2
    ensures forall p, q :: 0 <= p < |a| && 0 <= q < |a| ==>
              (a[p][q] == OffDiagonalMax(a) <==> b[p][q] == OffDiagonalMax(b))
  {
    var n, va, vb := |a|, OffDiagonalMax(a), OffDiagonalMax(b);
    var x0, x1 :| 0 <= x0 < n && 0 <= x1 < n && x0 != x1 && a[x0][x1] == va;
    var z0, z1 :| 0 <= z0 < n && 0 <= z1 < n && z0 != z1 && b[z0][z1] == vb;
    OffDiagonalBelowMax(a, z0, z1);
    OffDiagonalBelowMax(b, x0, x1);
    assert OrderedAlike(a, b, z0, z1, x0, x1);
    forall p, q | 0 <= p < n && 0 <= q < n
      ensures a[p][q] == va <==> b[p][q] == vb
    {
      SameOrderSameValue(a, b, x0, x1, p, q);
    }
  }

  /** Where `a` reaches its off-diagonal minimum, so does `b`. */
  lemma SameOrderSameMinimum(a: seq<seq<real>>, b: seq<seq<real>>)
    requires SameOrder(a, b) && |a| >= 2
    ensures forall p, q :: 0 <= p < |a| && 0 <= q < |a| ==>
              (a[p][q] == OffDiagonalMin(a) <==> b[p][q] == OffDiagonalMin(b))
  {
    var n, va, vb := |a|, OffDiagonalMin(a), OffDiagonalMin(b);
    var x0, x1 :| 0 <= x0 < n && 0 <= x1 < n && x0 != x1 && a[x0][x1] == va;
    var z0, z1 :| 0 <= z0 < n && 0 <= z1 < n && z0 != z1 && b[z0][z1] == vb;
    OffDiagonalAboveMin(a, z0, z1);
    OffDiagonalAboveMin(b, x0, x1);
    assert OrderedAlike(a, b, x0, x1, z0, z1);
    forall p, q | 0 <= p < n && 0 <= q < n
      ensures a[p][q] == va <==> b[p][q] == vb
    {
      SameOrderSameValue(a, b, x0, x1, p, q);
    }
  }

  lemma OffDiagonalBelowMax(m: seq<seq<real>>, i: nat, j: nat)
    requires IsSquare(m) && |m| >= 2 && i < |m| && j < |m| && i != j
    ensures m[i][j] <= OffDiagonalMax(m)
  {
  }

  lemma OffDiagonalAboveMin(m: seq<seq<real>>, i: nat, j: nat)
    requires IsSquare(m) && |m| >= 2 && i < |m| && j < |m| && i != j
    ensures OffDiagonalMin(m) <= m[i][j]
  {
  }

  /** In tables ordered alike, a cell equals cell (x0, x1) in one exactly when it does in the other. */
  lemma SameOrderSameValue(a: seq<seq<real>>, b: seq<seq<real>>, x0: nat, x1: nat, p: nat, q: nat)
    requires SameOrder(a, b) && x0 < |a| && x1 < |a| && p < |a| && q < |a|
    ensures a[p][q] == a[x0][x1] <==> b[p][q] == b[x0][x1]
  {
    assert OrderedAlike(a, b, p, q, x0, x1);
    assert OrderedAlike(a, b, x0, x1, p, q);
  }

  /** Tables ordered alike have their extremes in the same cells. */
  lemma SameOrderSameCells(a: seq<seq<real>>, b: seq<seq<real>>)
    requires SameOrder(a, b) && |a| >= 2
    ensures MaxCell(a) == MaxCell(b) && MinCell(a) == MinCell(b)
  {
    SameOrderSameMaximum(a, b);
    SameOrderSameMinimum(a, b);
    FirstCellUnique(a, OffDiagonalMax(a), b, OffDiagonalMax(b));
    FirstCellUnique(a, OffDiagonalMin(a), b, OffDiagonalMin(b));
  }

  /** Tables with the same labels, ordered alike, report the same pairs. */
  lemma SameOrderSamePairs(f: Frame, g: Frame)
    requires WellShaped(f) && WellShaped(g) && |f.labels| >= 2
    requires f.labels == g.labels && SameOrder(f.cells, g.cells)
    ensures FindMaxMinDistances(f).maximum.row == FindMaxMinDistances(g).maximum.row
    ensures FindMaxMinDistances(f).maximum.column == FindMaxMinDistances(g).maximum.column
    ensures FindMaxMinDistances(f).minimum.row == FindMaxMinDistances(g).minimum.row
    ensures FindMaxMinDistances(f).minimum.column == FindMaxMinDistances(g).minimum.column
  {
    SameOrderSameCells(f.cells, g.cells);
  }

  /** The first position holding the maximum (or minimum) of two sequences ordered alike. */
  lemma SameOrderSameArgs(s: seq<real>, t: seq<real>)
    requires |s| == |t| >= 1
    requires forall p, q :: 0 <= p < |s| && 0 <= q < |s| ==> (s[p] <= s[q] <==> t[p] <= t[q])
    ensures IndexOf(s, Max(s)) == IndexOf(t, Max(t))
    ensures IndexOf(s, Min(s)) == IndexOf(t, Min(t))
  {
    var x, y := IndexOf(s, Max(s)), IndexOf(t, Max(t));
    assert t[x] == Max(t) by { assert s[y] <= s[x]; }
    assert s[y] == Max(s) by { assert t[x] <= t[y]; }
    var u, v := IndexOf(s, Min(s)), IndexOf(t, Min(t));
    assert t[u] == Min(t) by { assert s[u] <= s[v]; }
    assert s[v] == Min(s) by { assert t[v] <= t[u]; }
  }

  /** Tables with the same labels, ordered alike, name the same counterparts for every country. */
  lemma SameOrderSameCounterparts(f: Frame, g: Frame, country: string)
    requires WellShaped(f) && WellShaped(g) && |f.labels| >= 2 && Distinct(f.labels)
    requires f.labels == g.labels && SameOrder(f.cells, g.cells)
    requires country in f.labels
    ensures FindMaxMinForCountry(f, country).value.farthest == FindMaxMinForCountry(g, country).value.farthest
    ensures FindMaxMinForCountry(f, country).value.nearest == FindMaxMinForCountry(g, country).value.nearest
  {
    var i := IndexOf(f.labels, country);
    var s, t := Without(f.cells[i], i), Without(g.cells[i], i);
    forall p, q | 0 <= p < |s| && 0 <= q < |s|
      ensures s[p] <= s[q] <==> t[p] <= t[q]
    {
      var p', q' := OffIndex(i, p), OffIndex(i, q);
      assert s[p] == f.cells[i][p'] && t[p] == g.cells[i][p'];
      assert s[q] == f.cells[i][q'] && t[q] == g.cells[i][q'];
      assert OrderedAlike(f.cells, g.cells, i, p', i, q');
    }
    SameOrderSameArgs(s, t);
  }
}
