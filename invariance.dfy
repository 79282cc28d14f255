/**
 * What the distance tables do not depend on: the values of a dropped
 * dimension, and the unit and origin of a used one (the squared difference
 * and the variance scale by the same factor, and neither sees a shift).
 */
module Invariance {
  import opened Util
  import opened Catalog
  import opened Stats
  import opened Frames
  import opened Columns
  import opened Distances

  /** `other` differs from `data` at most in the values held under `d`. */
  ghost predicate AgreeOutside(data: seq<Record>, other: seq<Record>, d: string) {
    && |other| == |data|
    && forall i :: 0 <= i < |data| ==>
         && other[i].name == data[i].name
         && Keys(other[i].scores) == Keys(data[i].scores)
         && forall k :: k != d ==> Get(other[i].scores, k) == Get(data[i].scores, k)
  }

  /** The score under `d`, where there is one, replaced by `f` of it. */
  function Rescore(s: Scores, d: string, f: int -> int): (r: Scores)
    ensures Keys(r) == Keys(s)
    ensures forall k :: k != d ==> Get(r, k) == Get(s, k)
    ensures Get(r, d) == (if Get(s, d).Some? then Some(f(Get(s, d).value)) else None)
  {
    match Get(s, d)
    case Some(v) => Put(s, d, f(v))
    case None => s
  }

  /** Every record's score under `d` replaced by `f` of it. */
  function MapDimension(data: seq<Record>, d: string, f: int -> int): (r: seq<Record>)
    ensures |r| == |data|
    ensures forall i :: 0 <= i < |data| ==> r[i] == data[i].(scores := Rescore(data[i].scores, d, f))
  {
    seq(|data|, i requires 0 <= i < |data| => data[i].(scores := Rescore(data[i].scores, d, f)))
  }

  lemma MapDimensionAgreesOutside(data: seq<Record>, d: string, f: int -> int)
    ensures AgreeOutside(data, MapDimension(data, d, f), d)
  {
  }

  /** A complete column stays complete under `f` unless `f` produces the sentinel. */
  lemma MapDimensionColumn(data: seq<Record>, d: string, f: int -> int)
    requires Complete(data, d)
    requires forall i :: 0 <= i < |data| ==> f(Column(data, d)[i]) != Missing
    ensures Complete(MapDimension(data, d, f), d)
    ensures forall i :: 0 <= i < |data| ==> Column(MapDimension(data, d, f), d)[i] == f(Column(data, d)[i])
  {
    var other := MapDimension(data, d, f);
    var col := Column(data, d);
    forall i | 0 <= i < |data|
      ensures Get(other[i].scores, d) == Some(f(col[i]))
    {
      assert Get(data[i].scores, d) == Some(col[i]);
    }
  }

  lemma {:induction false} KeyStreamAgree(data: seq<Record>, other: seq<Record>, d: string)
    requires AgreeOutside(data, other, d)
    ensures KeyStream(other) == KeyStream(data)
  {
    if data != [] {
      var n := |data|;
      assert AgreeOutside(data[..n - 1], other[..n - 1], d);
      KeyStreamAgree(data[..n - 1], other[..n - 1], d);
    }
  }

  /** Away from `d`, both hold the same complete columns with the same values. */
  lemma ColumnAgree(data: seq<Record>, other: seq<Record>, d: string, k: string)
    requires AgreeOutside(data, other, d) && k != d
    ensures Complete(other, k) == Complete(data, k)
    ensures Complete(data, k) ==> Column(other, k) == Column(data, k)
  {
    if Complete(data, k) {
      assert forall i :: 0 <= i < |data| ==> Get(other[i].scores, k) == Get(data[i].scores, k);
    }
  }

  /** When `d` is used in both or in neither, both use the same columns. */
  lemma UsedAgree(data: seq<Record>, other: seq<Record>, d: string)
    requires AgreeOutside(data, other, d)
    requires Complete(other, d) == Complete(data, d)
    ensures UsedColumns(other) == UsedColumns(data)
  {
    KeyStreamAgree(data, other, d);
    forall k | k in AllColumns(data)
      ensures Complete(other, k) == Complete(data, k)
    {
      if k != d { ColumnAgree(data, other, d, k); }
    }
    FilterAgree(AllColumns(data), k => Complete(data, k), k => Complete(other, k));
  }

  lemma {:induction false} SumsAgree(data: seq<Record>, other: seq<Record>, ds: seq<string>, i: nat, j: nat)
    requires i < |data| && j < |data| && |other| == |data|
    requires forall k :: k in ds ==> Scalable(data, k) && Scalable(other, k)
    requires forall k :: k in ds ==> Contribution(other, k, i, j) == Contribution(data, k, i, j)
    ensures SumContributions(other, ds, i, j) == SumContributions(data, ds, i, j)
  {
    if ds != [] {
      SumsAgree(data, other, ds[1..], i, j);
    }
  }

  /** Contributions depend on the column only. */
  lemma SameColumnSameContribution(data: seq<Record>, other: seq<Record>, k: string, i: nat, j: nat)
    requires Scalable(data, k) && |other| == |data| && i < |data| && j < |data|
    requires Complete(other, k) && Column(other, k) == Column(data, k)
    ensures Scalable(other, k)
    ensures Contribution(other, k, i, j) == Contribution(data, k, i, j)
  {
  }

  /** Tables built from the same names and the same pairwise distances are equal. */
  lemma SameDistancesSameTable(data: seq<Record>, other: seq<Record>)
    requires Admissible(data) && Admissible(other) && |other| == |data|
    requires Names(other) == Names(data)
    requires forall i, j :: 0 <= i < |data| && 0 <= j < |data| && i != j ==>
               SquaredDistance(other, i, j) == SquaredDistance(data, i, j)
    ensures SquaredTable(other) == SquaredTable(data)
  {
    var a, b := SquaredTable(data).cells, SquaredTable(other).cells;
    assert forall i | 0 <= i < |data| :: a[i] == b[i];
  }

  /**
   * Changing the values of a dimension that is dropped, and stays dropped,
   * leaves both tables unchanged.
   */
  lemma DroppedDimensionIrrelevant(data: seq<Record>, other: seq<Record>, d: string)
    requires Admissible(data) && AgreeOutside(data, other, d)
    requires d !in UsedColumns(data) && d !in UsedColumns(other)
    ensures Admissible(other)
    ensures UsedColumns(other) == UsedColumns(data)
    ensures SquaredTable(other) == SquaredTable(data)
  {
    UsedIffComplete(data, d);
    UsedIffComplete(other, d);
    UsedAgree(data, other, d);
    var used := UsedColumns(data);
    forall k | k in used
      ensures Complete(data, k) && Column(other, k) == Column(data, k)
    {
      ColumnAgree(data, other, d, k);
    }
    assert Names(other) == Names(data);
    forall i, j | 0 <= i < |data| && 0 <= j < |data| && i != j
      ensures SquaredDistance(other, i, j) == SquaredDistance(data, i, j)
    {
      forall k | k in used
        ensures Scalable(data, k) && Scalable(other, k)
        ensures Contribution(other, k, i, j) == Contribution(data, k, i, j)
      {
        SameColumnSameContribution(data, other, k, i, j);
      }
      SumsAgree(data, other, used, i, j);
    }
    SameDistancesSameTable(data, other);
  }

  /** Changing a used column's values, keeping it complete, changes no other column. */
  lemma ChangedColumnSameColumns(data: seq<Record>, other: seq<Record>, d: string)
    requires Admissible(data) && AgreeOutside(data, other, d)
    requires d in UsedColumns(data) && Complete(other, d)
    requires |data| >= 2 ==> NonConstant(Column(other, d))
    ensures Admissible(other)
    ensures UsedColumns(other) == UsedColumns(data)
    ensures forall k :: k in UsedColumns(data) && k != d ==> Column(other, k) == Column(data, k)
  {
    UsedAgree(data, other, d);
    forall k | k in UsedColumns(data) && k != d
      ensures Complete(data, k) && Column(other, k) == Column(data, k)
    {
      ColumnAgree(data, other, d, k);
    }
  }

  /** The changed column's contributions are unchanged, so the tables are. */
  lemma ChangedColumnSameContributions(data: seq<Record>, other: seq<Record>, d: string)
    requires Admissible(data) && AgreeOutside(data, other, d)
    requires d in UsedColumns(data) && Complete(other, d)
    requires |data| >= 2 ==> NonConstant(Column(other, d))
    requires forall i, j :: 0 <= i < |data| && 0 <= j < |data| && |data| >= 2 ==>
               Contribution(other, d, i, j) == Contribution(data, d, i, j)
    ensures Admissible(other)
    ensures UsedColumns(other) == UsedColumns(data)
    ensures SquaredTable(other) == SquaredTable(data)
  {
    ChangedColumnSameColumns(data, other, d);
    var used := UsedColumns(data);
    assert Names(other) == Names(data);
    forall i, j | 0 <= i < |data| && 0 <= j < |data| && i != j
      ensures SquaredDistance(other, i, j) == SquaredDistance(data, i, j)
    {
      forall k | k in used
        ensures Scalable(data, k) && Scalable(other, k)
        ensures Contribution(other, k, i, j) == Contribution(data, k, i, j)
      {
        if k != d { SameColumnSameContribution(data, other, k, i, j); }
      }
      SumsAgree(data, other, used, i, j);
    }
    SameDistancesSameTable(data, other);
  }

  lemma NonConstantScaled(xs: seq<int>, c: int)
    requires NonConstant(xs) && c != 0
    ensures NonConstant(Scaled(xs, c))
  {
    var w :| 0 < w < |xs| && xs[w] != xs[0];
    assert c * xs[w] != c * xs[0];
    assert Scaled(xs, c)[w] != Scaled(xs, c)[0];
  }

  lemma NonConstantShifted(xs: seq<int>, t: int)
    requires NonConstant(xs)
    ensures NonConstant(Shifted(xs, t))
  {
    var w :| 0 < w < |xs| && xs[w] != xs[0];
    assert Shifted(xs, t)[w] != Shifted(xs, t)[0];
  }

  lemma ScaledColumn(data: seq<Record>, d: string, c: int)
    requires Complete(data, d)
    requires forall i :: 0 <= i < |data| ==> c * Column(data, d)[i] != Missing
    ensures Complete(MapDimension(data, d, v => c * v), d)
    ensures Column(MapDimension(data, d, v => c * v), d) == Scaled(Column(data, d), c)
  {
    MapDimensionColumn(data, d, v => c * v);
  }

  lemma ShiftedColumn(data: seq<Record>, d: string, t: int)
    requires Complete(data, d)
    requires forall i :: 0 <= i < |data| ==> Column(data, d)[i] + t != Missing
    ensures Complete(MapDimension(data, d, v => v + t), d)
    ensures Column(MapDimension(data, d, v => v + t), d) == Shifted(Column(data, d), t)
  {
    MapDimensionColumn(data, d, v => v + t);
  }

  /** Multiplying a used column by a non-zero constant leaves both tables unchanged. */
  lemma ScaleInvariant(data: seq<Record>, d: string, c: int)
    requires Admissible(data) && d in UsedColumns(data) && c != 0
    requires forall i :: 0 <= i < |data| ==> c * Column(data, d)[i] != Missing
    ensures Admissible(MapDimension(data, d, v => c * v))
    ensures UsedColumns(MapDimension(data, d, v => c * v)) == UsedColumns(data)
    ensures SquaredTable(MapDimension(data, d, v => c * v)) == SquaredTable(data)
  {
    var other := MapDimension(data, d, v => c * v);
    MapDimensionAgreesOutside(data, d, v => c * v);
    ScaledColumn(data, d, c);
    if |data| >= 2 {
      NonConstantScaled(Column(data, d), c);
      forall i, j | 0 <= i < |data| && 0 <= j < |data|
        ensures Contribution(other, d, i, j) == Contribution(data, d, i, j)
      {
        ScaledContribution(data, other, d, c, i, j);
      }
    }
    ChangedColumnSameContributions(data, other, d);
  }

  lemma ScaledSquare(c: int, e: int, m: int)
    ensures (c * e) * (c * e) * m == c * c * (e * e * m)
  {
  }

  lemma ScaledContribution(data: seq<Record>, other: seq<Record>, d: string, c: int, i: nat, j: nat)
    requires Scalable(data, d) && Scalable(other, d) && |other| == |data| && c != 0
    requires Column(other, d) == Scaled(Column(data, d), c)
    requires i < |data| && j < |data|
    ensures Contribution(other, d, i, j) == Contribution(data, d, i, j)
  {
    var col, col' := Column(data, d), Column(other, d);
    var m := VarianceDivisor(|data|);
    var e := col[i] - col[j];
    var e' := col'[i] - col'[j];
    assert e' == c * e;
    var p, q := e * e * m, SumOfSquares(Deviations(col));
    var p', q' := e' * e' * m, SumOfSquares(Deviations(col'));
    ContributionFraction(data, d, i, j);
    ContributionFraction(other, d, i, j);
    assert Contribution(data, d, i, j) == (p as real) / (q as real);
    assert Contribution(other, d, i, j) == (p' as real) / (q' as real);
    VarianceScaled(col, c);
    assert q' == c * c * q;
    ScaledSquare(c, e, m);
    assert p' == c * c * p;
    CancelSquare(c, p, q);
  }

  lemma ShiftedContribution(data: seq<Record>, other: seq<Record>, d: string, t: int, i: nat, j: nat)
    requires Scalable(data, d) && Scalable(other, d) && |other| == |data|
    requires Column(other, d) == Shifted(Column(data, d), t)
    requires i < |data| && j < |data|
    ensures Contribution(other, d, i, j) == Contribution(data, d, i, j)
  {
    VarianceShifted(Column(data, d), t);
  }

  /** Adding a constant to a used column leaves both tables unchanged. */
  lemma ShiftInvariant(data: seq<Record>, d: string, t: int)
    requires Admissible(data) && d in UsedColumns(data)
    requires forall i :: 0 <= i < |data| ==> Column(data, d)[i] + t != Missing
    ensures Admissible(MapDimension(data, d, v => v + t))
    ensures UsedColumns(MapDimension(data, d, v => v + t)) == UsedColumns(data)
    ensures SquaredTable(MapDimension(data, d, v => v + t)) == SquaredTable(data)
  {
    var other := MapDimension(data, d, v => v + t);
    MapDimensionAgreesOutside(data, d, v => v + t);
    ShiftedColumn(data, d, t);
    if |data| >= 2 {
      NonConstantShifted(Column(data, d), t);
      forall i, j | 0 <= i < |data| && 0 <= j < |data|
        ensures Contribution(other, d, i, j) == Contribution(data, d, i, j)
      {
        ShiftedContribution(data, other, d, t, i, j);
      }
    }
    ChangedColumnSameContributions(data, other, d);
  }
}
