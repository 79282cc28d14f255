/**
 * A labelled square table of reals: the `DataFrame` the distance functions
 * return, with the entity names as both its index and its columns.
 */
module Frames {

  datatype Frame = Frame(labels: seq<string>, cells: seq<seq<real>>)

  predicate IsSquare(m: seq<seq<real>>) {
    forall i :: 0 <= i < |m| ==> |m[i]| == |m|
  }

  /** Labels on both axes, one row and one column per label. */
  predicate WellShaped(f: Frame) {
    |f.cells| == |f.labels| && IsSquare(f.cells)
  }

  predicate Symmetric(m: seq<seq<real>>)
    requires IsSquare(m)
  {
    forall i, j :: 0 <= i < |m| && 0 <= j < |m| ==> m[i][j] == m[j][i]
  }

  predicate ZeroDiagonal(m: seq<seq<real>>)
    requires IsSquare(m)
  {
    forall i :: 0 <= i < |m| ==> m[i][i] == 0.0
  }

  predicate NonNegative(m: seq<seq<real>>)
    requires IsSquare(m)
  {
    forall i, j :: 0 <= i < |m| && 0 <= j < |m| ==> m[i][j] >= 0.0
  }

  /** A symmetric, non-negative table with a zero diagonal. */
  predicate IsDistanceTable(m: seq<seq<real>>) {
    IsSquare(m) && Symmetric(m) && ZeroDiagonal(m) && NonNegative(m)
  }

  /**
   * Two tables of one shape that order their cells alike. Every query below
   * that reports an extreme value and the cell holding it picks the same
   * cells in both.
   */
  predicate SameOrder(a: seq<seq<real>>, b: seq<seq<real>>) {
    && |a| == |b| && IsSquare(a) && IsSquare(b)
    && forall i, j, p, q :: 0 <= i < |a| && 0 <= j < |a| && 0 <= p < |a| && 0 <= q < |a| ==>
         OrderedAlike(a, b, i, j, p, q)
  }

  /** Cells (i, j) and (p, q) compare the same way in `a` and in `b`. */
  predicate OrderedAlike(a: seq<seq<real>>, b: seq<seq<real>>, i: nat, j: nat, p: nat, q: nat)
    requires |a| == |b| && IsSquare(a) && IsSquare(b)
    requires i < |a| && j < |a| && p < |a| && q < |a|
  {
    a[i][j] <= a[p][q] <==> b[i][j] <= b[p][q]
  }

  /** `r` holds, cell by cell, the non-negative square roots of `s`. */
  predicate RootsOf(r: seq<seq<real>>, s: seq<seq<real>>) {
    && |r| == |s| && IsSquare(r) && IsSquare(s)
    && forall i, j :: 0 <= i < |r| && 0 <= j < |r| ==> IsRoot(r[i][j], s[i][j])
  }

  predicate IsRoot(a: real, x: real) {
    a >= 0.0 && a * a == x
  }

  /** Every cell of `s` divided by `k`. */
  function DivideCells(s: seq<seq<real>>, k: real): (t: seq<seq<real>>)
    requires k != 0.0
    ensures |t| == |s|
    ensures forall i :: 0 <= i < |s| ==> |t[i]| == |s[i]|
    ensures forall i, j :: 0 <= i < |s| && 0 <= j < |s[i]| ==> t[i][j] == s[i][j] / k
  {
    seq(|s|, i requires 0 <= i < |s| => seq(|s[i]|, j requires 0 <= j < |s[i]| => s[i][j] / k))
  }

  lemma MulPos(x: real, y: real)
    requires x > 0.0 && y > 0.0
    ensures x * y > 0.0
  {
  }

  lemma DiffSquares(a: real, b: real)
    ensures (b - a) * (b + a) == b * b - a * a
  {
  }

  /** Squaring is strictly monotone on the non-negative reals. */
  lemma SquareMonotone(a: real, b: real)
    requires 0.0 <= a < b
    ensures a * a < b * b
  {
    MulPos(b - a, b + a);
    DiffSquares(a, b);
  }

  /** Non-negative roots are ordered as the numbers they are roots of. */
  lemma RootOrder(a: real, x: real, b: real, y: real)
    requires IsRoot(a, x) && IsRoot(b, y)
    ensures a <= b <==> x <= y
  {
    if a < b { SquareMonotone(a, b); }
    if b < a { SquareMonotone(b, a); }
  }

  /** A number has at most one non-negative root. */
  lemma RootUnique(a: real, b: real, x: real)
    requires IsRoot(a, x) && IsRoot(b, x)
    ensures a == b
  {
    RootOrder(a, x, b, x);
    RootOrder(b, x, a, x);
  }

  lemma RootsUnique(r: seq<seq<real>>, r': seq<seq<real>>, s: seq<seq<real>>)
    requires RootsOf(r, s) && RootsOf(r', s)
    ensures r == r'
  {
    forall i, j | 0 <= i < |r| && 0 <= j < |r|
      ensures r[i][j] == r'[i][j]
    {
      RootUnique(r[i][j], r'[i][j], s[i][j]);
    }
    assert forall i | 0 <= i < |r| :: r[i] == r'[i];
  }

  /** The roots of a distance table form a distance table. */
  lemma RootsOfDistanceTable(r: seq<seq<real>>, s: seq<seq<real>>)
    requires RootsOf(r, s) && IsDistanceTable(s)
    ensures IsDistanceTable(r)
  {
    forall i, j | 0 <= i < |r| && 0 <= j < |r|
      ensures r[i][j] == r[j][i]
    {
      RootUnique(r[i][j], r[j][i], s[i][j]);
    }
    forall i | 0 <= i < |r|
      ensures r[i][i] == 0.0
    {
      RootUnique(r[i][i], 0.0, 0.0);
    }
  }

  /** A table of roots orders its cells as the table it is the root of. */
  lemma RootsSameOrder(r: seq<seq<real>>, s: seq<seq<real>>)
    requires RootsOf(r, s)
    ensures SameOrder(r, s)
  {
    forall i, j, p, q | 0 <= i < |r| && 0 <= j < |r| && 0 <= p < |r| && 0 <= q < |r|
      ensures OrderedAlike(r, s, i, j, p, q)
    {
      RootOrder(r[i][j], s[i][j], r[p][q], s[p][q]);
    }
  }

  lemma DivideMonotone(a: real, b: real, k: real)
    requires k > 0.0
    ensures a / k <= b / k <==> a <= b
  {
  }

  /** Dividing a distance table by a positive constant gives a distance table ordered alike. */
  lemma DivideCellsProperties(s: seq<seq<real>>, k: real)
    requires IsDistanceTable(s) && k > 0.0
    ensures IsDistanceTable(DivideCells(s, k))
    ensures SameOrder(DivideCells(s, k), s)
  {
    var t := DivideCells(s, k);
    forall i, j, p, q | 0 <= i < |s| && 0 <= j < |s| && 0 <= p < |s| && 0 <= q < |s|
      ensures OrderedAlike(t, s, i, j, p, q)
    {
      DivideMonotone(s[i][j], s[p][q], k);
    }
  }
}
