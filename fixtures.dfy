/**
 * Small worked examples, each checked against the model.
 */
module Fixtures {
  import opened Util
  import opened Catalog
  import opened Stats
  import opened Frames
  import opened Columns
  import opened Distances
  import opened Queries
  import opened Variants

  function Profile(name: string, d1: int, d2: int): Record {
    Record(0, name, name, None, None, [Entry("d1", d1), Entry("d2", d2)])
  }

  /** Three entities; B and C each differ from A in one dimension by 10. */
  function Three(): seq<Record> {
    [Profile("A", 0, 0), Profile("B", 10, 0), Profile("C", 0, 10)]
  }

  lemma ProfileKeys(name: string, d1: int, d2: int)
    ensures Keys(Profile(name, d1, d2).scores) == ["d1", "d2"]
    ensures Get(Profile(name, d1, d2).scores, "d1") == Some(d1)
    ensures Get(Profile(name, d1, d2).scores, "d2") == Some(d2)
  {
    var ks := Keys(Profile(name, d1, d2).scores);
    assert ks == ["d1", "d2"];
    assert IndexOf(ks, "d1") == 0;
    assert ks[0] != "d2" && IndexOf(ks, "d2") == 1;
  }

  /** Records that all hold d1 and d2, in that order and complete, use exactly those columns. */
  lemma ProfileColumns(data: seq<Record>)
    requires |data| >= 1
    requires forall i :: 0 <= i < |data| ==> Keys(data[i].scores) == ["d1", "d2"]
    requires Complete(data, "d1") && Complete(data, "d2")
    ensures UsedColumns(data) == ["d1", "d2"]
  {
    assert Distinct(["d1", "d2"]);
    SameKeysColumns(data, ["d1", "d2"]);
    FilterAll(["d1", "d2"], d => Complete(data, d));
  }

  lemma ThreeComplete()
    ensures forall i :: 0 <= i < |Three()| ==> Keys(Three()[i].scores) == ["d1", "d2"]
    ensures Complete(Three(), "d1") && Complete(Three(), "d2")
  {
    ProfileKeys("A", 0, 0);
    ProfileKeys("B", 10, 0);
    ProfileKeys("C", 0, 10);
  }

  lemma ThreeElements<T>(s: seq<T>, a: T, b: T, c: T)
    requires |s| == 3 && s[0] == a && s[1] == b && s[2] == c
    ensures s == [a, b, c]
  {
  }

  lemma ThreeColumns()
    ensures UsedColumns(Three()) == ["d1", "d2"]
    ensures Column(Three(), "d1") == [0, 10, 0] && Column(Three(), "d2") == [0, 0, 10]
  {
    ThreeComplete();
    ProfileColumns(Three());
    ProfileKeys("A", 0, 0);
    ProfileKeys("B", 10, 0);
    ProfileKeys("C", 0, 10);
    ThreeElements(Column(Three(), "d1"), 0, 10, 0);
    ThreeElements(Column(Three(), "d2"), 0, 0, 10);
  }

  lemma TotalOfThree(a: int, b: int, c: int)
    ensures Total([a, b, c]) == a + b + c
  {
    assert [a][..0] == [];
    assert Total([a]) == a;
    assert [a, b][..1] == [a];
    assert Total([a, b]) == a + b;
    assert [a, b, c][..2] == [a, b];
  }

  lemma SumOfSquaresOfThree(a: int, b: int, c: int)
    ensures SumOfSquares([a, b, c]) == a * a + b * b + c * c
  {
    assert [a][..0] == [];
    assert SumOfSquares([a]) == a * a;
    assert [a, b][..1] == [a];
    assert SumOfSquares([a, b]) == a * a + b * b;
    assert [a, b, c][..2] == [a, b];
  }

  /** Both columns have variance 100 / 3. */
  lemma ThreeVariances()
    ensures SumOfSquares(Deviations([0, 10, 0])) == 600 && SumOfSquares(Deviations([0, 0, 10])) == 600
    ensures Variance([0, 10, 0]) == 100.0 / 3.0 && Variance([0, 0, 10]) == 100.0 / 3.0
  {
    TotalOfThree(0, 10, 0);
    TotalOfThree(0, 0, 10);
    assert Deviations([0, 10, 0]) == [-10, 20, -10];
    assert Deviations([0, 0, 10]) == [-10, -10, 20];
    SumOfSquaresOfThree(-10, 20, -10);
    SumOfSquaresOfThree(-10, -10, 20);
  }

  /** A contribution read off a known column and its variance. */
  lemma ContributionIs(data: seq<Record>, d: string, i: nat, j: nat, col: seq<int>, a: int, b: int, ss: int, r: real)
    requires Scalable(data, d) && i < |data| && j < |data| && |data| == 3
    requires Column(data, d) == col && col[i] == a && col[j] == b
    requires SumOfSquares(Deviations(col)) == ss
    requires r * (ss as real) == ((a - b) * (a - b) * 18) as real
    ensures Contribution(data, d, i, j) == r
  {
    ContributionFraction(data, d, i, j);
    var n := (a - b) * (a - b) * 18;
    assert VarianceDivisor(|data|) == 18;
    assert Contribution(data, d, i, j) == (n as real) / (ss as real);
    QuotientOf(n as real, ss as real, r);
  }

  lemma QuotientOf(x: real, y: real, r: real)
    requires y > 0.0 && r * y == x
    ensures x / y == r
  {
  }

  lemma SumOfTwo(data: seq<Record>, i: nat, j: nat)
    requires Scalable(data, "d1") && Scalable(data, "d2") && i < |data| && j < |data|
    ensures SumContributions(data, ["d1", "d2"], i, j) == Contribution(data, "d1", i, j) + Contribution(data, "d2", i, j)
  {
    assert ["d1", "d2"][1..] == ["d2"];
    assert ["d2"][1..] == [];
    assert SumContributions(data, [], i, j) == 0.0;
    assert SumContributions(data, ["d2"], i, j) == Contribution(data, "d2", i, j);
  }

  lemma ThreeAdmissible()
    ensures Admissible(Three()) && UsedColumns(Three()) == ["d1", "d2"]
    ensures Scalable(Three(), "d1") && Scalable(Three(), "d2")
  {
    ThreeComplete();
    ThreeColumns();
    assert [0, 10, 0][1] != [0, 10, 0][0] && [0, 0, 10][2] != [0, 0, 10][0];
    assert NonConstant(Column(Three(), "d1")) && NonConstant(Column(Three(), "d2"));
    forall d | d in UsedColumns(Three())
      ensures NonConstant(Column(Three(), d))
    {
      assert d == "d1" || d == "d2";
    }
  }

  /** What the distance computation needs to know about Three(). */
  predicate ShapedLikeThree(data: seq<Record>) {
    && |data| == 3
    && Scalable(data, "d1") && Scalable(data, "d2")
    && Column(data, "d1") == [0, 10, 0] && Column(data, "d2") == [0, 0, 10]
    && SumOfSquares(Deviations([0, 10, 0])) == 600 && SumOfSquares(Deviations([0, 0, 10])) == 600
  }

  lemma ThreeShaped()
    ensures ShapedLikeThree(Three())
    ensures Admissible(Three()) && UsedColumns(Three()) == ["d1", "d2"]
  {
    ThreeAdmissible();
    ThreeColumns();
    ThreeVariances();
  }

  /**
   * On three records shaped like Three(), each dimension contributes
   * diff^2 / (100 / 3) to a pair.
   */
  lemma FirstDimensionOfThree(data: seq<Record>, i: nat, j: nat, a: int, b: int, r: real)
    requires ShapedLikeThree(data) && i < 3 && j < 3
    requires [0, 10, 0][i] == a && [0, 10, 0][j] == b
    requires r * 600.0 == ((a - b) * (a - b) * 18) as real
    ensures Contribution(data, "d1", i, j) == r
  {
    ContributionIs(data, "d1", i, j, [0, 10, 0], a, b, 600, r);
  }

  lemma SecondDimensionOfThree(data: seq<Record>, i: nat, j: nat, a: int, b: int, r: real)
    requires ShapedLikeThree(data) && i < 3 && j < 3
    requires [0, 0, 10][i] == a && [0, 0, 10][j] == b
    requires r * 600.0 == ((a - b) * (a - b) * 18) as real
    ensures Contribution(data, "d2", i, j) == r
  {
    ContributionIs(data, "d2", i, j, [0, 0, 10], a, b, 600, r);
  }

  lemma PairOfThree(data: seq<Record>, i: nat, j: nat, a1: int, b1: int, a2: int, b2: int, r1: real, r2: real)
    requires ShapedLikeThree(data) && i < 3 && j < 3
    requires [0, 10, 0][i] == a1 && [0, 10, 0][j] == b1 && [0, 0, 10][i] == a2 && [0, 0, 10][j] == b2
    requires r1 * 600.0 == ((a1 - b1) * (a1 - b1) * 18) as real
    requires r2 * 600.0 == ((a2 - b2) * (a2 - b2) * 18) as real
    ensures SumContributions(data, ["d1", "d2"], i, j) == r1 + r2
  {
    FirstDimensionOfThree(data, i, j, a1, b1, r1);
    SecondDimensionOfThree(data, i, j, a2, b2, r2);
    SumOfTwo(data, i, j);
  }

  lemma PairsOfThree(data: seq<Record>)
    requires ShapedLikeThree(data)
    ensures SumContributions(data, ["d1", "d2"], 0, 1) == 3.0
    ensures SumContributions(data, ["d1", "d2"], 0, 2) == 3.0
    ensures SumContributions(data, ["d1", "d2"], 1, 2) == 6.0
  {
    PairOfThree(data, 0, 1, 0, 10, 0, 0, 3.0, 0.0);
    PairOfThree(data, 0, 2, 0, 0, 0, 10, 0.0, 3.0);
    PairOfThree(data, 1, 2, 10, 0, 0, 10, 3.0, 3.0);
  }

  lemma CellsOfThree(data: seq<Record>, x: real, y: real, z: real)
    requires Admissible(data) && |data| == 3
    requires SumContributions(data, UsedColumns(data), 0, 1) == x
    requires SumContributions(data, UsedColumns(data), 0, 2) == y
    requires SumContributions(data, UsedColumns(data), 1, 2) == z
    ensures var m := SquaredTable(data).cells;
            && |m| == 3 && |m[0]| == 3 && |m[1]| == 3 && |m[2]| == 3
            && m[0][0] == 0.0 && m[1][1] == 0.0 && m[2][2] == 0.0
            && m[0][1] == x && m[1][0] == x && m[0][2] == y && m[2][0] == y && m[1][2] == z && m[2][1] == z
  {
    SquaredTableIsDistanceTable(data);
    SquaredCell(data, 0, 1);
    SquaredCell(data, 0, 2);
    SquaredCell(data, 1, 2);
  }

  /** The squared table of three records, given the sums for each pair. */
  lemma SquaredOfThree(data: seq<Record>, x: real, y: real, z: real)
    requires Admissible(data) && |data| == 3
    requires SumContributions(data, UsedColumns(data), 0, 1) == x
    requires SumContributions(data, UsedColumns(data), 0, 2) == y
    requires SumContributions(data, UsedColumns(data), 1, 2) == z
    ensures SquaredTable(data).cells == [[0.0, x, y], [x, 0.0, z], [y, z, 0.0]]
  {
    var m := SquaredTable(data).cells;
    CellsOfThree(data, x, y, z);
    ThreeElements(m[0], 0.0, x, y);
    ThreeElements(m[1], x, 0.0, z);
    ThreeElements(m[2], y, z, 0.0);
    ThreeElements(m, [0.0, x, y], [x, 0.0, z], [y, z, 0.0]);
  }

  lemma SquaredOfShaped(data: seq<Record>)
    requires ShapedLikeThree(data) && Admissible(data) && UsedColumns(data) == ["d1", "d2"]
    ensures SquaredTable(data).cells == [[0.0, 3.0, 3.0], [3.0, 0.0, 6.0], [3.0, 6.0, 0.0]]
  {
    PairsOfThree(data);
    SquaredOfThree(data, 3.0, 3.0, 6.0);
  }

  /** main.py's table for Three() is the root table of these squared distances: 3, 3 and 6. */
  lemma ThreeSquared()
    ensures Admissible(Three())
    ensures SquaredTable(Three()).cells == [[0.0, 3.0, 3.0], [3.0, 0.0, 6.0], [3.0, 6.0, 0.0]]
  {
    ThreeShaped();
    SquaredOfShaped(Three());
  }

  /** With k = 2 dimensions, functions.py's table halves the squared distances. */
  lemma ThreeNormalized()
    ensures Admissible(Three()) && UsedCount(Three()) == 2
    ensures NormalizedTable(Three()).cells == [[0.0, 1.5, 1.5], [1.5, 0.0, 3.0], [1.5, 3.0, 0.0]]
  {
    ThreeShaped();
    ThreeSquared();
    HalvedThree([[0.0, 3.0, 3.0], [3.0, 0.0, 6.0], [3.0, 6.0, 0.0]]);
  }

  lemma HalvedThree(m: seq<seq<real>>)
    requires m == [[0.0, 3.0, 3.0], [3.0, 0.0, 6.0], [3.0, 6.0, 0.0]]
    ensures DivideCells(m, 2.0) == [[0.0, 1.5, 1.5], [1.5, 0.0, 3.0], [1.5, 3.0, 0.0]]
  {
    var t := DivideCells(m, 2.0);
    assert t[0] == [0.0, 1.5, 1.5];
    assert t[1] == [1.5, 0.0, 3.0];
    assert t[2] == [1.5, 3.0, 0.0];
  }

  // ---------------------------------------------------------------------
  // A slice of the Culture Map catalog

  /** The Culture Map scales, in the order every record lists them. */
  const CultureMapKeys: seq<string> :=
    ["communicating", "evaluating", "leading", "deciding", "trusting", "disagreeing", "scheduling", "persuading"]

  /** A Culture Map record whose scores list `values` under the eight scales, in order. */
  function CultureMapRecord(id: int, name: string, code: string, iso: int, short: string, values: seq<int>): Record
    requires |values| == 8
  {
    Record(id, name, code, Some(iso), Some(short), seq(8, k requires 0 <= k < 8 => Entry(CultureMapKeys[k], values[k])))
  }

  /** The records for Argentina and Botswana; Botswana has no persuading score. */
  function CultureMapSlice(): seq<Record> {
    [CultureMapRecord(1, "Argentina", "ARG", 32, "AR", [55, 35, 60, 65, 72, 32, 76, 25]),
     CultureMapRecord(3, "Botswana", "BWA", 72, "BW", [80, 73, 90, 94, 96, 80, 96, -1])]
  }

  lemma CultureMapKeysDistinct()
    ensures Distinct(CultureMapKeys)
  {
  }

  lemma CultureMapGet(r: Record, values: seq<int>, k: nat)
    requires |values| == 8 && k < 8 && Distinct(CultureMapKeys)
    requires ScoredAs(r, values)
    ensures Keys(r.scores) == CultureMapKeys
    ensures Get(r.scores, CultureMapKeys[k]) == Some(values[k])
  {
    assert Keys(r.scores) == CultureMapKeys;
    var p := IndexOf(CultureMapKeys, CultureMapKeys[k]);
    assert p == k;
  }

  /** Dropping the last element from a filter that rejects only it. */
  lemma {:induction false} FilterDropsLast<T>(s: seq<T>, keep: T -> bool)
    requires |s| >= 1 && !keep(s[|s| - 1])
    requires forall i :: 0 <= i < |s| - 1 ==> keep(s[i])
    ensures Filter(s, keep) == s[..|s| - 1]
  {
    if |s| > 1 {
      FilterDropsLast(s[1..], keep);
      assert s[1..][..|s| - 2] == s[1..|s| - 1];
      assert s[..|s| - 1] == [s[0]] + s[1..|s| - 1];
    }
  }

  /** The scores a Culture Map record lists under the eight scales. */
  predicate ScoredAs(r: Record, values: seq<int>)
    requires |values| == 8
  {
    r.scores == seq(8, k requires 0 <= k < 8 => Entry(CultureMapKeys[k], values[k]))
  }

  /**
   * Two Culture Map records that score the first seven scales and of which
   * the second marks persuading as missing use exactly those seven scales.
   */
  lemma PersuadingDropped(data: seq<Record>, a: seq<int>, b: seq<int>)
    requires |data| == 2 && |a| == 8 && |b| == 8
    requires ScoredAs(data[0], a) && ScoredAs(data[1], b)
    requires forall k :: 0 <= k < 7 ==> a[k] != Missing && b[k] != Missing
    requires b[7] == Missing
    ensures UsedColumns(data) == CultureMapKeys[..7]
  {
    CultureMapKeysDistinct();
    SliceKeys(data, a, b);
    SharedKeysUsedColumns(data, CultureMapKeys);
    SliceSentinels(data, a, b);
    FilterDropsLast(CultureMapKeys, (d: string) => NoSentinel(data, d));
  }

  lemma SliceKeys(data: seq<Record>, a: seq<int>, b: seq<int>)
    requires |data| == 2 && |a| == 8 && |b| == 8 && Distinct(CultureMapKeys)
    requires ScoredAs(data[0], a) && ScoredAs(data[1], b)
    ensures forall i :: 0 <= i < |data| ==> Keys(data[i].scores) == CultureMapKeys
  {
    CultureMapGet(data[0], a, 0);
    CultureMapGet(data[1], b, 0);
  }

  lemma SliceSentinels(data: seq<Record>, a: seq<int>, b: seq<int>)
    requires |data| == 2 && |a| == 8 && |b| == 8 && Distinct(CultureMapKeys)
    requires ScoredAs(data[0], a) && ScoredAs(data[1], b)
    requires forall k :: 0 <= k < 7 ==> a[k] != Missing && b[k] != Missing
    requires b[7] == Missing
    ensures forall k :: 0 <= k < 7 ==> NoSentinel(data, CultureMapKeys[k])
    ensures !NoSentinel(data, CultureMapKeys[7])
  {
    forall k | 0 <= k < 7
      ensures NoSentinel(data, CultureMapKeys[k])
    {
      CultureMapGet(data[0], a, k);
      CultureMapGet(data[1], b, k);
    }
    CultureMapGet(data[1], b, 7);
  }

  /**
   * The completeness filter on the slice keeps the seven scales every record
   * scores and drops persuading, which Botswana marks as missing.
   */
  lemma CultureMapSliceColumns()
    ensures UsedColumns(CultureMapSlice()) == CultureMapKeys[..7]
  {
    PersuadingDropped(CultureMapSlice(), [55, 35, 60, 65, 72, 32, 76, 25], [80, 73, 90, 94, 96, 80, 96, -1]);
  }
  // ---------------------------------------------------------------------
  // Two countries with one profile

  /** A and B share a profile; C differs from both, so both columns vary. */
  function Shared(): seq<Record> {
    [Profile("A", 0, 0), Profile("B", 0, 0), Profile("C", 10, 10)]
  }

  lemma SharedColumns()
    ensures UsedColumns(Shared()) == ["d1", "d2"]
    ensures Column(Shared(), "d1") == [0, 0, 10] && Column(Shared(), "d2") == [0, 0, 10]
  {
    ProfileKeys("A", 0, 0);
    ProfileKeys("B", 0, 0);
    ProfileKeys("C", 10, 10);
    ProfileColumns(Shared());
    ThreeElements(Column(Shared(), "d1"), 0, 0, 10);
    ThreeElements(Column(Shared(), "d2"), 0, 0, 10);
  }

  /** Both variants report the minimum 0 of A and B as A paired with itself. */
  lemma SharedProfileWitness()
    ensures Admissible(Shared()) && UsedCount(Shared()) == 2
    ensures var r := FindMaxMinDistances(SquaredTable(Shared()));
            r.minimum.row == "A" && r.minimum.column == "A"
    ensures var r := FindMaxMinDistances(NormalizedTable(Shared()));
            r.minimum.row == "A" && r.minimum.column == "A"
  {
    SharedColumns();
    assert [0, 0, 10][2] != [0, 0, 10][0];
    forall d | d in UsedColumns(Shared())
      ensures NonConstant(Column(Shared(), d)) && Column(Shared(), d)[0] == Column(Shared(), d)[1]
    {
      assert d == "d1" || d == "d2";
    }
    SharedProfileReportedAsSelf(Shared(), 0, 1);
  }
}
