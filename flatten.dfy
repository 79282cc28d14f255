/**
 * The flattening in front of the highlighted box plot (functions.py): the
 * distances of all pairs i < j in row-major order, and a dict from both
 * orders of each pair of names to their distance; then the values of the
 * requested pairs that the dict holds, in request order.
 */
module Flatten {
  import opened Util
  import opened Frames

  /** The cells right of the diagonal in rows 0 .. r - 1, row after row. */
  function Upper(m: seq<seq<real>>, r: nat): seq<real>
    requires IsSquare(m) && r <= |m|
  {
    if r == 0 then [] else Upper(m, r - 1) + m[r - 1][r..]
  }

  /** The strict upper triangle in row-major order. */
  function UpperTriangle(m: seq<seq<real>>): seq<real>
    requires IsSquare(m)
  {
    Upper(m, |m|)
  }

  /** The cells of row `i` right of the diagonal and left of column `j`. */
  function RowPart(m: seq<seq<real>>, i: nat, j: nat): seq<real>
    requires IsSquare(m) && i < |m| && j <= |m|
  {
    if j <= i + 1 then [] else m[i][i + 1..j]
  }

  /** `distance_df.loc[a, b]`: the cell in the row labelled `a` and the column labelled `b`. */
  function Loc(f: Frame, a: string, b: string): real
    requires WellShaped(f) && a in f.labels && b in f.labels
  {
    f.cells[IndexOf(f.labels, a)][IndexOf(f.labels, b)]
  }

  lemma LocOfDistinct(f: Frame, i: nat, j: nat)
    requires WellShaped(f) && Distinct(f.labels) && i < |f.labels| && j < |f.labels|
    ensures Loc(f, f.labels[i], f.labels[j]) == f.cells[i][j]
  {
    assert IndexOf(f.labels, f.labels[i]) == i;
    assert IndexOf(f.labels, f.labels[j]) == j;
  }

  /** `key` is pair (p, q) of names, in one order or the other. */
  predicate PairKey(f: Frame, key: (string, string), p: nat, q: nat)
    requires p < |f.labels| && q < |f.labels|
  {
    key == (f.labels[p], f.labels[q]) || key == (f.labels[q], f.labels[p])
  }

  /** Both orders of pair (p, q) of names map to cell (p, q). */
  predicate PairStored(pairs: map<(string, string), real>, f: Frame, p: nat, q: nat)
    requires WellShaped(f) && p < |f.labels| && q < |f.labels|
  {
    && (f.labels[p], f.labels[q]) in pairs && pairs[(f.labels[p], f.labels[q])] == f.cells[p][q]
    && (f.labels[q], f.labels[p]) in pairs && pairs[(f.labels[q], f.labels[p])] == f.cells[p][q]
  }

  /** The nested loop over (i, j) has reached pair (p, q). */
  predicate Processed(p: nat, q: nat, i: nat, j: nat) {
    p < i || (p == i && q < j)
  }

  /**
   * The nested index loop: `distances` gets the cells above the diagonal in
   * row-major order, `pairToDistance` both orders of every pair of names.
   */
  method FlattenPairs(f: Frame) returns (distances: seq<real>, pairToDistance: map<(string, string), real>)
    requires WellShaped(f) && Distinct(f.labels)
    ensures distances == UpperTriangle(f.cells)
    ensures forall p, q :: 0 <= p < q < |f.labels| ==> PairStored(pairToDistance, f, p, q)
    ensures forall key :: key in pairToDistance ==>
              exists p, q :: 0 <= p < q < |f.labels| && PairKey(f, key, p, q)
  {
    var n := |f.labels|;
    var m := f.cells;
    distances := [];
    pairToDistance := map[];
    var i := 0;
    while i < n
      invariant 0 <= i <= n
      invariant distances == Upper(m, i)
      invariant forall p, q :: 0 <= p < q < n && p < i ==> PairStored(pairToDistance, f, p, q)
      invariant forall key :: key in pairToDistance ==>
                  exists p, q :: 0 <= p < q < n && p < i && PairKey(f, key, p, q)
    {
      var j := 0;
      while j < n
        invariant 0 <= j <= n
        invariant distances == Upper(m, i) + RowPart(m, i, j)
        invariant forall p, q :: 0 <= p < q < n && Processed(p, q, i, j) ==> PairStored(pairToDistance, f, p, q)
        invariant forall key :: key in pairToDistance ==>
                    exists p, q :: 0 <= p < q < n && Processed(p, q, i, j) && PairKey(f, key, p, q)
      {
        if i < j {
          LocOfDistinct(f, i, j);
          var distance := Loc(f, f.labels[i], f.labels[j]);
          distances := distances + [distance];
          var before := pairToDistance;
          pairToDistance := pairToDistance[(f.labels[i], f.labels[j]) := distance][(f.labels[j], f.labels[i]) := distance];
          StoreKeepsPairs(before, f, i, j, distance);
          assert PairKey(f, (f.labels[i], f.labels[j]), i, j);
          assert PairKey(f, (f.labels[j], f.labels[i]), i, j);
        }
        j := j + 1;
      }
      assert m[i][i + 1..] == RowPart(m, i, n);
      i := i + 1;
    }
  }

  /** Storing pair (i, j) keeps the pairs before it, because the names are distinct. */
  lemma StoreKeepsPairs(pairs: map<(string, string), real>, f: Frame, i: nat, j: nat, d: real)
    requires WellShaped(f) && Distinct(f.labels) && i < j < |f.labels| && d == f.cells[i][j]
    requires forall p, q :: 0 <= p < q < |f.labels| && Processed(p, q, i, j) ==> PairStored(pairs, f, p, q)
    ensures var l := f.labels;
            var stored := pairs[(l[i], l[j]) := d][(l[j], l[i]) := d];
            forall p, q :: 0 <= p < q < |l| && Processed(p, q, i, j + 1) ==> PairStored(stored, f, p, q)
  {
    var l := f.labels;
    var stored := pairs[(l[i], l[j]) := d][(l[j], l[i]) := d];
    forall p, q | 0 <= p < q < |l| && Processed(p, q, i, j + 1)
      ensures PairStored(stored, f, p, q)
    {
      if p == i && q == j {
      } else {
        assert Processed(p, q, i, j) && PairStored(pairs, f, p, q);
        assert (l[p], l[q]) != (l[i], l[j]) && (l[p], l[q]) != (l[j], l[i]);
        assert (l[q], l[p]) != (l[i], l[j]) && (l[q], l[p]) != (l[j], l[i]);
      }
    }
  }

  /** With distinct names, the dict holds a key exactly when it pairs two different names. */
  lemma PairKeysExactly(f: Frame, pairs: map<(string, string), real>, a: string, b: string)
    requires WellShaped(f) && Distinct(f.labels)
    requires forall p, q :: 0 <= p < q < |f.labels| ==> PairStored(pairs, f, p, q)
    requires forall key :: key in pairs ==> exists p, q :: 0 <= p < q < |f.labels| && PairKey(f, key, p, q)
    ensures (a, b) in pairs <==> a in f.labels && b in f.labels && a != b
  {
    var l := f.labels;
    if a in l && b in l && a != b {
      var p, q := IndexOf(l, a), IndexOf(l, b);
      if p < q { assert PairStored(pairs, f, p, q); } else { assert PairStored(pairs, f, q, p); }
    }
  }

  /** Both orders of a pair of names map to that pair's cell above the diagonal. */
  lemma PairValue(f: Frame, pairs: map<(string, string), real>, p: nat, q: nat)
    requires WellShaped(f) && p < |f.labels| && q < |f.labels| && p != q
    requires forall p, q :: 0 <= p < q < |f.labels| ==> PairStored(pairs, f, p, q)
    ensures (f.labels[p], f.labels[q]) in pairs
    ensures pairs[(f.labels[p], f.labels[q])] == if p < q then f.cells[p][q] else f.cells[q][p]
  {
    if p < q { assert PairStored(pairs, f, p, q); } else { assert PairStored(pairs, f, q, p); }
  }

  lemma {:induction false} UpperLength(m: seq<seq<real>>, r: nat)
    requires IsSquare(m) && r <= |m|
    ensures 2 * |Upper(m, r)| == r * (2 * |m| - r - 1)
  {
    if r > 0 {
      UpperLength(m, r - 1);
    }
  }

  /** The flattened list holds n (n - 1) / 2 distances. */
  lemma UpperTriangleLength(m: seq<seq<real>>)
    requires IsSquare(m)
    ensures 2 * |UpperTriangle(m)| == |m| * (|m| - 1)
  {
    UpperLength(m, |m|);
  }

  lemma {:induction false} UpperPrefix(m: seq<seq<real>>, p: nat, r: nat)
    requires IsSquare(m) && p <= r <= |m|
    ensures |Upper(m, p)| <= |Upper(m, r)| && Upper(m, r)[..|Upper(m, p)|] == Upper(m, p)
  {
    if p < r {
      UpperPrefix(m, p, r - 1);
    }
  }

  /** p (2n - p - 1) / 2: the number of pairs (i, j), i < j < n, with i < p. */
  function RowOffset(n: nat, p: nat): int {
    p * (2 * n - p - 1) / 2
  }

  /** Row p of the flattened list starts after the p (2n - p - 1) / 2 cells of the rows before it. */
  lemma RowStart(m: seq<seq<real>>, p: nat)
    requires IsSquare(m) && p <= |m|
    ensures |Upper(m, p)| == RowOffset(|m|, p)
  {
    UpperLength(m, p);
    HalfOfDouble(p * (2 * |m| - p - 1), |Upper(m, p)|);
  }

  /** Pair (p, q), p < q, sits q - p - 1 cells into row p of the flattened list. */
  lemma UpperCell(m: seq<seq<real>>, p: nat, q: nat)
    requires IsSquare(m) && p < q < |m|
    ensures |Upper(m, p)| + (q - p - 1) < |UpperTriangle(m)|
    ensures UpperTriangle(m)[|Upper(m, p)| + (q - p - 1)] == m[p][q]
  {
    var n := |m|;
    UpperPrefix(m, p + 1, n);
    var k := |Upper(m, p)| + (q - p - 1);
    assert Upper(m, p + 1) == Upper(m, p) + m[p][p + 1..];
    assert Upper(m, p + 1)[k] == m[p][q];
    var whole := Upper(m, n);
    assert whole[k] == whole[..|Upper(m, p + 1)|][k];
  }

  /**
   * Pair (p, q), p < q, sits at position p (2n - p - 1) / 2 + (q - p - 1) of
   * the flattened list.
   */
  lemma UpperTriangleCell(m: seq<seq<real>>, p: nat, q: nat)
    requires IsSquare(m) && p < q < |m|
    ensures var k := RowOffset(|m|, p) + (q - p - 1);
            0 <= k < |UpperTriangle(m)| && UpperTriangle(m)[k] == m[p][q]
  {
    RowStart(m, p);
    UpperCell(m, p, q);
  }

  lemma HalfOfDouble(x: int, h: int)
    requires x == 2 * h
    ensures x / 2 == h
  {
  }

  /** Every flattened distance is a cell above the diagonal. */
  lemma {:induction false} UpperMembers(m: seq<seq<real>>, r: nat, k: nat)
    requires IsSquare(m) && r <= |m| && k < |Upper(m, r)|
    ensures exists p, q :: 0 <= p < q < |m| && p < r && Upper(m, r)[k] == m[p][q]
  {
    var prev := Upper(m, r - 1);
    if k < |prev| {
      UpperMembers(m, r - 1, k);
      assert Upper(m, r)[k] == prev[k];
    } else {
      var q := r + (k - |prev|);
      assert Upper(m, r)[k] == m[r - 1][q];
    }
  }

  // ---------------------------------------------------------------------
  // Highlighted pairs

  /** `[pairs[p] for p in requests if p in pairs]` */
  function HighlightedValues(pairs: map<(string, string), real>, requests: seq<(string, string)>): (r: seq<real>)
    ensures |r| <= |requests|
  {
    if requests == [] then []
    else (if requests[0] in pairs then [pairs[requests[0]]] else []) + HighlightedValues(pairs, requests[1..])
  }

  /** Request order is kept: the values of two request lists, one after the other. */
  lemma {:induction false} HighlightedAppend(pairs: map<(string, string), real>, a: seq<(string, string)>, b: seq<(string, string)>)
    ensures HighlightedValues(pairs, a + b) == HighlightedValues(pairs, a) + HighlightedValues(pairs, b)
  {
    if a == [] {
      assert a + b == b;
    } else {
      assert (a + b)[0] == a[0];
      assert (a + b)[1..] == a[1..] + b;
      HighlightedAppend(pairs, a[1..], b);
    }
  }

  /** When every requested pair is known, there is one value per request, in request order. */
  lemma {:induction false} HighlightedAllPresent(pairs: map<(string, string), real>, requests: seq<(string, string)>)
    requires forall k :: 0 <= k < |requests| ==> requests[k] in pairs
    ensures |HighlightedValues(pairs, requests)| == |requests|
    ensures forall k :: 0 <= k < |requests| ==> HighlightedValues(pairs, requests)[k] == pairs[requests[k]]
  {
    if requests != [] {
      HighlightedAllPresent(pairs, requests[1..]);
    }
  }

  /** Unknown pairs are skipped. */
  lemma {:induction false} HighlightedSkipsAbsent(pairs: map<(string, string), real>, requests: seq<(string, string)>)
    requires forall k :: 0 <= k < |requests| ==> requests[k] !in pairs
    ensures HighlightedValues(pairs, requests) == []
  {
    if requests != [] {
      HighlightedSkipsAbsent(pairs, requests[1..]);
    }
  }

  /** Every highlighted value is the value of a requested pair the dict holds. */
  lemma {:induction false} HighlightedMembers(pairs: map<(string, string), real>, requests: seq<(string, string)>, x: real)
    ensures x in HighlightedValues(pairs, requests) <==>
            exists k :: 0 <= k < |requests| && requests[k] in pairs && pairs[requests[k]] == x
  {
    if requests != [] {
      HighlightedMembers(pairs, requests[1..], x);
      if exists k :: 0 <= k < |requests[1..]| && requests[1..][k] in pairs && pairs[requests[1..][k]] == x {
        var k :| 0 <= k < |requests[1..]| && requests[1..][k] in pairs && pairs[requests[1..][k]] == x;
        assert requests[k + 1] == requests[1..][k];
      }
      if exists k :: 0 <= k < |requests| && requests[k] in pairs && pairs[requests[k]] == x {
        var k :| 0 <= k < |requests| && requests[k] in pairs && pairs[requests[k]] == x;
        if k > 0 { assert requests[1..][k - 1] == requests[k]; }
      }
    }
  }
}
