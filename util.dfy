/** Small sequence and option utilities shared by every component. */
module Util {

  datatype Option<+T> = None | Some(value: T)

  /** No element occurs twice. */
  predicate Distinct<T(==)>(s: seq<T>) {
    forall i, j :: 0 <= i < j < |s| ==> s[i] != s[j]
  }

  /** Position of the first occurrence of `x` in `s`. */
  function IndexOf<T(==)>(s: seq<T>, x: T): (i: nat)
    requires x in s
    ensures i < |s| && s[i] == x
    ensures forall k :: 0 <= k < i ==> s[k] != x
  {
    if s[0] == x then 0 else 1 + IndexOf(s[1..], x)
  }

  lemma IndexOfPrefix<T>(s: seq<T>, t: seq<T>, x: T)
    requires x in s
    ensures x in s + t && IndexOf(s + t, x) == IndexOf(s, x)
  {
    var i := IndexOf(s, x);
    var j := IndexOf(s + t, x);
    assert (s + t)[i] == x;
    assert s[j] == x || j >= |s|;
  }

  /**
   * The elements of `s`, each once, in the order of their first appearance;
   * what pandas' `Series.unique` and the key union of a list of dicts produce.
   */
  function Dedup<T(==)>(s: seq<T>): (r: seq<T>)
    ensures Distinct(r)
    ensures forall i :: 0 <= i < |s| ==> s[i] in r
    ensures forall i :: 0 <= i < |r| ==> r[i] in s
  {
    if s == [] then []
    else
      var r := Dedup(s[..|s| - 1]);
      assert s == s[..|s| - 1] + [s[|s| - 1]];
      if s[|s| - 1] in r then r else r + [s[|s| - 1]]
  }

  /** Earlier elements of `Dedup(s)` appear earlier in `s`. */
  lemma {:induction false} DedupKeepsFirstAppearanceOrder<T>(s: seq<T>, p: nat, q: nat)
    requires p < q < |Dedup(s)|
    ensures IndexOf(s, Dedup(s)[p]) < IndexOf(s, Dedup(s)[q])
  {
    var init := s[..|s| - 1];
    var last := s[|s| - 1];
    assert s == init + [last];
    var r := Dedup(init);
    var x, y := Dedup(s)[p], Dedup(s)[q];
    IndexOfPrefix(init, [last], x);
    if q < |r| {
      DedupKeepsFirstAppearanceOrder(init, p, q);
      IndexOfPrefix(init, [last], y);
    } else {
      assert y == last && last !in init;
      assert forall k :: 0 <= k < |init| ==> s[k] == init[k] != y;
    }
  }

  /** A sequence without repetitions is its own `Dedup`. */
  lemma {:induction false} DedupOfDistinct<T>(s: seq<T>)
    requires Distinct(s)
    ensures Dedup(s) == s
  {
    if s != [] {
      var init := s[..|s| - 1];
      assert Distinct(init);
      DedupOfDistinct(init);
      assert s == init + [s[|s| - 1]];
    }
  }

  /** Appending elements that already occur adds nothing to `Dedup`. */
  lemma {:induction false} DedupAbsorbs<T>(s: seq<T>, t: seq<T>)
    requires forall x :: x in t ==> x in s
    ensures Dedup(s + t) == Dedup(s)
  {
    if t == [] {
      assert s + t == s;
    } else {
      var init := t[..|t| - 1];
      assert (s + t)[..|s + t| - 1] == s + init;
      DedupAbsorbs(s, init);
      var k := IndexOf(s, t[|t| - 1]);
      assert s[k] in Dedup(s);
    }
  }

  /** The elements of `s` that `keep` accepts, in the order of `s`. */
  function Filter<T>(s: seq<T>, keep: T -> bool): (r: seq<T>)
    ensures forall i :: 0 <= i < |r| ==> r[i] in s
  {
    if s == [] then []
    else
      var rest := Filter(s[1..], keep);
      if keep(s[0]) then [s[0]] + rest else rest
  }

  lemma {:induction false} FilterMembers<T>(s: seq<T>, keep: T -> bool)
    ensures forall x :: x in Filter(s, keep) <==> x in s && keep(x)
  {
    if s != [] {
      FilterMembers(s[1..], keep);
      assert s == [s[0]] + s[1..];
    }
  }

  /** A filter that accepts every element keeps the whole sequence. */
  lemma {:induction false} FilterAll<T>(s: seq<T>, keep: T -> bool)
    requires forall x :: x in s ==> keep(x)
    ensures Filter(s, keep) == s
  {
    if s != [] {
      assert forall x :: x in s[1..] ==> x in s;
      FilterAll(s[1..], keep);
    }
  }

  /** Filters that agree on every element of `s` select the same elements. */
  lemma {:induction false} FilterAgree<T>(s: seq<T>, keep: T -> bool, keep': T -> bool)
    requires forall x :: x in s ==> keep(x) == keep'(x)
    ensures Filter(s, keep) == Filter(s, keep')
  {
    if s != [] {
      assert forall x :: x in s[1..] ==> x in s;
      FilterAgree(s[1..], keep, keep');
    }
  }

  /** In a distinct sequence, the first occurrence of `s[i]` is `i`. */
  lemma DistinctIndex<T>(s: seq<T>, i: nat)
    requires Distinct(s) && i < |s|
    ensures IndexOf(s, s[i]) == i
  {
  }

  /** The positions in `s` of the elements `Filter(s, keep)` keeps, increasing. */
  function KeptPositions<T>(s: seq<T>, keep: T -> bool): (r: seq<nat>)
    ensures |r| == |Filter(s, keep)|
    ensures forall p :: 0 <= p < |r| ==> r[p] < |s| && Filter(s, keep)[p] == s[r[p]]
    ensures forall p, q :: 0 <= p < q < |r| ==> r[p] < r[q]
  {
    if s == [] then []
    else
      var t := KeptPositions(s[1..], keep);
      var rest := seq(|t|, i requires 0 <= i < |t| => t[i] + 1);
      if keep(s[0]) then [0] + rest else rest
  }

  /** Filtering a distinct sequence keeps the relative order of what it keeps. */
  lemma FilterKeepsOrder<T>(s: seq<T>, keep: T -> bool, p: nat, q: nat)
    requires Distinct(s) && p < q < |Filter(s, keep)|
    ensures Filter(s, keep)[p] in s && Filter(s, keep)[q] in s
    ensures IndexOf(s, Filter(s, keep)[p]) < IndexOf(s, Filter(s, keep)[q])
  {
    var at := KeptPositions(s, keep);
    DistinctIndex(s, at[p]);
    DistinctIndex(s, at[q]);
  }

  /** `s` with position `k` removed, as `Series.drop` of one label does. */
  function Without<T>(s: seq<T>, k: nat): (r: seq<T>)
    requires k < |s|
    ensures |r| == |s| - 1
    ensures forall p :: 0 <= p < |r| ==> r[p] == s[if p < k then p else p + 1]
  {
    s[..k] + s[k + 1..]
  }

  /** Sum of a sequence of reals, folded from the front as `sum()` does. */
  function Sum(s: seq<real>): real {
    if s == [] then 0.0 else Sum(s[..|s| - 1]) + s[|s| - 1]
  }

  lemma {:induction false} SumAppend(s: seq<real>, t: seq<real>)
    ensures Sum(s + t) == Sum(s) + Sum(t)
  {
    if t == [] {
      assert s + t == s;
    } else {
      assert (s + t)[..|s + t| - 1] == s + t[..|t| - 1];
      SumAppend(s, t[..|t| - 1]);
    }
  }

  /** A sum of non-negative terms is non-negative. */
  lemma {:induction false} SumNonNegative(s: seq<real>)
    requires forall i :: 0 <= i < |s| ==> s[i] >= 0.0
    ensures Sum(s) >= 0.0
  {
    if s != [] { SumNonNegative(s[..|s| - 1]); }
  }

  lemma {:induction false} SumWithout(s: seq<real>, k: nat)
    requires k < |s|
    ensures Sum(Without(s, k)) == Sum(s) - s[k]
  {
    assert s == s[..k] + [s[k]] + s[k + 1..];
    SumAppend(s[..k] + [s[k]], s[k + 1..]);
    SumAppend(s[..k], [s[k]]);
    SumAppend(s[..k], s[k + 1..]);
  }

  function Plus(a: seq<real>, b: seq<real>): (c: seq<real>)
    requires |a| == |b|
    ensures |c| == |a| && forall j :: 0 <= j < |a| ==> c[j] == a[j] + b[j]
  {
    seq(|a|, j requires 0 <= j < |a| => a[j] + b[j])
  }

  function Minus(a: seq<real>, b: seq<real>): (c: seq<real>)
    requires |a| == |b|
    ensures |c| == |a| && forall j :: 0 <= j < |a| ==> c[j] == a[j] - b[j]
  {
    seq(|a|, j requires 0 <= j < |a| => a[j] - b[j])
  }

  function DividedBy(a: seq<real>, k: real): (c: seq<real>)
    requires k != 0.0
    ensures |c| == |a| && forall j :: 0 <= j < |a| ==> c[j] == a[j] / k
  {
    seq(|a|, j requires 0 <= j < |a| => a[j] / k)
  }

  lemma {:induction false} SumPlus(a: seq<real>, b: seq<real>)
    requires |a| == |b|
    ensures Sum(Plus(a, b)) == Sum(a) + Sum(b)
  {
    if a != [] {
      var n := |a|;
      assert Plus(a, b)[..n - 1] == Plus(a[..n - 1], b[..n - 1]);
      SumPlus(a[..n - 1], b[..n - 1]);
    }
  }

  lemma {:induction false} SumMinus(a: seq<real>, b: seq<real>)
    requires |a| == |b|
    ensures Sum(Minus(a, b)) == Sum(a) - Sum(b)
  {
    if a != [] {
      var n := |a|;
      assert Minus(a, b)[..n - 1] == Minus(a[..n - 1], b[..n - 1]);
      SumMinus(a[..n - 1], b[..n - 1]);
    }
  }

  lemma {:induction false} SumDividedBy(a: seq<real>, k: real)
    requires k != 0.0
    ensures Sum(DividedBy(a, k)) == Sum(a) / k
  {
    if a != [] {
      var n := |a|;
      assert DividedBy(a, k)[..n - 1] == DividedBy(a[..n - 1], k);
      SumDividedBy(a[..n - 1], k);
    }
  }

  lemma {:induction false} SumZero(z: seq<real>)
    requires forall j :: 0 <= j < |z| ==> z[j] == 0.0
    ensures Sum(z) == 0.0
  {
    if z != [] { SumZero(z[..|z| - 1]); }
  }
}
