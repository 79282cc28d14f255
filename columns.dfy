/**
 * The completeness filter in front of both distance functions: the records'
 * `scores` dicts become one table whose columns are the union of their keys
 * in order of first appearance; `-1` is read as missing, and every column
 * with a missing cell is dropped.
 */
module Columns {
  import opened Util
  import opened Catalog

  /** Every record's keys, record after record, each in its own insertion order. */
  function KeyStream(data: seq<Record>): seq<string> {
    if data == [] then [] else KeyStream(data[..|data| - 1]) + Keys(data[|data| - 1].scores)
  }

  /** The columns of the table built from the records' dicts. */
  function AllColumns(data: seq<Record>): (r: seq<string>)
    ensures Distinct(r)
  {
    Dedup(KeyStream(data))
  }

  /** Every record holds `d`, and none holds the `Missing` sentinel there. */
  predicate Complete(data: seq<Record>, d: string) {
    forall i :: 0 <= i < |data| ==> Get(data[i].scores, d) != None && Get(data[i].scores, d) != Some(Missing)
  }

  /** The values of a complete column, in record order. */
  function Column(data: seq<Record>, d: string): (c: seq<int>)
    requires Complete(data, d)
    ensures |c| == |data|
    ensures forall i :: 0 <= i < |data| ==> Some(c[i]) == Get(data[i].scores, d) && c[i] != Missing
  {
    seq(|data|, i requires 0 <= i < |data| => Get(data[i].scores, d).value)
  }

  /** The dimensions both distance functions use: the complete columns, in column order. */
  function UsedColumns(data: seq<Record>): (r: seq<string>)
    ensures forall d :: d in r <==> d in AllColumns(data) && Complete(data, d)
  {
    FilterMembers(AllColumns(data), d => Complete(data, d));
    Filter(AllColumns(data), d => Complete(data, d))
  }

  lemma {:induction false} KeyStreamContains(data: seq<Record>, i: nat, d: string)
    requires i < |data| && d in Keys(data[i].scores)
    ensures d in KeyStream(data)
  {
    var init := data[..|data| - 1];
    if i < |data| - 1 {
      KeyStreamContains(init, i, d);
    }
  }

  /** Records that all hold the same keys, in the same order, give exactly those columns. */
  lemma {:induction false} SameKeysColumns(data: seq<Record>, ks: seq<string>)
    requires |data| >= 1 && Distinct(ks)
    requires forall i :: 0 <= i < |data| ==> Keys(data[i].scores) == ks
    ensures AllColumns(data) == ks
  {
    var init := data[..|data| - 1];
    if init == [] {
      assert KeyStream(data) == ks;
      DedupOfDistinct(ks);
    } else {
      SameKeysColumns(init, ks);
      forall x | x in ks ensures x in KeyStream(init) {
        KeyStreamContains(init, 0, x);
      }
      DedupAbsorbs(KeyStream(init), ks);
    }
  }

  /** A key occurs in the key stream exactly when some record holds it. */
  lemma {:induction false} KeyStreamMembers(data: seq<Record>, d: string)
    ensures d in KeyStream(data) <==> exists i :: 0 <= i < |data| && d in Keys(data[i].scores)
  {
    if exists i :: 0 <= i < |data| && d in Keys(data[i].scores) {
      var i :| 0 <= i < |data| && d in Keys(data[i].scores);
      KeyStreamContains(data, i, d);
    }
    if data != [] && d in KeyStream(data) {
      var init := data[..|data| - 1];
      KeyStreamMembers(init, d);
      if d in KeyStream(init) {
        var i :| 0 <= i < |init| && d in Keys(init[i].scores);
        assert init[i] == data[i];
      }
    }
  }

  /**
   * With at least one record, a dimension is used exactly when every record
   * holds it with a value other than `Missing`.
   */
  lemma UsedIffComplete(data: seq<Record>, d: string)
    requires |data| >= 1
    ensures d in UsedColumns(data) <==> Complete(data, d)
  {
    if Complete(data, d) {
      var s := data[0].scores;
      assert Get(s, d) != None;
      KeyStreamContains(data, 0, d);
      var ks := KeyStream(data);
      var k := IndexOf(ks, d);
      assert ks[k] in AllColumns(data);
    }
  }

  /** Used columns keep the order in which their keys first appear in the records. */
  lemma UsedColumnsFirstAppearanceOrder(data: seq<Record>, p: nat, q: nat)
    requires p < q < |UsedColumns(data)|
    ensures UsedColumns(data)[p] in KeyStream(data) && UsedColumns(data)[q] in KeyStream(data)
    ensures IndexOf(KeyStream(data), UsedColumns(data)[p]) < IndexOf(KeyStream(data), UsedColumns(data)[q])
  {
    var all := AllColumns(data);
    var used := UsedColumns(data);
    FilterKeepsOrder(all, d => Complete(data, d), p, q);
    var a, b := IndexOf(all, used[p]), IndexOf(all, used[q]);
    DedupKeepsFirstAppearanceOrder(KeyStream(data), a, b);
  }

  /** No record holds the `Missing` sentinel under `d`. */
  predicate NoSentinel(data: seq<Record>, d: string) {
    forall i :: 0 <= i < |data| ==> Get(data[i].scores, d) != Some(Missing)
  }

  /**
   * Records that all hold the same keys use exactly the keys under which no
   * record holds `Missing`, in key order.
   */
  lemma SharedKeysUsedColumns(data: seq<Record>, ks: seq<string>)
    requires |data| >= 1 && Distinct(ks)
    requires forall i :: 0 <= i < |data| ==> Keys(data[i].scores) == ks
    ensures UsedColumns(data) == Filter(ks, (d: string) => NoSentinel(data, d))
  {
    SameKeysColumns(data, ks);
    forall d | d in ks
      ensures Complete(data, d) == NoSentinel(data, d)
    {
      forall i | 0 <= i < |data|
        ensures Get(data[i].scores, d) != None
      {
        assert d in Keys(data[i].scores);
      }
    }
    FilterAgree(ks, d => Complete(data, d), (d: string) => NoSentinel(data, d));
  }
}
