/**
 * The conversion of the Hofstede table into catalog records (convert_data.py):
 * the parsed CSV rows (ctr, country, cultural dimension, Value) are grouped
 * into one record per distinct country, in order of first appearance.
 */
module Conversion {
  import opened Util
  import opened Catalog

  /** One parsed CSV row. */
  datatype Row = Row(ctr: string, country: string, dimension: string, value: int)

  /** The `country` column. */
  function Countries(rows: seq<Row>): (r: seq<string>)
    ensures |r| == |rows| && forall i :: 0 <= i < |rows| ==> r[i] == rows[i].country
  {
    seq(|rows|, i requires 0 <= i < |rows| => rows[i].country)
  }

  /** `data[data["country"] == country]`: that country's rows, in table order. */
  function CountryRows(rows: seq<Row>, country: string): seq<Row> {
    Filter(rows, (r: Row) => r.country == country)
  }

  /**
   * The dict comprehension over a country's rows, on top of `acc`: each row
   * stores its value under its dimension, so a later row overwrites an
   * earlier one while the key keeps its first position.
   */
  function ScoresInto(acc: Scores, rs: seq<Row>): Scores
    decreases rs
  {
    if rs == [] then acc else ScoresInto(Put(acc, rs[0].dimension, rs[0].value), rs[1..])
  }

  /** The record the loop body appends for `country`. */
  function RecordFor(rows: seq<Row>, country: string): Record
    requires country in Countries(rows)
  {
    var countryData := CountryRows(rows, country);
    FirstCountryRow(rows, country);
    Record(IndexOf(Countries(rows), country), country, countryData[0].ctr, None, None, ScoresInto([], countryData))
  }

  /** The records, one per entry of `data["country"].unique()`. */
  function Hierarchical(rows: seq<Row>): (h: seq<Record>)
    ensures |h| == |Dedup(Countries(rows))|
  {
    var unique := Dedup(Countries(rows));
    seq(|unique|, k requires 0 <= k < |unique| => RecordFor(rows, unique[k]))
  }

  /** The loop over `unique_countries` that appends one record per country. */
  method ToHierarchical(rows: seq<Row>) returns (hierarchicalData: seq<Record>)
    ensures hierarchicalData == Hierarchical(rows)
  {
    var uniqueCountries := Dedup(Countries(rows));
    hierarchicalData := [];
    var k := 0;
    while k < |uniqueCountries|
      invariant 0 <= k <= |uniqueCountries|
      invariant hierarchicalData == Hierarchical(rows)[..k]
    {
      var country := uniqueCountries[k];
      var countryData := CountryRows(rows, country);
      FirstCountryRow(rows, country);
      var scores := ScoresInto([], countryData);
      var record := Record(IndexOf(Countries(rows), country), country, countryData[0].ctr, None, None, scores);
      hierarchicalData := hierarchicalData + [record];
      k := k + 1;
    }
  }

  // ---------------------------------------------------------------------
  // Grouping

  /** The first row of a country's group is the country's first row in the table. */
  lemma {:induction false} FirstCountryRow(rows: seq<Row>, country: string)
    requires country in Countries(rows)
    ensures |CountryRows(rows, country)| >= 1
    ensures CountryRows(rows, country)[0] == rows[IndexOf(Countries(rows), country)]
  {
    if rows[0].country != country {
      assert Countries(rows[1..]) == Countries(rows)[1..];
      FirstCountryRow(rows[1..], country);
    }
  }

  /** The dict comprehension ignores rows of other countries. */
  function ScoresFor(acc: Scores, rows: seq<Row>, country: string): Scores
    decreases rows
  {
    if rows == [] then acc
    else if rows[0].country == country then ScoresFor(Put(acc, rows[0].dimension, rows[0].value), rows[1..], country)
    else ScoresFor(acc, rows[1..], country)
  }

  lemma {:induction false} GroupThenFold(acc: Scores, rows: seq<Row>, country: string)
    ensures ScoresInto(acc, CountryRows(rows, country)) == ScoresFor(acc, rows, country)
    decreases rows
  {
    if rows != [] {
      GroupThenFold(Put(acc, rows[0].dimension, rows[0].value), rows[1..], country);
      GroupThenFold(acc, rows[1..], country);
    }
  }

  /** Row `i` is a row of `country` for dimension `d`. */
  predicate Matches(rows: seq<Row>, i: nat, country: string, d: string)
    requires i < |rows|
  {
    rows[i].country == country && rows[i].dimension == d
  }

  /** Row `i` is the last row of `country` for dimension `d`. */
  predicate LastMatch(rows: seq<Row>, i: nat, country: string, d: string)
    requires i < |rows|
  {
    Matches(rows, i, country, d) && forall j :: i < j < |rows| ==> !Matches(rows, j, country, d)
  }

  lemma {:induction false} FoldKeys(acc: Scores, rows: seq<Row>, country: string, d: string)
    ensures d in Keys(ScoresFor(acc, rows, country)) <==>
            d in Keys(acc) || exists i :: 0 <= i < |rows| && Matches(rows, i, country, d)
    ensures WellFormed(acc) ==> WellFormed(ScoresFor(acc, rows, country))
    decreases rows
  {
    if rows != [] {
      var tail := rows[1..];
      var next := if rows[0].country == country then Put(acc, rows[0].dimension, rows[0].value) else acc;
      FoldKeys(next, tail, country, d);
      if rows[0].country == country {
        assert Get(next, rows[0].dimension).Some?;
        assert d in Keys(next) <==> d in Keys(acc) || Matches(rows, 0, country, d);
      } else {
        assert !Matches(rows, 0, country, d);
      }
      if exists i :: 0 <= i < |tail| && Matches(tail, i, country, d) {
        var i :| 0 <= i < |tail| && Matches(tail, i, country, d);
        assert Matches(rows, i + 1, country, d);
      }
      if exists i :: 0 <= i < |rows| && Matches(rows, i, country, d) {
        var i :| 0 <= i < |rows| && Matches(rows, i, country, d);
        if i > 0 { assert Matches(tail, i - 1, country, d); }
      }
    }
  }

  lemma {:induction false} FoldUntouched(acc: Scores, rows: seq<Row>, country: string, d: string)
    requires forall i :: 0 <= i < |rows| ==> !Matches(rows, i, country, d)
    ensures Get(ScoresFor(acc, rows, country), d) == Get(acc, d)
    decreases rows
  {
    if rows != [] {
      var next := if rows[0].country == country then Put(acc, rows[0].dimension, rows[0].value) else acc;
      var tail := rows[1..];
      assert !Matches(rows, 0, country, d);
      forall i | 0 <= i < |tail| ensures !Matches(tail, i, country, d) {
        assert !Matches(rows, i + 1, country, d);
      }
      FoldUntouched(next, tail, country, d);
    }
  }

  lemma {:induction false} FoldLastWins(acc: Scores, rows: seq<Row>, country: string, d: string, i: nat)
    requires i < |rows| && LastMatch(rows, i, country, d)
    ensures Get(ScoresFor(acc, rows, country), d) == Some(rows[i].value)
    decreases rows
  {
    var next := if rows[0].country == country then Put(acc, rows[0].dimension, rows[0].value) else acc;
    var tail := rows[1..];
    forall j | i <= j < |tail| ensures !Matches(tail, j, country, d) {
      assert !Matches(rows, j + 1, country, d);
    }
    if i == 0 {
      FoldUntouched(next, tail, country, d);
    } else {
      assert Matches(tail, i - 1, country, d);
      FoldLastWins(next, tail, country, d, i - 1);
    }
  }

  // ---------------------------------------------------------------------
  // What the converted records hold

  /** One record per distinct country: names are distinct, and every country of the table has one. */
  lemma HierarchicalNames(rows: seq<Row>, country: string)
    ensures Names(Hierarchical(rows)) == Dedup(Countries(rows))
    ensures Distinct(Names(Hierarchical(rows)))
    ensures country in Names(Hierarchical(rows)) <==> exists i :: 0 <= i < |rows| && rows[i].country == country
  {
    var h, unique := Hierarchical(rows), Dedup(Countries(rows));
    assert forall k :: 0 <= k < |h| ==> h[k].name == unique[k];
    assert Names(h) == unique;
    if exists i :: 0 <= i < |rows| && rows[i].country == country {
      var i :| 0 <= i < |rows| && rows[i].country == country;
      assert Countries(rows)[i] == country;
    }
  }

  /** Records come in the order in which their countries first appear in the table. */
  lemma HierarchicalOrder(rows: seq<Row>, p: nat, q: nat)
    requires p < q < |Hierarchical(rows)|
    ensures Hierarchical(rows)[p].id < Hierarchical(rows)[q].id
  {
    DedupKeepsFirstAppearanceOrder(Countries(rows), p, q);
  }

  /**
   * A record's id is the position of its country's first row, its datamapId
   * that row's ctr, and it has no ISO codes.
   */
  lemma RecordIdentity(rows: seq<Row>, k: nat)
    requires k < |Hierarchical(rows)|
    ensures var r := Hierarchical(rows)[k];
            && 0 <= r.id < |rows| && rows[r.id].country == r.name
            && (forall j :: 0 <= j < r.id ==> rows[j].country != r.name)
            && r.datamapId == rows[r.id].ctr
            && r.isoCode == None && r.isoShortCode == None
  {
    var country := Dedup(Countries(rows))[k];
    FirstCountryRow(rows, country);
  }

  /**
   * A record's scores hold exactly the dimensions of its country's rows; for
   * each, the value of the last such row.
   */
  lemma RecordScores(rows: seq<Row>, k: nat, d: string)
    requires k < |Hierarchical(rows)|
    ensures var r := Hierarchical(rows)[k];
            && WellFormed(r.scores)
            && (d in Keys(r.scores) <==> exists i :: 0 <= i < |rows| && Matches(rows, i, r.name, d))
            && (forall i :: 0 <= i < |rows| && LastMatch(rows, i, r.name, d) ==> Get(r.scores, d) == Some(rows[i].value))
  {
    var country := Dedup(Countries(rows))[k];
    GroupThenFold([], rows, country);
    FoldKeys([], rows, country, d);
    forall i | 0 <= i < |rows| && LastMatch(rows, i, country, d)
      ensures Get(ScoresFor([], rows, country), d) == Some(rows[i].value)
    {
      FoldLastWins([], rows, country, d, i);
    }
  }

  // ---------------------------------------------------------------------
  // Counting entries

  /** Every (name, key) pair of the records' scores, record after record. */
  function Entries(h: seq<Record>): seq<(string, string)> {
    if h == [] then [] else Entries(h[..|h| - 1]) + RecordEntries(h[|h| - 1])
  }

  function RecordEntries(r: Record): (e: seq<(string, string)>)
    ensures |e| == |r.scores| && forall j :: 0 <= j < |e| ==> e[j] == (r.name, r.scores[j].key)
  {
    seq(|r.scores|, j requires 0 <= j < |r.scores| => (r.name, r.scores[j].key))
  }

  /** The number of score entries over all records. */
  function EntryCount(h: seq<Record>): nat {
    if h == [] then 0 else EntryCount(h[..|h| - 1]) + |h[|h| - 1].scores|
  }

  lemma {:induction false} EntriesLength(h: seq<Record>)
    ensures |Entries(h)| == EntryCount(h)
  {
    if h != [] { EntriesLength(h[..|h| - 1]); }
  }

  lemma {:induction false} EntriesMembers(h: seq<Record>, c: string, d: string)
    ensures (c, d) in Entries(h) <==> exists k :: 0 <= k < |h| && h[k].name == c && d in Keys(h[k].scores)
  {
    if h != [] {
      var init, last := h[..|h| - 1], h[|h| - 1];
      EntriesMembers(init, c, d);
      if (c, d) in RecordEntries(last) {
        var j :| 0 <= j < |last.scores| && RecordEntries(last)[j] == (c, d);
        assert Keys(last.scores)[j] == d;
      }
      if c == last.name && d in Keys(last.scores) {
        var j :| 0 <= j < |last.scores| && Keys(last.scores)[j] == d;
        assert RecordEntries(last)[j] == (c, d);
      }
      if exists k :: 0 <= k < |init| && init[k].name == c && d in Keys(init[k].scores) {
        var k :| 0 <= k < |init| && init[k].name == c && d in Keys(init[k].scores);
        assert h[k] == init[k];
      }
      if exists k :: 0 <= k < |h| && h[k].name == c && d in Keys(h[k].scores) {
        var k :| 0 <= k < |h| && h[k].name == c && d in Keys(h[k].scores);
        if k < |init| { assert init[k] == h[k]; }
      }
    }
  }

  lemma {:induction false} EntriesDistinct(h: seq<Record>)
    requires Distinct(Names(h))
    requires forall k :: 0 <= k < |h| ==> WellFormed(h[k].scores)
    ensures Distinct(Entries(h))
  {
    if h != [] {
      var init, last := h[..|h| - 1], h[|h| - 1];
      assert Names(init) == Names(h)[..|h| - 1];
      EntriesDistinct(init);
      var a, b := Entries(init), RecordEntries(last);
      assert Distinct(b) by {
        forall p, q | 0 <= p < q < |b| ensures b[p] != b[q] {
          assert Keys(last.scores)[p] != Keys(last.scores)[q];
        }
      }
      forall p, q | 0 <= p < |a| && 0 <= q < |b| ensures a[p] != b[q] {
        EntriesMembers(init, a[p].0, a[p].1);
        var k :| 0 <= k < |init| && init[k].name == a[p].0 && a[p].1 in Keys(init[k].scores);
        assert Names(h)[k] != Names(h)[|h| - 1];
      }
      DistinctConcat(a, b);
    }
  }

  lemma DistinctConcat<T>(a: seq<T>, b: seq<T>)
    requires Distinct(a) && Distinct(b)
    requires forall p, q :: 0 <= p < |a| && 0 <= q < |b| ==> a[p] != b[q]
    ensures Distinct(a + b)
  {
    var s := a + b;
    forall p, q | 0 <= p < q < |s| ensures s[p] != s[q] {
      if q < |a| {
        assert s[p] == a[p] && s[q] == a[q];
      } else if p >= |a| {
        assert s[p] == b[p - |a|] && s[q] == b[q - |a|];
      } else {
        assert s[p] == a[p] && s[q] == b[q - |a|];
      }
    }
  }

  /** A sequence without repetitions has as many elements as its set. */
  lemma {:induction false} DistinctCardinality<T>(s: seq<T>)
    requires Distinct(s)
    ensures |set x | x in s| == |s|
  {
    if s != [] {
      var init, last := s[..|s| - 1], s[|s| - 1];
      assert Distinct(init);
      DistinctCardinality(init);
      assert (set x | x in s) == (set x | x in init) + {last};
      assert last !in (set x | x in init);
    }
  }

  /** The distinct (country, dimension) pairs of the table. */
  function RowPairs(rows: seq<Row>): set<(string, string)> {
    set i | 0 <= i < |rows| :: (rows[i].country, rows[i].dimension)
  }

  /**
   * No row reaches another country's record: there are exactly as many score
   * entries as distinct (country, dimension) pairs in the table.
   */
  lemma EntryCountIsDistinctPairs(rows: seq<Row>)
    ensures EntryCount(Hierarchical(rows)) == |RowPairs(rows)|
  {
    var h := Hierarchical(rows);
    HierarchicalNames(rows, "");
    forall k | 0 <= k < |h| ensures WellFormed(h[k].scores) {
      RecordScores(rows, k, "");
    }
    EntriesDistinct(h);
    EntriesLength(h);
    DistinctCardinality(Entries(h));
    forall e | e in RowPairs(rows) ensures e in Entries(h) {
      var i :| 0 <= i < |rows| && e == (rows[i].country, rows[i].dimension);
      HierarchicalNames(rows, e.0);
      var k := IndexOf(Names(h), e.0);
      RecordScores(rows, k, e.1);
      assert Matches(rows, i, h[k].name, e.1);
      EntriesMembers(h, e.0, e.1);
    }
    forall e | e in Entries(h) ensures e in RowPairs(rows) {
      EntriesMembers(h, e.0, e.1);
      var k :| 0 <= k < |h| && h[k].name == e.0 && e.1 in Keys(h[k].scores);
      RecordScores(rows, k, e.1);
      var i :| 0 <= i < |rows| && Matches(rows, i, e.0, e.1);
    }
    assert (set x | x in Entries(h)) == RowPairs(rows);
  }
}
