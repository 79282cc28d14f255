/**
 * The list builders of the web page (scripts.js): the rows of the data
 * table, the rows of the two-country comparison and the series of the
 * chart. Records arrive as the catalogs' JSON, read here as `Record`s; a
 * scores object's entries come in insertion order.
 */
module Web {
  import opened Util
  import opened Catalog
  import opened Conversion

  // ---------------------------------------------------------------------
  // The data table

  /** One row of the data table: country name, dimension, value. */
  datatype TableRow = TableRow(country: string, dimension: string, value: int)

  /** The data table widget, reduced to the rows it holds. */
  class DataTable {
    var rows: seq<TableRow>

    constructor ()
      ensures rows == []
    {
      rows := [];
    }

    /** `dataTable.clear()` */
    method Clear()
      modifies this
      ensures rows == []
    {
      rows := [];
    }

    /** `dataTable.row.add(row)` */
    method Add(row: TableRow)
      modifies this
      ensures rows == old(rows) + [row]
    {
      rows := rows + [row];
    }
  }

  /** The rows of one country: one per score entry, in key order. */
  function CountryTableRows(r: Record): (t: seq<TableRow>)
    ensures |t| == |r.scores|
    ensures forall j :: 0 <= j < |t| ==> t[j] == TableRow(r.name, r.scores[j].key, r.scores[j].value)
  {
    seq(|r.scores|, j requires 0 <= j < |r.scores| => TableRow(r.name, r.scores[j].key, r.scores[j].value))
  }

  /** The rows of a catalog: its countries' rows, country after country. */
  function TableRows(data: seq<Record>): seq<TableRow> {
    if data == [] then [] else TableRows(data[..|data| - 1]) + CountryTableRows(data[|data| - 1])
  }

  /** `populateTable`: clear the table, then add a row per score entry of every country. */
  method PopulateTable(table: DataTable, data: seq<Record>)
    modifies table
    ensures table.rows == TableRows(data)
  {
    table.Clear();
    for k := 0 to |data|
      invariant table.rows == TableRows(data[..k])
    {
      var country := data[k];
      ghost var before := table.rows;
      for j := 0 to |country.scores|
        invariant table.rows == before + CountryTableRows(country)[..j]
      {
        var entry := country.scores[j];
        table.Add(TableRow(country.name, entry.key, entry.value));
      }
      assert data[..k + 1][..k] == data[..k];
    }
    assert data[..|data|] == data;
  }

  /** The number of score entries of a catalog. */
  function ScoreCount(data: seq<Record>): nat {
    if data == [] then 0 else ScoreCount(data[..|data| - 1]) + |data[|data| - 1].scores|
  }

  lemma {:induction false} TableRowCount(data: seq<Record>)
    ensures |TableRows(data)| == ScoreCount(data)
  {
    if data != [] { TableRowCount(data[..|data| - 1]); }
  }

  /** A row is in the table exactly when some country holds that entry. */
  lemma {:induction false} TableRowMembers(data: seq<Record>, row: TableRow)
    ensures row in TableRows(data) <==>
            exists k :: 0 <= k < |data| && data[k].name == row.country && Entry(row.dimension, row.value) in data[k].scores
  {
    if data != [] {
      var init, last := data[..|data| - 1], data[|data| - 1];
      TableRowMembers(init, row);
      if row in CountryTableRows(last) {
        var j :| 0 <= j < |last.scores| && CountryTableRows(last)[j] == row;
        assert last.scores[j] == Entry(row.dimension, row.value);
      }
      if last.name == row.country && Entry(row.dimension, row.value) in last.scores {
        var j :| 0 <= j < |last.scores| && last.scores[j] == Entry(row.dimension, row.value);
        assert CountryTableRows(last)[j] == row;
      }
      if exists k :: 0 <= k < |init| && init[k].name == row.country && Entry(row.dimension, row.value) in init[k].scores {
        var k :| 0 <= k < |init| && init[k].name == row.country && Entry(row.dimension, row.value) in init[k].scores;
        assert data[k] == init[k];
      }
      if exists k :: 0 <= k < |data| && data[k].name == row.country && Entry(row.dimension, row.value) in data[k].scores {
        var k :| 0 <= k < |data| && data[k].name == row.country && Entry(row.dimension, row.value) in data[k].scores;
        if k < |init| { assert init[k] == data[k]; }
      }
    }
  }

  /** Countries keep catalog order: the rows of the first k countries come first. */
  lemma {:induction false} TableRowsPrefix(data: seq<Record>, k: nat)
    requires k <= |data|
    ensures |TableRows(data[..k])| <= |TableRows(data)|
    ensures TableRows(data[..k]) == TableRows(data)[..|TableRows(data[..k])|]
  {
    if k < |data| {
      var init := data[..|data| - 1];
      assert init[..k] == data[..k];
      TableRowsPrefix(init, k);
      assert TableRows(data)[..|TableRows(init)|] == TableRows(init);
    } else {
      assert data[..k] == data;
    }
  }

  // ---------------------------------------------------------------------
  // The comparison

  /** The third cell of a comparison row: a number, or the text "N/A". */
  datatype Shown = Number(n: int) | Text(s: string)

  datatype ComparisonRow = ComparisonRow(dimension: string, first: int, second: Shown)

  /** `record.scores || {}` of `find(...) || {}`: no entries for a country that is not found. */
  function ScoresOrEmpty(r: Option<Record>): Scores {
    if r.Some? then r.value.scores else []
  }

  /** `(data2.scores || {})[dim] || "N/A"`: a missing score and a score of 0 both show as "N/A". */
  function SecondCell(scores: Scores, dim: string): (c: Shown)
    ensures c.Number? <==> Get(scores, dim).Some? && Get(scores, dim).value != 0
    ensures c.Number? ==> Get(scores, dim) == Some(c.n)
    ensures c.Text? ==> c.s == "N/A"
  {
    match Get(scores, dim)
    case Some(v) => if v != 0 then Number(v) else Text("N/A")
    case None => Text("N/A")
  }

  /** One row per entry: the dimension, the first country's value, the second country's Hofstede value. */
  function ComparisonRows(entries: Scores, second: Scores): (rows: seq<ComparisonRow>)
    ensures |rows| == |entries|
    ensures forall i :: 0 <= i < |entries| ==>
              rows[i] == ComparisonRow(entries[i].key, entries[i].value, SecondCell(second, entries[i].key))
  {
    seq(|entries|, i requires 0 <= i < |entries| =>
      ComparisonRow(entries[i].key, entries[i].value, SecondCell(second, entries[i].key)))
  }

  /**
   * `compareCountries`: `None` when a selection is empty (the page alerts);
   * otherwise the first country's Hofstede entries followed by its Culture
   * Map entries, each against the second country's Hofstede score.
   */
  function CompareCountries(hofstede: seq<Record>, cultureMap: seq<Record>, country1: string, country2: string): (r: Option<seq<ComparisonRow>>)
    ensures r.None? <==> country1 == "" || country2 == ""
  {
    if country1 == "" || country2 == "" then None
    else
      var data1 := FindByName(hofstede, country1);
      var data2 := FindByName(hofstede, country2);
      var cultureData1 := FindByName(cultureMap, country1);
      Some(ComparisonRows(ScoresOrEmpty(data1) + ScoresOrEmpty(cultureData1), ScoresOrEmpty(data2)))
  }

  /**
   * The rows list the first country's Hofstede entries, then its Culture Map
   * entries; a catalog without that country contributes no rows.
   */
  lemma ComparisonRowSources(hofstede: seq<Record>, cultureMap: seq<Record>, country1: string, country2: string)
    requires country1 != "" && country2 != ""
    ensures var rows := CompareCountries(hofstede, cultureMap, country1, country2).value;
            var h := ScoresOrEmpty(FindByName(hofstede, country1));
            var c := ScoresOrEmpty(FindByName(cultureMap, country1));
            && |rows| == |h| + |c|
            && (country1 !in Names(hofstede) ==> |h| == 0)
            && (country1 !in Names(cultureMap) ==> |c| == 0)
            && (forall i :: 0 <= i < |h| ==> rows[i].dimension == h[i].key && rows[i].first == h[i].value)
            && (forall i :: 0 <= i < |c| ==> rows[|h| + i].dimension == c[i].key && rows[|h| + i].first == c[i].value)
  {
    var h := ScoresOrEmpty(FindByName(hofstede, country1));
    var c := ScoresOrEmpty(FindByName(cultureMap, country1));
    var s2 := ScoresOrEmpty(FindByName(hofstede, country2));
    assert CompareCountries(hofstede, cultureMap, country1, country2).value == ComparisonRows(h + c, s2);
    ConcatenatedRows(h, c, s2);
    NotFoundNoScores(hofstede, country1);
    NotFoundNoScores(cultureMap, country1);
  }

  lemma ConcatenatedRows(h: Scores, c: Scores, second: Scores)
    ensures var rows := ComparisonRows(h + c, second);
            && |rows| == |h| + |c|
            && (forall i :: 0 <= i < |h| ==> rows[i].dimension == h[i].key && rows[i].first == h[i].value)
            && (forall i :: 0 <= i < |c| ==> rows[|h| + i].dimension == c[i].key && rows[|h| + i].first == c[i].value)
  {
    var rows := ComparisonRows(h + c, second);
    forall i | 0 <= i < |c|
      ensures rows[|h| + i].dimension == c[i].key && rows[|h| + i].first == c[i].value
    {
      assert (h + c)[|h| + i] == c[i];
    }
  }

  lemma NotFoundNoScores(catalog: seq<Record>, country: string)
    ensures country !in Names(catalog) ==> ScoresOrEmpty(FindByName(catalog, country)) == []
  {
  }

  /**
   * The third column always reads the Hofstede catalog: the Culture Map
   * records of every country except the first, the second included, play
   * no part.
   */
  lemma ComparisonIgnoresSecondCultureMap(hofstede: seq<Record>, cultureMap: seq<Record>, cultureMap': seq<Record>, country1: string, country2: string)
    requires FindByName(cultureMap, country1) == FindByName(cultureMap', country1)
    ensures CompareCountries(hofstede, cultureMap, country1, country2) == CompareCountries(hofstede, cultureMap', country1, country2)
  {
  }

  /**
   * A dimension the second country's Hofstede record lacks, such as every
   * Culture Map dimension, shows "N/A"; so does a Hofstede score of 0.
   */
  lemma SecondColumnMeaning(hofstede: seq<Record>, cultureMap: seq<Record>, country1: string, country2: string, i: nat)
    requires country1 != "" && country2 != ""
    requires i < |CompareCountries(hofstede, cultureMap, country1, country2).value|
    ensures var row := CompareCountries(hofstede, cultureMap, country1, country2).value[i];
            var s2 := ScoresOrEmpty(FindByName(hofstede, country2));
            && (row.second == Text("N/A") <==> Get(s2, row.dimension) == None || Get(s2, row.dimension) == Some(0))
            && (row.second != Text("N/A") ==> row.second == Number(Get(s2, row.dimension).value))
  {
  }

  /**
   * The comparison as evidently intended: the first country's Hofstede
   * entries against the second country's Hofstede scores, and its Culture
   * Map entries against the second country's Culture Map scores.
   */
  function CorrectedCompareCountries(hofstede: seq<Record>, cultureMap: seq<Record>, country1: string, country2: string): (r: Option<seq<ComparisonRow>>)
    ensures r.None? <==> country1 == "" || country2 == ""
  {
    if country1 == "" || country2 == "" then None
    else
      var h1 := ScoresOrEmpty(FindByName(hofstede, country1));
      var h2 := ScoresOrEmpty(FindByName(hofstede, country2));
      var c1 := ScoresOrEmpty(FindByName(cultureMap, country1));
      var c2 := ScoresOrEmpty(FindByName(cultureMap, country2));
      Some(ComparisonRows(h1, h2) + ComparisonRows(c1, c2))
  }

  /**
   * The corrected comparison lists the same dimensions and first values as
   * the page, keeps its Hofstede rows, and shows each Culture Map row
   * against the second country's Culture Map score.
   */
  lemma CorrectedComparisonMeaning(hofstede: seq<Record>, cultureMap: seq<Record>, country1: string, country2: string)
    requires country1 != "" && country2 != ""
    ensures var rows := CorrectedCompareCountries(hofstede, cultureMap, country1, country2).value;
            var written := CompareCountries(hofstede, cultureMap, country1, country2).value;
            var h := ScoresOrEmpty(FindByName(hofstede, country1));
            var c := ScoresOrEmpty(FindByName(cultureMap, country1));
            var c2 := ScoresOrEmpty(FindByName(cultureMap, country2));
            && |rows| == |written| == |h| + |c|
            && (forall i :: 0 <= i < |h| ==> rows[i] == written[i])
            && (forall i :: 0 <= i < |c| ==>
                  rows[|h| + i] == ComparisonRow(written[|h| + i].dimension, written[|h| + i].first, SecondCell(c2, c[i].key)))
  {
    SplitRows(ScoresOrEmpty(FindByName(hofstede, country1)), ScoresOrEmpty(FindByName(cultureMap, country1)),
              ScoresOrEmpty(FindByName(hofstede, country2)), ScoresOrEmpty(FindByName(cultureMap, country2)));
  }

  lemma SplitRows(h: Scores, c: Scores, h2: Scores, c2: Scores)
    ensures var rows, written := ComparisonRows(h, h2) + ComparisonRows(c, c2), ComparisonRows(h + c, h2);
            && |rows| == |written| == |h| + |c|
            && (forall i :: 0 <= i < |h| ==> rows[i] == written[i])
            && (forall i :: 0 <= i < |c| ==>
                  rows[|h| + i] == ComparisonRow(written[|h| + i].dimension, written[|h| + i].first, SecondCell(c2, c[i].key)))
  {
    var rows, written := ComparisonRows(h, h2) + ComparisonRows(c, c2), ComparisonRows(h + c, h2);
    forall i | 0 <= i < |h|
      ensures rows[i] == written[i]
    {
      assert (h + c)[i] == h[i];
    }
    forall i | 0 <= i < |c|
      ensures rows[|h| + i] == ComparisonRow(written[|h| + i].dimension, written[|h| + i].first, SecondCell(c2, c[i].key))
    {
      assert (h + c)[|h| + i] == c[i];
    }
  }

  /** Argentina and Brazil scored on one Culture Map scale, with no Culture Map key among their Hofstede scores. */
  function HofstedePair(): seq<Record> {
    [Record(0, "Argentina", "ARG", None, None, [Entry("idv", 46)]), Record(1, "Brazil", "BRA", None, None, [Entry("idv", 38)])]
  }

  function CultureMapPair(): seq<Record> {
    [Record(1, "Argentina", "ARG", None, None, [Entry("trusting", 60)]), Record(2, "Brazil", "BRA", None, None, [Entry("trusting", 70)])]
  }

  /**
   * As written, Brazil's Culture Map score of 70 is shown as "N/A", because
   * the page looks "trusting" up among Brazil's Hofstede scores; corrected,
   * it is shown.
   */
  lemma CultureMapRowShowsNA()
    ensures CompareCountries(HofstedePair(), CultureMapPair(), "Argentina", "Brazil") ==
            Some([ComparisonRow("idv", 46, Number(38)), ComparisonRow("trusting", 60, Text("N/A"))])
    ensures CorrectedCompareCountries(HofstedePair(), CultureMapPair(), "Argentina", "Brazil") ==
            Some([ComparisonRow("idv", 46, Number(38)), ComparisonRow("trusting", 60, Number(70))])
  {
    var h1, h2 := [Entry("idv", 46)], [Entry("idv", 38)];
    var c1, c2 := [Entry("trusting", 60)], [Entry("trusting", 70)];
    assert Names(HofstedePair()) == ["Argentina", "Brazil"];
    assert Names(CultureMapPair()) == ["Argentina", "Brazil"];
    assert ScoresOrEmpty(FindByName(HofstedePair(), "Argentina")) == h1;
    assert ScoresOrEmpty(FindByName(HofstedePair(), "Brazil")) == h2;
    assert ScoresOrEmpty(FindByName(CultureMapPair(), "Argentina")) == c1;
    assert ScoresOrEmpty(FindByName(CultureMapPair(), "Brazil")) == c2;
    assert Keys(h2) == ["idv"] && Keys(c2) == ["trusting"];
    assert IndexOf(Keys(h2), "idv") == 0 && IndexOf(Keys(c2), "trusting") == 0;
    assert SecondCell(h2, "idv") == Number(38);
    assert SecondCell(h2, "trusting") == Text("N/A");
    assert SecondCell(c2, "trusting") == Number(70);
    assert ComparisonRows(h1 + c1, h2) == [ComparisonRow("idv", 46, Number(38)), ComparisonRow("trusting", 60, Text("N/A"))];
    assert ComparisonRows(h1, h2) + ComparisonRows(c1, c2) == [ComparisonRow("idv", 46, Number(38)), ComparisonRow("trusting", 60, Number(70))];
  }

  // ---------------------------------------------------------------------
  // The chart series

  /** `scores[key] || 0` */
  function ScoreOrZero(r: Record, key: string): (v: int)
    ensures Get(r.scores, key).Some? ==> v == Get(r.scores, key).value
    ensures Get(r.scores, key).None? ==> v == 0
  {
    match Get(r.scores, key)
    case Some(v) => v
    case None => 0
  }

  /** `hofstedeData.map(c => c.name)` */
  function SeriesLabels(data: seq<Record>): (labels: seq<string>)
    ensures labels == Names(data)
  {
    seq(|data|, k requires 0 <= k < |data| => data[k].name)
  }

  /** The chart's values for dimension `key`, one per record. */
  function Series(data: seq<Record>, key: string): (values: seq<int>)
    ensures |values| == |data|
    ensures forall k :: 0 <= k < |data| ==> values[k] == ScoreOrZero(data[k], key)
  {
    seq(|data|, k requires 0 <= k < |data| => ScoreOrZero(data[k], key))
  }

  /** As written: the page reads the key "Individualism". */
  function IndividualismSeries(data: seq<Record>): (values: seq<int>)
    ensures |values| == |data|
    ensures forall k :: 0 <= k < |data| ==>
              values[k] == (if Get(data[k].scores, "Individualism").Some? then Get(data[k].scores, "Individualism").value else 0)
  {
    Series(data, "Individualism")
  }

  /** The key under which the converted Hofstede catalog stores individualism. */
  const IndividualismKey: string := "idv"

  /** Corrected: the key the converted catalog actually holds. */
  function CorrectedIndividualismSeries(data: seq<Record>): (values: seq<int>)
    ensures |values| == |data|
    ensures forall k :: 0 <= k < |data| ==>
              values[k] == (if Get(data[k].scores, IndividualismKey).Some? then Get(data[k].scores, IndividualismKey).value else 0)
  {
    Series(data, IndividualismKey)
  }

  /**
   * On any converted Hofstede catalog whose table has no "Individualism"
   * rows (the table's dimensions are idv, ivr, ltowvs, mas, pdi and uai),
   * the as-written series is all zeros.
   */
  lemma IndividualismSeriesIsZero(rows: seq<Row>)
    requires forall i :: 0 <= i < |rows| ==> rows[i].dimension != "Individualism"
    ensures forall k :: 0 <= k < |Hierarchical(rows)| ==> IndividualismSeries(Hierarchical(rows))[k] == 0
  {
    var h := Hierarchical(rows);
    forall k | 0 <= k < |h|
      ensures IndividualismSeries(h)[k] == 0
    {
      RecordScores(rows, k, "Individualism");
    }
  }

  /** The corrected series shows each country's converted idv score, the last row's value. */
  lemma CorrectedSeriesShowsIdv(rows: seq<Row>, k: nat, i: nat)
    requires k < |Hierarchical(rows)| && i < |rows|
    requires LastMatch(rows, i, Hierarchical(rows)[k].name, IndividualismKey)
    ensures CorrectedIndividualismSeries(Hierarchical(rows))[k] == rows[i].value
  {
    RecordScores(rows, k, IndividualismKey);
  }

  /** A table of one row converts to one record, named after that row's country. */
  lemma OneRowCatalog(rows: seq<Row>)
    requires |rows| == 1
    ensures |Hierarchical(rows)| == 1 && Hierarchical(rows)[0].name == rows[0].country
  {
    assert Countries(rows) == [rows[0].country];
    assert Dedup([rows[0].country]) == [rows[0].country];
    HierarchicalNames(rows, rows[0].country);
    assert Names(Hierarchical(rows))[0] == Hierarchical(rows)[0].name;
  }

  /** One row of idv score v: the as-written chart shows 0, the corrected one v. */
  lemma OneIdvRow(rows: seq<Row>, v: int)
    requires |rows| == 1 && rows[0].dimension == IndividualismKey && rows[0].value == v
    ensures IndividualismSeries(Hierarchical(rows)) == [0] && CorrectedIndividualismSeries(Hierarchical(rows)) == [v]
  {
    OneRowCatalog(rows);
    IndividualismSeriesIsZero(rows);
    CorrectedSeriesShowsIdv(rows, 0, 0);
  }

  /** The Argentina row of the table: the as-written chart shows 0, the corrected one 46. */
  lemma ArgentinaIndividualism()
    ensures var h := Hierarchical([Row("ARG", "Argentina", "idv", 46)]);
            IndividualismSeries(h) == [0] && CorrectedIndividualismSeries(h) == [46]
  {
    OneIdvRow([Row("ARG", "Argentina", "idv", 46)], 46);
  }
}
