/**
 * Two small reports of functions.py: the table of cultural dimensions for
 * the selected countries (`display_cultural_dimensions`) and the name of the
 * CSV file a distance table is exported to (`export_distances_to_csv`, also
 * in main.py).
 */
module Reports {
  import opened Util
  import opened Catalog
  import opened Columns

  /**
   * The `DataFrame` indexed by "Country": one row per selected record, one
   * column per score key in order of first appearance, `None` where a row
   * lacks the key (pandas shows NaN).
   */
  datatype DimensionTable = DimensionTable(index: seq<string>, columns: seq<string>, cells: seq<seq<Option<int>>>)

  /** The records whose name is selected, in catalog order. */
  function SelectedRecords(data: seq<Record>, selected: seq<string>): (r: seq<Record>)
    ensures forall x :: x in r <==> x in data && x.name in selected
  {
    FilterMembers(data, (x: Record) => x.name in selected);
    Filter(data, (x: Record) => x.name in selected)
  }

  /** The score columns: every key of the selected records, except the index column "Country". */
  function ScoreColumns(rows: seq<Record>): (c: seq<string>)
    ensures forall d :: d in c <==> d != "Country" && d in AllColumns(rows)
  {
    FilterMembers(AllColumns(rows), d => d != "Country");
    Filter(AllColumns(rows), d => d != "Country")
  }

  /** `display_cultural_dimensions`: `None` when no record is selected. */
  function DisplayCulturalDimensions(data: seq<Record>, selected: seq<string>): (r: Option<DimensionTable>)
    ensures r.None? <==> forall i :: 0 <= i < |data| ==> data[i].name !in selected
  {
    var rows := SelectedRecords(data, selected);
    if rows == [] then
      assert forall i :: 0 <= i < |data| ==> data[i] !in rows;
      None
    else
      assert rows[0] in data;
      var columns := ScoreColumns(rows);
      Some(DimensionTable(
        Names(rows),
        columns,
        seq(|rows|, i requires 0 <= i < |rows| =>
          seq(|columns|, j requires 0 <= j < |columns| => Get(rows[i].scores, columns[j])))))
  }

  /** The table depends on the set of selected names only: repeating a name adds no row. */
  lemma DisplayDependsOnSelectedSet(data: seq<Record>, selected: seq<string>, selected': seq<string>)
    requires (set x | x in selected) == (set x | x in selected')
    ensures DisplayCulturalDimensions(data, selected) == DisplayCulturalDimensions(data, selected')
  {
    var names, names' := set y | y in selected, set y | y in selected';
    forall x | x in data
      ensures (x.name in selected) == (x.name in selected')
    {
      assert x.name in selected <==> x.name in names;
      assert x.name in selected' <==> x.name in names';
    }
    FilterAgree(data, (x: Record) => x.name in selected, (x: Record) => x.name in selected');
  }

  /** A name labels a row exactly when it is selected and some record carries it. */
  lemma DisplayRows(data: seq<Record>, selected: seq<string>, name: string)
    requires DisplayCulturalDimensions(data, selected).Some?
    ensures name in DisplayCulturalDimensions(data, selected).value.index <==>
            name in selected && name in Names(data)
  {
    var rows := SelectedRecords(data, selected);
    if name in Names(rows) {
      var i := IndexOf(Names(rows), name);
      assert rows[i] in data;
      var k :| 0 <= k < |data| && data[k] == rows[i];
      assert Names(data)[k] == name;
    }
    if name in selected && name in Names(data) {
      var k := IndexOf(Names(data), name);
      assert data[k] in rows;
      var i :| 0 <= i < |rows| && rows[i] == data[k];
      assert Names(rows)[i] == name;
    }
  }

  /** Rows keep catalog order. */
  lemma DisplayRowOrder(data: seq<Record>, selected: seq<string>, p: nat, q: nat)
    requires Distinct(data)
    requires DisplayCulturalDimensions(data, selected).Some?
    requires p < q < |DisplayCulturalDimensions(data, selected).value.index|
    ensures var rows := SelectedRecords(data, selected);
            rows[p] in data && rows[q] in data && IndexOf(data, rows[p]) < IndexOf(data, rows[q])
  {
    FilterKeepsOrder(data, (x: Record) => x.name in selected, p, q);
  }

  /**
   * A score key is a column exactly when some selected record holds it, and
   * each cell is that record's value for the column, if it has one.
   */
  lemma DisplayColumns(data: seq<Record>, selected: seq<string>, d: string)
    requires DisplayCulturalDimensions(data, selected).Some?
    ensures var t, rows := DisplayCulturalDimensions(data, selected).value, SelectedRecords(data, selected);
            && |t.index| == |rows| == |t.cells|
            && t.index == Names(rows)
            && (d in t.columns <==> d != "Country" && exists i :: 0 <= i < |rows| && d in Keys(rows[i].scores))
            && (forall i, j :: 0 <= i < |rows| && 0 <= j < |t.columns| ==>
                  |t.cells[i]| == |t.columns| && t.cells[i][j] == Get(rows[i].scores, t.columns[j]))
  {
    KeyStreamMembers(SelectedRecords(data, selected), d);
  }

  // ---------------------------------------------------------------------
  // The export file name

  /** `str.lower` on the ASCII letters. */
  function LowerChar(c: char): char {
    if 'A' <= c <= 'Z' then (c as int + 32) as char else c
  }

  /** `title.replace(' ', '_').lower()` */
  function Slug(title: string): (r: string)
    ensures |r| == |title|
    ensures forall i :: 0 <= i < |title| ==> r[i] == LowerChar(if title[i] == ' ' then '_' else title[i])
    ensures ' ' !in r
    ensures forall i :: 0 <= i < |r| ==> !('A' <= r[i] <= 'Z')
  {
    seq(|title|, i requires 0 <= i < |title| => LowerChar(if title[i] == ' ' then '_' else title[i]))
  }

  const Suffix: string := "_distances.csv"

  /** The file name a distance table titled `title` is exported under. */
  function ExportFilename(title: string): (r: string)
    ensures |r| == |title| + |Suffix|
    ensures r[..|title|] == Slug(title)
    ensures r[|title|..] == Suffix
    ensures ' ' !in r
    ensures forall i :: 0 <= i < |r| ==> !('A' <= r[i] <= 'Z')
  {
    var r := Slug(title) + Suffix;
    assert forall i :: |title| <= i < |r| ==> r[i] == Suffix[i - |title|];
    r
  }

  /** A title that is already a file-name stem keeps its name: the derivation is idempotent. */
  lemma SlugIdempotent(title: string)
    ensures Slug(Slug(title)) == Slug(title)
  {
  }

  /** "Culture Map" and "culture_map" are exported to the same file. */
  lemma CultureMapFilename()
    ensures ExportFilename("Culture Map") == "culture_map_distances.csv"
    ensures ExportFilename("culture_map") == ExportFilename("Culture Map")
  {
    assert Slug("Culture Map") == "culture_map";
    assert Slug("culture_map") == "culture_map";
  }
}
