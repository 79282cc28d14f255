/**
 * The catalog data model: a country record with a `scores` dict from
 * dimension name to integer score. Both catalogs (Culture Map and the
 * converted Hofstede table) have this shape. A Python dict keeps insertion
 * order, and that order shows up in the column order of the distance
 * table and in the rows of the reports, so scores are an ordered list of
 * entries rather than a Dafny map.
 */
module Catalog {
  import opened Util

  /** The sentinel the catalogs use for "score not available". */
  const Missing: int := -1

  datatype Entry = Entry(key: string, value: int)

  /** A scores dict, in insertion order. */
  type Scores = seq<Entry>

  datatype Record = Record(
    id: int,
    name: string,
    datamapId: string,
    isoCode: Option<int>,
    isoShortCode: Option<string>,
    scores: Scores)

  /** The dict's keys, in insertion order. */
  function Keys(s: Scores): seq<string> {
    seq(|s|, i requires 0 <= i < |s| => s[i].key)
  }

  /** A dict never holds a key twice. */
  predicate WellFormed(s: Scores) {
    Distinct(Keys(s))
  }

  /** `scores.get(k)`: the value stored under `k`, if any. */
  function Get(s: Scores, k: string): Option<int> {
    if k in Keys(s) then Some(s[IndexOf(Keys(s), k)].value) else None
  }

  /**
   * `scores[k] = v`: an existing key keeps its position and takes the new
   * value; a new key is appended.
   */
  function Put(s: Scores, k: string, v: int): (r: Scores)
    ensures Get(r, k) == Some(v)
    ensures forall k' :: k' != k ==> Get(r, k') == Get(s, k')
    ensures k in Keys(s) ==> Keys(r) == Keys(s)
    ensures k !in Keys(s) ==> Keys(r) == Keys(s) + [k]
    ensures WellFormed(s) ==> WellFormed(r)
  {
    if k in Keys(s) then
      var i := IndexOf(Keys(s), k);
      var r := s[i := Entry(k, v)];
      assert Keys(r) == Keys(s);
      r
    else
      var r := s + [Entry(k, v)];
      assert Keys(r) == Keys(s) + [k];
      forall k' | k' in Keys(s) ensures IndexOf(Keys(r), k') == IndexOf(Keys(s), k') {
        IndexOfPrefix(Keys(s), [k], k');
      }
      r
  }

  /** The `name` column of a catalog, in catalog order. */
  function Names(data: seq<Record>): (r: seq<string>)
    ensures |r| == |data|
    ensures forall i :: 0 <= i < |data| ==> r[i] == data[i].name
  {
    seq(|data|, i requires 0 <= i < |data| => data[i].name)
  }

  /** `array.find(c => c.name === name)`: the first record with that name. */
  function FindByName(data: seq<Record>, name: string): (r: Option<Record>)
    ensures r.Some? <==> name in Names(data)
    ensures r.Some? ==> r.value == data[IndexOf(Names(data), name)]
  {
    if data == [] then None
    else if data[0].name == name then Some(data[0])
    else
      assert Names(data) == [data[0].name] + Names(data[1..]);
      FindByName(data[1..], name)
  }
}
