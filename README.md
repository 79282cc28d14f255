# Cultural distances: a verified model of the distance engine and its queries

Cultural_Distances compares countries through two score catalogs:

- the Culture Map: eight scales per country, with `-1` meaning "not measured";
- a Hofstede table, converted into the same record shape.

Its core turns a catalog into a scaled-Euclidean distance table:

1. Build a frame from the records' score dicts.
2. Drop every dimension that some country lacks or marks `-1`.
3. Divide each squared difference by the dimension's sample variance.
4. Sum the results and mirror them into a square, name-labelled table.

The core comes in two variants:

- main.py returns the square root of every cell;
- functions.py returns the squared value divided by the number k of dimensions used.

The rest of the core queries that table:

- the global maximum, minimum and average;
- the farthest and nearest counterpart of one country;
- the flattened list of pairs behind the box plots, and the highlighted values;
- the table of dimensions for selected countries;
- the export file name.

The model also covers the group-by loop that builds the Hofstede records, and three pieces of the web page: the data table, the two-country comparison and the chart series.

The model is organised as follows:

- `util.dfy`: shared sequence helpers. These are first-appearance deduplication, the order-keeping filter, first index, dropping one position and sums.
- `catalog.dfy`: records, and scores as an ordered list of entries. This works like a Python dict or a JavaScript object, so insertion order is kept.
- `columns.dfy`: column selection.
- `stats.dfy`: sample variance, with ddof 1.
- `distances.dfy`: the squared table. On values, it is the pure function that both variants are built from. main.py's table is characterised by `IsRootTable`. functions.py's table is `NormalizedTable`.
- `frames.dfy`: square tables and the facts about them that the queries use.
- `queries.dfy`: global and per-country queries.
- `variants.dfy`: how the two variants relate.
- `invariance.dfy`: dimensions that do not matter, and rescaled dimensions.
- `flatten.dfy`: the nested flattening loop, as a method with loop invariants.
- `reports.dfy`: the dimensions table and export file names.
- `convert.dfy`: the Hofstede conversion, as a method with a loop proved against a function.
- `web.dfy`: the page's table, as a class whose rows are updated in place; the comparison; and the series.
- `fixtures.dfy`: a three-country example and a slice of the Culture Map catalog, worked out exactly.

The model differs from the source's own design description in three places. In each, it follows the code:

- The code has no zero-variance rule. A constant used column divides 0 by 0 and gives nan. The model therefore asks for `Admissible` data: at least one record, and, from two records on, every used column non-constant.
- The code has no error for "no usable dimension". With k = 0, main.py's scipy call sums over no columns and gives an all-zero table (`Distances.NoColumnsNoDistance`). functions.py divides 0 by 0, so `NormalizedTable` requires k >= 1.
- Both variants exist in the code, and the model keeps both. It proves that they report the same pairs and counterparts.

## Model

| member | source | states |
|---|---|---|
| Catalog.Put | convert_data.py:634-637 | Assigning `scores[k] = v`: afterwards k holds v and every other key holds what it held before. An existing key keeps its position; a new key is appended. Well-formedness (no repeated key) is preserved. |
| Catalog.Names | functions.py:33 | One name per record, in record order. |
| Catalog.FindByName | scripts.js:55-58 | `find(c => c.name === name)` finds a record exactly when the name occurs in the catalog, and then it is the first record with that name. |
| Columns.AllColumns | functions.py:34-35 | The frame built from the score dicts has no repeated column. |
| Columns.KeyStreamMembers | functions.py:34-35 | A key is a frame column exactly when some record holds it. |
| Columns.SameKeysColumns | functions.py:34-35 | When every record holds the same distinct keys, the frame's columns are exactly those keys, in that order. |
| Columns.Column | functions.py:35 | The column of a complete dimension holds every record's score, in record order, none of them the `-1` sentinel. |
| Columns.UsedColumns | functions.py:35 | A dimension survives `replace(-1, NA).dropna(axis=1, how="any")` exactly when it is a frame column held by every record with a value other than -1. |
| Columns.UsedIffComplete | main.py:26 | With at least one record, a dimension is used exactly when no record lacks it or marks it -1: all or nothing. |
| Columns.UsedColumnsFirstAppearanceOrder | functions.py:35 | Used columns keep the order in which their keys first appear across the records. |
| Columns.SharedKeysUsedColumns | main.py:26 | When every record holds the same keys, the used columns are exactly the keys under which no record holds -1, in key order. |
| Stats.VarianceSign | functions.py:38 | The sample variance (ddof 1) of a column of two or more values is non-negative. It is positive exactly when the deviations are not all zero. |
| Stats.VariancePositiveIffNonConstant | main.py:29 | The sample variance is positive exactly when the column is not constant. |
| Stats.VarianceScaled | functions.py:38 | Multiplying every value of a column by c multiplies its variance by c squared. |
| Stats.VarianceShifted | functions.py:38 | Adding a constant to every value of a column leaves its variance unchanged. |
| Distances.Contribution | functions.py:39 | The contribution of one dimension to one pair, the squared difference over the variance, is never negative. |
| Distances.ContributionFraction | functions.py:38-39 | That contribution is exactly (x_i - x_j)^2 * n^2(n-1) / (sum of squared n-scaled deviations): the variance written as one fraction of integers. |
| Distances.ContributionSymmetric | main.py:32 | A dimension contributes the same to (i, j) as to (j, i). |
| Distances.SumContributionsSymmetric | main.py:32 | The pair's sum over any list of dimensions is symmetric in the pair. |
| Distances.SquaredTable | functions.py:39-41 | The squared table is square and labelled by the record names in input order. |
| Distances.SquaredCell | functions.py:39-41 | Each off-diagonal cell is the sum, over the used columns, of the variance-scaled squared differences. |
| Distances.SquaredTableIsDistanceTable | main.py:32-35 | `squareform(pdist(...))` is symmetric, has a zero diagonal and no negative cell. |
| Distances.ContributionZeroIff | main.py:32 | A dimension contributes 0 to a pair exactly when the two countries score the same on it. |
| Distances.SumContributionsZeroIff | main.py:32 | A pair's sum over a list of dimensions is 0 exactly when the two countries agree on each of them. |
| Distances.DistanceZeroIffSameProfile | main.py:32-35 | Two different countries are at distance 0 exactly when they agree on every used dimension. |
| Distances.NoColumnsNoDistance | main.py:26-35 | When no dimension survives, every cell of the squared table, and so of main.py's root table, is 0. The code raises no "no usable dimension" error. |
| Distances.RootTableUnique | main.py:32-36 | main.py's table, the cellwise non-negative root of the squared table, is determined by the data. |
| Distances.RootTableIsDistanceTable | main.py:32-36 | main.py's table is symmetric, has a zero diagonal and no negative cell. |
| Distances.RootTableSameOrder | main.py:32-36 | main.py's table orders any two cells as the squared table does. |
| Distances.NormalizedTable | functions.py:40-43 | functions.py's table is square and labelled by the record names in input order. |
| Distances.NormalizedIsRootSquaredOverK | functions.py:40-42 | Each cell of functions.py's table is main.py's cell squared and divided by k, the number of used dimensions. |
| Distances.NormalizedCell | functions.py:39-42 | Each off-diagonal cell of functions.py's table is the sum of the scaled squared differences divided by k; the diagonal is 0. |
| Distances.NormalizedTableProperties | functions.py:39-43 | functions.py's table is a distance table that orders its cells as the squared table does. |
| Frames.DivideCells | functions.py:42 | Dividing the matrix by k divides every cell by k and keeps the shape. |
| Frames.DivideCellsProperties | functions.py:42 | Dividing a distance table by a positive k keeps it a distance table and keeps the order of its cells. |
| Frames.RootsSameOrder | main.py:32-35 | A cellwise non-negative root orders its cells as the squared cells are ordered. |
| Frames.RootsOfDistanceTable | main.py:32-35 | The cellwise root of a distance table is a distance table. |
| Invariance.DroppedDimensionIrrelevant | functions.py:35 | Changing the scores of a dimension that is dropped, before and after the change, changes neither the used columns nor the squared table. |
| Invariance.ScaleInvariant | functions.py:38-39 | Multiplying one used dimension by any c other than 0 leaves the used columns and the squared table unchanged, as long as no value becomes -1. |
| Invariance.ShiftInvariant | functions.py:38-39 | Adding a constant to one used dimension leaves the used columns and the squared table unchanged, as long as no value becomes -1. |
| Invariance.MapDimensionColumn | functions.py:35 | Rewriting one dimension's scores rewrites exactly that column, and the column stays complete when no new value is -1. |
| Queries.Max | functions.py:212 | `max()` of a non-empty series is one of its values and no value exceeds it. |
| Queries.Min | functions.py:213 | `min()` of a non-empty series is one of its values and no value is below it. |
| Queries.Masked | functions.py:212 | Column j of `where(~eye)`, with the masked diagonal cell skipped, holds the cells of every other row of column j. |
| Queries.MaxOfColumnMaxima | functions.py:212 | `max().max()` over the masked frame is held by an off-diagonal cell and no off-diagonal cell exceeds it. |
| Queries.MinOfColumnMinima | functions.py:213 | `min().min()` over the masked frame is held by an off-diagonal cell and no off-diagonal cell is below it. |
| Queries.OffDiagonalMax | main.py:208 | The maximum distance is the largest off-diagonal cell. |
| Queries.OffDiagonalMin | main.py:209 | The minimum distance is the smallest off-diagonal cell. |
| Queries.FirstCell | functions.py:216-217 | `where(df == v).stack().idxmax()` names the first cell, in row-major order, that holds v. |
| Queries.FirstCellFrom | functions.py:216-217 | From row i on, the first cell in row-major order that holds v, or none exactly when no such cell exists. |
| Queries.FindMaxMinDistances | functions.py:204-222 | The reported maximum and minimum are the off-diagonal extremes, and the reported labels are frame labels. |
| Queries.GlobalReportMeaning | main.py:200-216 | Each reported pair labels the first cell, in row-major order, of the whole unmasked table that holds the extreme. |
| Queries.ReportedAverage | functions.py:214 | The reported average is the mean of the off-diagonal cells. |
| Queries.AverageIsOffDiagonalMean | functions.py:214 | `mean().mean()` over the masked frame equals the off-diagonal sum divided by n(n - 1). |
| Queries.AverageOfColumnSums | functions.py:214 | The mean of the masked column means is the total of the masked columns divided by (n - 1) and then by n. |
| Queries.MaskedTotalIsOffDiagonalSum | functions.py:214 | The masked columns together sum to the off-diagonal total. |
| Queries.TotalsAgree | functions.py:214 | A rectangular table's row sums and column sums have the same total. |
| Queries.MaxCellAboveDiagonal | functions.py:216 | On a distance table with a positive maximum, the reported pair lies above the diagonal: a pair of two different countries, the earlier one first. |
| Queries.ZeroMinimumReportsFirstDiagonalCell | main.py:213 | On a distance table whose smallest off-diagonal value is 0, the minimum is reported at cell (0, 0): the first country paired with itself. |
| Queries.FirstOffCellFrom | functions.py:216-217 | From row i on, the first off-diagonal cell in row-major order that holds v, or none exactly when no such cell exists. |
| Queries.CorrectedMinCell | functions.py:217 | The corrected lookup names an off-diagonal cell holding the minimum, the first such in row-major order. |
| Queries.CorrectedMinCellAgrees | main.py:213 | When the minimum is positive, the corrected lookup names the same cell as the code. |
| Queries.FindMaxMinForCountry | functions.py:224-250 | The per-country report exists exactly when the country is a label of the table. The not-found branch returns nothing. |
| Queries.FirstOtherOfDropped | functions.py:237-245 | `idxmax`/`idxmin` of row i with its own label dropped name the first other column, in column order, that holds the value. |
| Queries.RowBounds | main.py:231-235 | Bounds on the dropped row bound every cell of the row except the country's own. |
| Queries.CountryReportMeaning | main.py:218-243 | The country's maximum and minimum bound all its distances to others. Farthest and nearest are the first other countries holding them. Neither is the country itself. |
| Queries.SameOrderSameArgs | main.py:238-239 | Series that order their values alike have the same `idxmax` and the same `idxmin`. |
| Queries.SameOrderSameCells | main.py:212-213 | Tables that order their cells alike report the extremes at the same cells. |
| Queries.SameOrderSamePairs | functions.py:216-219 | Tables with the same labels that order their cells alike report the same pairs. |
| Queries.SameOrderSameCounterparts | functions.py:244-245 | Tables with the same labels that order their cells alike name the same farthest and nearest counterpart for every country. |
| Variants.RootReportMatchesSquared | main.py:200-216 | main.py's report names the pairs of the squared table. Its extremes are the square roots of the squared table's extremes. |
| Variants.DividedReport | functions.py:204-222 | On a distance table divided by a positive k, the report names the same pairs, and the maximum, minimum and average are divided by k. |
| Variants.OffDiagonalMeanDivided | functions.py:214 | Dividing every cell by k divides the off-diagonal mean by k. |
| Variants.NormalizedReportMatchesSquared | functions.py:42 | functions.py's report names the squared table's pairs, and its three numbers are the squared table's divided by k. |
| Variants.VariantsReportSamePairs | functions.py:216-217 | The two variants report the same maximum and minimum pairs on the same data. |
| Variants.SharedProfileReportedAsSelf | functions.py:217 | On admissible data where two different countries agree in every used dimension, both variants report the minimum between the first country and itself. |
| Variants.RootSharedProfileReportedAsSelf | main.py:213 | On main.py's table, two different countries with the same profile make the minimum be reported between the first country and itself. |
| Variants.NoUsedDimensionReportedAsSelf | main.py:213 | On data of two or more countries with no usable dimension, main.py's table reports the minimum between the first country and itself. |
| Variants.VariantsNameSameCounterparts | functions.py:244-245 | With unique names, the two variants name the same farthest and nearest counterpart of every country. |
| Flatten.FlattenPairs | functions.py:334-343 | The nested loop appends the cells above the diagonal to `distances`, in row-major order. `pair_to_distance` holds both orders of every pair of labels, and no other key. |
| Flatten.LocOfDistinct | functions.py:340 | With unique labels, `loc[label_i, label_j]` is cell (i, j). |
| Flatten.StoreKeepsPairs | functions.py:342-343 | Storing both orders of the current pair keeps every earlier pair stored. |
| Flatten.PairKeysExactly | functions.py:342-343 | A key is in `pair_to_distance` exactly when it names two different labels of the table. |
| Flatten.PairValue | functions.py:340-343 | Either order of a pair maps to the pair's cell above the diagonal. |
| Flatten.UpperTriangleLength | functions.py:345 | The flattened list has n(n - 1) / 2 entries. |
| Flatten.UpperTriangleCell | functions.py:337-341 | Cell (p, q), p < q, sits at position p(2n - p - 1)/2 + (q - p - 1) of the flattened list. |
| Flatten.UpperMembers | functions.py:339-341 | Every flattened value is a cell above the diagonal. |
| Flatten.HighlightedValues | functions.py:349-351 | The highlighted list has at most one value per requested pair. |
| Flatten.HighlightedAppend | functions.py:349-351 | Looking up two request lists one after the other gives the two results concatenated. |
| Flatten.HighlightedAllPresent | functions.py:349-351 | When every requested pair is stored, the result has one value per request, in request order. |
| Flatten.HighlightedSkipsAbsent | functions.py:350 | Requests for pairs not stored contribute nothing. |
| Flatten.HighlightedMembers | functions.py:349-351 | A value is highlighted exactly when some requested pair is stored with it. |
| Reports.SelectedRecords | functions.py:427-430 | The records kept are exactly those whose name is selected. |
| Reports.ScoreColumns | functions.py:437 | The table's columns are exactly the score keys of the kept records, without the "Country" index column. |
| Reports.DisplayCulturalDimensions | functions.py:432-434 | The result is None exactly when no record's name is selected. |
| Reports.DisplayDependsOnSelectedSet | functions.py:429 | The result depends only on the set of selected names, not on their order or repetition. |
| Reports.DisplayRows | functions.py:427-438 | A name indexes a row exactly when it is selected and occurs in the catalog. |
| Reports.DisplayRowOrder | functions.py:427-430 | The rows keep catalog order. |
| Reports.DisplayColumns | functions.py:437 | Each cell is the row's score under the column, or missing. The columns are exactly the keys held by some kept record. The row labels are the kept records' names, in order, so row i holds the scores of the record it is labelled by. |
| Reports.Slug | functions.py:197 | The slug has the title's length, holds no space and no upper-case letter; each position is the title's character, with a space turned into `_` and a capital lowered. |
| Reports.ExportFilename | main.py:193 | The file name starts with `Slug(title)` and ends with `_distances.csv`, with nothing in between. It holds no space and no upper-case letter. |
| Reports.SlugIdempotent | functions.py:197 | Slugging a slug changes nothing. |
| Reports.CultureMapFilename | functions.py:197 | "Culture Map" exports to `culture_map_distances.csv`, the same name as "culture_map". |
| Conversion.Countries | convert_data.py:630 | The `country` column, row by row. |
| Conversion.Hierarchical | convert_data.py:630-632 | One record per distinct country. |
| Conversion.ToHierarchical | convert_data.py:629-645 | The loop over `unique()` builds exactly the list that the grouping function describes. |
| Conversion.FirstCountryRow | convert_data.py:639-641 | A country's first selected row is the table's first row with that country. |
| Conversion.GroupThenFold | convert_data.py:633-637 | Selecting a country's rows and then folding them into a dict is one fold over the whole table. |
| Conversion.FoldKeys | convert_data.py:634-637 | A key is in the resulting scores exactly when it was there already or some row of the country has that dimension. |
| Conversion.FoldUntouched | convert_data.py:634-637 | A dimension no row of the country has keeps its value. |
| Conversion.FoldLastWins | convert_data.py:634-637 | When a dimension repeats for a country, the last row's value wins. |
| Conversion.HierarchicalNames | convert_data.py:630-640 | The record names are the countries in first-appearance order, each once. A country has a record exactly when some row names it. |
| Conversion.HierarchicalOrder | convert_data.py:639 | Record ids increase along the list. |
| Conversion.RecordIdentity | convert_data.py:639-643 | A record's id is the index of the table's first row of its country, its datamap id that row's `ctr`, and both ISO fields are None. |
| Conversion.RecordScores | convert_data.py:633-637 | A record holds a dimension exactly when some row of its country has it, and then it holds that country's last value for it. |
| Conversion.EntriesDistinct | convert_data.py:632-645 | With distinct names and well-formed scores, no (country, dimension) pair occurs twice among the records. |
| Conversion.EntryCountIsDistinctPairs | convert_data.py:632-645 | The records hold exactly as many score entries as the table has distinct (country, dimension) pairs. |
| Web.DataTable.constructor | scripts.js:29-30 | A new table has no rows. |
| Web.DataTable.Clear | scripts.js:30 | `dataTable.clear()` leaves no rows. |
| Web.DataTable.Add | scripts.js:33 | `row.add` appends exactly the one row. |
| Web.PopulateTable | scripts.js:29-37 | Afterwards the table holds one row per score entry of every country, in catalog order and then score order. |
| Web.CountryTableRows | scripts.js:32-34 | A country's rows are its name with each (dimension, value) entry, in entry order. |
| Web.TableRowCount | scripts.js:31-35 | There are as many rows as score entries in the catalog. |
| Web.TableRowMembers | scripts.js:31-35 | A row is in the table exactly when some country of that name holds that entry. |
| Web.TableRowsPrefix | scripts.js:31 | The rows of the first k countries come first. |
| Web.SecondCell | scripts.js:63 | `(data2.scores \|\| {})[dim] \|\| "N/A"` shows a number exactly when the score exists and is not 0, and then shows that score. Otherwise it shows "N/A". |
| Web.ComparisonRows | scripts.js:60-63 | One row per entry, in order: dimension, first value, and the second country's cell. |
| Web.CompareCountries | scripts.js:46-53 | Nothing is compared exactly when a selector is empty. |
| Web.ComparisonRowSources | scripts.js:55-63 | The rows are the first country's Hofstede entries followed by its Culture Map entries. A catalog lacking the country contributes none. |
| Web.ComparisonIgnoresSecondCultureMap | scripts.js:58 | The second country's Culture Map record never affects the comparison. |
| Web.SecondColumnMeaning | scripts.js:56 | Each row's second cell is the second country's Hofstede score under that dimension. It is "N/A" when that score is missing or 0. |
| Web.CorrectedCompareCountries | scripts.js:55-62 | The corrected comparison lists nothing exactly when a selector is empty. |
| Web.CorrectedComparisonMeaning | scripts.js:55-62 | The corrected comparison has the page's dimensions and first values and keeps its Hofstede rows. Each Culture Map row shows the second country's Culture Map score, or "N/A". |
| Web.CultureMapRowShowsNA | scripts.js:58-62 | With Brazil's Hofstede scores holding only `idv` and its Culture Map "trusting" score 70, the page shows "N/A" for "trusting"; corrected, it shows 70. |
| Web.ScoreOrZero | scripts.js:90 | `c.scores[key] \|\| 0`: the score when present, otherwise 0. |
| Web.SeriesLabels | scripts.js:89 | The chart labels are the country names, in catalog order. |
| Web.Series | scripts.js:90 | One value per country, in catalog order, read under the key. |
| Web.IndividualismSeriesIsZero | scripts.js:90 | Over a converted Hofstede table with no "Individualism" rows, the chart series is all zeros. |
| Web.IndividualismSeries | scripts.js:90 | One value per country, in catalog order: its "Individualism" score when present, otherwise 0. |
| Web.CorrectedIndividualismSeries | scripts.js:90 | One value per country, in catalog order: its `idv` score when present, otherwise 0. |
| Web.CorrectedSeriesShowsIdv | scripts.js:90 | The series read under `idv` shows each country's last `idv` value from the table. |
| Web.OneIdvRow | scripts.js:90 | A one-row table with an `idv` score v gives the series [0] as written and [v] corrected. |
| Web.ArgentinaIndividualism | convert_data.py:112 | Argentina's `idv` row of 46 gives the series [0] as written and [46] corrected. |
| Fixtures.ThreeVariances | functions.py:38 | For A(0,0), B(10,0), C(0,10), both columns have sample variance 100/3. |
| Fixtures.PairsOfThree | functions.py:39 | The scaled squared distances of A and B, A and C, and B and C are 3, 3 and 6. |
| Fixtures.ThreeSquared | functions.py:39-41 | The squared table of the three countries is [[0,3,3],[3,0,6],[3,6,0]]: d(A,B) = d(A,C) > 0. |
| Fixtures.ThreeNormalized | functions.py:42 | With k = 2, functions.py's table is the squared table halved. |
| Fixtures.SharedProfileWitness | functions.py:217 | For A(0,0), B(0,0), C(10,10), the data are admissible with both dimensions used, and both variants report the minimum between "A" and "A". |
| Stats.VarianceIsMeanVariance | functions.py:38 | The integer form of the variance equals pandas' `var()`: the squared gaps from the mean, summed and divided by n - 1. |
| Fixtures.CultureMapSliceColumns | convert_data.py:8-10 | Over Argentina and Botswana, whose "persuading" is -1, the used columns are the first seven Culture Map scales. |

## Left out

- Plotting, network layouts, clustering, box-plot drawing, menus, clipboard copy, terminal clearing, the `print` calls and the CSV write are left out. They are I/O. `export_distances_to_csv` is modelled only through the file name it builds.
- Reading the catalogs from JSON or CSV text and pandas' CSV parsing are left out. The model starts from the parsed records and rows.
- Floating point is left out. Distances are exact reals and scores exact integers, and the `.2f` formatting of the report strings is omitted. The reports are modelled as the values and labels they format.
- Distances.IsRootTable: the square root has no definition in the model. main.py's table is described as the unique cellwise non-negative root of the squared table, not computed.
- Distances.Admissible: a constant used column (variance 0, so nan in the code) and an empty catalog are preconditions, not modelled error paths. The code produces nan, or fails inside pandas, rather than reporting an error.
- Distances.NormalizedTable: it requires k >= 1, because functions.py divides 0 by 0 when no dimension survives.
- `input(num_dimensions)` at functions.py:37 is left out. It waits for a key press and does not change the result.
- Queries.FindMaxMinDistances: it requires at least two countries. With one country every cell is masked and pandas returns nan.
- Queries.FindMaxMinForCountry: it requires at least two countries and unique labels. With one country the dropped row is empty (nan). With a duplicated label, `loc` returns a frame, not a row.
- Flatten.FlattenPairs: it requires unique labels, as the pair dictionary keyed by names does. `len(distances)` and `len(pair_to_distance)` are only printed.
- Reports.DisplayCulturalDimensions: `set_index("Country")` is modelled as the row index. A score key named "Country" is dropped from the columns rather than overwriting the name.
- Reports.Slug: `lower()` is modelled for ASCII letters only. Unicode case mapping is not modelled.
- Conversion.RecordScores: `int(row["Value"])` is taken as an integer column. The truncation of non-integer values is not modelled.
- Web.PopulateTable: `Object.entries` is modelled in insertion order. JavaScript lists integer-like keys first, and no catalog key is one. `dataTable.draw()` is rendering and is left out.
- Web.CompareCountries: the `alert` for an empty selector is the `None` result. The HTML table markup is left out. `data1` is looked up but only its scores are used, as in the code.
- Web.Series: the chart object, its type selector and its styling are left out.
- The visualisation, clustering and box-plot functions of functions.py and main.py, other than the flattening loop, are left out. They are plotting.

## Findings

| source | as written | input that shows it | evidently intended | confidence | as-written member | corrected member |
|---|---|---|---|---|---|---|
| scripts.js:90 | The chart reads `c.scores["Individualism"] \|\| 0`, but the converted Hofstede records store individualism under the key `idv` (convert_data.py:112, 629-645). So every bar is 0. | The Hofstede row `ARG,Argentina,idv,46` | Read the key `idv`, so that Argentina shows 46 | not executed | Web.IndividualismSeriesIsZero, Web.ArgentinaIndividualism | Web.CorrectedIndividualismSeries, Web.CorrectedSeriesShowsIdv, Web.OneIdvRow |
| functions.py:217, main.py:213 | The minimum's location is looked up with `distance_df.where(distance_df == min_distance)` on the unmasked table. When two different countries share a profile, the minimum is 0, and the first cell holding 0 is the diagonal cell (0, 0). The report then pairs the first country with itself. | Countries A(0,0), B(0,0) and C(10,10): A and B share a profile, so d(A,B) = 0 | Look the location up on the masked table and report two different countries, "A" and "B" | not executed | Variants.SharedProfileReportedAsSelf, Fixtures.SharedProfileWitness, Queries.ZeroMinimumReportsFirstDiagonalCell | Queries.CorrectedMinCell, Queries.CorrectedMinCellAgrees |
| scripts.js:58-62 | `cultureData2` is fetched but never read. Every row's second cell, Culture Map scales included, is looked up in the second country's Hofstede scores, which hold no Culture Map scale. So every Culture Map row shows "N/A" for the second country. | Hofstede records Argentina{idv: 46}, Brazil{idv: 38}; Culture Map records Argentina{trusting: 60}, Brazil{trusting: 70} | Show each Culture Map row against `cultureData2.scores`, so that Brazil's "trusting" shows 70 | not executed | Web.CompareCountries, Web.SecondColumnMeaning, Web.CultureMapRowShowsNA | Web.CorrectedCompareCountries, Web.CorrectedComparisonMeaning |