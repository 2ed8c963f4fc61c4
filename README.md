# Life expectancy vs population growth: the data join, in Dafny

This project models the data step of a small browser dashboard. The dashboard
loads two indicator tables, life expectancy and population growth rate, one
row per country and year. It keeps the rows for 2023 that carry a code of
exactly three characters and a finite value. It then joins each life-expectancy row
with the growth row of the same code. The joined records feed two histograms
and a scatterplot.

The model follows the source's shape, which is pure: `filter`, `map`, a `Map`
built from key/value pairs and a final `filter` that drops `null`s. Each step
is a function over sequences, and the properties are lemmas about those
functions.

- `Rows` (`rows.dfy`): the JavaScript number as `Finite(r) | NonFinite`; a CSV
  record as a header-to-cell map; the parsed row and the merged record; the two
  row mappers. String-to-number conversion is a parameter. The model keeps the
  mapper's own rule that an empty metric cell becomes NaN, rather than the 0
  that `+""` gives, and the rule that an absent column reads as `undefined`,
  whose numeric value is NaN.
- `Selection` (`filter.dfy`): the year/code/finite filter, with a reference
  definition of "subsequence".
- `Join` (`join.dfy`): the growth-by-code table, built as a left fold so that
  the last row with a code wins, as the `Map(iterable)` constructor does
  (section 24.1.1.1 of ECMA-262). Also the per-row join, the dropping of
  `null`s, and a reference definition (`Matched`) of the records the join must
  produce.
- `Dashboard` (`dashboard.dfy`): the whole data step from parsed rows and from
  CSV records, and the two histogram inputs.

The code joins two tables. Its join is not an upsert keyed by code: every
filtered life row that matches gives its own record, so duplicate life rows
are kept. Among growth rows that share a code, the last
one supplies the growth rate.

## Model

| member | source | states |
|---|---|---|
| `Rows.ParseRow` | main.js:30-41 | The row takes its entity and code from the `Entity` and `Code` columns. Its year is the number conversion of the `Year` cell, so a missing `Year` column gives a non-finite year. An empty or missing metric cell gives a non-finite value. Any other cell goes through number conversion. |
| `Rows.ParseTable` | main.js:30-41 | The parsed table has one row per CSV record, in record order, each produced by the table's row mapper. |
| `Selection.Keep` | main.js:44-48 | A row passes exactly when its year is 2023, its code is present with exactly three characters, and its value is finite. The truthiness test on the code is implied by the length test. |
| `Selection.ParsedRowPasses` | main.js:30-49 | A parsed record passes exactly when its `Year` cell converts to 2023, its `Code` cell has three characters, and its metric cell is present, not empty and converts to a finite number. |
| `Selection.FilterRows` | main.js:43-49 | Every row kept has year 2023, a present non-empty code of length 3 and a finite value. The result is never longer than the input. |
| `Selection.FilterMembership` | main.js:43-49 | A row is in the filtered list if and only if it is in the input and passes the filter. |
| `Selection.FilterCounts` | main.js:43-49 | Each passing row keeps all its copies, and a failing row keeps none: duplicates are neither merged nor dropped. |
| `Selection.FilterIsSubsequence` | main.js:43-49 | The filtered list is a subsequence of the input, in the input's order. |
| `Selection.FilterOfPassing` | main.js:43-49 | Filtering a list whose rows all pass returns it unchanged. |
| `Selection.FilterIdempotent` | main.js:43-49 | Filtering twice gives the same list as filtering once. |
| `Selection.FilterAppend` | main.js:43-49 | The filter of a concatenation is the concatenation of the filters. |
| `Selection.EmptyMetricNeverSurvives` | main.js:30-49 | A record whose metric cell is the empty string never reaches the filtered list, whatever number conversion does. |
| `Join.GrowthByCode` | main.js:51 | The table's keys are exactly the codes of the growth rows, and each key leads to a growth row carrying that code. |
| `Join.GrowthByCodeLastWins` | main.js:51 | For the last growth row with a given code, the table maps that code to that row. |
| `Join.GrowthByCodeHoldsLast` | main.js:51 | Conversely, the row the table holds for a code is the last growth row with that code. |
| `Join.JoinRow` | main.js:54-64 | The callback gives `null` exactly when the life row's code is not a key of the table. Otherwise it gives the record joined from the life row and the table's row for that code. |
| `Join.JoinAll` | main.js:53-64 | Mapping the callback gives one entry per life row. Entry i is `null` exactly when life row i's code is not a key, and otherwise it is the record joined from life row i and the table's row for its code. |
| `Join.DropNulls` | main.js:65 | Dropping `null`s keeps exactly the records present and never lengthens the list. |
| `Join.DropNullsCounts` | main.js:65 | Each record occurs in the result exactly as often as it occurs, non-null, in the input, so no copy is lost or merged. |
| `Join.DropNullsAppend` | main.js:65 | Dropping `null`s from a concatenation is the concatenation of the two results, so the records keep their order. |
| `Join.JoinedCodes` | main.js:53-65 | Every record the join keeps carries the code of some life row, and that code is a key of the growth table. |
| `Join.Merge` | main.js:51-65 | `merged` is no longer than the filtered life list, and every merged code occurs in both the filtered life list and the filtered growth list. |
| `Join.JoinAllMatches` | main.js:53-65 | For a fixed table, the join gives one record per life row whose code is a key, in life-row order. Each record joins that row with the table's row for its code. |
| `Join.MergeMatches` | main.js:51-65 | `merged` has one record per filtered life row whose code occurs among the growth rows, in the same order. Country, code and life expectancy come from that life row, year is 2023, and growth comes from the last growth row with that code. |
| `Join.MergeKeepsDuplicates` | main.js:53-65 | When every life row has a growth match, `merged` has one record per life row, so duplicates are not collapsed. |
| `Dashboard.MergeOfPassingIsPlottable` | main.js:53-65 | Joining two filtered lists yields only records with year 2023, a 3-character code and finite life expectancy and growth. |
| `Dashboard.MergeLoaded` | main.js:43-65 | The data step from parsed rows: every record is plottable. There are no more records than filtered life rows, and no more filtered life rows than input rows. |
| `Dashboard.MergeTables` | main.js:30-65 | The data step from the two CSV tables: every record is plottable, and there are no more records than life-expectancy records. |
| `Dashboard.GrowthOnlyCountryAbsent` | main.js:43-65 | A code that no life-expectancy row carries never appears in `merged`. |
| `Dashboard.HistogramInputs` | main.js:68-74 | Each histogram gets exactly one value per merged record, that record's life expectancy or growth rate, and every value is finite. |
| `Dashboard.SingleCountryScenario` | main.js:43-65 | One country in both tables gives one record with the life expectancy from the first table and the growth rate from the second. |
| `Dashboard.DuplicatesScenario` | main.js:51-65 | Two growth rows for one code: the later one supplies the growth rate. Two identical life rows give two records. |

## Left out

- Drawing (`drawHistogram`, `drawScatter`, main.js:89-243): scales, binning, axes and extents are the charting library's, which is not part of this model. Only the values handed to the charts are modelled.
- Tooltip element and mouse handlers (main.js:17-26 and inside the drawing functions): UI event wiring and floating-point formatting.
- Loading (`Promise.all`, the CSV fetches, `.catch` logging, main.js:29-42 and 85-87): asynchronous I/O. The parsed tables are inputs instead. A failed load yields no dashboard, and there is nothing to model for that.
- Number conversion (`+d.Year`, `+d[...]`): an arbitrary function parameter `toNumber`. Two rules are kept: the mapper turns an empty metric cell into NaN, and `+undefined` (an absent column) is NaN.
- NaN, +Infinity and -Infinity are a single `NonFinite`. Nothing in the core tells them apart.
- `Selection.FilterRows`: code length is counted in Dafny characters (Unicode scalar values), while JavaScript's `.length` counts UTF-16 code units. The two differ only for codes with characters outside the Basic Multilingual Plane.
- SVG sizes and margins (main.js:4-15): layout constants of the drawing code.
