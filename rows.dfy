/** Option, for a JavaScript property that may be `undefined` and for the
    `null` a mapping callback returns. */
module Wrappers {
  datatype Option<+T> = None | Some(value: T)
}

/** The records of the dashboard: the rows the two CSV mappers produce and
    the merged per-country record, together with the mappers themselves
    (main.js:30-41). */
module Rows {
  import opened Wrappers

  /** The one year the dashboard shows (main.js:2). */
  const Year: int := 2023

  /** Header of the country-name column in both indicator tables. */
  const EntityColumn: string := "Entity"
  /** Header of the country-code column in both indicator tables. */
  const CodeColumn: string := "Code"
  /** Header of the year column in both indicator tables. */
  const YearColumn: string := "Year"
  /** Metric column of data/life-expectancy.csv. */
  const LifeColumn: string := "Life expectancy"
  /** Metric column of data/population-growth-rates.csv. */
  const GrowthColumn: string := "Growth rate, total"

  /** A JavaScript number as far as the dashboard looks at it: a finite
      value, or one of NaN, +Infinity and -Infinity, which no step of the
      core tells apart. */
  datatype Num = Finite(r: real) | NonFinite

  /** `Number.isFinite`. */
  predicate IsFinite(n: Num) {
    n.Finite?
  }

  /** One record as the CSV parser hands it to a row mapper: cell text by
      column header. A header the file does not have reads as `undefined`. */
  type CsvRecord = map<string, string>

  /** `d[column]`: the cell text, or `undefined` when there is no such column. */
  function Field(rec: CsvRecord, column: string): Option<string> {
    if column in rec then Some(rec[column]) else None
  }

  /** Unary plus on a cell. `toNumber` is JavaScript's string-to-number
      conversion, which the model leaves open; `+undefined` is NaN. */
  function Plus(cell: Option<string>, toNumber: string -> Num): Num {
    match cell
    case None => NonFinite
    case Some(s) => toNumber(s)
  }

  /** A parsed indicator row `{entity, code, year, <metric>}`. The life
      mapper names its metric `lifeExp`, the growth mapper `growth`; here
      both are `value`. */
  datatype Row = Row(entity: Option<string>, code: Option<string>, year: Num, value: Num)

  /** One joined record `{country, code, year, lifeExp, growth}`. */
  datatype Merged = Merged(country: Option<string>, code: Option<string>, year: int, lifeExp: Num, growth: Num)

  /** The row mapper of main.js:30-35 and main.js:36-41, for the metric
      column `metric`: an empty metric cell becomes NaN rather than the 0
      that `+""` would give. */
  function ParseRow(rec: CsvRecord, metric: string, toNumber: string -> Num): (d: Row)
    ensures d.entity == Field(rec, EntityColumn) && d.code == Field(rec, CodeColumn)
    ensures d.year == Plus(Field(rec, YearColumn), toNumber)
    ensures Field(rec, YearColumn) == None ==> !IsFinite(d.year)
    ensures Field(rec, metric) == Some("") ==> !IsFinite(d.value)
    ensures Field(rec, metric) == None ==> !IsFinite(d.value)
    ensures Field(rec, metric) != Some("") ==> d.value == Plus(Field(rec, metric), toNumber)
  {
    var cell := Field(rec, metric);
    Row(Field(rec, EntityColumn),
        Field(rec, CodeColumn),
        Plus(Field(rec, YearColumn), toNumber),
        if cell == Some("") then NonFinite else Plus(cell, toNumber))
  }

  /** The life-expectancy mapper (main.js:30-35). */
  function ParseLife(rec: CsvRecord, toNumber: string -> Num): Row {
    ParseRow(rec, LifeColumn, toNumber)
  }

  /** The population-growth mapper (main.js:36-41). */
  function ParseGrowth(rec: CsvRecord, toNumber: string -> Num): Row {
    ParseRow(rec, GrowthColumn, toNumber)
  }

  /** The CSV loader's mapping of every record of a table through one mapper. */
  function ParseTable(recs: seq<CsvRecord>, metric: string, toNumber: string -> Num): (rows: seq<Row>)
    ensures |rows| == |recs|
    ensures forall i :: 0 <= i < |recs| ==> rows[i] == ParseRow(recs[i], metric, toNumber)
  {
    seq(|recs|, i requires 0 <= i < |recs| => ParseRow(recs[i], metric, toNumber))
  }
}
