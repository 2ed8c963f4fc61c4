/** The year/code/finite selection applied to each indicator list
    (main.js:43-49). */
module Selection {
  import opened Wrappers
  import opened Rows

  /** JavaScript truthiness of `d.code`: defined and not the empty string. */
  predicate Truthy(code: Option<string>) {
    code.Some? && |code.value| > 0
  }

  /** The filter predicate of main.js:44 and main.js:48. The truthiness test
      on the code adds nothing to the length test: a row passes exactly when
      its year is 2023, its code is present with three characters and its
      value is finite. */
  predicate Keep(d: Row): (ok: bool)
    ensures ok <==> d.year == Finite(Year as real) && d.code.Some? && |d.code.value| == 3 && IsFinite(d.value)
  {
    && d.year == Finite(Year as real)
    && Truthy(d.code)
    && |d.code.value| == 3
    && IsFinite(d.value)
  }

  /** `rows.filter(Keep)`: every row it returns passes the filter and it
      never grows the list. */
  function FilterRows(rows: seq<Row>): (kept: seq<Row>)
    ensures forall d :: d in kept ==> Keep(d)
    ensures |kept| <= |rows|
  {
    if rows == [] then []
    else if Keep(rows[0]) then [rows[0]] + FilterRows(rows[1..])
    else FilterRows(rows[1..])
  }

  /** `a` is `b` with some elements removed, the rest in their order. */
  predicate IsSubsequence<T(==)>(a: seq<T>, b: seq<T>)
    decreases |b|
  {
    a == [] || (b != [] && ((a[0] == b[0] && IsSubsequence(a[1..], b[1..])) || IsSubsequence(a, b[1..])))
  }

  /** A row survives exactly when it is in the input and passes the filter. */
  lemma {:induction false} FilterMembership(rows: seq<Row>, d: Row)
    ensures d in FilterRows(rows) <==> d in rows && Keep(d)
  {
    if rows != [] {
      FilterMembership(rows[1..], d);
      assert rows == [rows[0]] + rows[1..];
    }
  }

  /** The filter keeps every copy of a passing row and no copy of any other:
      duplicates are neither merged nor dropped. */
  lemma {:induction false} FilterCounts(rows: seq<Row>, d: Row)
    ensures multiset(FilterRows(rows))[d] == if Keep(d) then multiset(rows)[d] else 0
  {
    if rows != [] {
      FilterCounts(rows[1..], d);
      assert rows == [rows[0]] + rows[1..];
    }
  }

  /** The filtered list is the input with rows removed, in the input's order. */
  lemma {:induction false} FilterIsSubsequence(rows: seq<Row>)
    ensures IsSubsequence(FilterRows(rows), rows)
  {
    if rows != [] {
      FilterIsSubsequence(rows[1..]);
    }
  }

  /** Filtering a list whose rows all pass changes nothing. */
  lemma {:induction false} FilterOfPassing(rows: seq<Row>)
    requires forall d :: d in rows ==> Keep(d)
    ensures FilterRows(rows) == rows
  {
    if rows != [] {
      FilterOfPassing(rows[1..]);
    }
  }

  /** Filtering twice is filtering once. */
  lemma {:induction false} FilterIdempotent(rows: seq<Row>)
    ensures FilterRows(FilterRows(rows)) == FilterRows(rows)
  {
    FilterOfPassing(FilterRows(rows));
  }

  /** The filter works row by row, so it distributes over concatenation. */
  lemma {:induction false} FilterAppend(a: seq<Row>, b: seq<Row>)
    ensures FilterRows(a + b) == FilterRows(a) + FilterRows(b)
  {
    if a == [] {
      assert a + b == b;
    } else {
      var rest := a[1..] + b;
      FilterAppend(a[1..], b);
      assert a + b == [a[0]] + rest;
      assert ([a[0]] + rest)[1..] == rest;
      assert a == [a[0]] + a[1..];
    }
  }

  /** A parsed record passes the filter exactly when its `Year` cell converts
      to 2023, its `Code` cell has three characters, and its metric cell is
      neither empty nor absent and converts to a finite number. */
  lemma ParsedRowPasses(rec: CsvRecord, metric: string, toNumber: string -> Num)
    ensures Keep(ParseRow(rec, metric, toNumber)) <==>
              && Plus(Field(rec, YearColumn), toNumber) == Finite(Year as real)
              && Field(rec, CodeColumn).Some? && |Field(rec, CodeColumn).value| == 3
              && Field(rec, metric).Some? && Field(rec, metric).value != ""
              && IsFinite(toNumber(Field(rec, metric).value))
  {
  }

  /** A record whose metric cell is empty is parsed to NaN and so never
      reaches the filtered list, whatever the number conversion does. */
  lemma EmptyMetricNeverSurvives(recs: seq<CsvRecord>, metric: string, toNumber: string -> Num, i: nat)
    requires i < |recs|
    requires Field(recs[i], metric) == Some("")
    ensures ParseRow(recs[i], metric, toNumber) !in FilterRows(ParseTable(recs, metric, toNumber))
  {
  }
}
