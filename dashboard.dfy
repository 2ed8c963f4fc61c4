/** The data step of the `.then` callback (main.js:42-65) and the two
    histogram inputs it hands to the charts (main.js:68, main.js:74). */
module Dashboard {
  import opened Wrappers
  import opened Rows
  import opened Selection
  import opened Join

  /** What every chart may assume of a record: the target year, a
      three-character code and finite values on both axes. */
  predicate Plottable(m: Merged) {
    && m.year == Year
    && m.code.Some?
    && |m.code.value| == 3
    && IsFinite(m.lifeExp)
    && IsFinite(m.growth)
  }

  /** Joining two lists of rows that passed the filter yields only
      plottable records. */
  lemma MergeOfPassingIsPlottable(lifeYear: seq<Row>, growthYear: seq<Row>)
    requires forall d :: d in lifeYear ==> Keep(d)
    requires forall d :: d in growthYear ==> Keep(d)
    ensures forall m :: m in Merge(lifeYear, growthYear) ==> Plottable(m)
  {
    var merged := Merge(lifeYear, growthYear);
    var sel := Matched(lifeYear, Codes(growthYear));
    MergeMatches(lifeYear, growthYear);
    MatchedMembers(lifeYear, Codes(growthYear));
    forall m | m in merged
      ensures Plottable(m)
    {
      var k :| 0 <= k < |merged| && merged[k] == m;
      assert sel[k] in sel;
      var j :| 0 <= j < |growthYear| && IsLastOfCode(growthYear, j) && growthYear[j].code == sel[k].code
               && JoinedFrom(m, sel[k], growthYear[j]);
      assert growthYear[j] in growthYear;
    }
  }

  /** `merged` from the two parsed lists (main.js:43-65): filter both, index
      the growth rows by code, join. Every record is plottable and there are
      no more records than filtered life rows. */
  function MergeLoaded(lifeData: seq<Row>, growthData: seq<Row>): (merged: seq<Merged>)
    ensures forall m :: m in merged ==> Plottable(m)
    ensures |merged| <= |FilterRows(lifeData)| <= |lifeData|
  {
    MergeOfPassingIsPlottable(FilterRows(lifeData), FilterRows(growthData));
    Merge(FilterRows(lifeData), FilterRows(growthData))
  }

  /** The whole data step from the two CSV tables: no more records than
      life-expectancy records, all of them plottable. */
  function MergeTables(lifeCsv: seq<CsvRecord>, growthCsv: seq<CsvRecord>, toNumber: string -> Num): (merged: seq<Merged>)
    ensures forall m :: m in merged ==> Plottable(m)
    ensures |merged| <= |lifeCsv|
  {
    MergeLoaded(ParseTable(lifeCsv, LifeColumn, toNumber), ParseTable(growthCsv, GrowthColumn, toNumber))
  }

  /** A country that no life-expectancy row names never appears in `merged`,
      however many growth rows it has. */
  lemma GrowthOnlyCountryAbsent(lifeData: seq<Row>, growthData: seq<Row>, c: Option<string>)
    requires forall d :: d in lifeData ==> d.code != c
    ensures forall m :: m in MergeLoaded(lifeData, growthData) ==> m.code != c
  {
    var lifeYear := FilterRows(lifeData);
    forall d | d in lifeYear
      ensures d.code != c
    {
      FilterMembership(lifeData, d);
    }
  }

  /** `merged.map(d => d.lifeExp)` (main.js:68). */
  function LifeExpValues(merged: seq<Merged>): seq<Num> {
    seq(|merged|, i requires 0 <= i < |merged| => merged[i].lifeExp)
  }

  /** `merged.map(d => d.growth)` (main.js:74). */
  function GrowthValues(merged: seq<Merged>): seq<Num> {
    seq(|merged|, i requires 0 <= i < |merged| => merged[i].growth)
  }

  /** Both histograms get one value per merged record, the life expectancy
      and the growth rate of that record, and every value is finite. */
  lemma HistogramInputs(lifeData: seq<Row>, growthData: seq<Row>)
    ensures |LifeExpValues(MergeLoaded(lifeData, growthData))| == |MergeLoaded(lifeData, growthData)|
    ensures |GrowthValues(MergeLoaded(lifeData, growthData))| == |MergeLoaded(lifeData, growthData)|
    ensures forall i :: 0 <= i < |MergeLoaded(lifeData, growthData)| ==>
              LifeExpValues(MergeLoaded(lifeData, growthData))[i] == MergeLoaded(lifeData, growthData)[i].lifeExp &&
              GrowthValues(MergeLoaded(lifeData, growthData))[i] == MergeLoaded(lifeData, growthData)[i].growth
    ensures forall x :: x in LifeExpValues(MergeLoaded(lifeData, growthData)) ==> IsFinite(x)
    ensures forall x :: x in GrowthValues(MergeLoaded(lifeData, growthData)) ==> IsFinite(x)
  {
  }

  /** One country in both tables gives one record with the life expectancy
      of the first table and the growth rate of the second. */
  lemma SingleCountryScenario()
    ensures MergeLoaded([Row(Some("Aland"), Some("AAA"), Finite(2023.0), Finite(70.0))],
                        [Row(Some("Aland"), Some("AAA"), Finite(2023.0), Finite(1.5))])
         == [Merged(Some("Aland"), Some("AAA"), 2023, Finite(70.0), Finite(1.5))]
  {
  }

  /** With two growth rows for one code, the later one supplies the growth
      rate; two identical life rows give two records. */
  lemma DuplicatesScenario()
    ensures MergeLoaded([Row(Some("Aland"), Some("AAA"), Finite(2023.0), Finite(70.0)),
                         Row(Some("Aland"), Some("AAA"), Finite(2023.0), Finite(70.0))],
                        [Row(Some("Aland"), Some("AAA"), Finite(2023.0), Finite(1.5)),
                         Row(Some("Aland"), Some("AAA"), Finite(2023.0), Finite(2.5))])
         == [Merged(Some("Aland"), Some("AAA"), 2023, Finite(70.0), Finite(2.5)),
             Merged(Some("Aland"), Some("AAA"), 2023, Finite(70.0), Finite(2.5))]
  {
  }
}
