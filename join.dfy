/** The growth lookup table and the inner join of the filtered
    life-expectancy rows with it (main.js:51-65). */
module Join {
  import opened Wrappers
  import opened Rows

  /** The codes carried by a list of rows. */
  function Codes(rows: seq<Row>): set<Option<string>> {
    set d | d in rows :: d.code
  }

  /** Position `j` holds the last row of `rows` with that row's code. */
  predicate IsLastOfCode(rows: seq<Row>, j: int) {
    0 <= j < |rows| && forall k :: j < k < |rows| ==> rows[k].code != rows[j].code
  }

  /** `new Map(rows.map(d => [d.code, d]))` (main.js:51): the pairs are set
      in list order, so a later row overwrites an earlier one with the same
      code. Every code of the list is a key, and each key leads to a row of
      the list carrying that code. */
  function GrowthByCode(rows: seq<Row>): (byCode: map<Option<string>, Row>)
    ensures byCode.Keys == Codes(rows)
    ensures forall c :: c in byCode ==> byCode[c] in rows && byCode[c].code == c
  {
    if rows == [] then map[]
    else
      var n := |rows| - 1;
      assert rows == rows[..n] + [rows[n]];
      GrowthByCode(rows[..n])[rows[n].code := rows[n]]
  }

  /** Last one wins: the row the table holds for a code is the last row of
      the list with that code. */
  lemma {:induction false} GrowthByCodeLastWins(rows: seq<Row>, j: int)
    requires IsLastOfCode(rows, j)
    ensures rows[j].code in GrowthByCode(rows)
    ensures GrowthByCode(rows)[rows[j].code] == rows[j]
  {
    var n := |rows| - 1;
    if j < n {
      assert rows[..n][j] == rows[j];
      GrowthByCodeLastWins(rows[..n], j);
    }
  }

  /** The position of the last row of `rows` with code `c`. */
  function LastIndexOf(rows: seq<Row>, c: Option<string>): (j: int)
    requires c in Codes(rows)
    ensures IsLastOfCode(rows, j) && rows[j].code == c
  {
    var n := |rows| - 1;
    assert rows == rows[..n] + [rows[n]];
    if rows[n].code == c then n
    else
      assert c in Codes(rows[..n]);
      LastIndexOf(rows[..n], c)
  }

  /** Conversely, whatever the table holds for a code is the last row of the
      list with that code. */
  lemma GrowthByCodeHoldsLast(rows: seq<Row>, c: Option<string>)
    requires c in GrowthByCode(rows)
    ensures exists j :: IsLastOfCode(rows, j) && rows[j].code == c && GrowthByCode(rows)[c] == rows[j]
  {
    GrowthByCodeLastWins(rows, LastIndexOf(rows, c));
  }

  /** The `.map` callback of main.js:54-64: `null` when no growth row has
      the code (`if (!g)`; a row object is never falsy), otherwise the
      joined record with name and life expectancy from the life row and the
      growth rate from the growth row. */
  function JoinRow(d: Row, byCode: map<Option<string>, Row>): (r: Option<Merged>)
    ensures r.None? <==> d.code !in byCode
    ensures r.Some? ==> JoinedFrom(r.value, d, byCode[d.code])
  {
    if d.code in byCode then
      Some(Merged(d.entity, d.code, Year, d.value, byCode[d.code].value))
    else
      None
  }

  /** `lifeYear.map(...)` (main.js:53-64). */
  function JoinAll(life: seq<Row>, byCode: map<Option<string>, Row>): (joined: seq<Option<Merged>>)
    ensures |joined| == |life|
    ensures forall i :: 0 <= i < |life| ==> (joined[i].None? <==> life[i].code !in byCode)
    ensures forall i :: 0 <= i < |life| && joined[i].Some? ==> JoinedFrom(joined[i].value, life[i], byCode[life[i].code])
  {
    seq(|life|, i requires 0 <= i < |life| => JoinRow(life[i], byCode))
  }

  /** `.filter(d => d !== null)` (main.js:65): the records present, in order. */
  function DropNulls(xs: seq<Option<Merged>>): (ys: seq<Merged>)
    ensures |ys| <= |xs|
    ensures forall y :: y in ys <==> Some(y) in xs
  {
    if xs == [] then []
    else
      assert xs == [xs[0]] + xs[1..];
      match xs[0]
      case None => DropNulls(xs[1..])
      case Some(y) => [y] + DropNulls(xs[1..])
  }

  /** Dropping `null`s keeps every copy of every record: each record occurs
      as often in the result as it does, wrapped, in the input. */
  lemma {:induction false} DropNullsCounts(xs: seq<Option<Merged>>, y: Merged)
    ensures multiset(DropNulls(xs))[y] == multiset(xs)[Some(y)]
  {
    if xs != [] {
      DropNullsCounts(xs[1..], y);
      assert xs == [xs[0]] + xs[1..];
      assert multiset(xs) == multiset{xs[0]} + multiset(xs[1..]);
      match xs[0]
      case None =>
        assert DropNulls(xs) == DropNulls(xs[1..]);
      case Some(z) =>
        assert DropNulls(xs) == [z] + DropNulls(xs[1..]);
        assert multiset(DropNulls(xs)) == multiset{z} + multiset(DropNulls(xs[1..]));
    }
  }

  /** Dropping `null`s works entry by entry, so it distributes over
      concatenation: the records stay in order. */
  lemma {:induction false} DropNullsAppend(a: seq<Option<Merged>>, b: seq<Option<Merged>>)
    ensures DropNulls(a + b) == DropNulls(a) + DropNulls(b)
  {
    if a == [] {
      assert a + b == b;
    } else {
      DropNullsAppend(a[1..], b);
      assert (a + b)[0] == a[0];
      assert (a + b)[1..] == a[1..] + b;
    }
  }

  /** Every record the join keeps comes from a life row whose code is a key
      of the table. */
  lemma JoinedCodes(life: seq<Row>, byCode: map<Option<string>, Row>)
    ensures forall m :: m in DropNulls(JoinAll(life, byCode)) ==> m.code in Codes(life) && m.code in byCode
  {
  }

  /** `merged` of main.js:53-65, built from the two filtered lists. It is no
      longer than the life list, and every merged code occurs in both lists:
      no record without its two sources. */
  function Merge(lifeYear: seq<Row>, growthYear: seq<Row>): (merged: seq<Merged>)
    ensures |merged| <= |lifeYear|
    ensures forall m :: m in merged ==> m.code in Codes(lifeYear) && m.code in Codes(growthYear)
  {
    JoinedCodes(lifeYear, GrowthByCode(growthYear));
    DropNulls(JoinAll(lifeYear, GrowthByCode(growthYear)))
  }

  /** Reference definition: the life rows whose code is one of `codes`, in
      their order, duplicates included. */
  function Matched(life: seq<Row>, codes: set<Option<string>>): (sel: seq<Row>)
    ensures |sel| <= |life|
  {
    if life == [] then []
    else if life[0].code in codes then [life[0]] + Matched(life[1..], codes)
    else Matched(life[1..], codes)
  }

  /** The record the join makes from a life row and the growth row it matched. */
  predicate JoinedFrom(m: Merged, d: Row, g: Row) {
    m == Merged(d.entity, d.code, Year, d.value, g.value)
  }

  /** The record is the life row `d` joined with the last row of `growthYear`
      that carries `d`'s code. */
  predicate JoinedWithLast(m: Merged, d: Row, growthYear: seq<Row>) {
    exists j :: 0 <= j < |growthYear| && IsLastOfCode(growthYear, j) && growthYear[j].code == d.code && JoinedFrom(m, d, growthYear[j])
  }

  /** The join, for a fixed lookup table, produces one record per life row
      whose code is a key, in life-row order. */
  lemma {:induction false} JoinAllMatches(life: seq<Row>, byCode: map<Option<string>, Row>)
    ensures |DropNulls(JoinAll(life, byCode))| == |Matched(life, byCode.Keys)|
    ensures forall k :: 0 <= k < |Matched(life, byCode.Keys)| ==>
              Matched(life, byCode.Keys)[k].code in byCode &&
              JoinedFrom(DropNulls(JoinAll(life, byCode))[k], Matched(life, byCode.Keys)[k], byCode[Matched(life, byCode.Keys)[k].code])
  {
    if life != [] {
      JoinAllMatches(life[1..], byCode);
      var joined := JoinAll(life, byCode);
      assert joined[0] == JoinRow(life[0], byCode);
      assert joined[1..] == JoinAll(life[1..], byCode);
    }
  }

  /** `merged` is exactly the filtered life rows whose code some growth row
      carries, in their order: country, code and life expectancy from the
      life row, the growth rate from the last growth row with that code. */
  lemma MergeMatches(lifeYear: seq<Row>, growthYear: seq<Row>)
    ensures |Merge(lifeYear, growthYear)| == |Matched(lifeYear, Codes(growthYear))|
    ensures forall k :: 0 <= k < |Merge(lifeYear, growthYear)| ==>
              JoinedWithLast(Merge(lifeYear, growthYear)[k], Matched(lifeYear, Codes(growthYear))[k], growthYear)
  {
    var byCode := GrowthByCode(growthYear);
    var merged := Merge(lifeYear, growthYear);
    var sel := Matched(lifeYear, Codes(growthYear));
    JoinAllMatches(lifeYear, byCode);
    forall k | 0 <= k < |merged|
      ensures JoinedWithLast(merged[k], sel[k], growthYear)
    {
      var j := LastIndexOf(growthYear, sel[k].code);
      GrowthByCodeLastWins(growthYear, j);
      assert IsLastOfCode(growthYear, j) && growthYear[j].code == sel[k].code && JoinedFrom(merged[k], sel[k], growthYear[j]);
    }
  }

  /** Each matched life row is in the life list and its code is in both lists. */
  lemma {:induction false} MatchedMembers(life: seq<Row>, codes: set<Option<string>>)
    ensures forall d :: d in Matched(life, codes) ==> d in life && d.code in codes
  {
    if life != [] {
      MatchedMembers(life[1..], codes);
    }
  }

  /** When every life row's code is among `codes`, all of them match. */
  lemma {:induction false} MatchedAll(life: seq<Row>, codes: set<Option<string>>)
    requires forall d :: d in life ==> d.code in codes
    ensures Matched(life, codes) == life
  {
    if life != [] {
      MatchedAll(life[1..], codes);
    }
  }

  /** Duplicate life rows are not collapsed: when every filtered life row
      has a growth match, `merged` has one record per life row. */
  lemma MergeKeepsDuplicates(lifeYear: seq<Row>, growthYear: seq<Row>)
    requires forall d :: d in lifeYear ==> d.code in Codes(growthYear)
    ensures |Merge(lifeYear, growthYear)| == |lifeYear|
  {
    MergeMatches(lifeYear, growthYear);
    MatchedAll(lifeYear, Codes(growthYear));
  }
}
