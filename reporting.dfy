/** The reporting stage (`visualize_data.py`): the rows the three queries return, the
    unemployment query's average per (year, state), the sort by year, the Alabama view of
    the crime rows, the derived `Total_crime` column and the per-year totals drawn in the
    combined chart. Numbers are reals; a SQL NULL, which pandas reads as NaN, is None. */
module Reporting {
  import opened Wrappers
  import opened Text
  import opened Frames

  // ---------------------------------------------------------------- rows

  /** A row of `unemployment_rate`: its `state_year` key, month and rate. */
  datatype RateRow = RateRow(stateYearId: string, month: string, rate: Option<real>)

  /** A row of the `state_year` dimension. */
  datatype StateYear = StateYear(id: string, state: string, year: string)

  /** A row of `unemployment_rate JOIN state_year`: year, state and monthly rate. */
  datatype Joined = Joined(year: string, state: string, rate: Option<real>)

  /** A row of the unemployment query: year, state and the average rate. */
  datatype AvgRow = AvgRow(year: string, state: string, avgRate: Option<real>)

  /** The ten crime measures in the query's column order: Population_Coverage,
      Violent_crime_total, Murder_and_nonnegligent_manslaughter, Legacy_rape1, Robbery,
      Aggravated_assault, Property_crime_total, Burglary, Larceny_theft,
      Motor_vehicle_theft. */
  type CrimeMeasures = m: seq<Option<real>> | |m| == 10
    witness [None, None, None, None, None, None, None, None, None, None]

  /** A row of the crime query. */
  datatype CrimeRow = CrimeRow(year: string, state: string, measures: CrimeMeasures)

  /** The nine education measures in the query's column order: total_revenue,
      federal_revenue, state_revenue, local_revenue, total_expenditure,
      instruction_expenditure, support_services_expenditure, other_expenditure,
      capital_outlay_expenditure. */
  type EduMeasures = m: seq<Option<real>> | |m| == 9
    witness [None, None, None, None, None, None, None, None, None]

  /** A row of the education query. */
  datatype EduRow = EduRow(year: string, state: string, measures: EduMeasures)

  /** Position of `total_expenditure` among the education measures. */
  const TotalExpenditure := 4

  // ---------------------------------------------------------------- the unemployment query

  /** The joined rows one rate row gives: one per dimension row with its key. */
  function Matches(r: RateRow, dims: seq<StateYear>): seq<Joined> {
    if dims == [] then []
    else
      var here := if dims[0].id == r.stateYearId then [Joined(dims[0].year, dims[0].state, r.rate)] else [];
      here + Matches(r, dims[1..])
  }

  /** `unemployment_rate JOIN state_year ON state_year_id`. */
  function Join(rates: seq<RateRow>, dims: seq<StateYear>): seq<Joined> {
    if rates == [] then [] else Matches(rates[0], dims) + Join(rates[1..], dims)
  }

  predicate DistinctIds(dims: seq<StateYear>) {
    forall i, j :: 0 <= i < j < |dims| ==> dims[i].id != dims[j].id
  }

  /** With distinct dimension keys, as the deduplicated upload leaves them, a rate row joins
      at most once: exactly once when its key is in the dimension, and then with that
      row's year and state. */
  lemma {:induction false} MatchesSpec(r: RateRow, dims: seq<StateYear>)
    requires DistinctIds(dims)
    ensures |Matches(r, dims)| <= 1
    ensures |Matches(r, dims)| == 1 <==> exists i :: 0 <= i < |dims| && dims[i].id == r.stateYearId
    ensures forall i :: 0 <= i < |dims| && dims[i].id == r.stateYearId ==>
      Matches(r, dims) == [Joined(dims[i].year, dims[i].state, r.rate)]
    decreases |dims|
  {
    if dims != [] {
      var rest := dims[1..];
      assert DistinctIds(rest) by {
        forall i, j | 0 <= i < j < |rest| ensures rest[i].id != rest[j].id {
          assert rest[i] == dims[i + 1] && rest[j] == dims[j + 1];
        }
      }
      MatchesSpec(r, rest);
      forall i | 0 <= i < |rest| ensures rest[i] == dims[i + 1] { }
      if dims[0].id == r.stateYearId {
        assert forall i :: 0 <= i < |rest| ==> rest[i].id != r.stateYearId;
        assert Matches(r, rest) == [];
      }
      if exists i :: 0 <= i < |dims| && dims[i].id == r.stateYearId {
        var i :| 0 <= i < |dims| && dims[i].id == r.stateYearId;
        if i > 0 { assert rest[i - 1].id == r.stateYearId; }
      }
    }
  }

  /** With distinct dimension keys every rate row whose key is in the dimension gives one
      joined row, so the join is no longer than the rate rows. */
  lemma {:induction false} JoinLength(rates: seq<RateRow>, dims: seq<StateYear>)
    requires DistinctIds(dims)
    ensures |Join(rates, dims)| <= |rates|
    ensures (forall i :: 0 <= i < |rates| ==> exists j :: 0 <= j < |dims| && dims[j].id == rates[i].stateYearId)
      ==> |Join(rates, dims)| == |rates|
    decreases |rates|
  {
    if rates != [] {
      MatchesSpec(rates[0], dims);
      JoinLength(rates[1..], dims);
      assert forall i :: 0 <= i < |rates| - 1 ==> rates[1..][i] == rates[i + 1];
    }
  }

  function PairOf(j: Joined): (string, string) {
    (j.year, j.state)
  }

  /** The (year, state) pairs of the rows, each once, in order of first appearance. */
  function PairsOf(rows: seq<Joined>): seq<(string, string)>
    decreases |rows|
  {
    if rows == [] then []
    else
      var p := PairsOf(rows[..|rows| - 1]);
      var q := PairOf(rows[|rows| - 1]);
      if q in p then p else p + [q]
  }

  /** No element appears twice. */
  predicate NoRepeats<T(==)>(s: seq<T>) {
    forall i, j :: 0 <= i < j < |s| ==> s[i] != s[j]
  }

  /** Every pair appears once, and exactly the pairs of the rows appear. */
  lemma {:induction false} PairsOfSpec(rows: seq<Joined>)
    ensures NoRepeats(PairsOf(rows))
    ensures forall q :: q in PairsOf(rows) <==> exists i :: 0 <= i < |rows| && PairOf(rows[i]) == q
    decreases |rows|
  {
    if rows != [] {
      var init := rows[..|rows| - 1];
      PairsOfSpec(init);
      assert forall i :: 0 <= i < |init| ==> init[i] == rows[i];
      var p, q := PairsOf(init), PairOf(rows[|rows| - 1]);
      if q !in p {
        var r := p + [q];
        assert r == PairsOf(rows);
        forall i, j | 0 <= i < j < |r| ensures r[i] != r[j] {
          assert r[i] == p[i];
          if j < |p| {
            assert r[j] == p[j];
          } else {
            assert r[j] == q;
            assert p[i] in p;
          }
        }
      } else {
        assert p == PairsOf(rows);
      }
      forall q | (exists i :: 0 <= i < |rows| && PairOf(rows[i]) == q) ensures q in PairsOf(rows) {
        var i :| 0 <= i < |rows| && PairOf(rows[i]) == q;
        if i < |init| { assert PairOf(init[i]) == q; }
      }
    }
  }

  /** Sum and count of the non-null rates of one (year, state) pair. */
  function RateSum(rows: seq<Joined>, year: string, state: string): real {
    if rows == [] then 0.0
    else
      var here := if PairOf(rows[0]) == (year, state) && rows[0].rate.Some? then rows[0].rate.value else 0.0;
      here + RateSum(rows[1..], year, state)
  }

  function RateCount(rows: seq<Joined>, year: string, state: string): nat {
    if rows == [] then 0
    else
      var here := if PairOf(rows[0]) == (year, state) && rows[0].rate.Some? then 1 else 0;
      here + RateCount(rows[1..], year, state)
  }

  /** SQL `avg(unemployment_rate)` over the pair's rows: NULL rates are ignored, and the
      average of no rates is NULL. */
  function PairAverage(rows: seq<Joined>, year: string, state: string): Option<real> {
    var n := RateCount(rows, year, state);
    if n == 0 then None else Some(RateSum(rows, year, state) / n as real)
  }

  /** Every non-null rate of the pair lies in `[lo, hi]`. */
  predicate RatesWithin(rows: seq<Joined>, year: string, state: string, lo: real, hi: real) {
    forall i :: 0 <= i < |rows| && PairOf(rows[i]) == (year, state) && rows[i].rate.Some? ==>
      lo <= rows[i].rate.value <= hi
  }

  /** One more term in a sum of `c` terms bounded by `lo` and `hi`. */
  lemma StepBounds(c: nat, t: real, v: real, lo: real, hi: real)
    requires c as real * lo <= t <= c as real * hi && lo <= v <= hi
    ensures (c + 1) as real * lo <= v + t <= (c + 1) as real * hi
  {
    assert (c + 1) as real * lo == c as real * lo + lo;
    assert (c + 1) as real * hi == c as real * hi + hi;
  }

  /** The first row's part in the sum and the count. */
  lemma RateStep(rows: seq<Joined>, year: string, state: string)
    ensures rows == [] ==> RateCount(rows, year, state) == 0 && RateSum(rows, year, state) == 0.0
    ensures rows != [] ==>
      var here := PairOf(rows[0]) == (year, state) && rows[0].rate.Some?;
      && RateCount(rows, year, state) == (if here then 1 else 0) + RateCount(rows[1..], year, state)
      && RateSum(rows, year, state) == (if here then rows[0].rate.value else 0.0) + RateSum(rows[1..], year, state)
  {
  }

  lemma {:induction false} RateSumBounds(rows: seq<Joined>, year: string, state: string, lo: real, hi: real)
    requires RatesWithin(rows, year, state, lo, hi)
    ensures RateCount(rows, year, state) as real * lo <= RateSum(rows, year, state)
    ensures RateSum(rows, year, state) <= RateCount(rows, year, state) as real * hi
    decreases |rows|
  {
    hide RateSum, RateCount;
    RateStep(rows, year, state);
    if rows != [] {
      var rest := rows[1..];
      assert RatesWithin(rest, year, state, lo, hi) by {
        forall i | 0 <= i < |rest| ensures rest[i] == rows[i + 1] { }
      }
      RateSumBounds(rest, year, state, lo, hi);
      if PairOf(rows[0]) == (year, state) && rows[0].rate.Some? {
        assert lo <= rows[0].rate.value <= hi;
        hide RatesWithin;
        StepBounds(RateCount(rest, year, state), RateSum(rest, year, state), rows[0].rate.value, lo, hi);
      }
    }
  }

  lemma QuotientBetween(s: real, n: real, lo: real, hi: real)
    requires n > 0.0 && n * lo <= s <= n * hi
    ensures lo <= s / n <= hi
  {
    var a := s / n;
    assert a * n == s;
  }

  /** The average is missing exactly when the pair has no non-null rate, and otherwise lies
      between the smallest and the largest of them. */
  lemma PairAverageSpec(rows: seq<Joined>, year: string, state: string, lo: real, hi: real)
    requires RatesWithin(rows, year, state, lo, hi)
    ensures PairAverage(rows, year, state).None? <==> RateCount(rows, year, state) == 0
    ensures PairAverage(rows, year, state).Some? ==> lo <= PairAverage(rows, year, state).value <= hi
  {
    hide RateSum, RateCount, RatesWithin;
    RateSumBounds(rows, year, state, lo, hi);
    var n := RateCount(rows, year, state);
    var s := RateSum(rows, year, state);
    if n > 0 {
      QuotientBetween(s, n as real, lo, hi);
    }
  }

  /** The unemployment query: `avg(unemployment_rate) ... GROUP BY year, state` over the
      joined rows, one row per pair. SQL fixes no row order; the model lists the pairs in
      order of first appearance. */
  function UnemploymentQuery(rows: seq<Joined>): seq<AvgRow> {
    var p := PairsOf(rows);
    seq(|p|, i requires 0 <= i < |p| => AvgRow(p[i].0, p[i].1, PairAverage(rows, p[i].0, p[i].1)))
  }

  /** No (year, state) pair has two rows. */
  predicate OnePerPair(out: seq<AvgRow>) {
    forall i, j :: 0 <= i < j < |out| ==> (out[i].year, out[i].state) != (out[j].year, out[j].state)
  }

  /** Each row holds its pair's average over the joined rows. */
  predicate AveragesOf(rows: seq<Joined>, out: seq<AvgRow>) {
    forall i :: 0 <= i < |out| ==> out[i].avgRate == PairAverage(rows, out[i].year, out[i].state)
  }

  /** The query's rows have a row for the pair. */
  predicate HasAvgPair(out: seq<AvgRow>, year: string, state: string) {
    exists i :: 0 <= i < |out| && out[i].year == year && out[i].state == state
  }

  /** The joined rows have a row for the pair. */
  predicate HasJoinedPair(rows: seq<Joined>, year: string, state: string) {
    exists i :: 0 <= i < |rows| && rows[i].year == year && rows[i].state == state
  }

  /** The unemployment query gives one row per (year, state) pair of the joined rows and
      no other, holding that pair's average. */
  lemma UnemploymentQuerySpec(rows: seq<Joined>)
    ensures OnePerPair(UnemploymentQuery(rows))
    ensures forall y, s :: HasAvgPair(UnemploymentQuery(rows), y, s) <==> HasJoinedPair(rows, y, s)
    ensures AveragesOf(rows, UnemploymentQuery(rows))
  {
    PairsOfSpec(rows);
    var p := PairsOf(rows);
    var out := UnemploymentQuery(rows);
    assert |out| == |p|;
    assert forall i :: 0 <= i < |out| ==> out[i] == AvgRow(p[i].0, p[i].1, PairAverage(rows, p[i].0, p[i].1));
    hide PairsOf, PairAverage, UnemploymentQuery;
    forall i, j | 0 <= i < j < |out| ensures (out[i].year, out[i].state) != (out[j].year, out[j].state) {
      assert (out[i].year, out[i].state) == p[i] && (out[j].year, out[j].state) == p[j];
    }
    forall y, s ensures HasAvgPair(out, y, s) <==> HasJoinedPair(rows, y, s) {
      if HasAvgPair(out, y, s) {
        var i :| 0 <= i < |out| && out[i].year == y && out[i].state == s;
        assert p[i] == (y, s) && p[i] in p;
        var k :| 0 <= k < |rows| && PairOf(rows[k]) == (y, s);
        assert rows[k].year == y && rows[k].state == s;
      }
      if HasJoinedPair(rows, y, s) {
        var i :| 0 <= i < |rows| && rows[i].year == y && rows[i].state == s;
        assert PairOf(rows[i]) == (y, s);
        assert (y, s) in p;
        var k :| 0 <= k < |p| && p[k] == (y, s);
        assert out[k].year == y && out[k].state == s;
      }
    }
  }

  // ---------------------------------------------------------------- sort by year

  /** Rows in non-decreasing year order, years compared as Python compares strings. */
  predicate YearSorted(rows: seq<AvgRow>) {
    forall i, j :: 0 <= i < j < |rows| ==> LexLeq(rows[i].year, rows[j].year)
  }

  function InsertByYear(x: AvgRow, sorted: seq<AvgRow>): (r: seq<AvgRow>)
    ensures multiset(r) == multiset(sorted) + multiset{x}
  {
    if sorted == [] then [x]
    else if LexLeq(x.year, sorted[0].year) then [x] + sorted
    else
      assert sorted == [sorted[0]] + sorted[1..];
      [sorted[0]] + InsertByYear(x, sorted[1..])
  }

  /** `sort_values(by=['year'])`. pandas' default sort is not stable, so rows of one year
      may come out in any order; the model keeps their input order, one of the orders
      pandas may produce. */
  function SortByYear(rows: seq<AvgRow>): (r: seq<AvgRow>)
    ensures multiset(r) == multiset(rows)
  {
    if rows == [] then []
    else
      assert rows == [rows[0]] + rows[1..];
      InsertByYear(rows[0], SortByYear(rows[1..]))
  }

  /** Inserting a row no earlier than `lo` among rows no earlier than `lo` gives rows no
      earlier than `lo`. */
  lemma InsertByYearBound(x: AvgRow, sorted: seq<AvgRow>, lo: string)
    requires LexLeq(lo, x.year)
    requires forall j :: 0 <= j < |sorted| ==> LexLeq(lo, sorted[j].year)
    ensures forall j :: 0 <= j < |InsertByYear(x, sorted)| ==> LexLeq(lo, InsertByYear(x, sorted)[j].year)
  {
    var r := InsertByYear(x, sorted);
    hide InsertByYear, LexLeq;
    forall j | 0 <= j < |r| ensures LexLeq(lo, r[j].year) {
      assert r[j] in multiset(sorted) + multiset{x};
      if r[j] in multiset(sorted) {
        var k :| 0 <= k < |sorted| && sorted[k] == r[j];
      }
    }
  }

  /** Rows sorted by year, each no earlier than `first`, stay sorted behind `first`. */
  lemma SortedBehind(first: AvgRow, tail: seq<AvgRow>)
    requires YearSorted(tail)
    requires forall j :: 0 <= j < |tail| ==> LexLeq(first.year, tail[j].year)
    ensures YearSorted([first] + tail)
  {
    hide LexLeq;
    var r := [first] + tail;
    forall i, j | 0 <= i < j < |r| ensures LexLeq(r[i].year, r[j].year) {
      assert r[j] == tail[j - 1];
      if i > 0 {
        assert r[i] == tail[i - 1];
      }
    }
  }

  lemma {:induction false} InsertByYearSorted(x: AvgRow, sorted: seq<AvgRow>)
    requires YearSorted(sorted)
    ensures YearSorted(InsertByYear(x, sorted))
    decreases |sorted|
  {
    hide LexLeq;
    if sorted != [] {
      if LexLeq(x.year, sorted[0].year) {
        forall j | 0 <= j < |sorted| ensures LexLeq(x.year, sorted[j].year) {
          if j > 0 { LexLeqTransitive(x.year, sorted[0].year, sorted[j].year); }
        }
        SortedBehind(x, sorted);
      } else {
        LexLeqTotal(x.year, sorted[0].year);
        var rest := sorted[1..];
        assert YearSorted(rest) by {
          forall i | 0 <= i < |rest| ensures rest[i] == sorted[i + 1] { }
        }
        assert forall j :: 0 <= j < |rest| ==> LexLeq(sorted[0].year, rest[j].year) by {
          forall j | 0 <= j < |rest| ensures rest[j] == sorted[j + 1] { }
        }
        InsertByYearSorted(x, rest);
        InsertByYearBound(x, rest, sorted[0].year);
        SortedBehind(sorted[0], InsertByYear(x, rest));
      }
    }
  }

  /** Sorting by year gives a permutation of the rows in non-decreasing year order. */
  lemma {:induction false} SortByYearSpec(rows: seq<AvgRow>)
    ensures YearSorted(SortByYear(rows))
    ensures multiset(SortByYear(rows)) == multiset(rows)
    decreases |rows|
  {
    if rows != [] {
      SortByYearSpec(rows[1..]);
      InsertByYearSorted(rows[0], SortByYear(rows[1..]));
    }
  }

  // ---------------------------------------------------------------- the Alabama view

  /** `crime_data[crime_data['state'] == state]`. */
  function StateRows(rows: seq<CrimeRow>, state: string): seq<CrimeRow> {
    if rows == [] then []
    else (if rows[0].state == state then [rows[0]] else []) + StateRows(rows[1..], state)
  }

  /** The view `visualize_crime_data` plots. */
  function AlabamaData(rows: seq<CrimeRow>): seq<CrimeRow> {
    StateRows(rows, "Alabama")
  }

  /** The view keeps exactly the rows of that state, in their order. */
  lemma {:induction false} StateRowsSpec(rows: seq<CrimeRow>, state: string)
    ensures forall x :: x in StateRows(rows, state) <==> x in rows && x.state == state
    ensures IsSubsequence(StateRows(rows, state), rows)
    decreases |rows|
  {
    if rows != [] {
      StateRowsSpec(rows[1..], state);
      var out := StateRows(rows, state);
      assert rows == [rows[0]] + rows[1..];
      if rows[0].state == state {
        assert out[0] == rows[0] && out[1..] == StateRows(rows[1..], state);
        assert IsSubsequence(out[1..], rows[1..]);
      } else {
        assert out == StateRows(rows[1..], state);
        assert IsSubsequence(out, rows[1..]);
      }
    }
  }

  // ---------------------------------------------------------------- per-year totals

  /** pandas' `sum` skips NaN. */
  function Skipna(v: Option<real>): real {
    if v.Some? then v.value else 0.0
  }

  function YearsOf<R>(rows: seq<R>, year: R -> string): set<string> {
    set i | 0 <= i < |rows| :: year(rows[i])
  }

  /** `groupby(['year']).sum()` on one column, as pandas accumulates it: one entry per
      year, NaN counting as nothing. */
  function GroupSum<R>(rows: seq<R>, year: R -> string, value: R -> Option<real>): map<string, real>
    decreases |rows|
  {
    if rows == [] then map[]
    else
      var m := GroupSum(rows[..|rows| - 1], year, value);
      var y := year(rows[|rows| - 1]);
      m[y := (if y in m then m[y] else 0.0) + Skipna(value(rows[|rows| - 1]))]
  }

  /** The column's sum over the rows of one year, row by row. */
  function YearTotal<R>(rows: seq<R>, year: R -> string, value: R -> Option<real>, y: string): real {
    if rows == [] then 0.0
    else (if year(rows[0]) == y then Skipna(value(rows[0])) else 0.0) + YearTotal(rows[1..], year, value, y)
  }

  lemma {:induction false} YearTotalAppend<R>(a: seq<R>, b: seq<R>, year: R -> string, value: R -> Option<real>, y: string)
    ensures YearTotal(a + b, year, value, y) == YearTotal(a, year, value, y) + YearTotal(b, year, value, y)
    decreases |a|
  {
    if a == [] {
      assert a + b == b;
    } else {
      assert (a + b)[0] == a[0] && (a + b)[1..] == a[1..] + b;
      YearTotalAppend(a[1..], b, year, value, y);
    }
  }

  /** Each year's entry is that year's total, and there is an entry for exactly the years
      of the rows. */
  lemma {:induction false} GroupSumSpec<R>(rows: seq<R>, year: R -> string, value: R -> Option<real>)
    ensures GroupSum(rows, year, value).Keys == YearsOf(rows, year)
    ensures forall y :: y in GroupSum(rows, year, value) ==> GroupSum(rows, year, value)[y] == YearTotal(rows, year, value, y)
    decreases |rows|
  {
    if rows != [] {
      var init, last := rows[..|rows| - 1], rows[|rows| - 1];
      GroupSumSpec(init, year, value);
      assert rows == init + [last];
      forall y ensures YearTotal(rows, year, value, y) == YearTotal(init, year, value, y) + YearTotal([last], year, value, y) {
        YearTotalAppend(init, [last], year, value, y);
      }
      forall y | y !in YearsOf(init, year) ensures YearTotal(init, year, value, y) == 0.0 {
        YearTotalAbsent(init, year, value, y);
      }
      assert forall i :: 0 <= i < |init| ==> init[i] == rows[i];
      assert YearsOf(rows, year) == YearsOf(init, year) + {year(last)} by {
        forall x | x in YearsOf(rows, year) ensures x in YearsOf(init, year) + {year(last)} {
          var i :| 0 <= i < |rows| && year(rows[i]) == x;
          if i < |init| { assert year(init[i]) == x; }
        }
        forall x | x in YearsOf(init, year) ensures x in YearsOf(rows, year) {
          var i :| 0 <= i < |init| && year(init[i]) == x;
          assert year(rows[i]) == x;
        }
        assert year(rows[|rows| - 1]) in YearsOf(rows, year);
      }
      assert [last][1..] == [];
      assert YearTotal([last], year, value, year(last)) == Skipna(value(last));
      assert forall y :: y != year(last) ==> YearTotal([last], year, value, y) == 0.0;
    }
  }

  lemma {:induction false} YearTotalAbsent<R>(rows: seq<R>, year: R -> string, value: R -> Option<real>, y: string)
    requires y !in YearsOf(rows, year)
    ensures YearTotal(rows, year, value, y) == 0.0
    decreases |rows|
  {
    if rows != [] {
      assert year(rows[0]) in YearsOf(rows, year);
      assert YearsOf(rows[1..], year) <= YearsOf(rows, year) by {
        forall x | x in YearsOf(rows[1..], year) ensures x in YearsOf(rows, year) {
          var i :| 0 <= i < |rows[1..]| && year(rows[1..][i]) == x;
          assert rows[1..][i] == rows[i + 1];
        }
      }
      YearTotalAbsent(rows[1..], year, value, y);
    }
  }

  /** Taking one row out of the rows takes its part out of the year's total. */
  lemma YearTotalRemove<R>(b: seq<R>, k: nat, year: R -> string, value: R -> Option<real>, y: string)
    requires k < |b|
    ensures YearTotal(b, year, value, y) == YearTotal([b[k]], year, value, y) + YearTotal(b[..k] + b[k + 1..], year, value, y)
  {
    assert b == b[..k] + ([b[k]] + b[k + 1..]);
    YearTotalAppend(b[..k], [b[k]] + b[k + 1..], year, value, y);
    YearTotalAppend([b[k]], b[k + 1..], year, value, y);
    YearTotalAppend(b[..k], b[k + 1..], year, value, y);
  }

  /** Matching the first element of `a` with an equal element of `b` leaves two
      permutations of each other. */
  lemma RemoveMatched<T>(a: seq<T>, b: seq<T>, k: nat)
    requires multiset(a) == multiset(b) && a != [] && k < |b| && b[k] == a[0]
    ensures multiset(a[1..]) == multiset(b[..k] + b[k + 1..])
  {
    assert b == b[..k] + [b[k]] + b[k + 1..];
    assert multiset(b) == multiset(b[..k]) + multiset([b[k]]) + multiset(b[k + 1..]);
    assert multiset(b[..k] + b[k + 1..]) == multiset(b[..k]) + multiset(b[k + 1..]);
    assert a == [a[0]] + a[1..];
    assert multiset(a) == multiset([a[0]]) + multiset(a[1..]);
    var rest, other := multiset(a[1..]), multiset(b[..k] + b[k + 1..]);
    forall e ensures rest[e] == other[e] {
      assert multiset(a)[e] == multiset([a[0]])[e] + rest[e];
      assert multiset(b)[e] == multiset([a[0]])[e] + other[e];
    }
  }

  /** A year's total does not depend on the order of the rows. */
  lemma {:induction false} YearTotalPermutation<R>(a: seq<R>, b: seq<R>, year: R -> string, value: R -> Option<real>, y: string)
    requires multiset(a) == multiset(b)
    ensures YearTotal(a, year, value, y) == YearTotal(b, year, value, y)
    decreases |a|
  {
    if a != [] {
      assert a[0] in multiset(b);
      var k :| 0 <= k < |b| && b[k] == a[0];
      RemoveMatched(a, b, k);
      YearTotalPermutation(a[1..], b[..k] + b[k + 1..], year, value, y);
      YearTotalRemove(b, k, year, value, y);
      assert a == [a[0]] + a[1..];
      YearTotalAppend([a[0]], a[1..], year, value, y);
    } else {
      assert |b| == |multiset(b)| == 0;
    }
  }

  /** The per-year totals do not depend on the order of the rows: sorting first, for one,
      changes nothing. */
  lemma GroupSumPermutation<R>(a: seq<R>, b: seq<R>, year: R -> string, value: R -> Option<real>)
    requires multiset(a) == multiset(b)
    ensures GroupSum(a, year, value) == GroupSum(b, year, value)
  {
    GroupSumSpec(a, year, value);
    GroupSumSpec(b, year, value);
    forall y | y in YearsOf(a, year) ensures y in YearsOf(b, year) {
      var i :| 0 <= i < |a| && year(a[i]) == y;
      assert a[i] in multiset(b);
      var j :| 0 <= j < |b| && b[j] == a[i];
    }
    forall y | y in YearsOf(b, year) ensures y in YearsOf(a, year) {
      var i :| 0 <= i < |b| && year(b[i]) == y;
      assert b[i] in multiset(a);
      var j :| 0 <= j < |a| && a[j] == b[i];
    }
    forall y | y in YearsOf(a, year) ensures GroupSum(a, year, value)[y] == GroupSum(b, year, value)[y] {
      YearTotalPermutation(a, b, year, value, y);
    }
  }

  // ---------------------------------------------------------------- Total_crime

  /** NaN-propagating addition, as for two float columns. */
  function AddNaN(a: Option<real>, b: Option<real>): Option<real> {
    if a.Some? && b.Some? then Some(a.value + b.value) else None
  }

  /** `Total_crime`, summed in the source's order: Motor_vehicle_theft, Larceny_theft,
      Burglary, Property_crime_total, Aggravated_assault, Robbery, Legacy_rape1,
      Murder_and_nonnegligent_manslaughter, Violent_crime_total. */
  function TotalCrime(m: CrimeMeasures): Option<real> {
    AddNaN(AddNaN(AddNaN(AddNaN(AddNaN(AddNaN(AddNaN(AddNaN(m[9], m[8]), m[7]), m[6]), m[5]), m[4]), m[3]), m[2]), m[1])
  }

  /** The measures from position `c` on, summed; NaN when one of them is. */
  function MeasuresFrom(m: CrimeMeasures, c: nat): Option<real>
    requires 1 <= c <= 10
    decreases 10 - c
  {
    if c == 10 then Some(0.0) else AddNaN(m[c], MeasuresFrom(m, c + 1))
  }

  /** `Total_crime` is the sum of the nine measures after Population_Coverage, NaN when any
      of them is; Population_Coverage has no part in it. */
  lemma TotalCrimeSpec(m: CrimeMeasures, coverage: Option<real>)
    ensures TotalCrime(m) == MeasuresFrom(m, 1)
    ensures TotalCrime(m).None? <==> exists c :: 1 <= c < 10 && m[c].None?
    ensures TotalCrime(m[0 := coverage]) == TotalCrime(m)
  {
    var s := MeasuresFrom(m, 1);
    assert s.Some? <==> forall c :: 1 <= c < 10 ==> m[c].Some?;
    if s.Some? {
      assert s.value == m[1].value + m[2].value + m[3].value + m[4].value + m[5].value + m[6].value
        + m[7].value + m[8].value + m[9].value;
    }
  }

  /** The crime frame `visualize_combined_result` receives, which it extends in place with
      the `Total_crime` column. */
  class CrimeData {
    var rows: seq<CrimeRow>
    /** The `Total_crime` column; empty until it is added. */
    var totalCrime: seq<Option<real>>

    constructor (rows: seq<CrimeRow>)
      ensures this.rows == rows && totalCrime == []
    {
      this.rows := rows;
      totalCrime := [];
    }

    /** `crime_data['Total_crime'] = ...`: one total per row; the rows are unchanged. */
    method AddTotalCrime()
      modifies this
      ensures rows == old(rows)
      ensures |totalCrime| == |rows| && forall i :: 0 <= i < |rows| ==> totalCrime[i] == TotalCrime(rows[i].measures)
    {
      totalCrime := seq(|rows|, i requires 0 <= i < |rows| reads this => TotalCrime(rows[i].measures));
    }
  }

  /** The key and the columns the combined chart groups and sums. */
  function CrimeYear(r: CrimeRow): string {
    r.year
  }

  function CrimeTotalOf(r: CrimeRow): Option<real> {
    TotalCrime(r.measures)
  }

  function EduYear(r: EduRow): string {
    r.year
  }

  function EduExpenditure(r: EduRow): Option<real> {
    r.measures[TotalExpenditure]
  }

  function AvgYear(r: AvgRow): string {
    r.year
  }

  function AvgRate(r: AvgRow): Option<real> {
    r.avgRate
  }

  /** `visualize_combined_result`: the per-year sums of the unemployment averages, of total
      expenditure and of `Total_crime`, the last after adding that column to the crime
      frame. */
  method VisualizeCombinedResult(unemployment: seq<AvgRow>, education: seq<EduRow>, crime: CrimeData)
    returns (unempTotal: map<string, real>, eduTotal: map<string, real>, crimeTotal: map<string, real>)
    modifies crime
    ensures crime.rows == old(crime.rows)
    ensures |crime.totalCrime| == |crime.rows|
    ensures forall i :: 0 <= i < |crime.rows| ==> crime.totalCrime[i] == TotalCrime(crime.rows[i].measures)
    ensures unempTotal == GroupSum(unemployment, AvgYear, AvgRate)
    ensures eduTotal == GroupSum(education, EduYear, EduExpenditure)
    ensures crimeTotal == GroupSum(crime.rows, CrimeYear, CrimeTotalOf)
  {
    eduTotal := GroupSum(education, EduYear, EduExpenditure);
    crime.AddTotalCrime();
    crimeTotal := GroupSum(crime.rows, CrimeYear, CrimeTotalOf);
    unempTotal := GroupSum(unemployment, AvgYear, AvgRate);
  }

  /** The unemployment figure for a year is the sum of the states' averages, not their
      mean: two states averaging 4 and 6 give 10. */
  lemma UnemploymentTotalIsSum()
    ensures GroupSum([AvgRow("2019", "Ohio", Some(4.0)), AvgRow("2019", "Texas", Some(6.0))], AvgYear, AvgRate)
      == map["2019" := 10.0]
  {
    var rows := [AvgRow("2019", "Ohio", Some(4.0)), AvgRow("2019", "Texas", Some(6.0))];
    assert rows[..1] == [rows[0]];
    assert rows[..1][..0] == [];
  }
}
