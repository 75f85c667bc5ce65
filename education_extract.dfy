/** The record shaping of the education extractor (`extract_education_data.py`): for each
    year the finance spreadsheet is fetched from a URL built from the year text, its rows
    are summed per STATE code, the sums are written to CSV and read back row by row, and
    each row becomes a record of STATE, YEAR and nine financial measures. The spreadsheet
    behind a URL is a parameter `sheetOf`; the text `to_csv` writes for a number is a
    parameter `fmt`. */
module EducationExtract {
  import opened Wrappers
  import opened Text
  import opened Records
  import opened Tables

  // ---------------------------------------------------------------- the download URL

  /** Python's `s[a:b]` on a string: the bounds are clamped to the string, so a short
      string gives a short (possibly empty) slice rather than an error. */
  function Slice(s: string, a: nat, b: nat): (r: string)
    ensures a <= b <= |s| ==> r == s[a..b]
    ensures a <= |s| <= b ==> r == s[a..]
    ensures |s| <= a || b <= a ==> r == []
  {
    var hi := if b <= |s| then b else |s|;
    var lo := if a <= hi then a else hi;
    s[lo..hi]
  }

  const UrlHead := "https://www2.census.gov/programs-surveys/school-finances/tables/"
  const UrlMiddle := "/secondary-education-finance/elsec"
  const UrlTail := ".xls"

  /** The address of a year's spreadsheet, from the year text `i` and its suffix `j`. */
  function Url(i: string, j: string): string {
    UrlHead + i + UrlMiddle + j + UrlTail
  }

  /** `i = str(year); j = i[2:4]`, then the URL. */
  function YearUrl(year: int): string {
    var i := IntToString(year);
    Url(i, Slice(i, 2, 4))
  }

  /** For a four-digit year, `j` is its last two digits ("2015" gives "15", "2005" gives
      "05"). */
  lemma YearSuffixDigits(year: int)
    requires 1000 <= year <= 9999
    ensures Slice(IntToString(year), 2, 4) == [DigitChar(year / 10 % 10), DigitChar(year % 10)]
  {
    FourDigitYear(year);
  }

  /** Distinct four-digit years download distinct spreadsheets: the year text sits at a
      fixed place in the URL. */
  lemma YearUrlInjective(a: int, b: int)
    requires 1000 <= a <= 9999 && 1000 <= b <= 9999
    requires YearUrl(a) == YearUrl(b)
    ensures a == b
  {
    var ia, ib := IntToString(a), IntToString(b);
    FourDigitYear(a);
    FourDigitYear(b);
    var n := |UrlHead|;
    assert YearUrl(a)[n..n + 4] == ia;
    assert YearUrl(b)[n..n + 4] == ib;
    IntToStringInjective(a, b);
  }

  // ---------------------------------------------------------------- group by STATE

  /** One spreadsheet row: its STATE code and its nine financial measures in the order of
      `Measures()`. */
  datatype SheetRow = SheetRow(state: int, values: seq<real>)

  /** Every row has `w` measure values. */
  predicate Rectangular(rows: seq<SheetRow>, w: nat) {
    forall i :: 0 <= i < |rows| ==> |rows[i].values| == w
  }

  /** A spreadsheet as `read_excel` returns it: every row carries the nine measures. */
  type Sheet = rows: seq<SheetRow> | Rectangular(rows, 9) witness []

  /** Column-wise sum of two rows of measures. */
  function AddValues(a: seq<real>, b: seq<real>): (r: seq<real>)
    requires |a| == |b|
    ensures |r| == |a| && forall c :: 0 <= c < |a| ==> r[c] == a[c] + b[c]
  {
    seq(|a|, c requires 0 <= c < |a| => a[c] + b[c])
  }

  /** Adds one row into groups kept in ascending code order: merged into the group of
      its code when there is one, inserted in its place otherwise. */
  function Insert(groups: seq<SheetRow>, r: SheetRow): (g: seq<SheetRow>)
    requires Rectangular(groups, |r.values|)
    ensures Rectangular(g, |r.values|)
  {
    if groups == [] then [r]
    else if r.state < groups[0].state then [r] + groups
    else if r.state == groups[0].state then [SheetRow(r.state, AddValues(groups[0].values, r.values))] + groups[1..]
    else [groups[0]] + Insert(groups[1..], r)
  }

  /** `groupby(['STATE']).sum()`: one row per code, codes in ascending order. */
  function GroupSum(rows: seq<SheetRow>, w: nat): (g: seq<SheetRow>)
    requires Rectangular(rows, w)
    ensures Rectangular(g, w)
  {
    if rows == [] then [] else Insert(GroupSum(rows[1..], w), rows[0])
  }

  /** The codes that occur in some row. */
  function Codes(rows: seq<SheetRow>): set<int> {
    set i | 0 <= i < |rows| :: rows[i].state
  }

  /** The sum of column `c` over the rows with code `code` (the reference definition the
      grouping is checked against). */
  function ColumnTotal(rows: seq<SheetRow>, code: int, c: nat): real
    requires forall i :: 0 <= i < |rows| ==> c < |rows[i].values|
  {
    if rows == [] then 0.0
    else (if rows[0].state == code then rows[0].values[c] else 0.0) + ColumnTotal(rows[1..], code, c)
  }

  predicate StrictlyAscending(groups: seq<SheetRow>) {
    forall i, j :: 0 <= i < j < |groups| ==> groups[i].state < groups[j].state
  }

  /** The codes of a row followed by more rows. */
  lemma CodesCons(x: SheetRow, rows: seq<SheetRow>)
    ensures Codes([x] + rows) == {x.state} + Codes(rows)
  {
    var all := [x] + rows;
    assert all[0] == x;
    forall y | y in Codes(all) ensures y in {x.state} + Codes(rows) {
      var i :| 0 <= i < |all| && all[i].state == y;
      if i > 0 { assert rows[i - 1].state == y; }
    }
    forall y | y in Codes(rows) ensures y in Codes(all) {
      var i :| 0 <= i < |rows| && rows[i].state == y;
      assert all[i + 1] == rows[i];
    }
  }

  /** Inserting a row adds its code to the codes of the groups. */
  lemma {:induction false} InsertCodes(groups: seq<SheetRow>, r: SheetRow)
    requires Rectangular(groups, |r.values|)
    ensures Codes(Insert(groups, r)) == Codes(groups) + {r.state}
    decreases |groups|
  {
    var g := Insert(groups, r);
    if groups == [] {
      CodesCons(r, []);
    } else {
      var rest := groups[1..];
      assert groups == [groups[0]] + rest;
      CodesCons(groups[0], rest);
      if r.state < groups[0].state {
        CodesCons(r, groups);
      } else if r.state == groups[0].state {
        CodesCons(g[0], rest);
      } else {
        InsertCodes(rest, r);
        CodesCons(groups[0], Insert(rest, r));
      }
    }
  }

  /** Inserting a row above a bound into groups above that bound stays above it. */
  lemma {:induction false} InsertAbove(groups: seq<SheetRow>, r: SheetRow, b: int)
    requires Rectangular(groups, |r.values|) && r.state > b
    requires forall i :: 0 <= i < |groups| ==> groups[i].state > b
    ensures forall i :: 0 <= i < |Insert(groups, r)| ==> Insert(groups, r)[i].state > b
    decreases |groups|
  {
    if groups != [] && r.state > groups[0].state {
      var rest := groups[1..];
      assert forall i :: 0 <= i < |rest| ==> rest[i] == groups[i + 1];
      InsertAbove(rest, r, b);
    }
  }

  /** Inserting a row keeps the codes strictly ascending. */
  lemma {:induction false} InsertAscending(groups: seq<SheetRow>, r: SheetRow)
    requires Rectangular(groups, |r.values|) && StrictlyAscending(groups)
    ensures StrictlyAscending(Insert(groups, r))
    decreases |groups|
  {
    var g := Insert(groups, r);
    if groups == [] {
    } else if r.state < groups[0].state {
      assert forall i :: 0 < i < |g| ==> g[i] == groups[i - 1];
    } else if r.state == groups[0].state {
      assert forall i :: 0 <= i < |g| ==> g[i].state == groups[i].state;
    } else {
      var rest := groups[1..];
      assert forall i :: 0 <= i < |rest| ==> rest[i] == groups[i + 1];
      InsertAscending(rest, r);
      InsertAbove(rest, r, groups[0].state);
      var tail := Insert(rest, r);
      assert forall i :: 0 < i < |g| ==> g[i] == tail[i - 1];
    }
  }

  /** Inserting a row adds its value to its code's total and leaves every other total. */
  lemma {:induction false} InsertTotal(groups: seq<SheetRow>, r: SheetRow, code: int, c: nat)
    requires Rectangular(groups, |r.values|) && c < |r.values|
    ensures ColumnTotal(Insert(groups, r), code, c) ==
      ColumnTotal(groups, code, c) + (if r.state == code then r.values[c] else 0.0)
    decreases |groups|
  {
    var g := Insert(groups, r);
    if groups == [] {
      assert g[1..] == [];
    } else if r.state < groups[0].state {
      assert g[1..] == groups;
    } else if r.state == groups[0].state {
      assert g[1..] == groups[1..];
    } else {
      InsertTotal(groups[1..], r, code, c);
      assert g[1..] == Insert(groups[1..], r);
    }
  }

  /** A code that no row carries totals to zero. */
  lemma {:induction false} AbsentTotal(rows: seq<SheetRow>, code: int, c: nat)
    requires forall i :: 0 <= i < |rows| ==> c < |rows[i].values|
    requires code !in Codes(rows)
    ensures ColumnTotal(rows, code, c) == 0.0
    decreases |rows|
  {
    if rows != [] {
      assert forall i :: 0 <= i < |rows| - 1 ==> rows[1..][i] == rows[i + 1];
      AbsentTotal(rows[1..], code, c);
    }
  }

  /** When codes are distinct, the total of a code is the value of its only row. */
  lemma {:induction false} DistinctTotal(groups: seq<SheetRow>, i: nat, c: nat)
    requires StrictlyAscending(groups) && i < |groups|
    requires forall k :: 0 <= k < |groups| ==> c < |groups[k].values|
    ensures ColumnTotal(groups, groups[i].state, c) == groups[i].values[c]
    decreases i
  {
    var rest := groups[1..];
    assert forall k :: 0 <= k < |rest| ==> rest[k] == groups[k + 1];
    if i == 0 {
      assert groups[0].state !in Codes(rest);
      AbsentTotal(rest, groups[0].state, c);
    } else {
      DistinctTotal(rest, i - 1, c);
    }
  }

  /** Grouping keeps every code's column totals. */
  lemma {:induction false} GroupSumTotal(rows: seq<SheetRow>, w: nat, code: int, c: nat)
    requires Rectangular(rows, w) && c < w
    ensures ColumnTotal(GroupSum(rows, w), code, c) == ColumnTotal(rows, code, c)
    decreases |rows|
  {
    if rows != [] {
      assert Rectangular(rows[1..], w);
      GroupSumTotal(rows[1..], w, code, c);
      InsertTotal(GroupSum(rows[1..], w), rows[0], code, c);
    }
  }

  lemma {:induction false} GroupSumAscending(rows: seq<SheetRow>, w: nat)
    requires Rectangular(rows, w)
    ensures StrictlyAscending(GroupSum(rows, w)) && Codes(GroupSum(rows, w)) == Codes(rows)
    decreases |rows|
  {
    if rows != [] {
      assert Rectangular(rows[1..], w);
      GroupSumAscending(rows[1..], w);
      InsertAscending(GroupSum(rows[1..], w), rows[0]);
      InsertCodes(GroupSum(rows[1..], w), rows[0]);
      assert rows == [rows[0]] + rows[1..];
      CodesCons(rows[0], rows[1..]);
    }
  }

  /** Distinct codes in a strictly ascending sequence: one group per code. */
  lemma {:induction false} AscendingCount(groups: seq<SheetRow>)
    requires StrictlyAscending(groups)
    ensures |Codes(groups)| == |groups|
    decreases |groups|
  {
    if groups != [] {
      var rest := groups[1..];
      assert forall k :: 0 <= k < |rest| ==> rest[k] == groups[k + 1];
      AscendingCount(rest);
      assert groups == [groups[0]] + rest;
      CodesCons(groups[0], rest);
      assert groups[0].state !in Codes(rest);
    }
  }

  /** The group-by yields one row per distinct STATE, in ascending code order, and each
      measure of a code's row is the sum of that measure over the input rows with the
      code. */
  lemma GroupSumSpec(rows: seq<SheetRow>, w: nat)
    requires Rectangular(rows, w)
    ensures var g := GroupSum(rows, w);
      && StrictlyAscending(g) && Codes(g) == Codes(rows) && |g| == |Codes(rows)|
      && forall i, c :: 0 <= i < |g| && 0 <= c < w ==> g[i].values[c] == ColumnTotal(rows, g[i].state, c)
  {
    var g := GroupSum(rows, w);
    GroupSumAscending(rows, w);
    AscendingCount(g);
    forall i, c | 0 <= i < |g| && 0 <= c < w ensures g[i].values[c] == ColumnTotal(rows, g[i].state, c) {
      DistinctTotal(g, i, c);
      GroupSumTotal(rows, w, g[i].state, c);
    }
  }

  // ---------------------------------------------------------------- CSV rows and records

  /** The nine financial measures, in the order the record lists them. */
  function Measures(): (r: seq<string>)
    ensures |r| == 9
  {
    ["TOTALREV", "TFEDREV", "TSTREV", "TLOCREV", "TOTALEXP", "TCURINST", "TCURSSVC", "TCUROTH", "TCAPOUT"]
  }

  const StateKey := "STATE"
  const YearKey := "YEAR"

  lemma MeasuresDistinct()
    ensures Distinct(Measures())
    ensures StateKey !in Measures() && YearKey !in Measures()
  {
  }

  /** The keys every education record carries. */
  function EduKeys(): set<string> {
    (set j | 0 <= j < |Measures()| :: Measures()[j]) + {StateKey, YearKey}
  }

  /** One line of the CSV file written from the grouped sheet, as `csv.DictReader`
      returns it: the STATE index and the nine measures, each as text. */
  function CsvRow(g: SheetRow, fmt: real -> string): Document
    requires |g.values| == 9
  {
    MeasuresDistinct();
    (map j | 0 <= j < 9 :: Measures()[j] := fmt(g.values[j]))[StateKey := IntToString(g.state)]
  }

  function CsvRows(groups: seq<SheetRow>, fmt: real -> string): (rows: seq<Document>)
    requires Rectangular(groups, 9)
    ensures |rows| == |groups|
  {
    seq(|groups|, i requires 0 <= i < |groups| => CsvRow(groups[i], fmt))
  }

  /** Every CSV line has the STATE column and the nine measure columns. */
  lemma CsvRowKeys(g: SheetRow, fmt: real -> string)
    requires |g.values| == 9
    ensures var row := CsvRow(g, fmt);
      StateKey in row && row[StateKey] == IntToString(g.state)
      && forall j :: 0 <= j < 9 ==> Measures()[j] in row && row[Measures()[j]] == fmt(g.values[j])
  {
    MeasuresDistinct();
  }

  /** The record of one CSV row: STATE, YEAR and the nine measures, or a failure (a
      `KeyError`) when the row lacks STATE or a measure. */
  function EduRecord(row: Document, year: string): Option<Document> {
    if StateKey in row && forall j :: 0 <= j < |Measures()| ==> Measures()[j] in row then
      MeasuresDistinct();
      Some((map j | 0 <= j < |Measures()| :: Measures()[j] := row[Measures()[j]])[StateKey := row[StateKey]][YearKey := year])
    else None
  }

  /** A record exists exactly when the row has STATE and the nine measures; it has exactly
      the keys STATE, YEAR and the nine measures, each copied from the row, and YEAR is the
      year text. */
  lemma EduRecordFields(row: Document, year: string)
    ensures EduRecord(row, year).Some? <==> StateKey in row && forall j :: 0 <= j < 9 ==> Measures()[j] in row
    ensures EduRecord(row, year).Some? ==> var d := EduRecord(row, year).value;
      && d.Keys == EduKeys() && d[StateKey] == row[StateKey] && d[YearKey] == year
      && forall j :: 0 <= j < 9 ==> d[Measures()[j]] == row[Measures()[j]]
  {
    MeasuresDistinct();
  }

  /** A record filled in place that holds the right values under exactly the record keys is
      the row's record. */
  lemma FilledEduRecord(d: Document, row: Document, year: string)
    requires d.Keys == EduKeys() && StateKey in row && d[StateKey] == row[StateKey] && d[YearKey] == year
    requires forall j :: 0 <= j < 9 ==> Measures()[j] in row && d[Measures()[j]] == row[Measures()[j]]
    ensures EduRecord(row, year) == Some(d)
  {
    EduRecordFields(row, year);
    hide EduRecord;
    var e := EduRecord(row, year).value;
    forall k | k in d ensures d[k] == e[k] {
      if k != StateKey && k != YearKey {
        var j :| 0 <= j < |Measures()| && Measures()[j] == k;
      }
    }
    assert d == e;
  }

  /** The body of the row loop: the reused `output` gets STATE, YEAR and the nine
      measures in turn and is the row's record afterwards, whatever it held before. */
  method FillOutput(output: Document, row: Document, i: string) returns (r: Option<Document>)
    requires output.Keys <= EduKeys()
    ensures r == EduRecord(row, i)
    ensures r.Some? ==> r.value.Keys == EduKeys()
  {
    hide EduRecord, Measures;
    EduRecordFields(row, i);
    MeasuresDistinct();
    if StateKey !in row {
      return None;
    }
    var o := output[StateKey := row[StateKey]];
    o := o[YearKey := i];
    var j := 0;
    while j < |Measures()|
      invariant 0 <= j <= |Measures()|
      invariant o.Keys <= EduKeys()
      invariant StateKey in o && o[StateKey] == row[StateKey] && YearKey in o && o[YearKey] == i
      invariant forall jj :: 0 <= jj < j ==> Measures()[jj] in row && Measures()[jj] in o && o[Measures()[jj]] == row[Measures()[jj]]
    {
      var key := Measures()[j];
      if key !in row {
        return None;
      }
      o := o[key := row[key]];
      j := j + 1;
    }
    assert o.Keys == EduKeys();
    FilledEduRecord(o, row, i);
    return Some(o);
  }

  // ---------------------------------------------------------------- years

  /** The parser the row loop applies to the CSV rows of a year. */
  function RowParser(year: string): Document -> Option<Document> {
    row => EduRecord(row, year)
  }

  /** The records of one year: the grouped sheet behind the year's URL, one record per CSV
      row, in ascending code order. */
  function YearRecords(sheet: Sheet, fmt: real -> string, year: int): Option<seq<Document>> {
    ParseAll(RowParser(IntToString(year)), CsvRows(GroupSum(sheet, 9), fmt))
  }

  /** A year never fails: it yields one record per distinct code in the sheet, the codes
      ascending; record `i` has that code's text as STATE, the year text as YEAR, and the
      column totals of its code as the nine measures. */
  lemma YearRecordsSpec(sheet: Sheet, fmt: real -> string, year: int)
    ensures var recs, g := YearRecords(sheet, fmt, year), GroupSum(sheet, 9);
      && recs.Some? && |recs.value| == |Codes(sheet)|
      && forall i :: 0 <= i < |recs.value| ==>
        && recs.value[i].Keys == EduKeys()
        && recs.value[i][StateKey] == IntToString(g[i].state)
        && recs.value[i][YearKey] == IntToString(year)
        && forall c :: 0 <= c < 9 ==> recs.value[i][Measures()[c]] == fmt(ColumnTotal(sheet, g[i].state, c))
  {
    hide EduRecord, Measures, CsvRow;
    var g := GroupSum(sheet, 9);
    var rows := CsvRows(g, fmt);
    GroupSumSpec(sheet, 9);
    forall i | 0 <= i < |rows| ensures RowParser(IntToString(year))(rows[i]).Some? {
      CsvRowKeys(g[i], fmt);
      EduRecordFields(rows[i], IntToString(year));
    }
    var recs := YearRecords(sheet, fmt, year);
    forall i | 0 <= i < |rows|
      ensures && recs.value[i].Keys == EduKeys()
        && recs.value[i][StateKey] == IntToString(g[i].state)
        && recs.value[i][YearKey] == IntToString(year)
        && forall c :: 0 <= c < 9 ==> recs.value[i][Measures()[c]] == fmt(ColumnTotal(sheet, g[i].state, c))
    {
      CsvRowKeys(g[i], fmt);
      EduRecordFields(rows[i], IntToString(year));
    }
  }

  /** One year's record list per year of `start` .. `end`, in ascending order. */
  function YearTables(sheetOf: string -> Sheet, fmt: real -> string, start: int, end: int): (r: seq<Option<seq<Document>>>)
    ensures |r| == YearCount(start, end)
  {
    seq(YearCount(start, end), k => YearRecords(sheetOf(YearUrl(start + k)), fmt, start + k))
  }

  lemma YearTablesAt(sheetOf: string -> Sheet, fmt: real -> string, start: int, end: int, k: int)
    requires 0 <= k < YearCount(start, end)
    ensures var i := IntToString(start + k);
      YearTables(sheetOf, fmt, start, end)[k] ==
        ParseAll(RowParser(i), CsvRows(GroupSum(sheetOf(Url(i, Slice(i, 2, 4))), 9), fmt))
  {
    var y := start + k;
    assert YearTables(sheetOf, fmt, start, end)[k] == YearRecords(sheetOf(YearUrl(y)), fmt, y);
  }

  /** What `extract_edu_data` collects: the years' record lists concatenated in ascending
      year order. */
  function EduData(sheetOf: string -> Sheet, fmt: real -> string, start: int, end: int): Option<seq<Document>> {
    Flatten(YearTables(sheetOf, fmt, start, end))
  }

  /** The extraction never fails, and it holds as many records as the years' lists
      together, each of those being the number of distinct codes of its year's sheet. */
  lemma EduDataLength(sheetOf: string -> Sheet, fmt: real -> string, start: int, end: int)
    ensures var parts := YearTables(sheetOf, fmt, start, end);
      && (forall k :: 0 <= k < |parts| ==> parts[k].Some? && |parts[k].value| == |Codes(sheetOf(YearUrl(start + k)))|)
      && EduData(sheetOf, fmt, start, end).Some?
      && |EduData(sheetOf, fmt, start, end).value| == TotalLength(parts)
  {
    hide YearRecords;
    var parts := YearTables(sheetOf, fmt, start, end);
    forall k | 0 <= k < |parts|
      ensures parts[k].Some? && |parts[k].value| == |Codes(sheetOf(YearUrl(start + k)))|
    {
      YearRecordsSpec(sheetOf(YearUrl(start + k)), fmt, start + k);
    }
    FlattenTotalLength(parts);
  }

  /** The CSV loop of one year (`for Row in csvReader`): each row is read into the reused
      `output` and a copy of it is appended to the year's `list`; the first row lacking a
      column stops the run. */
  method ReadCsv(output: Document, rows: seq<Document>, i: string)
    returns (list: Option<seq<Document>>, last: Document)
    requires output.Keys <= EduKeys()
    ensures list == ParseAll(RowParser(i), rows)
    ensures last.Keys <= EduKeys()
  {
    hide EduRecord;
    var acc: seq<Document> := [];
    last := output;
    var n := 0;
    while n < |rows|
      invariant 0 <= n <= |rows|
      invariant ParseAll(RowParser(i), rows[..n]) == Some(acc)
      invariant last.Keys <= EduKeys()
    {
      var record := FillOutput(last, rows[n], i);
      if record.None? {
        return None, last;
      }
      last := record.value;
      ParseAllSnoc(RowParser(i), rows[..n], rows[n], acc, last);
      assert rows[..n] + [rows[n]] == rows[..n + 1];
      acc := acc + [last];
      n := n + 1;
    }
    assert rows[..n] == rows;
    return Some(acc), last;
  }

  /** `extract_edu_data`: for each year the URL is built, the grouped rows are read back
      into records, and `data` is extended with the year's list; `output` is shared by all
      years. */
  method ExtractEduData(sheetOf: string -> Sheet, fmt: real -> string, start: int, end: int)
    returns (data: Option<seq<Document>>)
    ensures data == EduData(sheetOf, fmt, start, end)
  {
    hide YearRecords, ParseAll, RowParser, CsvRows, GroupSum;
    ghost var parts := YearTables(sheetOf, fmt, start, end);
    var acc: seq<Document> := [];
    var output: Document := map[];
    var year := start;
    while year < end + 1
      invariant start <= year && year - start <= |parts|
      invariant Flatten(parts[..year - start]) == Some(acc)
      invariant output.Keys <= EduKeys()
    {
      var i := IntToString(year);
      var j := Slice(i, 2, 4);
      var dls := Url(i, j);
      var rows := CsvRows(GroupSum(sheetOf(dls), 9), fmt);
      var list;
      list, output := ReadCsv(output, rows, i);
      YearTablesAt(sheetOf, fmt, start, end, year - start);
      if list.None? {
        assert parts[year - start].None?;
        return None;
      }
      FlattenSnoc(parts[..year - start], list.value, acc);
      assert parts[..year - start] + [list] == parts[..year + 1 - start];
      acc := acc + list.value;
      year := year + 1;
    }
    assert parts[..year - start] == parts;
    return Some(acc);
  }
}
