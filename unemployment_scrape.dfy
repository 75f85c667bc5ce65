/** The record shaping of the unemployment scraper (`scrape_unemployment_data.py`): each
    row of a monthly results table is tokenised on whitespace, a state name of one to three
    words is rebuilt from the token count and the next token is the rate; the monthly tables
    are concatenated year by year, January to December. A results page is given as the
    texts of its table rows, `page[i - 1]` being the text of row `tr[i]`. */
module UnemploymentScrape {
  import opened Wrappers
  import opened Text
  import opened Records
  import opened Tables

  // ---------------------------------------------------------------- one row

  /** The state name and the rate text of one row. */
  datatype StateRate = StateRate(state: string, rate: string)

  /** The token-count heuristic: four or more tokens give a three-word state, exactly three
      a two-word state, two a one-word state; the token after the state is the rate and any
      further tokens are ignored. Fewer than two tokens raise an `IndexError`. */
  function StateAndRate(tokens: seq<string>): (r: Option<StateRate>)
    ensures r.None? <==> |tokens| < 2
  {
    if |tokens| > 3 then Some(StateRate(tokens[0] + " " + tokens[1] + " " + tokens[2], tokens[3]))
    else if |tokens| > 2 then Some(StateRate(tokens[0] + " " + tokens[1], tokens[2]))
    else if |tokens| == 2 then Some(StateRate(tokens[0], tokens[1]))
    else None
  }

  /** How many leading tokens make up the state name. */
  function StateWords(tokens: seq<string>): (n: nat)
    requires |tokens| >= 2
    ensures 1 <= n <= 3 && n < |tokens|
  {
    if |tokens| > 3 then 3 else |tokens| - 1
  }

  /** The state is the first one to three tokens joined by single spaces, and the rate is
      the token right after them. */
  lemma StateAndRateJoin(tokens: seq<string>)
    requires |tokens| >= 2
    ensures var r, n := StateAndRate(tokens).value, StateWords(tokens);
      r.state == JoinSpace(tokens[..n]) && r.rate == tokens[n]
  {
    var n := StateWords(tokens);
    var p := tokens[..n];
    if n == 2 {
      assert p[1..] == [tokens[1]];
    } else if n == 3 {
      assert p[1..][1..] == [tokens[2]];
      calc {
        JoinSpace(p);
        tokens[0] + " " + JoinSpace(p[1..]);
        tokens[0] + " " + (tokens[1] + " " + tokens[2]);
        tokens[0] + " " + tokens[1] + " " + tokens[2];
      }
    }
  }

  const StateKey := "state"
  const RateKey := "rate"
  const MonthKey := "month"
  const YearKey := "year"

  /** The fresh `monthly_dict` of one row. */
  function Record(sr: StateRate, month: string, year: string): Document {
    map[StateKey := sr.state, RateKey := sr.rate, MonthKey := month, YearKey := year]
  }

  /** The tokens of a row: `values.strip().split()`. */
  function Tokens(text: string): seq<string> {
    Split(Strip(text))
  }

  /** One row of a monthly table. It fails exactly when the row has fewer than two tokens;
      otherwise the record has the four keys, and month and year are the call arguments. */
  function ParseRow(text: string, month: string, year: string): (r: Option<Document>)
    ensures r.Some? <==> |Tokens(text)| >= 2
    ensures r.Some? ==>
      r.value.Keys == {StateKey, RateKey, MonthKey, YearKey} && r.value[MonthKey] == month && r.value[YearKey] == year
  {
    match StateAndRate(Tokens(text))
    case None => None
    case Some(sr) => Some(Record(sr, month, year))
  }

  /** The record of a row with at least two tokens. */
  lemma ParseRowValue(text: string, month: string, year: string)
    requires |Tokens(text)| >= 2
    ensures ParseRow(text, month, year) == Some(Record(StateAndRate(Tokens(text)).value, month, year))
  {
  }

  /** Whitespace runs inside a row never reach the state: its only whitespace characters are
      single ' ' characters between two non-space characters, and it does not start or end
      with whitespace. */
  lemma StateSingleSpaced(text: string, month: string, year: string)
    requires ParseRow(text, month, year).Some?
    ensures var st := ParseRow(text, month, year).value[StateKey];
      |st| > 0 && !IsSpace(st[0]) && !IsSpace(st[|st| - 1])
      && forall i :: 0 <= i < |st| && IsSpace(st[i]) ==>
        st[i] == ' ' && !IsSpace(st[i - 1]) && !IsSpace(st[i + 1])
  {
    var tokens := Tokens(text);
    SplitWords(Strip(text));
    StateAndRateJoin(tokens);
    var words := tokens[..StateWords(tokens)];
    assert AllWords(words);
    JoinSpaceSingleSpaces(words);
    JoinSpaceHead(words);
  }

  /** The tokens of a single-space join of words, with any whitespace around it, are
      those words. */
  lemma TokensOfPrinted(p: string, words: seq<string>, q: string)
    requires AllSpace(p) && AllSpace(q) && |words| > 0 && AllWords(words)
    ensures Tokens(p + JoinSpace(words) + q) == words
  {
    var text := JoinSpace(words);
    JoinSpaceHead(words);
    StripPadded(p, text, q);
    StripUnpadded(text);
    SplitJoinSpace(words);
  }

  /** A row printed as a one- to three-word state, the rate and (after a three-word state
      only) further words, with any whitespace around it, parses back into that state and
      rate. */
  lemma ParseRowOfPrinted(p: string, words: seq<string>, rate: string, extra: seq<string>, q: string,
                          month: string, year: string)
    requires AllSpace(p) && AllSpace(q)
    requires 1 <= |words| <= 3 && AllWords(words) && IsWord(rate) && AllWords(extra)
    requires |words| < 3 ==> extra == []
    ensures ParseRow(p + JoinSpace(words + [rate] + extra) + q, month, year)
      == Some(Record(StateRate(JoinSpace(words), rate), month, year))
  {
    hide ParseRow, StateAndRate;
    var all := words + [rate] + extra;
    PrintedWords(words, rate, extra);
    TokensOfPrinted(p, all, q);
    StateAndRateOfPrinted(words, rate, extra);
    ParseRowValue(p + JoinSpace(all) + q, month, year);
  }

  lemma PrintedWords(words: seq<string>, rate: string, extra: seq<string>)
    requires AllWords(words) && IsWord(rate) && AllWords(extra)
    ensures AllWords(words + [rate] + extra)
  {
    var all := words + [rate] + extra;
    forall i | 0 <= i < |all| ensures IsWord(all[i]) {
      if i < |words| { assert all[i] == words[i]; }
      else if i > |words| { assert all[i] == extra[i - |words| - 1]; }
    }
  }

  lemma StateAndRateOfPrinted(words: seq<string>, rate: string, extra: seq<string>)
    requires 1 <= |words| <= 3 && (|words| < 3 ==> extra == [])
    ensures StateAndRate(words + [rate] + extra) == Some(StateRate(JoinSpace(words), rate))
  {
    var all := words + [rate] + extra;
    StateAndRateJoin(all);
    assert all[..|words|] == words;
  }

  // ---------------------------------------------------------------- monthly tables

  /** The parser `scrape_table` applies to the rows of one month's page. */
  function RowParser(month: string, year: string): string -> Option<Document> {
    text => ParseRow(text, month, year)
  }

  /** What `scrape_table` returns: rows `tr[1]` .. `tr[52]`, one record each; a page
      without row 52 fails, since finding that row raises. */
  function MonthTable(page: seq<string>, month: string, year: string): Option<seq<Document>> {
    PageRows(RowParser(month, year), page, 1, 52)
  }

  /** Record `k` of a monthly table is the parse of row `tr[k + 1]`. */
  lemma MonthTableAt(page: seq<string>, month: string, year: string, k: int)
    requires MonthTable(page, month, year).Some? && 0 <= k < 52
    ensures k < |page| && ParseRow(page[k], month, year).Some?
    ensures MonthTable(page, month, year).value[k] == ParseRow(page[k], month, year).value
  {
    hide ParseRow;
    PageRowsAt(RowParser(month, year), page, 1, 52);
  }

  /** `scrape_table`: rows `tr[1]` .. `tr[52]` in turn, a fresh `monthly_dict` per row
      filled by the token count and appended. */
  method ScrapeTable(page: seq<string>, month: string, year: string) returns (recordList: Option<seq<Document>>)
    ensures recordList == MonthTable(page, month, year)
  {
    hide ParseRow;
    var out: seq<Document> := [];
    var i := 1;
    while i < 53
      invariant 1 <= i <= 53 && |out| == i - 1
      invariant i == 1 || i - 1 <= |page|
      invariant forall k :: 0 <= k < |out| ==> RowParser(month, year)(page[k]) == Some(out[k])
    {
      if i - 1 >= |page| {
        PageRowsFails(RowParser(month, year), page, 1, 52, i - 1);
        return None;
      }
      var values := page[i - 1];
      var keyValue := Split(Strip(values));
      var monthlyDict: Document := map[];
      if |keyValue| > 3 {
        monthlyDict := monthlyDict[StateKey := keyValue[0] + " " + keyValue[1] + " " + keyValue[2]];
        monthlyDict := monthlyDict[RateKey := keyValue[3]];
      } else if |keyValue| > 2 {
        monthlyDict := monthlyDict[StateKey := keyValue[0] + " " + keyValue[1]];
        monthlyDict := monthlyDict[RateKey := keyValue[2]];
      } else {
        if |keyValue| < 2 {
          PageRowsFails(RowParser(month, year), page, 1, 52, i - 1);
          return None;
        }
        monthlyDict := monthlyDict[StateKey := keyValue[0]];
        monthlyDict := monthlyDict[RateKey := keyValue[1]];
      }
      monthlyDict := monthlyDict[MonthKey := month];
      monthlyDict := monthlyDict[YearKey := year];
      ParseRowValue(values, month, year);
      out := out + [monthlyDict];
      i := i + 1;
    }
    PageRowsAll(RowParser(month, year), page, 1, 52, out);
    return Some(out);
  }

  // ---------------------------------------------------------------- years and months

  /** The month names in the order the drop-down is worked through. */
  function Months(): (r: seq<string>)
    ensures |r| == 12
  {
    ["January", "February", "March", "April", "May", "June", "July", "August", "September",
     "October", "November", "December"]
  }

  /** One table per (year, month) pair, year `start + p / 12` and month `p % 12` at
      position `p`. The page shown depends on the year and the month selected. */
  function MonthTables(pageOf: (int, string) -> seq<string>, start: int, end: int): (r: seq<Option<seq<Document>>>)
    ensures |r| == 12 * YearCount(start, end)
  {
    seq(12 * YearCount(start, end), p =>
      var y, m := start + p / 12, Months()[p % 12];
      MonthTable(pageOf(y, m), m, IntToString(y)))
  }

  /** The table of month `m` of year `start + i`. */
  lemma MonthTablesAt(pageOf: (int, string) -> seq<string>, start: int, end: int, i: int, m: int)
    requires 0 <= i < YearCount(start, end) && 0 <= m < 12
    ensures 12 * i + m < |MonthTables(pageOf, start, end)|
    ensures MonthTables(pageOf, start, end)[12 * i + m] ==
      MonthTable(pageOf(start + i, Months()[m]), Months()[m], IntToString(start + i))
  {
    var p := 12 * i + m;
    assert p / 12 == i && p % 12 == m;
  }

  /** Every table of the run that did not fail holds 52 records. */
  lemma MonthTablesFull(pageOf: (int, string) -> seq<string>, start: int, end: int)
    ensures var parts := MonthTables(pageOf, start, end);
      forall j :: 0 <= j < |parts| && parts[j].Some? ==> |parts[j].value| == 52
  {
    hide ParseRow;
    var parts := MonthTables(pageOf, start, end);
    forall j | 0 <= j < |parts| && parts[j].Some? ensures |parts[j].value| == 52 {
      var y, m := start + j / 12, Months()[j % 12];
      assert parts[j] == MonthTable(pageOf(y, m), m, IntToString(y));
    }
  }

  /** What `fill_options` collects: the monthly tables of years `start` .. `end` in
      ascending order, January to December within each year. */
  function UnemploymentData(pageOf: (int, string) -> seq<string>, start: int, end: int): Option<seq<Document>> {
    Flatten(MonthTables(pageOf, start, end))
  }

  /** The collected data holds 52 records per month and 624 per year; record
      `624 * (y - start) + 52 * m + k` is the parse of row `tr[k + 1]` of the page for
      month `m` of year `y`, and it carries that month's name and the year's text. */
  lemma UnemploymentDataAt(pageOf: (int, string) -> seq<string>, start: int, end: int, y: int, m: int, k: int)
    requires UnemploymentData(pageOf, start, end).Some?
    requires start <= y <= end && 0 <= m < 12 && 0 <= k < 52
    ensures var data, page := UnemploymentData(pageOf, start, end).value, pageOf(y, Months()[m]);
      && |data| == 624 * (end - start + 1)
      && 624 * (y - start) + 52 * m + k < |data|
      && k < |page| && ParseRow(page[k], Months()[m], IntToString(y)).Some?
      && data[624 * (y - start) + 52 * m + k] == ParseRow(page[k], Months()[m], IntToString(y)).value
      && data[624 * (y - start) + 52 * m + k][MonthKey] == Months()[m]
      && data[624 * (y - start) + 52 * m + k][YearKey] == IntToString(y)
  {
    hide ParseRow, Months, MonthTables, MonthTable;
    var parts := MonthTables(pageOf, start, end);
    MonthTablesFull(pageOf, start, end);
    MonthTablesAt(pageOf, start, end, y - start, m);
    var i := 12 * (y - start) + m;
    assert 52 * i + k == 624 * (y - start) + 52 * m + k;
    assert 52 * |parts| == 624 * (end - start + 1);
    FlattenAt(parts, 52, i, k);
    MonthTableAt(pageOf(y, Months()[m]), Months()[m], IntToString(y), k);
  }

  /** A month whose table fails makes the whole collection fail. */
  lemma UnemploymentDataFails(pageOf: (int, string) -> seq<string>, start: int, end: int, i: int, m: int)
    requires 0 <= i < YearCount(start, end) && 0 <= m < 12
    requires MonthTable(pageOf(start + i, Months()[m]), Months()[m], IntToString(start + i)).None?
    ensures UnemploymentData(pageOf, start, end).None?
  {
    MonthTablesAt(pageOf, start, end, i, m);
  }

  /** `fill_options`: for each year in turn and each month in turn, the month's table is
      scraped and `records` is extended with it. */
  method FillOptions(pageOf: (int, string) -> seq<string>, start: int, end: int)
    returns (records: Option<seq<Document>>)
    ensures records == UnemploymentData(pageOf, start, end)
  {
    hide MonthTable, ParseRow, Months, MonthTables;
    ghost var parts := MonthTables(pageOf, start, end);
    var acc: seq<Document> := [];
    var year := start;
    ghost var done := 0;
    while year < end + 1
      invariant start <= year && done == 12 * (year - start) && done <= |parts|
      invariant Flatten(parts[..done]) == Some(acc)
    {
      var m := 0;
      while m < 12
        invariant 0 <= m <= 12 && done + m <= |parts|
        invariant Flatten(parts[..done + m]) == Some(acc)
      {
        var month := Months()[m];
        var data := ScrapeTable(pageOf(year, month), month, IntToString(year));
        if data.None? {
          UnemploymentDataFails(pageOf, start, end, year - start, m);
          return None;
        }
        MonthTablesAt(pageOf, start, end, year - start, m);
        FlattenSnoc(parts[..done + m], data.value, acc);
        assert parts[..done + m] + [data] == parts[..done + m + 1];
        acc := acc + data.value;
        m := m + 1;
      }
      year := year + 1;
      done := done + 12;
    }
    assert parts[..done] == parts;
    return Some(acc);
  }
}
