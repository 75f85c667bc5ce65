/** The record shaping of the crime scraper (`scrape_crime_data.py`): each table row's text
    is split by the pattern `([a-zA-Z ]+)([0-9,. ]+)` under `re.match`, the numeric tail is
    tokenised and its tokens are assigned to 19 fixed keys, and the per-year tables are
    concatenated. A results page is given as the texts of its table rows, `page[i - 1]`
    being the text of row `tr[i]`. */
module CrimeScrape {
  import opened Wrappers
  import opened Text
  import opened Records
  import opened Tables

  // ---------------------------------------------------------------- the row pattern

  /** The first character class, `[a-zA-Z ]`. */
  predicate IsNameChar(c: char) {
    ('a' <= c <= 'z') || ('A' <= c <= 'Z') || c == ' '
  }

  /** The second character class, `[0-9,. ]`. */
  predicate IsNumberChar(c: char) {
    IsDigit(c) || c == ',' || c == '.' || c == ' '
  }

  predicate AllNameChars(s: string) {
    forall i :: 0 <= i < |s| ==> IsNameChar(s[i])
  }

  predicate AllNumberChars(s: string) {
    forall i :: 0 <= i < |s| ==> IsNumberChar(s[i])
  }

  /** Length of the maximal leading run of `[a-zA-Z ]`. */
  function NameRun(s: string): (k: nat)
    ensures k <= |s|
    ensures k == |s| || !IsNameChar(s[k])
  {
    if s == [] || !IsNameChar(s[0]) then 0 else 1 + NameRun(s[1..])
  }

  lemma {:induction false} NameRunChars(s: string)
    ensures AllNameChars(s[..NameRun(s)])
  {
    if s != [] && IsNameChar(s[0]) {
      NameRunChars(s[1..]);
      var k := NameRun(s);
      assert forall i :: 1 <= i < k ==> s[..k][i] == s[1..][..k - 1][i - 1];
    }
  }

  /** Length of the maximal leading run of `[0-9,. ]`. */
  function NumberRun(s: string): (k: nat)
    ensures k <= |s|
    ensures k == |s| || !IsNumberChar(s[k])
  {
    if s == [] || !IsNumberChar(s[0]) then 0 else 1 + NumberRun(s[1..])
  }

  lemma {:induction false} NumberRunChars(s: string)
    ensures AllNumberChars(s[..NumberRun(s)])
  {
    if s != [] && IsNumberChar(s[0]) {
      NumberRunChars(s[1..]);
      var k := NumberRun(s);
      assert forall i :: 1 <= i < k ==> s[..k][i] == s[1..][..k - 1][i - 1];
    }
  }

  /** The last space strictly between position 0 and position `m`. */
  function LastSpaceBelow(s: string, m: nat): (r: Option<nat>)
    requires m <= |s|
    ensures r.Some? ==> 1 <= r.value < m && s[r.value] == ' '
  {
    if m <= 1 then None
    else if s[m - 1] == ' ' then Some(m - 1)
    else LastSpaceBelow(s, m - 1)
  }

  lemma {:induction false} LastSpaceBelowIsLast(s: string, m: nat)
    requires m <= |s|
    ensures var r := LastSpaceBelow(s, m);
      forall n :: (if r.Some? then r.value else 0) < n < m ==> s[n] != ' '
    decreases m
  {
    if m > 1 && s[m - 1] != ' ' {
      LastSpaceBelowIsLast(s, m - 1);
    }
  }

  /** The two groups of a successful match. */
  datatype RowMatch = RowMatch(name: string, numbers: string)

  /** A place where group 1 may end: a non-empty prefix of `[a-zA-Z ]` followed by a
      character of `[0-9,. ]`. */
  predicate SplitPoint(s: string, n: int) {
    1 <= n < |s| && AllNameChars(s[..n]) && IsNumberChar(s[n])
  }

  /** `re.match("([a-zA-Z ]+)([0-9,. ]+)", s)`: group 1 is the greedy run of `[a-zA-Z ]`,
      cut back to its last space when the character after the run cannot start group 2;
      group 2 is then the maximal run of `[0-9,. ]`. Both groups are non-empty and together
      form a prefix of the row. */
  function MatchRow(s: string): (r: Option<RowMatch>)
    ensures r.Some? ==> var n := |r.value.name|;
      && n > 0 && |r.value.numbers| > 0 && n + |r.value.numbers| <= |s|
      && r.value.name == s[..n] && r.value.numbers == s[n..n + |r.value.numbers|]
  {
    var m := NameRun(s);
    var split :=
      if m == 0 then None
      else if m < |s| && IsNumberChar(s[m]) then Some(m)
      else LastSpaceBelow(s, m);
    match split
    case None => None
    case Some(n) =>
      var k := NumberRun(s[n..]);
      assert IsNumberChar(s[n..][0]);
      Some(RowMatch(s[..n], s[n..n + k]))
  }

  /** Backtracking as the regex engine does it: there is no match exactly when there is no
      split point, and group 1 otherwise ends at the last split point. */
  lemma MatchRowSplit(s: string)
    ensures MatchRow(s).None? <==> forall n :: !SplitPoint(s, n)
    ensures MatchRow(s).Some? ==> var n := |MatchRow(s).value.name|;
      SplitPoint(s, n) && forall n' :: SplitPoint(s, n') ==> n' <= n
  {
    var m := NameRun(s);
    var split :=
      if m == 0 then None
      else if m < |s| && IsNumberChar(s[m]) then Some(m)
      else LastSpaceBelow(s, m);
    NameRunChars(s);
    LastSpaceBelowIsLast(s, m);
    forall n' | SplitPoint(s, n') ensures split.Some? && n' <= split.value {
      assert IsNameChar(s[..n'][0]);
      if n' < m { assert s[n'] == s[..m][n']; }
    }
    if split.Some? {
      var n := split.value;
      assert forall i :: 0 <= i < n ==> s[..n][i] == s[..m][i];
      assert SplitPoint(s, n);
    }
  }

  /** Group 2 is the maximal run of `[0-9,. ]` after group 1. */
  lemma MatchRowNumbers(s: string)
    requires MatchRow(s).Some?
    ensures var m := MatchRow(s).value; var e := |m.name| + |m.numbers|;
      AllNumberChars(m.numbers) && (e == |s| || !IsNumberChar(s[e]))
  {
    var m := MatchRow(s).value;
    var n := |m.name|;
    NumberRunChars(s[n..]);
    assert s[n..][..|m.numbers|] == m.numbers;
    if n + |m.numbers| < |s| {
      assert s[n + |m.numbers|] == s[n..][|m.numbers|];
    }
  }

  /** A row that does not start with a letter or a space has no match. */
  lemma NoMatchWithoutLeadingName(s: string)
    requires s == [] || !IsNameChar(s[0])
    ensures MatchRow(s).None?
  {
    MatchRowSplit(s);
  }

  /** When the maximal leading run of letters and spaces is followed by a digit, comma or
      dot, group 1 is that whole run, trailing spaces included. */
  lemma StateIsNameRun(s: string)
    requires 0 < NameRun(s) < |s| && s[NameRun(s)] != ' ' && IsNumberChar(s[NameRun(s)])
    ensures MatchRow(s).Some? && MatchRow(s).value.name == s[..NameRun(s)]
  {
    var m := NameRun(s);
    NameRunChars(s);
    assert SplitPoint(s, m);
    MatchRowSplit(s);
  }

  // ---------------------------------------------------------------- one record

  /** The 19 measures of a row, in the order the table lists them. */
  function Keys(): (r: seq<string>)
    ensures |r| == 19
  { ["Population_Coverage", "Violent_crime_total",
    "Murder_and_nonnegligent_manslaughter", "Legacy_rape1", "Robbery", "Aggravated_assault",
    "Property_crime_total", "Burglary", "Larceny-theft", "Motor_vehicle_theft", "Violent_Crime_rate",
    "Murder_and_nonnegligent_manslaughter_rate", "Legacy_rape_rate1", "Robbery_rate",
    "Aggravated_assault_rate", "Property_crime_rate", "Burglary_rate", "Larceny-theft_rate",
    "Motor_vehicle_theft_rate"]
  }

  const StateKey := "State"
  const YearKey := "Year"

  lemma KeysDistinct()
    ensures Distinct(Keys())
    ensures StateKey !in Keys() && YearKey !in Keys()
  {
  }

  /** The keys every crime record carries. */
  function RecordKeys(): set<string> {
    (set j | 0 <= j < |Keys()| :: Keys()[j]) + {StateKey, YearKey}
  }

  /** The record of one row: the state text, token `j` under key `j`, and the year. */
  function Record(state: string, tokens: seq<string>, year: string): Document
    requires |tokens| >= |Keys()|
  {
    Measures(tokens)[StateKey := state][YearKey := year]
  }

  /** The measures of a record before the state and the year are added. */
  function Measures(tokens: seq<string>): map<string, string>
    requires |tokens| >= |Keys()|
  {
    KeysDistinct();
    map j | 0 <= j < |Keys()| :: Keys()[j] := tokens[j]
  }

  /** Token `j` is under key `j`, and the keys are exactly the 19. */
  lemma MeasuresFields(tokens: seq<string>)
    requires |tokens| >= |Keys()|
    ensures Measures(tokens).Keys == set j | 0 <= j < |Keys()| :: Keys()[j]
    ensures forall j :: 0 <= j < |Keys()| ==> Keys()[j] in Measures(tokens) && Measures(tokens)[Keys()[j]] == tokens[j]
  {
    KeysDistinct();
    hide Keys;
    var m := Measures(tokens);
    forall j | 0 <= j < |Keys()| ensures Keys()[j] in m && m[Keys()[j]] == tokens[j] {
    }
  }

  /** Every record has exactly the 21 keys, with the state, token `j` under key `j`,
      and the year. */
  lemma RecordFields(state: string, tokens: seq<string>, year: string)
    requires |tokens| >= |Keys()|
    ensures var d := Record(state, tokens, year);
      && d.Keys == RecordKeys() && d[StateKey] == state && d[YearKey] == year
      && forall j :: 0 <= j < |Keys()| ==> d[Keys()[j]] == tokens[j]
  {
    KeysDistinct();
    MeasuresFields(tokens);
    hide Keys, Measures;
    var d := Record(state, tokens, year);
    assert d == Measures(tokens)[StateKey := state][YearKey := year];
  }

  /** A record is determined by its state, its 19 measures and its year. */
  lemma RecordUnique(d: Document, state: string, tokens: seq<string>, year: string)
    requires |tokens| >= |Keys()| && d.Keys == RecordKeys()
    requires d[StateKey] == state && d[YearKey] == year
    requires forall j :: 0 <= j < |Keys()| ==> d[Keys()[j]] == tokens[j]
    ensures d == Record(state, tokens, year)
  {
    var e := Record(state, tokens, year);
    RecordFields(state, tokens, year);
    forall k | k in d ensures d[k] == e[k] {
      if k != StateKey && k != YearKey {
        var j :| 0 <= j < |Keys()| && Keys()[j] == k;
      }
    }
  }

  /** The numeric tokens of a matched row: `group(2).strip().split()`. */
  function Tokens(m: RowMatch): seq<string> {
    Split(Strip(m.numbers))
  }

  /** One row of the table: the regex split, the numeric tokens, and the 19 keys assigned
      in order. */
  function ParseRow(text: string, year: int): Option<Document> {
    match MatchRow(text)
    case None => None
    case Some(m) =>
      if |Tokens(m)| < |Keys()| then None else Some(Record(m.name, Tokens(m), IntToString(year)))
  }

  /** A row fails (the source raises) exactly when it has no match or fewer than 19 numeric
      tokens; otherwise State is group 1, token `j` is under key `j` (tokens past the
      19th are ignored) and Year is the year's text. */
  lemma ParseRowFields(text: string, year: int)
    ensures ParseRow(text, year).Some? <==> MatchRow(text).Some? && |Tokens(MatchRow(text).value)| >= |Keys()|
    ensures ParseRow(text, year).Some? ==>
      var m, d := MatchRow(text).value, ParseRow(text, year).value;
      && d.Keys == RecordKeys() && d[StateKey] == m.name && d[YearKey] == IntToString(year)
      && forall j :: 0 <= j < |Keys()| ==> d[Keys()[j]] == Tokens(m)[j]
  {
    if ParseRow(text, year).Some? {
      var m := MatchRow(text).value;
      RecordFields(m.name, Tokens(m), IntToString(year));
    }
  }

  /** The two ways a row fails and the record it is otherwise. */
  lemma ParseRowCases(text: string, year: int)
    ensures MatchRow(text).None? ==> ParseRow(text, year).None?
    ensures MatchRow(text).Some? && |Tokens(MatchRow(text).value)| < |Keys()| ==> ParseRow(text, year).None?
    ensures MatchRow(text).Some? && |Tokens(MatchRow(text).value)| >= |Keys()| ==>
      var m := MatchRow(text).value;
      ParseRow(text, year) == Some(Record(m.name, Tokens(m), IntToString(year)))
  {
  }

  /** A row that is a run of letters and spaces followed by a run of number characters
      starting with a non-space splits exactly between the two. */
  lemma MatchOfPrinted(prefix: string, tail: string)
    requires |prefix| > 0 && AllNameChars(prefix)
    requires |tail| > 0 && AllNumberChars(tail) && tail[0] != ' '
    ensures MatchRow(prefix + tail) == Some(RowMatch(prefix, tail))
  {
    var s := prefix + tail;
    assert s[..|prefix|] == prefix;
    assert SplitPoint(s, |prefix|);
    MatchRowSplit(s);
    var m := MatchRow(s).value;
    var n := |m.name|;
    MatchRowNumbers(s);
    assert m.numbers == tail;
  }

  /** A row printed as a state name, a space and at least 19 numeric tokens parses back
      into the record of those tokens, whose State keeps the trailing space. */
  lemma ParseRowOfPrinted(name: string, tokens: seq<string>, year: int)
    requires |name| > 0 && AllNameChars(name)
    requires |tokens| >= |Keys()| && AllWords(tokens)
    requires forall t :: 0 <= t < |tokens| ==> AllNumberChars(tokens[t])
    ensures ParseRow(name + " " + JoinSpace(tokens), year) == Some(Record(name + " ", tokens, IntToString(year)))
  {
    hide ParseRow, Keys;
    var prefix, tail := name + " ", JoinSpace(tokens);
    JoinSpaceHead(tokens);
    JoinSpaceAllNumberChars(tokens);
    assert tail[0] == tokens[0][0];
    assert AllNameChars(prefix);
    MatchOfPrinted(prefix, tail);
    StripUnpadded(tail);
    SplitJoinSpace(tokens);
    ParseRowCases(prefix + tail, year);
  }

  lemma {:induction false} JoinSpaceAllNumberChars(tokens: seq<string>)
    requires forall t :: 0 <= t < |tokens| ==> AllNumberChars(tokens[t])
    ensures AllNumberChars(JoinSpace(tokens))
  {
    if |tokens| > 1 {
      JoinSpaceAllNumberChars(tokens[1..]);
      var w, rest := tokens[0], JoinSpace(tokens[1..]);
      var j := w + " " + rest;
      assert JoinSpace(tokens) == j;
      forall i | 0 <= i < |j| ensures IsNumberChar(j[i]) {
        if i > |w| { assert j[i] == rest[i - |w| - 1]; }
      }
    }
  }

  // ---------------------------------------------------------------- tables and years

  /** The parser `scrapeTable` applies to the rows of one year's page. */
  function RowParser(year: int): string -> Option<Document> {
    text => ParseRow(text, year)
  }

  /** Rows `tr[5]` .. `tr[54]` of the state table. */
  const FirstRow := 5
  const RowCount := 50

  /** What `scrapeTable` returns for one results page; a page without row 54 fails, since
      finding that row raises. */
  function CrimeTable(page: seq<string>, year: int): Option<seq<Document>> {
    PageRows(RowParser(year), page, FirstRow, RowCount)
  }

  /** A record whose keys are all crime keys and that holds the state, every measure and
      the year is the record of those values. */
  lemma FilledRecord(d: Document, state: string, tokens: seq<string>, year: string)
    requires |tokens| >= |Keys()| && d.Keys <= RecordKeys()
    requires StateKey in d && d[StateKey] == state && YearKey in d && d[YearKey] == year
    requires forall j :: 0 <= j < |Keys()| ==> Keys()[j] in d && d[Keys()[j]] == tokens[j]
    ensures d == Record(state, tokens, year) && d.Keys == RecordKeys()
  {
    assert d.Keys == RecordKeys();
    RecordUnique(d, state, tokens, year);
  }

  /** The body of `scrapeTable`'s row loop: the reused `dict` gets the row's State, then
      each key in order, then the Year, and is the row's record afterwards whatever it
      held before. */
  method FillRecord(dict: Document, values: string, year: int) returns (r: Option<Document>)
    requires dict.Keys <= RecordKeys()
    ensures r == ParseRow(values, year)
    ensures r.Some? ==> r.value.Keys == RecordKeys()
  {
    hide ParseRow, Keys, MatchRow, Record;
    var matched := MatchRow(values);
    ParseRowCases(values, year);
    if matched.None? {
      return None;
    }
    var d := dict[StateKey := matched.value.name];
    var tokens := Split(Strip(matched.value.numbers));
    KeysDistinct();
    assert StateKey in RecordKeys() && YearKey in RecordKeys();
    assert forall jj :: 0 <= jj < |Keys()| ==> Keys()[jj] in RecordKeys();
    hide RecordKeys;
    var j := 0;
    while j < |Keys()|
      invariant 0 <= j <= |Keys()| && j <= |tokens|
      invariant d.Keys <= RecordKeys()
      invariant StateKey in d && d[StateKey] == matched.value.name
      invariant forall jj :: 0 <= jj < j ==> jj < |tokens| && Keys()[jj] in d && d[Keys()[jj]] == tokens[jj]
    {
      if j >= |tokens| {
        return None;
      }
      d := d[Keys()[j] := tokens[j]];
      j := j + 1;
    }
    d := d[YearKey := IntToString(year)];
    FilledRecord(d, matched.value.name, tokens, IntToString(year));
    return Some(d);
  }

  /** `scrapeTable`: rows `tr[5]` .. `tr[54]` in turn, one reused `dict` refilled for each
      row and a copy of it appended, so each record holds its own row's values only. */
  method ScrapeTable(page: seq<string>, year: int) returns (data: Option<seq<Document>>)
    ensures data == CrimeTable(page, year)
  {
    hide ParseRow;
    var dict: Document := map[];
    var out: seq<Document> := [];
    var i := FirstRow;
    while i < FirstRow + RowCount
      invariant FirstRow <= i <= FirstRow + RowCount && |out| == i - FirstRow
      invariant i == FirstRow || i - 1 <= |page|
      invariant forall k :: 0 <= k < |out| ==> RowParser(year)(page[FirstRow - 1 + k]) == Some(out[k])
      invariant dict.Keys <= RecordKeys()
    {
      if i - 1 >= |page| {
        PageRowsFails(RowParser(year), page, FirstRow, RowCount, i - FirstRow);
        return None;
      }
      var values := page[i - 1];
      var row := FillRecord(dict, values, year);
      if row.None? {
        PageRowsFails(RowParser(year), page, FirstRow, RowCount, i - FirstRow);
        return None;
      }
      dict := row.value;
      out := out + [dict];
      i := i + 1;
    }
    PageRowsAll(RowParser(year), page, FirstRow, RowCount, out);
    return Some(out);
  }

  /** One table per year of `start` .. `end`, in ascending order. */
  function YearTables(pageOf: int -> seq<string>, start: int, end: int): (r: seq<Option<seq<Document>>>)
    ensures |r| == YearCount(start, end)
  {
    seq(YearCount(start, end), i => CrimeTable(pageOf(start + i), start + i))
  }

  /** What `scrapCrimeDataByYear` collects: the tables of years `start` .. `end`
      concatenated in ascending order. */
  function CrimeData(pageOf: int -> seq<string>, start: int, end: int): Option<seq<Document>> {
    Flatten(YearTables(pageOf, start, end))
  }

  /** The collected data holds 50 records per year, and record `50 * (y - start) + k` is
      the parse of row `tr[k + 5]` of year `y`'s page and carries that year. */
  lemma CrimeDataAt(pageOf: int -> seq<string>, start: int, end: int, y: int, k: int)
    requires CrimeData(pageOf, start, end).Some?
    requires start <= y <= end && 0 <= k < 50
    ensures var data := CrimeData(pageOf, start, end).value;
      && |data| == 50 * (end - start + 1)
      && 50 * (y - start) + k < |data|
      && k + 4 < |pageOf(y)| && ParseRow(pageOf(y)[k + 4], y).Some?
      && data[50 * (y - start) + k] == ParseRow(pageOf(y)[k + 4], y).value
      && data[50 * (y - start) + k][YearKey] == IntToString(y)
  {
    hide ParseRow, Keys;
    var parts := YearTables(pageOf, start, end);
    forall j | 0 <= j < |parts| ensures parts[j].Some? && |parts[j].value| == 50 {
      assert parts[j] == CrimeTable(pageOf(start + j), start + j);
    }
    assert parts[y - start] == CrimeTable(pageOf(y), y);
    FlattenAt(parts, 50, y - start, k);
    PageRowsAt(RowParser(y), pageOf(y), FirstRow, RowCount);
    ParseRowFields(pageOf(y)[k + 4], y);
  }

  /** A year whose table fails makes the whole collection fail. */
  lemma CrimeDataFails(pageOf: int -> seq<string>, start: int, end: int, y: int)
    requires start <= y <= end && CrimeTable(pageOf(y), y).None?
    ensures CrimeData(pageOf, start, end).None?
  {
    assert YearTables(pageOf, start, end)[y - start].None?;
  }

  /** `scrapCrimeDataByYear`: `final_data` is extended with each year's table in turn. */
  method ScrapCrimeDataByYear(pageOf: int -> seq<string>, start: int, end: int)
    returns (finalData: Option<seq<Document>>)
    ensures finalData == CrimeData(pageOf, start, end)
  {
    hide CrimeTable, ParseRow, Keys;
    ghost var parts := YearTables(pageOf, start, end);
    var acc: seq<Document> := [];
    var year := start;
    while year < end + 1
      invariant start <= year && year - start <= |parts|
      invariant Flatten(parts[..year - start]) == Some(acc)
    {
      var data := ScrapeTable(pageOf(year), year);
      if data.None? {
        CrimeDataFails(pageOf, start, end, year);
        return None;
      }
      FlattenSnoc(parts[..year - start], data.value, acc);
      assert parts[..year - start] + [data] == parts[..year + 1 - start];
      acc := acc + data.value;
      year := year + 1;
    }
    assert parts[..year - start] == parts;
    return Some(acc);
  }
}
