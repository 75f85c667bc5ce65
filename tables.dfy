/** The shape shared by the scrapers: a page is read row by row under a row parser, any
    row that cannot be read aborts the whole page, and the pages of a run are
    concatenated in the order they were requested. */
module Tables {
  import opened Wrappers

  /** Every row under `parse`, in order; failure as soon as one row fails. The rows are
      row texts for the scrapers and CSV records for the spreadsheet reader. */
  function ParseAll<S, T>(parse: S -> Option<T>, rows: seq<S>): (r: Option<seq<T>>)
    ensures r.None? <==> exists i :: 0 <= i < |rows| && parse(rows[i]).None?
    ensures r.Some? ==> |r.value| == |rows|
    ensures r.Some? ==> forall i :: 0 <= i < |rows| ==> r.value[i] == parse(rows[i]).value
  {
    if rows == [] then Some([])
    else
      var init, last := rows[..|rows| - 1], rows[|rows| - 1];
      assert forall i :: 0 <= i < |rows| - 1 ==> init[i] == rows[i];
      match ParseAll(parse, init)
      case None => None
      case Some(prefix) =>
        match parse(last)
        case None => None
        case Some(d) => Some(prefix + [d])
  }

  /** Parsing one more row extends the parsed prefix by that row's value. */
  lemma ParseAllSnoc<S, T>(parse: S -> Option<T>, rows: seq<S>, row: S, prefix: seq<T>, d: T)
    requires ParseAll(parse, rows) == Some(prefix) && parse(row) == Some(d)
    ensures ParseAll(parse, rows + [row]) == Some(prefix + [d])
  {
    assert (rows + [row])[..|rows|] == rows;
  }

  /** Rows `tr[first]` .. `tr[first + count - 1]` of a page whose row `tr[i]` has text
      `page[i - 1]`; a page too short for the last of them fails, because looking that row
      up raises. */
  function PageRows<T>(parse: string -> Option<T>, page: seq<string>, first: nat, count: nat): (r: Option<seq<T>>)
    requires first >= 1
    ensures r.Some? ==> first - 1 + count <= |page| && |r.value| == count
  {
    if |page| < first - 1 + count then None else ParseAll(parse, page[first - 1..first - 1 + count])
  }

  /** The table is every requested row's value, record `k` coming from row `tr[first + k]`;
      it fails exactly when the page is short or one of those rows fails. */
  lemma PageRowsAt<T>(parse: string -> Option<T>, page: seq<string>, first: nat, count: nat)
    requires first >= 1
    ensures PageRows(parse, page, first, count).Some? <==>
      first - 1 + count <= |page| && forall i :: first - 1 <= i < first - 1 + count ==> parse(page[i]).Some?
    ensures PageRows(parse, page, first, count).Some? ==> forall i :: first - 1 <= i < first - 1 + count ==>
      PageRows(parse, page, first, count).value[i - (first - 1)] == parse(page[i]).value
  {
    if first - 1 + count <= |page| {
      var rows := page[first - 1..first - 1 + count];
      assert forall i :: first - 1 <= i < first - 1 + count ==> rows[i - (first - 1)] == page[i];
      if ParseAll(parse, rows).None? {
        var j :| 0 <= j < |rows| && parse(rows[j]).None?;
        assert parse(page[j + (first - 1)]).None?;
      }
    }
  }

  /** A loop that parsed every requested row in turn produced the table. */
  lemma PageRowsAll<T>(parse: string -> Option<T>, page: seq<string>, first: nat, count: nat, out: seq<T>)
    requires first >= 1 && first - 1 + count <= |page| && |out| == count
    requires forall k :: 0 <= k < count ==> parse(page[first - 1 + k]) == Some(out[k])
    ensures PageRows(parse, page, first, count) == Some(out)
  {
    PageRowsAt(parse, page, first, count);
    var r := PageRows(parse, page, first, count);
    assert r.Some? by {
      forall i | first - 1 <= i < first - 1 + count ensures parse(page[i]).Some? {
        var k := i - (first - 1);
        assert parse(page[first - 1 + k]) == Some(out[k]);
      }
    }
    assert r.value == out by {
      forall k | 0 <= k < count ensures r.value[k] == out[k] {
        assert r.value[(first - 1 + k) - (first - 1)] == parse(page[first - 1 + k]).value;
      }
    }
  }

  /** A loop that stops at a missing or unreadable row: the table fails. */
  lemma PageRowsFails<T>(parse: string -> Option<T>, page: seq<string>, first: nat, count: nat, k: nat)
    requires first >= 1 && k < count
    requires first - 1 + k >= |page| || parse(page[first - 1 + k]).None?
    ensures PageRows(parse, page, first, count).None?
  {
    PageRowsAt(parse, page, first, count);
  }

  /** The tables of a run concatenated in order; failure when any of them failed. */
  function Flatten<T>(parts: seq<Option<seq<T>>>): (r: Option<seq<T>>)
    ensures r.None? <==> exists i :: 0 <= i < |parts| && parts[i].None?
  {
    if parts == [] then Some([])
    else
      var init := parts[..|parts| - 1];
      assert forall i :: 0 <= i < |parts| - 1 ==> init[i] == parts[i];
      match Flatten(init)
      case None => None
      case Some(prefix) =>
        match parts[|parts| - 1]
        case None => None
        case Some(t) => Some(prefix + t)
  }

  lemma FlattenSnoc<T>(parts: seq<Option<seq<T>>>, t: seq<T>, prefix: seq<T>)
    requires Flatten(parts) == Some(prefix)
    ensures Flatten(parts + [Some(t)]) == Some(prefix + t)
  {
    assert (parts + [Some(t)])[..|parts|] == parts;
  }

  /** Tables that all hold `width` records: the concatenation holds `width` records per
      table, and record `width * i + k` is record `k` of table `i`. */
  lemma {:induction false} FlattenAt<T>(parts: seq<Option<seq<T>>>, width: nat, i: nat, k: nat)
    requires Flatten(parts).Some?
    requires forall j :: 0 <= j < |parts| ==> parts[j].Some? && |parts[j].value| == width
    requires i < |parts| && k < width
    ensures |Flatten(parts).value| == width * |parts|
    ensures width * i + k < |Flatten(parts).value|
    ensures Flatten(parts).value[width * i + k] == parts[i].value[k]
    decreases |parts|
  {
    var n := |parts|;
    var init := parts[..n - 1];
    assert forall j :: 0 <= j < n - 1 ==> init[j] == parts[j];
    var prefix := Flatten(init).value;
    var t := parts[n - 1].value;
    assert Flatten(parts).value == prefix + t;
    FlattenLength(init, width);
    assert width * n == width * (n - 1) + width;
    if i < n - 1 {
      FlattenAt(init, width, i, k);
    } else {
      assert width * i == |prefix|;
    }
  }

  lemma {:induction false} FlattenLength<T>(parts: seq<Option<seq<T>>>, width: nat)
    requires Flatten(parts).Some?
    requires forall j :: 0 <= j < |parts| ==> parts[j].Some? && |parts[j].value| == width
    ensures |Flatten(parts).value| == width * |parts|
    decreases |parts|
  {
    if parts != [] {
      var n := |parts|;
      var init := parts[..n - 1];
      assert forall j :: 0 <= j < n - 1 ==> init[j] == parts[j];
      FlattenLength(init, width);
      assert width * n == width * (n - 1) + width;
    }
  }

  /** The total number of records in tables that all succeeded. */
  function TotalLength<T>(parts: seq<Option<seq<T>>>): nat
    requires forall j :: 0 <= j < |parts| ==> parts[j].Some?
  {
    if parts == [] then 0 else TotalLength(parts[..|parts| - 1]) + |parts[|parts| - 1].value|
  }

  /** The concatenation holds as many records as the tables together. */
  lemma {:induction false} FlattenTotalLength<T>(parts: seq<Option<seq<T>>>)
    requires forall j :: 0 <= j < |parts| ==> parts[j].Some?
    ensures Flatten(parts).Some? && |Flatten(parts).value| == TotalLength(parts)
    decreases |parts|
  {
    if parts != [] {
      var init := parts[..|parts| - 1];
      assert forall j :: 0 <= j < |init| ==> init[j] == parts[j];
      FlattenTotalLength(init);
    }
  }

  /** The number of years from `start` to `end` inclusive (none when `end < start`). */
  function YearCount(start: int, end: int): (n: nat)
    ensures start <= end ==> n == end - start + 1
    ensures end < start ==> n == 0
  {
    if end < start then 0 else end - start + 1
  }
}
