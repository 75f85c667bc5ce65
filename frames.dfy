/** The slice of pandas the loader relies on: a frame built from records, whole-column
    updates, column selection into row tuples, and `drop_duplicates(keep='last')`. A
    missing value (NaN) is the cell `Null`. */
module Frames {
  import opened Wrappers
  import opened Records
  import opened Text

  /** One cell of a frame: missing, text, or a number. */
  datatype Cell = Null | Text(s: string) | Number(x: real)

  /** A frame of `n` rows, by column name. */
  datatype Frame = Frame(n: nat, cols: map<string, seq<Cell>>)

  /** Every column has one cell per row. */
  predicate WellFormed(f: Frame) {
    forall k :: k in f.cols ==> |f.cols[k]| == f.n
  }

  /** The cell a record gives a column: its value, or NaN when it lacks the key. */
  function CellOf(d: Document, key: string): (c: Cell)
    ensures c.Null? || c.Text?
  {
    if key in d then Text(d[key]) else Null
  }

  function Column(docs: seq<Document>, key: string): (c: seq<Cell>)
    ensures |c| == |docs|
  {
    seq(|docs|, i requires 0 <= i < |docs| => CellOf(docs[i], key))
  }

  /** Every key that some record carries. */
  function AllKeys(docs: seq<Document>): set<string> {
    set i, k | 0 <= i < |docs| && k in docs[i] :: k
  }

  /** `pd.DataFrame(records)`: one row per record, one column per key that some record
      carries (so no column at all for no records), NaN where a record lacks the key. */
  function FromRecords(docs: seq<Document>): (f: Frame)
    ensures WellFormed(f) && f.n == |docs|
    ensures forall k :: k in f.cols <==> HasColumn(docs, k)
    ensures forall k, i :: k in f.cols && 0 <= i < |docs| ==> f.cols[k][i] == CellOf(docs[i], k)
  {
    var f := Frame(|docs|, map k | k in AllKeys(docs) :: Column(docs, k));
    assert forall k :: HasColumn(docs, k) ==> k in AllKeys(docs);
    f
  }

  /** `pd.DataFrame(data=records, columns=keys)`: exactly the listed columns, NaN where a
      record lacks the key; keys outside the list are dropped. */
  function FromRecordsColumns(docs: seq<Document>, keys: seq<string>): (f: Frame)
    ensures WellFormed(f) && f.n == |docs|
    ensures forall k :: k in f.cols <==> k in keys
    ensures forall k, i :: k in f.cols && 0 <= i < |docs| ==> f.cols[k][i] == CellOf(docs[i], k)
  {
    Frame(|docs|, map k | k in keys :: Column(docs, k))
  }

  /** `frame[key] = column`: adds or replaces one column; the others are untouched. */
  function SetColumn(f: Frame, key: string, c: seq<Cell>): (g: Frame)
    requires WellFormed(f) && |c| == f.n
    ensures WellFormed(g) && g.n == f.n
    ensures forall k :: k in g.cols <==> k in f.cols || k == key
    ensures g.cols[key] == c && forall k :: k in f.cols && k != key ==> g.cols[k] == f.cols[k]
  {
    Frame(f.n, f.cols[key := c])
  }

  /** `pd.to_numeric(cell, errors='coerce')`: text that reads as a number becomes that
      number, any other text becomes NaN; NaN and numbers are kept. */
  function Coerce(c: Cell): (r: Cell)
    ensures r.Null? || r.Number?
  {
    match c
    case Text(s) => (match ParseDecimal(s) case Some(x) => Number(x) case None => Null)
    case _ => c
  }

  /** `.str.replace(',', '').astype(float)` on one cell: the text without commas read as a
      number; None when that text is not a number (the cast raises `ValueError`). NaN
      stays NaN, and so does a number, which the string accessor turns into NaN. */
  function CommaFloat(c: Cell): (r: Option<Cell>)
    ensures r.Some? ==> r.value.Null? || r.value.Number?
  {
    match c
    case Text(s) => (match ParseDecimal(StripCommas(s)) case Some(x) => Some(Number(x)) case None => None)
    case _ => Some(Null)
  }

  /** Whether `.str` accepts a column. pandas keeps a column of texts and NaN as objects,
      but stores a column that has rows and no text at all (every cell NaN) as floats, and
      the accessor raises `AttributeError` on those. An empty column stays an object
      column. */
  predicate StrAccessible(col: seq<Cell>) {
    |col| == 0 || exists i :: 0 <= i < |col| && col[i].Text?
  }

  /** A column read from records accepts `.str` exactly when there are no records or some
      record carries the key. */
  lemma StrAccessibleOf(docs: seq<Document>, key: string, col: seq<Cell>)
    requires |col| == |docs| && forall i :: 0 <= i < |docs| ==> col[i] == CellOf(docs[i], key)
    ensures StrAccessible(col) <==> |docs| == 0 || HasColumn(docs, key)
  {
    if HasColumn(docs, key) {
      var i :| 0 <= i < |docs| && key in docs[i];
      assert col[i].Text?;
    }
  }

  /** `.str.strip()` on one cell. */
  function StripCell(c: Cell): Cell {
    match c
    case Text(s) => Text(Strip(s))
    case _ => Null
  }

  function StripColumn(col: seq<Cell>): (r: seq<Cell>)
    ensures |r| == |col|
  {
    seq(|col|, i requires 0 <= i < |col| => StripCell(col[i]))
  }

  /** `a + b` on two object cells: texts concatenate, NaN on either side gives NaN, two
      numbers add; a number meeting text raises `TypeError` (None). */
  function AddCells(a: Cell, b: Cell): (r: Option<Cell>)
    ensures a.Text? && b.Text? ==> r == Some(Text(a.s + b.s))
    ensures a.Null? || b.Null? ==> r == Some(Null)
  {
    match (a, b)
    case (Null, _) => Some(Null)
    case (_, Null) => Some(Null)
    case (Text(x), Text(y)) => Some(Text(x + y))
    case (Number(x), Number(y)) => Some(Number(x + y))
    case _ => None
  }

  /** `a + b` on two columns: cell by cell, raising when one cell pair does. */
  function AddColumns(a: seq<Cell>, b: seq<Cell>): (r: Option<seq<Cell>>)
    requires |a| == |b|
    ensures r.None? <==> exists i :: 0 <= i < |a| && AddCells(a[i], b[i]).None?
    ensures r.Some? ==> |r.value| == |a| && forall i :: 0 <= i < |a| ==> Some(r.value[i]) == AddCells(a[i], b[i])
  {
    if exists i :: 0 <= i < |a| && AddCells(a[i], b[i]).None? then None
    else Some(seq(|a|, i requires 0 <= i < |a| => AddCells(a[i], b[i]).value))
  }

  /** `[tuple(x) for x in frame[cols].to_numpy()]`: per row, the cells of the selected
      columns in the order listed; a column the frame lacks raises `KeyError`. */
  function Tuples(f: Frame, cols: seq<string>): (r: Option<seq<seq<Cell>>>)
    requires WellFormed(f)
    ensures r.Some? <==> forall c :: 0 <= c < |cols| ==> cols[c] in f.cols
    ensures r.Some? ==> |r.value| == f.n
    ensures r.Some? ==> forall i :: 0 <= i < f.n ==>
      (|r.value[i]| == |cols| && forall c :: 0 <= c < |cols| ==> r.value[i][c] == f.cols[cols[c]][i])
  {
    if forall c :: 0 <= c < |cols| ==> cols[c] in f.cols then
      Some(seq(f.n, i requires 0 <= i < f.n => seq(|cols|, c requires 0 <= c < |cols| => f.cols[cols[c]][i])))
    else None
  }

  // ---------------------------------------------------------------- drop_duplicates

  /** The keys of the rows. */
  function KeySet<T, K>(rows: seq<T>, key: T -> K): set<K> {
    set i | 0 <= i < |rows| :: key(rows[i])
  }

  /** `drop_duplicates(subset=key, keep='last')`: a row is kept exactly when no later row
      has its key. */
  function DedupLast<T, K(==)>(rows: seq<T>, key: T -> K): seq<T> {
    if rows == [] then []
    else if key(rows[0]) in KeySet(rows[1..], key) then DedupLast(rows[1..], key)
    else [rows[0]] + DedupLast(rows[1..], key)
  }

  lemma KeySetCons<T, K>(x: T, rows: seq<T>, key: T -> K)
    ensures KeySet([x] + rows, key) == {key(x)} + KeySet(rows, key)
  {
    var all := [x] + rows;
    assert all[0] == x;
    forall y | y in KeySet(all, key) ensures y in {key(x)} + KeySet(rows, key) {
      var i :| 0 <= i < |all| && key(all[i]) == y;
      if i > 0 { assert all[i] == rows[i - 1]; }
    }
    forall y | y in KeySet(rows, key) ensures y in KeySet(all, key) {
      var i :| 0 <= i < |rows| && key(rows[i]) == y;
      assert all[i + 1] == rows[i];
    }
  }

  /** Deduplication keeps the set of keys. */
  lemma {:induction false} DedupKeySet<T, K>(rows: seq<T>, key: T -> K)
    ensures KeySet(DedupLast(rows, key), key) == KeySet(rows, key)
    decreases |rows|
  {
    if rows != [] {
      var rest := rows[1..];
      assert rows == [rows[0]] + rest;
      KeySetCons(rows[0], rest, key);
      DedupKeySet(rest, key);
      if key(rows[0]) !in KeySet(rest, key) {
        KeySetCons(rows[0], DedupLast(rest, key), key);
      }
    }
  }

  /** No two kept rows share a key. */
  lemma {:induction false} DedupUnique<T, K>(rows: seq<T>, key: T -> K)
    ensures var out := DedupLast(rows, key);
      forall i, j :: 0 <= i < j < |out| ==> key(out[i]) != key(out[j])
    decreases |rows|
  {
    if rows != [] {
      var rest := rows[1..];
      DedupUnique(rest, key);
      if key(rows[0]) !in KeySet(rest, key) {
        var tail := DedupLast(rest, key);
        DedupKeySet(rest, key);
        var out := DedupLast(rows, key);
        assert out == [rows[0]] + tail;
        forall i, j | 0 <= i < j < |out| ensures key(out[i]) != key(out[j]) {
          assert out[j] == tail[j - 1];
          if i == 0 {
            assert key(tail[j - 1]) in KeySet(tail, key);
          } else {
            assert out[i] == tail[i - 1];
          }
        }
      } else {
        assert DedupLast(rows, key) == DedupLast(rest, key);
      }
    }
  }

  /** `x` is row `j`, and no later row has its key. */
  ghost predicate LastWith<T, K>(rows: seq<T>, key: T -> K, j: int, x: T)
    requires 0 <= j < |rows|
  {
    x == rows[j] && forall j' :: j < j' < |rows| ==> key(rows[j']) != key(rows[j])
  }

  /** `x` is the last row with its key. */
  ghost predicate IsLastOfKey<T, K>(rows: seq<T>, key: T -> K, x: T) {
    exists j :: 0 <= j < |rows| && LastWith(rows, key, j, x)
  }

  /** Each kept row is an input row that no later input row shares a key with: the last
      occurrence of its key wins. */
  lemma {:induction false} DedupLastWins<T, K>(rows: seq<T>, key: T -> K)
    ensures forall x :: x in DedupLast(rows, key) ==> IsLastOfKey(rows, key, x)
    decreases |rows|
  {
    if rows != [] {
      var rest := rows[1..];
      DedupLastWins(rest, key);
      var tail := DedupLast(rest, key);
      var out := DedupLast(rows, key);
      var first := key(rows[0]) !in KeySet(rest, key);
      if first {
        assert out == [rows[0]] + tail;
      } else {
        assert out == tail;
      }
      forall x | x in out ensures IsLastOfKey(rows, key, x) {
        var i :| 0 <= i < |out| && out[i] == x;
        if first && i == 0 {
          assert out[0] == rows[0];
          forall j' | 0 < j' < |rows| ensures key(rows[j']) != key(rows[0]) {
            assert rows[j'] == rest[j' - 1];
          }
          assert LastWith(rows, key, 0, out[i]);
        } else {
          var t := if first then i - 1 else i;
          assert out[i] == tail[t] && tail[t] in tail;
          var j :| 0 <= j < |rest| && LastWith(rest, key, j, tail[t]);
          assert rows[j + 1] == rest[j];
          forall j' | j + 1 < j' < |rows| ensures key(rows[j']) != key(rows[j + 1]) {
            assert rows[j'] == rest[j' - 1];
          }
          assert LastWith(rows, key, j + 1, out[i]);
        }
      }
    }
  }

  /** `a` is `b` with some elements left out, the others in their order. */
  ghost predicate IsSubsequence<T>(a: seq<T>, b: seq<T>)
    decreases |b|
  {
    a == [] || (b != [] && ((a[0] == b[0] && IsSubsequence(a[1..], b[1..])) || IsSubsequence(a, b[1..])))
  }

  /** Kept rows stay in their original relative order. */
  lemma {:induction false} DedupOrder<T, K>(rows: seq<T>, key: T -> K)
    ensures IsSubsequence(DedupLast(rows, key), rows)
    decreases |rows|
  {
    if rows != [] {
      DedupOrder(rows[1..], key);
      var out := DedupLast(rows, key);
      if key(rows[0]) !in KeySet(rows[1..], key) {
        assert out[0] == rows[0] && out[1..] == DedupLast(rows[1..], key);
      }
    }
  }

  /** Rows whose keys are already distinct are all kept. */
  lemma {:induction false} DedupDistinct<T, K>(rows: seq<T>, key: T -> K)
    requires forall i, j :: 0 <= i < j < |rows| ==> key(rows[i]) != key(rows[j])
    ensures DedupLast(rows, key) == rows
    decreases |rows|
  {
    if rows != [] {
      var rest := rows[1..];
      forall j | 0 <= j < |rest| ensures key(rest[j]) != key(rows[0]) {
        assert rest[j] == rows[j + 1];
      }
      assert forall i, j :: 0 <= i < j < |rest| ==> rest[i] == rows[i + 1] && rest[j] == rows[j + 1];
      DedupDistinct(rest, key);
    }
  }

  /** Deduplicating twice is deduplicating once. */
  lemma DedupIdempotent<T, K>(rows: seq<T>, key: T -> K)
    ensures DedupLast(DedupLast(rows, key), key) == DedupLast(rows, key)
  {
    DedupUnique(rows, key);
    DedupDistinct(DedupLast(rows, key), key);
  }
}
