/** The load stage (`postgresql_upload_data.py`): the staged documents of each dataset are
    read into a frame, some columns are cast to numbers, a `state_year` key column is
    built, and the rows are turned into the tuples inserted into the relational tables,
    deduplicated on `state_year` for the `state_year` dimension and for education. */
module PostgresLoader {
  import opened Wrappers
  import opened Records
  import opened Text
  import opened Frames
  import StateCodes
  import EducationExtract

  // ---------------------------------------------------------------- column updates

  /** `frame[key] = frame[key].<op>` on one column: KeyError (None) when the frame has no
      such column, and None when the operation goes through `.str` and the column refuses
      the accessor, or when the operation raises on one of its cells. */
  function UpdateColumn(f: Frame, key: string, op: Cell -> Option<Cell>, viaStr: bool): (r: Option<Frame>)
    requires WellFormed(f)
    ensures r.Some? ==> WellFormed(r.value) && r.value.n == f.n && r.value.cols.Keys == f.cols.Keys
  {
    if key !in f.cols then None
    else
      var col := f.cols[key];
      if viaStr && !StrAccessible(col) then None
      else if exists i :: 0 <= i < |col| && op(col[i]).None? then None
      else Some(SetColumn(f, key, seq(|col|, i requires 0 <= i < |col| => op(col[i]).value)))
  }

  /** The frame after the columns `keys` have been updated one after the other. */
  function Updated(f: Frame, keys: seq<string>, op: Cell -> Option<Cell>, viaStr: bool): (r: Option<Frame>)
    requires WellFormed(f)
    ensures r.Some? ==> WellFormed(r.value) && r.value.n == f.n && r.value.cols.Keys == f.cols.Keys
    decreases |keys|
  {
    if keys == [] then Some(f)
    else match Updated(f, keys[..|keys| - 1], op, viaStr)
      case None => None
      case Some(g) => UpdateColumn(g, keys[|keys| - 1], op, viaStr)
  }

  /** Updating the column `key` raises: it is missing, it refuses `.str` when the
      operation uses it, or it holds a cell the operation raises on. */
  ghost predicate ColumnRaises(f: Frame, key: string, op: Cell -> Option<Cell>, viaStr: bool)
    requires WellFormed(f)
  {
    || key !in f.cols
    || (viaStr && !StrAccessible(f.cols[key]))
    || exists i :: 0 <= i < f.n && op(f.cols[key][i]).None?
  }

  /** Updating one of the columns `keys` raises. */
  ghost predicate UpdateFails(f: Frame, keys: seq<string>, op: Cell -> Option<Cell>, viaStr: bool)
    requires WellFormed(f)
  {
    exists c :: 0 <= c < |keys| && ColumnRaises(f, keys[c], op, viaStr)
  }

  /** Updating one column fails exactly when it raises as `ColumnRaises` says; otherwise
      that column holds the operation's results and the others are unchanged. */
  lemma UpdateColumnSpec(f: Frame, key: string, op: Cell -> Option<Cell>, viaStr: bool)
    requires WellFormed(f)
    ensures UpdateColumn(f, key, op, viaStr).None? <==> ColumnRaises(f, key, op, viaStr)
    ensures UpdateColumn(f, key, op, viaStr).Some? ==> forall k, i :: k in f.cols && 0 <= i < f.n ==>
      Some(UpdateColumn(f, key, op, viaStr).value.cols[k][i]) == (if k == key then op(f.cols[k][i]) else Some(f.cols[k][i]))
  {
  }

  /** Updating distinct columns fails exactly when one of them raises; otherwise each
      listed column holds the operation's result cell by cell and every other column is
      unchanged. */
  lemma {:induction false} UpdatedSpec(f: Frame, keys: seq<string>, op: Cell -> Option<Cell>, viaStr: bool)
    requires WellFormed(f) && Distinct(keys)
    ensures Updated(f, keys, op, viaStr).None? <==> UpdateFails(f, keys, op, viaStr)
    ensures Updated(f, keys, op, viaStr).Some? ==> forall k, i :: k in f.cols && 0 <= i < f.n ==>
      Some(Updated(f, keys, op, viaStr).value.cols[k][i]) == (if k in keys then op(f.cols[k][i]) else Some(f.cols[k][i]))
    decreases |keys|
  {
    if keys != [] {
      var init, last := keys[..|keys| - 1], keys[|keys| - 1];
      assert Distinct(init);
      UpdatedSpec(f, init, op, viaStr);
      UpdateFailsSplit(f, keys, op, viaStr);
      assert forall k :: k in keys <==> k in init || k == last;
      assert last !in init;
      hide UpdateFails, ColumnRaises;
      match Updated(f, init, op, viaStr)
      case None =>
      case Some(g) =>
        assert Updated(f, keys, op, viaStr) == UpdateColumn(g, last, op, viaStr);
        hide UpdateColumn, Updated;
        UpdateLastSpec(f, g, init, last, op, viaStr);
    }
  }

  /** One of the columns `keys` raises exactly when one of all but the last does or the
      last does. */
  lemma UpdateFailsSplit(f: Frame, keys: seq<string>, op: Cell -> Option<Cell>, viaStr: bool)
    requires WellFormed(f) && keys != []
    ensures UpdateFails(f, keys, op, viaStr) <==>
      UpdateFails(f, keys[..|keys| - 1], op, viaStr) || ColumnRaises(f, keys[|keys| - 1], op, viaStr)
  {
    var init := keys[..|keys| - 1];
    hide ColumnRaises;
    if UpdateFails(f, init, op, viaStr) {
      var c :| 0 <= c < |init| && ColumnRaises(f, init[c], op, viaStr);
      assert keys[c] == init[c];
    }
    if UpdateFails(f, keys, op, viaStr) && !ColumnRaises(f, keys[|keys| - 1], op, viaStr) {
      var c :| 0 <= c < |keys| && ColumnRaises(f, keys[c], op, viaStr);
      assert init[c] == keys[c];
    }
  }

  /** The last update of a run: on a frame whose columns `init` already hold the
      operation's results, updating `last` raises exactly when it raises on the original
      frame, and otherwise adds its results to the others. */
  lemma UpdateLastSpec(f: Frame, g: Frame, init: seq<string>, last: string, op: Cell -> Option<Cell>, viaStr: bool)
    requires WellFormed(f) && WellFormed(g) && g.n == f.n && g.cols.Keys == f.cols.Keys && last !in init
    requires forall k, i :: k in f.cols && 0 <= i < f.n ==>
      Some(g.cols[k][i]) == (if k in init then op(f.cols[k][i]) else Some(f.cols[k][i]))
    ensures UpdateColumn(g, last, op, viaStr).None? <==> ColumnRaises(f, last, op, viaStr)
    ensures UpdateColumn(g, last, op, viaStr).Some? ==> forall k, i :: k in f.cols && 0 <= i < f.n ==>
      Some(UpdateColumn(g, last, op, viaStr).value.cols[k][i])
        == (if k in init || k == last then op(f.cols[k][i]) else Some(f.cols[k][i]))
  {
    UpdateColumnSpec(g, last, op, viaStr);
    hide UpdateColumn;
    if last in f.cols {
      forall i | 0 <= i < f.n ensures g.cols[last][i] == f.cols[last][i] {
        assert Some(g.cols[last][i]) == Some(f.cols[last][i]);
      }
      assert g.cols[last] == f.cols[last];
    }
  }

  /** The loop `for key in keys: frame[key] = frame[key].<op>`. */
  method UpdateColumns(frame: Frame, keys: seq<string>, op: Cell -> Option<Cell>, viaStr: bool) returns (r: Option<Frame>)
    requires WellFormed(frame)
    ensures r == Updated(frame, keys, op, viaStr)
  {
    var f := frame;
    var j := 0;
    while j < |keys|
      invariant 0 <= j <= |keys|
      invariant Updated(frame, keys[..j], op, viaStr) == Some(f)
    {
      assert keys[..j + 1][..j] == keys[..j];
      var u := UpdateColumn(f, keys[j], op, viaStr);
      if u.None? {
        assert Updated(frame, keys[..j + 1], op, viaStr).None?;
        UpdatedFailsLater(frame, keys, j + 1, op, viaStr);
        return None;
      }
      f := u.value;
      j := j + 1;
    }
    assert keys[..j] == keys;
    r := Some(f);
  }

  /** Once an update of a prefix of the columns fails, the update of all of them fails. */
  lemma {:induction false} UpdatedFailsLater(f: Frame, keys: seq<string>, j: nat, op: Cell -> Option<Cell>, viaStr: bool)
    requires WellFormed(f) && j <= |keys| && Updated(f, keys[..j], op, viaStr).None?
    ensures Updated(f, keys, op, viaStr).None?
    decreases |keys| - j
  {
    if j < |keys| {
      assert keys[..j + 1][..j] == keys[..j];
      UpdatedFailsLater(f, keys, j + 1, op, viaStr);
    } else {
      assert keys[..j] == keys;
    }
  }

  /** `apply(pd.to_numeric, errors='coerce')`: never raises. */
  function CoerceOp(c: Cell): Option<Cell> {
    Some(Coerce(c))
  }

  /** `.str.replace(',', '').astype(float)`: raises on text that is not a number. */
  function CastOp(c: Cell): Option<Cell> {
    CommaFloat(c)
  }

  /** The row's `state_year` cell when the key is `a + b` on the row's cells. */
  function KeyCell(a: Cell, b: Cell): Cell {
    match (a, b)
    case (Text(x), Text(y)) => Text(x + y)
    case _ => Null
  }

  /** Adding two columns of texts and NaN never raises; each cell of the sum is the
      concatenation of the texts, or NaN. */
  lemma AddTextColumns(a: seq<Cell>, b: seq<Cell>)
    requires |a| == |b|
    requires forall i :: 0 <= i < |a| ==> (a[i].Text? || a[i].Null?) && (b[i].Text? || b[i].Null?)
    ensures AddColumns(a, b).Some?
    ensures forall i :: 0 <= i < |a| ==> AddColumns(a, b).value[i] == KeyCell(a[i], b[i])
  {
  }

  // ---------------------------------------------------------------- unemployment

  /** The frame `fetch_unemployment_data` returns for the staged documents; None where
      it raises `KeyError`. */
  function UnemploymentFrame(docs: seq<Document>): Option<Frame> {
    var f := FromRecords(docs);
    match UpdateColumn(f, "rate", CoerceOp, false)
    case None => None
    case Some(g) =>
      if "state" !in g.cols || "year" !in g.cols then None
      else match AddColumns(g.cols["state"], g.cols["year"])
        case None => None
        case Some(key) => Some(SetColumn(g, "state_year", key))
  }

  /** What the unemployment frame holds: one row per document (the discarded `dropna`
      removes nothing); `rate` holds the number the text reads as, or NaN; `state_year`
      is `state + year` without any trimming, NaN when the document lacks either; every
      other key of the documents is a column holding their values. */
  ghost predicate UnemploymentRows(docs: seq<Document>, f: Frame) {
    && f.n == |docs| && WellFormed(f)
    && (forall k :: k in f.cols <==> k == "state_year" || HasColumn(docs, k))
    && "rate" in f.cols && "state_year" in f.cols
    && (forall i :: 0 <= i < |docs| ==> f.cols["rate"][i] == Coerce(CellOf(docs[i], "rate")))
    && (forall i :: 0 <= i < |docs| ==>
          f.cols["state_year"][i] == KeyCell(CellOf(docs[i], "state"), CellOf(docs[i], "year")))
    && (forall k, i :: k in f.cols && k != "rate" && k != "state_year" && 0 <= i < |docs| ==>
          f.cols[k][i] == CellOf(docs[i], k))
  }

  /** The unemployment fetch raises exactly when no document has a `rate`, a `state` or
      a `year`; otherwise its frame holds the documents as `UnemploymentRows` says. */
  lemma UnemploymentFrameSpec(docs: seq<Document>)
    ensures UnemploymentFrame(docs).None? <==>
      !HasColumn(docs, "rate") || !HasColumn(docs, "state") || !HasColumn(docs, "year")
    ensures UnemploymentFrame(docs).Some? ==> UnemploymentRows(docs, UnemploymentFrame(docs).value)
  {
    var f := FromRecords(docs);
    hide FromRecords, UpdateColumn, SetColumn, AddColumns, AddCells, Coerce, CellOf, HasColumn;
    UpdateColumnSpec(f, "rate", CoerceOp, false);
    match UpdateColumn(f, "rate", CoerceOp, false)
    case None =>
    case Some(g) =>
      if "state" in g.cols && "year" in g.cols {
        var a, b := g.cols["state"], g.cols["year"];
        forall i | 0 <= i < |a| ensures a[i] == CellOf(docs[i], "state") && b[i] == CellOf(docs[i], "year") {
          assert Some(a[i]) == Some(f.cols["state"][i]);
          assert Some(b[i]) == Some(f.cols["year"][i]);
        }
        AddTextColumns(a, b);
        var key := AddColumns(a, b).value;
        var h := SetColumn(g, "state_year", key);
        forall k, i | k in h.cols && k != "state_year" && 0 <= i < |docs|
          ensures h.cols[k][i] == if k == "rate" then Coerce(CellOf(docs[i], "rate")) else CellOf(docs[i], k)
        {
          assert Some(h.cols[k][i]) == Some(g.cols[k][i]);
        }
      }
  }

  /** `fetch_unemployment_data`: the documents are copied one by one into a list, the
      list becomes a frame, `rate` is coerced in place, and `state_year` is added. */
  method FetchUnemploymentData(found: seq<Document>) returns (data: Option<Frame>)
    ensures data == UnemploymentFrame(found)
  {
    var scores: seq<Document> := [];
    for i := 0 to |found|
      invariant scores == found[..i]
    {
      scores := scores + [found[i]];
    }
    assert scores == found;
    var frame := FromRecords(scores);
    var coerced := UpdateColumns(frame, ["rate"], CoerceOp, false);
    assert Updated(frame, ["rate"], CoerceOp, false) == UpdateColumn(frame, "rate", CoerceOp, false);
    if coerced.None? {
      return None;
    }
    frame := coerced.value;
    // `data.dropna()` is called for a result nobody keeps: the frame is unchanged.
    if "state" !in frame.cols || "year" !in frame.cols {
      return None;
    }
    var key := AddColumns(frame.cols["state"], frame.cols["year"]);
    if key.None? {
      return None;
    }
    data := Some(SetColumn(frame, "state_year", key.value));
  }

  // ---------------------------------------------------------------- crime

  /** The columns of the crime frame, in `fetch_crime_data`'s order. */
  function CrimeKeys(): (r: seq<string>)
    ensures |r| == 12
  {
    ["State", "Year", "Population_Coverage", "Violent_crime_total", "Murder_and_nonnegligent_manslaughter",
     "Legacy_rape1", "Robbery", "Aggravated_assault", "Property_crime_total", "Burglary", "Larceny-theft",
     "Motor_vehicle_theft"]
  }

  /** The ten measures `keys[2:12]` cast to numbers. */
  function CrimeMeasures(): (r: seq<string>)
    ensures |r| == 10
  {
    CrimeKeys()[2..12]
  }

  lemma CrimeKeysDistinct()
    ensures Distinct(CrimeKeys()) && Distinct(CrimeMeasures())
    ensures "State" !in CrimeMeasures() && "Year" !in CrimeMeasures() && "state_year" !in CrimeKeys()
    ensures "State" in CrimeKeys() && "Year" in CrimeKeys()
  {
  }

  /** The frame `fetch_crime_data` returns; None where a cast or a `.str.strip()` raises. */
  function CrimeFrame(docs: seq<Document>): Option<Frame> {
    var f := FromRecordsColumns(docs, CrimeKeys());
    CrimeKeysDistinct();
    assert "State" in f.cols && "Year" in f.cols;
    match Updated(f, CrimeMeasures(), CastOp, true)
    case None => None
    case Some(g) => WithCrimeKey(g)
  }

  /** `crime_data['state_year'] = crime_data['State'].str.strip() + crime_data['Year'].str.strip()`:
      None when either column refuses `.str`. */
  function WithCrimeKey(g: Frame): Option<Frame>
    requires WellFormed(g) && "State" in g.cols && "Year" in g.cols
  {
    if !StrAccessible(g.cols["State"]) || !StrAccessible(g.cols["Year"]) then None
    else match AddColumns(StripColumn(g.cols["State"]), StripColumn(g.cols["Year"]))
      case None => None
      case Some(key) => Some(SetColumn(g, "state_year", key))
  }

  /** In a non-empty collection no document has `key`: pandas stores the column, all
      NaN, as floats, and `.str` on it raises `AttributeError`. */
  ghost predicate AllNaN(docs: seq<Document>, key: string) {
    |docs| > 0 && !HasColumn(docs, key)
  }

  /** The cast of the ten measures raises: one of them is missing from every document of
      a non-empty collection, or a present value is not a number even after removing its
      commas. */
  ghost predicate CastRaises(docs: seq<Document>)
  {
    || (exists c :: 0 <= c < 10 && AllNaN(docs, CrimeMeasures()[c]))
    || exists c, i :: 0 <= c < 10 && 0 <= i < |docs| && CrimeMeasures()[c] in docs[i]
         && ParseDecimal(StripCommas(docs[i][CrimeMeasures()[c]])).None?
  }

  /** `fetch_crime_data` raises: in the cast, or in `.str.strip()` on a `State` or `Year`
      column that no document of a non-empty collection fills. */
  ghost predicate CrimeRaises(docs: seq<Document>)
  {
    CastRaises(docs) || AllNaN(docs, "State") || AllNaN(docs, "Year")
  }

  /** The number a present crime measure reads as once its commas are gone; NaN when the
      document lacks it. */
  function MeasureCell(d: Document, key: string): Cell
    requires key in d ==> ParseDecimal(StripCommas(d[key])).Some?
  {
    if key in d then Number(ParseDecimal(StripCommas(d[key])).value) else Null
  }

  /** The cast raises on a document's cell exactly when the value is present and not a
      number once its commas are gone; otherwise it gives `MeasureCell`. */
  lemma CastOfCell(d: Document, key: string)
    ensures CastOp(CellOf(d, key)).None? <==> key in d && ParseDecimal(StripCommas(d[key])).None?
    ensures CastOp(CellOf(d, key)).Some? ==> CastOp(CellOf(d, key)).value == MeasureCell(d, key)
  {
  }

  /** What the crime frame holds: one row per document; the twelve keys and `state_year`
      as columns; each measure the number it reads as once its commas are gone, NaN when
      missing; `State` and `Year` as text; and `state_year` the trimmed `State` followed by
      the trimmed `Year`, NaN when the document lacks either. */
  ghost predicate CrimeRows(docs: seq<Document>, f: Frame) {
    && f.n == |docs| && WellFormed(f)
    && (forall k :: k in f.cols <==> k == "state_year" || k in CrimeKeys())
    && "State" in f.cols && "Year" in f.cols && "state_year" in f.cols
    && (forall c :: 0 <= c < 10 ==> CrimeMeasures()[c] in f.cols)
    && (forall c, i :: 0 <= c < 10 && 0 <= i < |docs| && CrimeMeasures()[c] in docs[i] ==>
          ParseDecimal(StripCommas(docs[i][CrimeMeasures()[c]])).Some?)
    && (forall c, i :: 0 <= c < 10 && 0 <= i < |docs| ==>
          f.cols[CrimeMeasures()[c]][i] == MeasureCell(docs[i], CrimeMeasures()[c]))
    && (forall i :: 0 <= i < |docs| ==>
          f.cols["State"][i] == CellOf(docs[i], "State") && f.cols["Year"][i] == CellOf(docs[i], "Year"))
    && (forall i :: 0 <= i < |docs| ==>
          f.cols["state_year"][i] == KeyCell(StripCell(CellOf(docs[i], "State")), StripCell(CellOf(docs[i], "Year"))))
  }

  /** What the crime frame holds once its measures are cast, before the key is added. */
  ghost predicate CastRows(docs: seq<Document>, g: Frame) {
    && g.n == |docs| && WellFormed(g)
    && (forall k :: k in g.cols <==> k in CrimeKeys())
    && "State" in g.cols && "Year" in g.cols && "state_year" !in g.cols
    && (forall c :: 0 <= c < 10 ==> CrimeMeasures()[c] in g.cols)
    && (forall c, i :: 0 <= c < 10 && 0 <= i < |docs| && CrimeMeasures()[c] in docs[i] ==>
          ParseDecimal(StripCommas(docs[i][CrimeMeasures()[c]])).Some?)
    && (forall c, i :: 0 <= c < 10 && 0 <= i < |docs| ==>
          g.cols[CrimeMeasures()[c]][i] == MeasureCell(docs[i], CrimeMeasures()[c]))
    && (forall i :: 0 <= i < |docs| ==>
          g.cols["State"][i] == CellOf(docs[i], "State") && g.cols["Year"][i] == CellOf(docs[i], "Year"))
  }

  /** What the frame read from the documents holds in each measure column, and when
      `.str` accepts that column. */
  lemma MeasureColumns(docs: seq<Document>)
    ensures var f := FromRecordsColumns(docs, CrimeKeys());
      && f.n == |docs|
      && forall c :: 0 <= c < 10 ==>
        && CrimeMeasures()[c] in f.cols
        && |f.cols[CrimeMeasures()[c]]| == |docs|
        && (forall i :: 0 <= i < |docs| ==> f.cols[CrimeMeasures()[c]][i] == CellOf(docs[i], CrimeMeasures()[c]))
        && (StrAccessible(f.cols[CrimeMeasures()[c]]) <==> !AllNaN(docs, CrimeMeasures()[c]))
  {
    CrimeKeysDistinct();
    var f := FromRecordsColumns(docs, CrimeKeys());
    hide CrimeKeys, FromRecordsColumns, CellOf;
    assert forall c :: 0 <= c < 10 ==> CrimeMeasures()[c] in CrimeKeys();
    assert forall c :: 0 <= c < 10 ==> CrimeMeasures()[c] in f.cols;
    forall c | 0 <= c < 10
      ensures StrAccessible(f.cols[CrimeMeasures()[c]]) <==> !AllNaN(docs, CrimeMeasures()[c])
    {
      StrAccessibleOf(docs, CrimeMeasures()[c], f.cols[CrimeMeasures()[c]]);
    }
  }

  /** A document the cast cannot read, or a measure no document has, makes a column raise. */
  lemma CastRaisesFails(docs: seq<Document>)
    requires CastRaises(docs)
    ensures UpdateFails(FromRecordsColumns(docs, CrimeKeys()), CrimeMeasures(), CastOp, true)
  {
    var f := FromRecordsColumns(docs, CrimeKeys());
    MeasureColumns(docs);
    hide CrimeKeys, FromRecordsColumns, Updated, ParseDecimal, StripCommas, CastOp, CellOf, MeasureCell;
    hide AllNaN, StrAccessible;
    if exists c :: 0 <= c < 10 && AllNaN(docs, CrimeMeasures()[c]) {
      var c :| 0 <= c < 10 && AllNaN(docs, CrimeMeasures()[c]);
      assert ColumnRaises(f, CrimeMeasures()[c], CastOp, true);
    } else {
      var c, i :| 0 <= c < 10 && 0 <= i < |docs| && CrimeMeasures()[c] in docs[i]
        && ParseDecimal(StripCommas(docs[i][CrimeMeasures()[c]])).None?;
      CastOfCell(docs[i], CrimeMeasures()[c]);
      assert CastOp(f.cols[CrimeMeasures()[c]][i]).None?;
      assert ColumnRaises(f, CrimeMeasures()[c], CastOp, true);
    }
  }

  /** A column that raises is a measure no document has or a value the cast cannot read. */
  lemma FailsCastRaises(docs: seq<Document>)
    requires UpdateFails(FromRecordsColumns(docs, CrimeKeys()), CrimeMeasures(), CastOp, true)
    ensures CastRaises(docs)
  {
    var f := FromRecordsColumns(docs, CrimeKeys());
    MeasureColumns(docs);
    hide CrimeKeys, FromRecordsColumns, Updated, ParseDecimal, StripCommas, CastOp, CellOf, MeasureCell;
    hide AllNaN, StrAccessible;
    var c :| 0 <= c < 10 && ColumnRaises(f, CrimeMeasures()[c], CastOp, true);
    if StrAccessible(f.cols[CrimeMeasures()[c]]) {
      var i :| 0 <= i < f.n && CastOp(f.cols[CrimeMeasures()[c]][i]).None?;
      CastOfCell(docs[i], CrimeMeasures()[c]);
    }
  }

  /** Casting the ten measures raises exactly when `CastRaises` says. */
  lemma CastRaisesExactly(docs: seq<Document>)
    ensures var f := FromRecordsColumns(docs, CrimeKeys());
      Updated(f, CrimeMeasures(), CastOp, true).None? <==> CastRaises(docs)
  {
    var f := FromRecordsColumns(docs, CrimeKeys());
    UpdatedSpec(f, CrimeMeasures(), CastOp, true);
    if CastRaises(docs) {
      CastRaisesFails(docs);
    }
    if UpdateFails(f, CrimeMeasures(), CastOp, true) {
      FailsCastRaises(docs);
    }
  }

  /** Casting the ten measures raises exactly when `CastRaises` says; otherwise it gives
      `CastRows`. */
  lemma CrimeCast(docs: seq<Document>)
    ensures var f := FromRecordsColumns(docs, CrimeKeys());
      Updated(f, CrimeMeasures(), CastOp, true).None? <==> CastRaises(docs)
    ensures var f := FromRecordsColumns(docs, CrimeKeys());
      Updated(f, CrimeMeasures(), CastOp, true).Some? ==> CastRows(docs, Updated(f, CrimeMeasures(), CastOp, true).value)
  {
    CastRaisesExactly(docs);
    CrimeKeysDistinct();
    var f := FromRecordsColumns(docs, CrimeKeys());
    hide CrimeKeys, FromRecordsColumns, Updated, ParseDecimal, StripCommas, CastOp, CellOf, MeasureCell, CastRaises;
    UpdatedSpec(f, CrimeMeasures(), CastOp, true);
    match Updated(f, CrimeMeasures(), CastOp, true)
    case None =>
    case Some(g) =>
      forall i | 0 <= i < f.n
        ensures g.cols["State"][i] == CellOf(docs[i], "State") && g.cols["Year"][i] == CellOf(docs[i], "Year")
      {
        assert Some(g.cols["State"][i]) == Some(CellOf(docs[i], "State"));
        assert Some(g.cols["Year"][i]) == Some(CellOf(docs[i], "Year"));
      }
      forall c, i | 0 <= c < 10 && 0 <= i < |docs|
        ensures CrimeMeasures()[c] in docs[i] ==> ParseDecimal(StripCommas(docs[i][CrimeMeasures()[c]])).Some?
        ensures g.cols[CrimeMeasures()[c]][i] == MeasureCell(docs[i], CrimeMeasures()[c])
      {
        assert CrimeMeasures()[c] in CrimeMeasures();
        assert Some(g.cols[CrimeMeasures()[c]][i]) == CastOp(f.cols[CrimeMeasures()[c]][i]);
        CastOfCell(docs[i], CrimeMeasures()[c]);
      }
  }

  /** The crime fetch raises exactly when `CrimeRaises` says: it does not coerce, and a
      column no document fills refuses `.str`. Otherwise its frame holds the documents as
      `CrimeRows` says. */
  lemma CrimeFrameSpec(docs: seq<Document>)
    ensures CrimeFrame(docs).None? <==> CrimeRaises(docs)
    ensures CrimeFrame(docs).Some? ==> CrimeRows(docs, CrimeFrame(docs).value)
  {
    CrimeCast(docs);
    var f := FromRecordsColumns(docs, CrimeKeys());
    hide CrimeKeys, CrimeMeasures, FromRecordsColumns, Updated, WithCrimeKey, CastRows, CrimeRows, CastRaises;
    match Updated(f, CrimeMeasures(), CastOp, true)
    case None =>
    case Some(g) =>
      WithCrimeKeySpec(docs, g);
  }

  /** Adding the key to a cast frame raises exactly when a non-empty collection has no
      `State` or no `Year`; otherwise it gives `CrimeRows`. */
  lemma WithCrimeKeySpec(docs: seq<Document>, g: Frame)
    requires CastRows(docs, g)
    ensures WithCrimeKey(g).None? <==> AllNaN(docs, "State") || AllNaN(docs, "Year")
    ensures WithCrimeKey(g).Some? ==> CrimeRows(docs, WithCrimeKey(g).value)
  {
    CastKeyColumns(docs, g);
    hide CastRows;
    StrAccessibleOf(docs, "State", g.cols["State"]);
    StrAccessibleOf(docs, "Year", g.cols["Year"]);
    WithCrimeKeyRows(docs, g);
  }

  /** When both key columns accept `.str`, the key is added and the frame holds what
      `CrimeRows` says. */
  lemma WithCrimeKeyRows(docs: seq<Document>, g: Frame)
    requires CastRows(docs, g)
    ensures StrAccessible(g.cols["State"]) && StrAccessible(g.cols["Year"]) ==>
      WithCrimeKey(g).Some? && CrimeRows(docs, WithCrimeKey(g).value)
  {
    CastKeyColumns(docs, g);
    hide CastRows;
    var a, b := StripColumn(g.cols["State"]), StripColumn(g.cols["Year"]);
    AddTextColumns(a, b);
    if StrAccessible(g.cols["State"]) && StrAccessible(g.cols["Year"]) {
      assert WithCrimeKey(g) == Some(SetColumn(g, "state_year", AddColumns(a, b).value));
      KeyedCrimeRows(docs, g, AddColumns(a, b).value);
    }
  }

  /** The `State` and `Year` columns of the cast frame. */
  lemma CastKeyColumns(docs: seq<Document>, g: Frame)
    requires CastRows(docs, g)
    ensures WellFormed(g) && g.n == |docs| && "State" in g.cols && "Year" in g.cols
    ensures |g.cols["State"]| == |docs| && |g.cols["Year"]| == |docs|
    ensures forall i :: 0 <= i < |docs| ==>
      g.cols["State"][i] == CellOf(docs[i], "State") && g.cols["Year"][i] == CellOf(docs[i], "Year")
  {
  }

  /** The cast frame with the trimmed key added holds what `CrimeRows` says. */
  lemma KeyedCrimeRows(docs: seq<Document>, g: Frame, key: seq<Cell>)
    requires CastRows(docs, g) && |key| == |docs|
    requires forall i :: 0 <= i < |docs| ==>
      key[i] == KeyCell(StripCell(g.cols["State"][i]), StripCell(g.cols["Year"][i]))
    ensures CrimeRows(docs, SetColumn(g, "state_year", key))
  {
    CrimeKeysDistinct();
    hide CrimeKeys, CrimeMeasures, SetColumn, AddColumns, AddCells, Strip, CellOf, MeasureCell, StripCell, KeyCell;
  }

  /** Two `State` values that differ only by surrounding spaces give the same key. */
  lemma CrimeKeyIgnoresPadding(p: string, state: string, q: string, year: string)
    requires AllSpace(p) && AllSpace(q)
    ensures KeyCell(StripCell(Text(p + state + q)), StripCell(Text(year)))
         == KeyCell(StripCell(Text(state)), StripCell(Text(year)))
  {
    StripPadded(p, state, q);
  }

  /** `fetch_crime_data`: copy the documents, build the frame on the twelve keys, cast
      the ten measures one by one, add the trimmed key. */
  method FetchCrimeData(found: seq<Document>) returns (crimeData: Option<Frame>)
    ensures crimeData == CrimeFrame(found)
  {
    CrimeKeysDistinct();
    hide CrimeKeys, FromRecordsColumns, Updated, AddColumns, StripColumn, SetColumn;
    var crimes: seq<Document> := [];
    for i := 0 to |found|
      invariant crimes == found[..i]
    {
      crimes := crimes + [found[i]];
    }
    assert crimes == found;
    var frame := FromRecordsColumns(crimes, CrimeKeys());
    // `crime_data.dropna()` is called for a result nobody keeps: the frame is unchanged.
    var cast := UpdateColumns(frame, CrimeKeys()[2..12], CastOp, true);
    if cast.None? {
      return None;
    }
    frame := cast.value;
    if !StrAccessible(frame.cols["State"]) || !StrAccessible(frame.cols["Year"]) {
      return None;
    }
    var key := AddColumns(StripColumn(frame.cols["State"]), StripColumn(frame.cols["Year"]));
    if key.None? {
      return None;
    }
    crimeData := Some(SetColumn(frame, "state_year", key.value));
  }

  // ---------------------------------------------------------------- education

  /** `financial_list`: the nine education measures, the same keys in the same order as
      the extract writes them. */
  function FinancialList(): (r: seq<string>)
    ensures |r| == 9
  {
    EducationExtract.Measures()
  }

  lemma FinancialListDistinct()
    ensures Distinct(FinancialList())
    ensures "STATE" !in FinancialList() && "YEAR" !in FinancialList() && "state_year" !in FinancialList()
  {
  }

  /** `edu_df['STATE'].map({...})` on one cell: the state name of a table key, NaN for
      anything else. */
  function MapState(c: Cell): (r: Cell)
    ensures r.Null? || r.Text?
  {
    match c
    case Text(s) => (match StateCodes.StateName(s) case Some(name) => Text(name) case None => Null)
    case _ => Null
  }

  function MapStateColumn(col: seq<Cell>): (r: seq<Cell>)
    ensures |r| == |col|
  {
    seq(|col|, i requires 0 <= i < |col| => MapState(col[i]))
  }

  /** The frame `fetch_education_data` returns; None where it raises `KeyError`. */
  function EducationFrame(docs: seq<Document>): Option<Frame> {
    var f := FromRecords(docs);
    if "STATE" !in f.cols then None
    else
      var g := SetColumn(f, "STATE", MapStateColumn(f.cols["STATE"]));
      match Updated(g, FinancialList(), CoerceOp, false)
      case None => None
      case Some(h) =>
        if "YEAR" !in h.cols then None
        else match AddColumns(h.cols["STATE"], h.cols["YEAR"])
          case None => None
          case Some(key) => Some(SetColumn(h, "state_year", key))
  }

  /** No document has one of `STATE`, `YEAR` or the nine measures. */
  ghost predicate EducationColumnMissing(docs: seq<Document>) {
    !HasColumn(docs, "STATE") || !HasColumn(docs, "YEAR")
      || exists c :: 0 <= c < 9 && !HasColumn(docs, FinancialList()[c])
  }

  /** What the education frame holds: one row per document; every key of the documents
      and `state_year` as columns; `STATE` the name of the document's code, NaN for a value
      outside '1'..'51'; each measure coerced; and `state_year` that name followed by
      `YEAR`, NaN when either is. */
  ghost predicate EducationRows(docs: seq<Document>, f: Frame) {
    && f.n == |docs| && WellFormed(f)
    && (forall k :: k in f.cols <==> k == "state_year" || HasColumn(docs, k))
    && "STATE" in f.cols && "state_year" in f.cols
    && (forall c :: 0 <= c < 9 ==> FinancialList()[c] in f.cols)
    && (forall c, i :: 0 <= c < 9 && 0 <= i < |docs| ==>
          f.cols[FinancialList()[c]][i] == Coerce(CellOf(docs[i], FinancialList()[c])))
    && (forall i :: 0 <= i < |docs| ==> f.cols["STATE"][i] == MapState(CellOf(docs[i], "STATE")))
    && (forall i :: 0 <= i < |docs| ==>
          f.cols["state_year"][i] == KeyCell(MapState(CellOf(docs[i], "STATE")), CellOf(docs[i], "YEAR")))
  }

  /** The education fetch raises exactly when a column it reads is absent from every
      document; otherwise its frame holds the documents as `EducationRows` says. */
  lemma EducationFrameSpec(docs: seq<Document>)
    ensures EducationFrame(docs).None? <==> EducationColumnMissing(docs)
    ensures EducationFrame(docs).Some? ==> EducationRows(docs, EducationFrame(docs).value)
  {
    FinancialListDistinct();
    var f := FromRecords(docs);
    hide FinancialList, FromRecords, Updated, SetColumn, AddColumns, AddCells, Coerce, CellOf, HasColumn, MapState;
    if "STATE" in f.cols {
      var g := SetColumn(f, "STATE", MapStateColumn(f.cols["STATE"]));
      UpdatedSpec(g, FinancialList(), CoerceOp, false);
      assert forall c :: 0 <= c < 9 ==> FinancialList()[c] != "STATE";
      assert !UpdateFails(g, FinancialList(), CoerceOp, false) <==> forall c :: 0 <= c < 9 ==> HasColumn(docs, FinancialList()[c]);
      match Updated(g, FinancialList(), CoerceOp, false)
      case None =>
      case Some(h) =>
        if "YEAR" in h.cols {
          var a, b := h.cols["STATE"], h.cols["YEAR"];
          forall i | 0 <= i < |a| ensures a[i] == MapState(CellOf(docs[i], "STATE")) && b[i] == CellOf(docs[i], "YEAR")
          {
            assert Some(a[i]) == Some(g.cols["STATE"][i]);
            assert Some(b[i]) == Some(g.cols["YEAR"][i]);
          }
          forall c, i | 0 <= c < 9 && 0 <= i < |docs|
            ensures h.cols[FinancialList()[c]][i] == Coerce(CellOf(docs[i], FinancialList()[c]))
          {
            assert FinancialList()[c] in FinancialList();
            assert Some(h.cols[FinancialList()[c]][i]) == CoerceOp(g.cols[FinancialList()[c]][i]);
          }
          AddTextColumns(a, b);
        }
    }
  }

  /** `fetch_education_data`: copy the documents, build the frame, map `STATE` in place,
      coerce the nine measures one by one, add the key. */
  method FetchEducationData(found: seq<Document>) returns (eduDf: Option<Frame>)
    ensures eduDf == EducationFrame(found)
  {
    var fetchList: seq<Document> := [];
    for i := 0 to |found|
      invariant fetchList == found[..i]
    {
      fetchList := fetchList + [found[i]];
    }
    assert fetchList == found;
    var frame := FromRecords(fetchList);
    if "STATE" !in frame.cols {
      return None;
    }
    frame := SetColumn(frame, "STATE", MapStateColumn(frame.cols["STATE"]));
    var coerced := UpdateColumns(frame, FinancialList(), CoerceOp, false);
    if coerced.None? {
      return None;
    }
    frame := coerced.value;
    // `edu_df.dropna()` is called for a result nobody keeps: the frame is unchanged.
    if "YEAR" !in frame.cols {
      return None;
    }
    var key := AddColumns(frame.cols["STATE"], frame.cols["YEAR"]);
    if key.None? {
      return None;
    }
    eduDf := Some(SetColumn(frame, "state_year", key.value));
  }

  // ---------------------------------------------------------------- uploads

  /** The key of a tuple: its first field, `state_year` in every upload. */
  function KeyOf(t: seq<Cell>): Cell {
    if |t| > 0 then t[0] else Null
  }

  /** `state_year` cells of the frame. */
  function KeyColumnSet(f: Frame): set<Cell>
    requires WellFormed(f) && "state_year" in f.cols
  {
    set i | 0 <= i < f.n :: f.cols["state_year"][i]
  }

  function StateYearColumns(): seq<string> {
    ["state_year", "state", "year"]
  }

  /** `upload_state_year_data_postgres`: the `(state_year, state, year)` tuples after
      dropping duplicate keys, keeping the last. */
  function StateYearTuples(f: Frame): Option<seq<seq<Cell>>>
    requires WellFormed(f)
  {
    match Tuples(f, StateYearColumns())
    case None => None
    case Some(rows) => Some(DedupLast(rows, KeyOf))
  }

  /** Deduplicating the selected tuples on their first field, `state_year`: their keys
      are pairwise distinct and are exactly the frame's `state_year` values; each kept tuple
      is the last with its key; kept tuples stay in row order; deduplicating again changes
      nothing. */
  lemma DedupTuplesSpec(f: Frame, cols: seq<string>)
    requires WellFormed(f) && |cols| > 0 && cols[0] == "state_year" && Tuples(f, cols).Some?
    ensures "state_year" in f.cols
    ensures var rows := Tuples(f, cols).value;
      var out := DedupLast(rows, KeyOf);
      && (forall i, j :: 0 <= i < j < |out| ==> KeyOf(out[i]) != KeyOf(out[j]))
      && KeySet(out, KeyOf) == KeyColumnSet(f)
      && (forall x :: x in out ==> IsLastOfKey(rows, KeyOf, x))
      && IsSubsequence(out, rows)
      && DedupLast(out, KeyOf) == out
  {
    assert cols[0] in f.cols;
    var rows := Tuples(f, cols).value;
    DedupUnique(rows, KeyOf);
    DedupKeySet(rows, KeyOf);
    DedupLastWins(rows, KeyOf);
    DedupOrder(rows, KeyOf);
    DedupIdempotent(rows, KeyOf);
    forall x | x in KeyColumnSet(f) ensures x in KeySet(rows, KeyOf) {
      var i :| 0 <= i < f.n && f.cols["state_year"][i] == x;
      assert KeyOf(rows[i]) == x;
    }
  }

  /** The dimension tuples are there exactly when the frame has the columns `state_year`,
      `state` and `year`; before deduplication there is one `(state_year, state, year)`
      per row, and deduplication keeps the last per key as `DedupTuplesSpec` says. */
  lemma StateYearTuplesSpec(f: Frame)
    requires WellFormed(f)
    ensures StateYearTuples(f).Some? <==> "state_year" in f.cols && "state" in f.cols && "year" in f.cols
    ensures StateYearTuples(f).Some? ==>
      var rows := Tuples(f, StateYearColumns()).value;
      && |rows| == f.n
      && (forall i :: 0 <= i < f.n ==> rows[i] == [f.cols["state_year"][i], f.cols["state"][i], f.cols["year"][i]])
      && StateYearTuples(f).value == DedupLast(rows, KeyOf)
  {
    var cols := StateYearColumns();
    assert cols[0] == "state_year" && cols[1] == "state" && cols[2] == "year";
    if Tuples(f, cols).Some? {
      var rows := Tuples(f, cols).value;
      forall i | 0 <= i < f.n ensures rows[i] == [f.cols["state_year"][i], f.cols["state"][i], f.cols["year"][i]] {
        assert |rows[i]| == 3;
      }
    }
  }

  function CrimeColumns(): (r: seq<string>)
    ensures |r| == 11
  {
    ["state_year", "Population_Coverage", "Violent_crime_total", "Murder_and_nonnegligent_manslaughter",
     "Legacy_rape1", "Robbery", "Aggravated_assault", "Property_crime_total", "Burglary", "Larceny-theft",
     "Motor_vehicle_theft"]
  }

  /** `upload_crime_data_postgres`: one tuple per row, with no dedup. */
  function CrimeTuples(f: Frame): Option<seq<seq<Cell>>>
    requires WellFormed(f)
  {
    Tuples(f, CrimeColumns())
  }

  /** A crime frame's tuples always exist: one per document, in document order, the
      `state_year` key first and then the ten cast measures in the order they were cast. */
  lemma CrimeTuplesSpec(docs: seq<Document>, f: Frame)
    requires CrimeRows(docs, f)
    ensures var r := CrimeTuples(f);
      && r.Some? && |r.value| == |docs|
      && (forall i :: 0 <= i < |docs| ==> |r.value[i]| == 11 && r.value[i][0] == f.cols["state_year"][i])
      && (forall c, i :: 0 <= c < 10 && 0 <= i < |docs| ==> r.value[i][c + 1] == MeasureCell(docs[i], CrimeMeasures()[c]))
  {
    hide CrimeKeys, CrimeMeasures, CrimeColumns, Tuples, MeasureCell, CellOf, KeyCell, StripCell;
    CrimeColumnsLayout();
    assert forall c :: 0 <= c < 11 ==> CrimeColumns()[c] in f.cols by {
      forall c | 0 <= c < 11 ensures CrimeColumns()[c] in f.cols {
        if c > 0 { assert CrimeColumns()[c] == CrimeMeasures()[c - 1]; }
      }
    }
  }

  /** The uploaded crime columns are the key followed by the ten measures. */
  lemma CrimeColumnsLayout()
    ensures CrimeColumns()[0] == "state_year"
    ensures forall c :: 0 <= c < 10 ==> CrimeColumns()[c + 1] == CrimeMeasures()[c]
  {
    assert CrimeColumns() == ["state_year"] + CrimeMeasures();
  }

  function UnemploymentColumns(): seq<string> {
    ["state_year", "month", "rate"]
  }

  /** `upload_unemployment_data_postgres`: one `(state_year, month, rate)` tuple per row. */
  function UnemploymentTuples(f: Frame): Option<seq<seq<Cell>>>
    requires WellFormed(f)
  {
    Tuples(f, UnemploymentColumns())
  }

  /** From an unemployment frame the tuples exist exactly when some document has a
      `month`; then there is one per document, in document order, holding its key, month
      and coerced rate. The `state_year` dimension tuples always exist. */
  lemma UnemploymentTuplesSpec(docs: seq<Document>, f: Frame)
    requires UnemploymentRows(docs, f) && HasColumn(docs, "state") && HasColumn(docs, "year")
    ensures var r := UnemploymentTuples(f);
      && (r.Some? <==> HasColumn(docs, "month"))
      && (r.Some? ==> |r.value| == |docs| && forall i :: 0 <= i < |docs| ==>
           r.value[i] == [KeyCell(CellOf(docs[i], "state"), CellOf(docs[i], "year")),
                          CellOf(docs[i], "month"), Coerce(CellOf(docs[i], "rate"))])
      && StateYearTuples(f).Some?
  {
    hide Tuples, CellOf, Coerce, KeyCell, HasColumn;
    StateYearTuplesSpec(f);
    var cols := UnemploymentColumns();
    assert cols[0] == "state_year" && cols[1] == "month" && cols[2] == "rate";
    var r := UnemploymentTuples(f);
    if r.Some? {
      forall i | 0 <= i < |docs| ensures r.value[i] == [KeyCell(CellOf(docs[i], "state"), CellOf(docs[i], "year")),
                                                       CellOf(docs[i], "month"), Coerce(CellOf(docs[i], "rate"))]
      {
        assert |r.value[i]| == 3;
      }
    }
  }

  function EducationColumns(): (r: seq<string>)
    ensures |r| == 10
  {
    ["state_year", "TOTALREV", "TFEDREV", "TSTREV", "TLOCREV", "TOTALEXP", "TCURINST", "TCURSSVC",
     "TCUROTH", "TCAPOUT"]
  }

  /** `upload_education_data_postgres`: the `(state_year, nine measures)` tuples after
      dropping duplicate keys, keeping the last. */
  function EducationTuples(f: Frame): Option<seq<seq<Cell>>>
    requires WellFormed(f)
  {
    match Tuples(f, EducationColumns())
    case None => None
    case Some(rows) => Some(DedupLast(rows, KeyOf))
  }

  /** An education frame's tuples always exist; before deduplication there is one per
      document, the `state_year` key and then the nine coerced measures, and deduplication
      keeps the last per key as `DedupTuplesSpec` says. */
  lemma EducationTuplesSpec(docs: seq<Document>, f: Frame)
    requires EducationRows(docs, f)
    ensures && EducationTuples(f).Some? && Tuples(f, EducationColumns()).Some?
      && var rows := Tuples(f, EducationColumns()).value;
      && EducationTuples(f).value == DedupLast(rows, KeyOf)
      && |rows| == |docs|
      && (forall i :: 0 <= i < |docs| ==> |rows[i]| == 10 && rows[i][0] == f.cols["state_year"][i])
      && (forall c, i :: 0 <= c < 9 && 0 <= i < |docs| ==>
            rows[i][c + 1] == Coerce(CellOf(docs[i], FinancialList()[c])))
  {
    assert EducationColumns() == ["state_year"] + FinancialList();
    hide FinancialList, EducationColumns, Tuples, CellOf, Coerce, KeyCell, MapState;
    assert forall c :: 0 <= c < 9 ==> EducationColumns()[c + 1] == FinancialList()[c];
    assert forall c :: 0 <= c < 10 ==> EducationColumns()[c] in f.cols;
  }
}
