/**
 * What the plugin renders as the contents of a table file and of the
 * summary information file (TMsiFile::LoadCsvFile, TMsiFile::LoadSummaryFile),
 * first as specification functions and then as the loops that write it.
 *
 * A table renders as a byte order mark, a header line of quoted column
 * names and one line per fetched record. The loop keeps one string variable
 * for all cells, so a string cell whose fetch fails repeats what the
 * variable held; a column that is neither integer nor string writes no
 * field and makes the whole rendering fail with ERROR_NOT_SUPPORTED.
 */
module CsvContent {
  import opened WideString
  import opened Wrappers
  import opened MsiApi
  import opened MsiColumns
  import opened MsiRecords
  import opened CsvWriter

  // ---------------------------------------------------------------------------
  // Lines of quoted fields

  /** A value between double quotes, in UTF-8. */
  function Quoted(v: WString): seq<Byte>
  {
    [QUOTE] + Utf8(v) + [QUOTE]
  }

  /** Reference definition of a line's fields: the quoted values, separated by commas. */
  function JoinQuoted(vs: seq<WString>): seq<Byte>
  {
    if vs == [] then [] else Quoted(vs[0]) + CommaQuoted(vs[1..])
  }

  function CommaQuoted(vs: seq<WString>): seq<Byte>
  {
    if vs == [] then [] else [COMMA] + Quoted(vs[0]) + CommaQuoted(vs[1..])
  }

  /** The fields as AppendFieldString writes them with indices 0, 1, 2, ... */
  function Fields(vs: seq<WString>): seq<Byte>
  {
    if vs == [] then [] else Fields(vs[..|vs| - 1]) + FieldBytes(vs[|vs| - 1], |vs| - 1)
  }

  lemma {:induction false} CommaQuotedSnoc(vs: seq<WString>, v: WString)
    ensures CommaQuoted(vs + [v]) == CommaQuoted(vs) + [COMMA] + Quoted(v)
    decreases |vs|
  {
    if vs == [] {
      assert (vs + [v])[1..] == [];
    } else {
      assert (vs + [v])[1..] == vs[1..] + [v];
      CommaQuotedSnoc(vs[1..], v);
    }
  }

  lemma JoinQuotedSnoc(vs: seq<WString>, v: WString)
    requires vs != []
    ensures JoinQuoted(vs + [v]) == JoinQuoted(vs) + [COMMA] + Quoted(v)
  {
    assert (vs + [v])[0] == vs[0];
    assert (vs + [v])[1..] == vs[1..] + [v];
    CommaQuotedSnoc(vs[1..], v);
  }

  lemma FieldsSnoc(vs: seq<WString>, v: WString)
    requires vs != []
    ensures Fields(vs + [v]) == Fields(vs) + [COMMA] + Quoted(v)
  {
    assert (vs + [v])[..|vs|] == vs;
  }

  /** Writing fields with increasing indices gives exactly the comma-joined quoted values. */
  lemma {:induction false} FieldsAreJoined(vs: seq<WString>)
    ensures Fields(vs) == JoinQuoted(vs)
    decreases |vs|
  {
    if vs == [] {
    } else if |vs| == 1 {
      assert vs[..0] == [];
    } else {
      var init := vs[..|vs| - 1];
      var v := vs[|vs| - 1];
      assert vs == init + [v];
      FieldsAreJoined(init);
      FieldsJoinedSnoc(init, v);
    }
  }

  lemma FieldsJoinedSnoc(vs: seq<WString>, v: WString)
    requires vs != [] && Fields(vs) == JoinQuoted(vs)
    ensures Fields(vs + [v]) == JoinQuoted(vs + [v])
  {
    FieldsSnoc(vs, v);
    JoinQuotedSnoc(vs, v);
  }

  // ---------------------------------------------------------------------------
  // Table files

  /** The rendering state: bytes so far, the reused string variable and the error code. */
  datatype Render = Render(bytes: seq<Byte>, value: WString, err: nat)

  /** The names of the columns, in order. */
  function Names(cols: seq<Column>): (r: seq<WString>)
    ensures |r| == |cols|
    ensures forall i | 0 <= i < |cols| :: r[i] == cols[i].name
  {
    seq(|cols|, i requires 0 <= i < |cols| => cols[i].name)
  }

  /** The byte order mark and the header line. */
  function CsvStart(cols: seq<Column>): Render
  {
    Render(Utf8Marker() + Fields(Names(cols)) + NewLine(), [], ERROR_SUCCESS)
  }

  /** True for the kinds a cell can be written for. */
  predicate Printable(k: ColumnKind)
  {
    k == Integer || k == String
  }

  /** One cell: column i of the record, by the column's kind. */
  function Cell(col: Column, rec: Record, i: nat, st: Render): Render
  {
    match col.kind
    case Integer =>
      var v := RecordGetInteger(rec, i).1;
      Render(st.bytes + FieldBytes(v, i), v, st.err)
    case String =>
      var v := RecordGetString(rec, i, st.value, true).1;
      Render(st.bytes + FieldBytes(v, i), v, st.err)
    case _ => st.(err := ERROR_NOT_SUPPORTED)
  }

  /** The first n cells of a record. */
  function Cells(cols: seq<Column>, rec: Record, n: nat, st: Render): Render
    requires n <= |cols|
  {
    if n == 0 then st else Cell(cols[n - 1], rec, n - 1, Cells(cols, rec, n - 1, st))
  }

  /** A record's line: all its cells and CR LF. */
  function Row(cols: seq<Column>, rec: Record, st: Render): Render
  {
    var s := Cells(cols, rec, |cols|, st);
    s.(bytes := s.bytes + NewLine())
  }

  /** The lines of the records, in fetch order. */
  function Rows(cols: seq<Column>, rows: seq<Record>, st: Render): Render
  {
    if rows == [] then st else Row(cols, rows[|rows| - 1], Rows(cols, rows[..|rows| - 1], st))
  }

  /** The whole table file and its error code. */
  function Csv(cols: seq<Column>, view: View): Render
  {
    Rows(cols, Fetched(view), CsvStart(cols))
  }

  lemma {:induction false} CellsGrow(cols: seq<Column>, rec: Record, n: nat, m: nat, st: Render)
    requires n <= m <= |cols|
    ensures |st.bytes| <= |Cells(cols, rec, n, st).bytes| <= |Cells(cols, rec, m, st).bytes|
    ensures Cells(cols, rec, m, st).bytes[..|st.bytes|] == st.bytes
    decreases m
  {
    if m > 0 {
      if n < m {
        CellsGrow(cols, rec, n, m - 1, st);
      } else {
        CellsGrow(cols, rec, n - 1, m - 1, st);
      }
    }
  }

  lemma {:induction false} RowsGrow(cols: seq<Column>, rows: seq<Record>, k: nat, st: Render)
    requires k <= |rows|
    ensures |st.bytes| <= |Rows(cols, rows[..k], st).bytes| <= |Rows(cols, rows, st).bytes|
    ensures Rows(cols, rows, st).bytes[..|st.bytes|] == st.bytes
    decreases |rows|
  {
    if rows == [] {
      assert rows[..k] == rows;
    } else if k == |rows| {
      assert rows[..k] == rows;
      RowsGrow(cols, rows[..|rows| - 1], |rows| - 1, st);
      CellsGrow(cols, rows[|rows| - 1], |cols|, |cols|, Rows(cols, rows[..|rows| - 1], st));
    } else {
      var init := rows[..|rows| - 1];
      assert init[..k] == rows[..k];
      RowsGrow(cols, init, k, st);
      CellsGrow(cols, rows[|rows| - 1], |cols|, |cols|, Rows(cols, init, st));
    }
  }

  /** Every table file starts with the byte order mark and the header line of quoted column names. */
  lemma CsvStartsWithHeader(cols: seq<Column>, view: View)
    ensures var start := Utf8Marker() + JoinQuoted(Names(cols)) + NewLine();
      |start| <= |Csv(cols, view).bytes| && Csv(cols, view).bytes[..|start|] == start
  {
    FieldsAreJoined(Names(cols));
    RowsGrow(cols, Fetched(view), 0, CsvStart(cols));
  }

  /** The error code after n cells: ERROR_NOT_SUPPORTED exactly when one of them is not printable. */
  lemma {:induction false} CellsError(cols: seq<Column>, rec: Record, n: nat, st: Render)
    requires n <= |cols|
    ensures Cells(cols, rec, n, st).err ==
      if exists i | 0 <= i < n :: !Printable(cols[i].kind) then ERROR_NOT_SUPPORTED else st.err
    decreases n
  {
    if n > 0 {
      CellsError(cols, rec, n - 1, st);
      if !Printable(cols[n - 1].kind) {
      } else if exists i | 0 <= i < n :: !Printable(cols[i].kind) {
        var i :| 0 <= i < n && !Printable(cols[i].kind);
        assert i < n - 1;
      }
    }
  }

  lemma {:induction false} RowsError(cols: seq<Column>, rows: seq<Record>, st: Render)
    ensures Rows(cols, rows, st).err ==
      if |rows| > 0 && exists i | 0 <= i < |cols| :: !Printable(cols[i].kind) then ERROR_NOT_SUPPORTED else st.err
    decreases |rows|
  {
    if rows != [] {
      var init := rows[..|rows| - 1];
      RowsError(cols, init, st);
      CellsError(cols, rows[|rows| - 1], |cols|, Rows(cols, init, st));
    }
  }

  /**
   * A table file fails with ERROR_NOT_SUPPORTED exactly when at least one
   * record is fetched and some column is neither integer nor string; it
   * succeeds otherwise.
   */
  lemma CsvError(cols: seq<Column>, view: View)
    ensures Csv(cols, view).err == ERROR_NOT_SUPPORTED <==>
      |Fetched(view)| > 0 && exists i | 0 <= i < |cols| :: !Printable(cols[i].kind)
    ensures Csv(cols, view).err == ERROR_SUCCESS <==> Csv(cols, view).err != ERROR_NOT_SUPPORTED
  {
    RowsError(cols, Fetched(view), CsvStart(cols));
  }

  /** The text of a cell that needs nothing from the cells before it. */
  function CellText(col: Column, rec: Record, i: nat): WString
  {
    if col.kind == Integer then RecordGetInteger(rec, i).1
    else if FieldOf(rec, i + 1).text.Some? then FieldOf(rec, i + 1).text.value else []
  }

  /** The texts of a record's cells. */
  function CellTexts(cols: seq<Column>, rec: Record): (r: seq<WString>)
    ensures |r| == |cols|
  {
    seq(|cols|, i requires 0 <= i < |cols| => CellText(cols[i], rec, i))
  }

  /** A record every column of which prints on its own: integers, and strings that can be read. */
  predicate Plain(cols: seq<Column>, rec: Record)
  {
    forall i | 0 <= i < |cols| :: Printable(cols[i].kind) &&
      (cols[i].kind == String ==> FieldOf(rec, i + 1).text.Some?)
  }

  /** Reference definition of the record lines: each record's cell texts joined, then CR LF. */
  function Lines(cols: seq<Column>, rows: seq<Record>): seq<Byte>
  {
    if rows == [] then []
    else Lines(cols, rows[..|rows| - 1]) + JoinQuoted(CellTexts(cols, rows[|rows| - 1])) + NewLine()
  }

  lemma CellPlain(col: Column, rec: Record, i: nat, st: Render)
    requires Printable(col.kind) && (col.kind == String ==> FieldOf(rec, i + 1).text.Some?)
    ensures Cell(col, rec, i, st).bytes == st.bytes + FieldBytes(CellText(col, rec, i), i)
  {
  }

  lemma {:induction false} CellsPlain(cols: seq<Column>, rec: Record, n: nat, st: Render)
    requires n <= |cols| && Plain(cols, rec)
    ensures Cells(cols, rec, n, st).bytes == st.bytes + Fields(CellTexts(cols, rec)[..n])
    decreases n
  {
    if n > 0 {
      CellsPlain(cols, rec, n - 1, st);
      assert Printable(cols[n - 1].kind) && (cols[n - 1].kind == String ==> FieldOf(rec, n).text.Some?);
      CellStep(cols, rec, n, st);
    }
  }

  /** One more plain cell adds one more field. */
  lemma CellStep(cols: seq<Column>, rec: Record, n: nat, st: Render)
    requires 0 < n <= |cols| && Printable(cols[n - 1].kind) && (cols[n - 1].kind == String ==> FieldOf(rec, n).text.Some?)
    requires Cells(cols, rec, n - 1, st).bytes == st.bytes + Fields(CellTexts(cols, rec)[..n - 1])
    ensures Cells(cols, rec, n, st).bytes == st.bytes + Fields(CellTexts(cols, rec)[..n])
  {
    var texts, prev := CellTexts(cols, rec), Cells(cols, rec, n - 1, st);
    CellPlain(cols[n - 1], rec, n - 1, prev);
    FieldsStep(texts, n);
    Associative(st.bytes, Fields(texts[..n - 1]), FieldBytes(texts[n - 1], n - 1));
  }

  lemma FieldsStep(vs: seq<WString>, n: nat)
    requires 0 < n <= |vs|
    ensures Fields(vs[..n]) == Fields(vs[..n - 1]) + FieldBytes(vs[n - 1], n - 1)
  {
    assert vs[..n][..n - 1] == vs[..n - 1];
  }

  lemma RowPlain(cols: seq<Column>, rec: Record, st: Render)
    requires Plain(cols, rec)
    ensures Row(cols, rec, st).bytes == st.bytes + JoinQuoted(CellTexts(cols, rec)) + NewLine()
  {
    CellsPlain(cols, rec, |cols|, st);
    var texts := CellTexts(cols, rec);
    assert texts[..|cols|] == texts;
    FieldsAreJoined(texts);
  }

  lemma {:induction false} RowsPlain(cols: seq<Column>, rows: seq<Record>, st: Render)
    requires forall k | 0 <= k < |rows| :: Plain(cols, rows[k])
    ensures Rows(cols, rows, st).bytes == st.bytes + Lines(cols, rows)
    decreases |rows|
  {
    if rows != [] {
      var init, last := rows[..|rows| - 1], rows[|rows| - 1];
      assert Rows(cols, init, st).bytes == st.bytes + Lines(cols, init) by {
        assert forall k | 0 <= k < |init| :: init[k] == rows[k];
        RowsPlain(cols, init, st);
      }
      assert rows == init + [last];
      RowsPlainStep(cols, init, last, st);
    }
  }

  lemma RowsPlainStep(cols: seq<Column>, init: seq<Record>, last: Record, st: Render)
    requires Plain(cols, last)
    requires Rows(cols, init, st).bytes == st.bytes + Lines(cols, init)
    ensures Rows(cols, init + [last], st).bytes == st.bytes + Lines(cols, init + [last])
  {
    var line := JoinQuoted(CellTexts(cols, last)) + NewLine();
    RowsSnocPlain(cols, init, last, st);
    LinesSnoc(cols, init, last);
    Associative(st.bytes, Lines(cols, init), line);
  }

  lemma RowsSnocPlain(cols: seq<Column>, init: seq<Record>, last: Record, st: Render)
    requires Plain(cols, last)
    ensures Rows(cols, init + [last], st).bytes == Rows(cols, init, st).bytes + (JoinQuoted(CellTexts(cols, last)) + NewLine())
  {
    RowsSnoc(cols, init, last, st);
    RowPlain(cols, last, Rows(cols, init, st));
    Associative(Rows(cols, init, st).bytes, JoinQuoted(CellTexts(cols, last)), NewLine());
  }

  lemma LinesSnoc(cols: seq<Column>, init: seq<Record>, last: Record)
    ensures Lines(cols, init + [last]) == Lines(cols, init) + (JoinQuoted(CellTexts(cols, last)) + NewLine())
  {
    assert (init + [last])[..|init|] == init;
    Associative(Lines(cols, init), JoinQuoted(CellTexts(cols, last)), NewLine());
  }

  lemma RowsSnoc(cols: seq<Column>, init: seq<Record>, last: Record, st: Render)
    ensures Rows(cols, init + [last], st) == Row(cols, last, Rows(cols, init, st))
  {
    assert (init + [last])[..|init|] == init;
  }

  lemma Associative(a: seq<Byte>, b: seq<Byte>, c: seq<Byte>)
    ensures a + b + c == a + (b + c)
  {
  }

  /**
   * When every record prints on its own, the table file is exactly the
   * byte order mark, the header line and one line of joined cell texts per
   * fetched record, and it succeeds.
   */
  lemma CsvPlain(cols: seq<Column>, view: View)
    requires forall k | 0 <= k < |Fetched(view)| :: Plain(cols, Fetched(view)[k])
    ensures Csv(cols, view).bytes ==
      Utf8Marker() + JoinQuoted(Names(cols)) + NewLine() + Lines(cols, Fetched(view))
    ensures Csv(cols, view).err == ERROR_SUCCESS
  {
    FieldsAreJoined(Names(cols));
    RowsPlain(cols, Fetched(view), CsvStart(cols));
    RowsError(cols, Fetched(view), CsvStart(cols));
    if |Fetched(view)| > 0 {
      assert Plain(cols, Fetched(view)[0]);
    }
  }

  /**
   * A string cell whose text cannot be read writes the reused variable
   * again: after a readable string cell, the same text a second time.
   */
  lemma FailedStringRepeats(cols: seq<Column>, rec: Record, st: Render)
    requires |cols| == 2 && cols[0].kind == String && cols[1].kind == String
    requires FieldOf(rec, 1).text.Some? && FieldOf(rec, 2).text.None?
    ensures var t := FieldOf(rec, 1).text.value;
      Row(cols, rec, st).bytes == st.bytes + FieldBytes(t, 0) + FieldBytes(t, 1) + NewLine()
  {
    var t := FieldOf(rec, 1).text.value;
    assert Cells(cols, rec, 0, st) == st;
    var c1 := Cells(cols, rec, 1, st);
    assert c1 == Cell(cols[0], rec, 0, st);
    assert c1.value == t && c1.bytes == st.bytes + FieldBytes(t, 0);
    var c2 := Cells(cols, rec, 2, st);
    assert c2 == Cell(cols[1], rec, 1, c1);
    assert c2.bytes == c1.bytes + FieldBytes(t, 1);
  }

  // ---------------------------------------------------------------------------
  // The table loops

  /**
   * The record loop of LoadCsvFile, for one record: cells 0..n-1 by column
   * kind, then CR LF. In a dry run (null buffer) it only counts.
   */
  method AppendRow(buf: array?<Byte>, ghost original: seq<Byte>, ptr: nat, cols: seq<Column>, rec: Record, st: Render)
    returns (next: nat, st': Render)
    requires ptr == |st.bytes|
    requires buf != null ==> |Row(cols, rec, st).bytes| <= buf.Length && Wrote(original, buf[..], 0, st.bytes)
    modifies buf
    ensures st' == Row(cols, rec, st)
    ensures next == |st'.bytes|
    ensures buf != null ==> Wrote(original, buf[..], 0, st'.bytes)
  {
    st' := st;
    next := ptr;
    for i := 0 to |cols|
      invariant st' == Cells(cols, rec, i, st)
      invariant next == |st'.bytes|
      invariant buf != null ==> Wrote(original, buf[..], 0, st'.bytes)
    {
      CellsGrow(cols, rec, i + 1, |cols|, st);
      match cols[i].kind {
        case Integer =>
          var ok, v := RecordGetInteger(rec, i).0, RecordGetInteger(rec, i).1;
          next := AppendFieldString(buf, original, st'.bytes, next, v, i);
          st' := Render(st'.bytes + FieldBytes(v, i), v, st'.err);
        case String =>
          var ok, v := RecordGetString(rec, i, st'.value, true).0, RecordGetString(rec, i, st'.value, true).1;
          next := AppendFieldString(buf, original, st'.bytes, next, v, i);
          st' := Render(st'.bytes + FieldBytes(v, i), v, st'.err);
        case _ =>
          st' := st'.(err := ERROR_NOT_SUPPORTED);
      }
    }
    next := AppendNewLine(buf, original, st'.bytes, next);
    st' := st'.(bytes := st'.bytes + NewLine());
  }

  /**
   * LoadCsvFile's rendering: the byte order mark, the header line, and when
   * the view executes, one line per fetched record. The dry run counts the
   * bytes; a fill pass with a buffer at least that large writes exactly
   * those bytes at its start and returns the same count.
   */
  method RenderCsv(buf: array?<Byte>, cols: seq<Column>, view: View) returns (err: nat, size: nat)
    requires buf != null ==> |Csv(cols, view).bytes| <= buf.Length
    modifies buf
    ensures err == Csv(cols, view).err
    ensures size == |Csv(cols, view).bytes|
    ensures buf != null ==> Wrote(old(buf[..]), buf[..], 0, Csv(cols, view).bytes)
  {
    ghost var original := if buf == null then [] else buf[..];
    var rows := Fetched(view);
    RowsGrow(cols, rows, 0, CsvStart(cols));
    var ptr := AppendHeader(buf, cols);
    var st := CsvStart(cols);
    var k := 0;
    assert rows[..0] == [];
    while k < |rows|
      invariant 0 <= k <= |rows|
      invariant st == Rows(cols, rows[..k], CsvStart(cols))
      invariant ptr == |st.bytes|
      invariant buf != null ==> Wrote(original, buf[..], 0, st.bytes)
    {
      assert rows[..k + 1] == rows[..k] + [rows[k]];
      RowsSnoc(cols, rows[..k], rows[k], CsvStart(cols));
      RowsGrow(cols, rows, k + 1, CsvStart(cols));
      ptr, st := AppendRow(buf, original, ptr, cols, rows[k], st);
      k := k + 1;
    }
    assert rows[..k] == rows;
    err, size := st.err, ptr;
  }

  /** The byte order mark and the header line of LoadCsvFile, one quoted column name after the other. */
  method AppendHeader(buf: array?<Byte>, cols: seq<Column>) returns (ptr: nat)
    requires buf != null ==> |CsvStart(cols).bytes| <= buf.Length
    modifies buf
    ensures ptr == |CsvStart(cols).bytes|
    ensures buf != null ==> Wrote(old(buf[..]), buf[..], 0, CsvStart(cols).bytes)
  {
    ghost var original := if buf == null then [] else buf[..];
    ptr := AppendUtf8Marker(buf);
    var names := Names(cols);
    assert names[..0] == [];
    for i := 0 to |cols|
      invariant ptr == |Utf8Marker() + Fields(names[..i])|
      invariant buf != null ==> Wrote(original, buf[..], 0, Utf8Marker() + Fields(names[..i]))
    {
      HeaderStep(cols, i);
      ptr := AppendFieldString(buf, original, Utf8Marker() + Fields(names[..i]), ptr, cols[i].name, i);
    }
    assert names[..|cols|] == names;
    ptr := AppendNewLine(buf, original, Utf8Marker() + Fields(names), ptr);
  }

  lemma HeaderStep(cols: seq<Column>, i: nat)
    requires i < |cols|
    ensures var names := Names(cols);
      Utf8Marker() + Fields(names[..i + 1]) == (Utf8Marker() + Fields(names[..i])) + FieldBytes(cols[i].name, i)
    ensures |Utf8Marker() + Fields(Names(cols)[..i + 1])| <= |CsvStart(cols).bytes|
  {
    var names := Names(cols);
    assert names[..i + 1][..i] == names[..i];
    assert Fields(names[..i + 1]) == Fields(names[..i]) + FieldBytes(cols[i].name, i);
    FieldsPrefix(names, i + 1);
  }

  lemma {:induction false} FieldsPrefix(vs: seq<WString>, n: nat)
    requires n <= |vs|
    ensures |Fields(vs[..n])| <= |Fields(vs)|
    decreases |vs|
  {
    if n < |vs| {
      var init := vs[..|vs| - 1];
      assert init[..n] == vs[..n];
      FieldsPrefix(init, n);
    } else {
      assert vs[..n] == vs;
    }
  }

  // ---------------------------------------------------------------------------
  // The summary information file

  /** The number of property ids the summary lists, 0 to 19. */
  const PROPERTY_IDS: nat := 20

  /**
   * The names of the property ids. Ids 0, 10 and 17 have no name in the
   * plugin's table; they are given the empty name here.
   */
  const PropertyNames: seq<string> := [
    "", "Codepage", "Title", "Subject", "Author", "Keywords", "Comments", "Template",
    "Last Saved By", "Revision Number", "", "Last Printed", "Create Time / Date",
    "Last Save Time / Date", "Page Count", "Word Count", "Character Count", "",
    "Creating Application", "Security"]

  /** The name of property id i: entry i of the table, empty past its end. */
  function PropertyName(i: nat): WString
  {
    NameAt(PropertyNames, i)
  }

  /** Entry i of a name table as UTF-16 text, looked up one entry at a time. */
  function NameAt(table: seq<string>, i: nat): WString
    decreases |table|
  {
    if table == [] then [] else if i == 0 then Wide(table[0]) else NameAt(table[1..], i - 1)
  }

  lemma {:induction false} NameAtIndex(table: seq<string>, i: nat)
    ensures NameAt(table, i) == if i < |table| then Wide(table[i]) else []
    decreases |table|
  {
    if table != [] && i > 0 {
      NameAtIndex(table[1..], i - 1);
    }
  }

  /** Below 20 a property id has its table entry as name, from 20 on the empty name. */
  lemma PropertyNameOf(i: nat)
    ensures PropertyName(i) == if i < PROPERTY_IDS then Wide(PropertyNames[i]) else []
  {
    NameAtIndex(PropertyNames, i);
  }

  /**
   * StringCchPrintfFT: "N/A" for a file time whose high part is zero;
   * otherwise the locale's date and a space (when the date format
   * succeeds) followed by the locale's time.
   */
  function FileTimeText(ft: FileTime, loc: Locale): WString
  {
    if ft.high != 0 then
      (match loc.date(ft) case Some(d) => d + [' ' as int] case None => []) + loc.time(ft)
    else Wide("N/A")
  }

  /** The value text of a property, or None when it gets no line. */
  function PropertyValue(p: Property, loc: Locale): Option<WString>
  {
    if !p.ok || p.vtype == VT_EMPTY then None
    else if p.vtype == VT_I2 || p.vtype == VT_I4 then Some(SignedText(p.iValue))
    else if p.vtype == VT_FILETIME then Some(FileTimeText(p.ft, loc))
    else if p.vtype == VT_LPSTR then Some(p.text)
    else None
  }

  /** The line of property id i: name and value, or nothing. */
  function SummaryLine(s: SummaryInfo, i: nat): seq<Byte>
  {
    match PropertyValue(PropertyOf(s, i), s.locale)
    case None => []
    case Some(v) => FieldBytes(PropertyName(i), 0) + FieldBytes(v, 1) + NewLine()
  }

  /** The lines of property ids 0..n-1. */
  function SummaryLines(s: SummaryInfo, n: nat): seq<Byte>
  {
    if n == 0 then [] else SummaryLines(s, n - 1) + SummaryLine(s, n - 1)
  }

  /** The byte order mark and the "Name","Value" header line. */
  function SummaryHeader(): seq<Byte>
  {
    Utf8Marker() + FieldBytes(Wide("Name"), 0) + FieldBytes(Wide("Value"), 1) + NewLine()
  }

  /** The summary information file: the header, then the property lines if the count query succeeds. */
  function Summary(s: SummaryInfo): seq<Byte>
  {
    SummaryHeader() + (if s.countOk then SummaryLines(s, PROPERTY_IDS) else [])
  }

  /**
   * A property gets a line exactly when its fetch succeeds with type I2, I4,
   * FILETIME or LPSTR; the line is the quoted name and value joined by a
   * comma. Integers are written in signed decimal and read back to their
   * value, a FILETIME with a zero high part reads "N/A", a string is
   * written as fetched.
   */
  lemma SummaryLineShape(s: SummaryInfo, i: nat)
    ensures var p := PropertyOf(s, i);
      SummaryLine(s, i) != [] <==>
        p.ok && (p.vtype == VT_I2 || p.vtype == VT_I4 || p.vtype == VT_FILETIME || p.vtype == VT_LPSTR)
    ensures var p := PropertyOf(s, i);
      PropertyValue(p, s.locale).Some? ==>
        SummaryLine(s, i) == JoinQuoted([PropertyName(i), PropertyValue(p, s.locale).value]) + NewLine()
    ensures var p := PropertyOf(s, i);
      p.ok && (p.vtype == VT_I2 || p.vtype == VT_I4) ==>
        ParseSigned(PropertyValue(p, s.locale).value) == Some(p.iValue as int)
    ensures var p := PropertyOf(s, i);
      p.ok && p.vtype == VT_FILETIME && p.ft.high == 0 ==> PropertyValue(p, s.locale) == Some(Wide("N/A"))
    ensures var p := PropertyOf(s, i);
      p.ok && p.vtype == VT_LPSTR ==> PropertyValue(p, s.locale) == Some(p.text)
  {
    var p := PropertyOf(s, i);
    SignedTextRoundTrip(p.iValue);
    match PropertyValue(p, s.locale) {
      case None =>
      case Some(v) =>
        var pair := [PropertyName(i), v];
        FieldsAreJoined(pair);
        assert pair[..1] == [PropertyName(i)];
        assert [PropertyName(i)][..0] == [];
        assert Fields([PropertyName(i)]) == FieldBytes(PropertyName(i), 0);
        assert Fields(pair) == FieldBytes(PropertyName(i), 0) + FieldBytes(v, 1);
    }
  }

  /** When the property count cannot be read the file is the header alone. */
  lemma SummaryWithoutCount(s: SummaryInfo)
    requires !s.countOk
    ensures Summary(s) == Utf8Marker() + JoinQuoted([Wide("Name"), Wide("Value")]) + NewLine()
  {
    var pair := [Wide("Name"), Wide("Value")];
    FieldsAreJoined(pair);
    assert pair[..1] == [pair[0]];
    assert [pair[0]][..0] == pair[..0];
    assert Fields([pair[0]]) == FieldBytes(pair[0], 0);
    assert Fields(pair) == FieldBytes(pair[0], 0) + FieldBytes(pair[1], 1);
  }

  lemma {:induction false} SummaryLinesGrow(s: SummaryInfo, n: nat, m: nat)
    requires n <= m
    ensures |SummaryLines(s, n)| <= |SummaryLines(s, m)|
    decreases m
  {
    if n < m {
      SummaryLinesGrow(s, n, m - 1);
      assert |SummaryLines(s, m)| == |SummaryLines(s, m - 1)| + |SummaryLine(s, m - 1)|;
    }
  }

  /** One "name","value" line appended after the bytes `done` already written. */
  method AppendPair(buf: array?<Byte>, ghost original: seq<Byte>, ghost done: seq<Byte>, ptr: nat, name: WString, value: WString)
    returns (next: nat)
    requires ptr == |done|
    requires buf != null ==> |done + FieldBytes(name, 0) + FieldBytes(value, 1) + NewLine()| <= buf.Length
    requires buf != null ==> Wrote(original, buf[..], 0, done)
    modifies buf
    ensures next == |done + FieldBytes(name, 0) + FieldBytes(value, 1) + NewLine()|
    ensures buf != null ==> Wrote(original, buf[..], 0, done + FieldBytes(name, 0) + FieldBytes(value, 1) + NewLine())
  {
    ghost var f1, f2 := FieldBytes(name, 0), FieldBytes(value, 1);
    next := AppendFieldString(buf, original, done, ptr, name, 0);
    next := AppendFieldString(buf, original, done + f1, next, value, 1);
    next := AppendNewLine(buf, original, done + f1 + f2, next);
  }

  /**
   * LoadSummaryFile's rendering: the header, then when the count query
   * succeeds one line per property id 0..19 that has a value. Like the table
   * loop, the dry run counts what a fill pass writes.
   */
  method RenderSummary(buf: array?<Byte>, s: SummaryInfo) returns (err: nat, size: nat)
    requires buf != null ==> |Summary(s)| <= buf.Length
    modifies buf
    ensures err == ERROR_SUCCESS
    ensures size == |Summary(s)|
    ensures buf != null ==> Wrote(old(buf[..]), buf[..], 0, Summary(s))
  {
    ghost var original := if buf == null then [] else buf[..];
    var ptr := AppendSummaryHeader(buf);
    if s.countOk {
      ptr := AppendSummaryLines(buf, original, ptr, s);
    } else {
      assert Summary(s) == SummaryHeader();
    }
    err, size := ERROR_SUCCESS, ptr;
  }

  /** The property loop of LoadSummaryFile, after the header. */
  method AppendSummaryLines(buf: array?<Byte>, ghost original: seq<Byte>, ptr: nat, s: SummaryInfo) returns (next: nat)
    requires ptr == |SummaryHeader()|
    requires buf != null ==> |SummaryHeader() + SummaryLines(s, PROPERTY_IDS)| <= buf.Length
    requires buf != null ==> Wrote(original, buf[..], 0, SummaryHeader())
    modifies buf
    ensures next == |SummaryHeader() + SummaryLines(s, PROPERTY_IDS)|
    ensures buf != null ==> Wrote(original, buf[..], 0, SummaryHeader() + SummaryLines(s, PROPERTY_IDS))
  {
    assert SummaryHeader() + SummaryLines(s, 0) == SummaryHeader();
    next := ptr;
    for i := 0 to PROPERTY_IDS
      invariant next == |SummaryHeader() + SummaryLines(s, i)|
      invariant buf != null ==> Wrote(original, buf[..], 0, SummaryHeader() + SummaryLines(s, i))
    {
      SummaryLinesGrow(s, i + 1, PROPERTY_IDS);
      SummaryLinesSnoc(SummaryHeader(), s, i);
      next := AppendSummaryLine(buf, original, SummaryHeader() + SummaryLines(s, i), next, s, i);
    }
  }

  /** The byte order mark and the "Name","Value" line of LoadSummaryFile. */
  method AppendSummaryHeader(buf: array?<Byte>) returns (ptr: nat)
    requires buf != null ==> |SummaryHeader()| <= buf.Length
    modifies buf
    ensures ptr == |SummaryHeader()|
    ensures buf != null ==> Wrote(old(buf[..]), buf[..], 0, SummaryHeader())
  {
    ghost var original := if buf == null then [] else buf[..];
    ptr := AppendUtf8Marker(buf);
    ptr := AppendPair(buf, original, Utf8Marker(), ptr, Wide("Name"), Wide("Value"));
  }

  /** One property id of LoadSummaryFile's loop, after the bytes `done` written so far. */
  method AppendSummaryLine(buf: array?<Byte>, ghost original: seq<Byte>, ghost done: seq<Byte>, ptr: nat, s: SummaryInfo, i: nat)
    returns (next: nat)
    requires ptr == |done|
    requires buf != null ==> |done + SummaryLine(s, i)| <= buf.Length && Wrote(original, buf[..], 0, done)
    modifies buf
    ensures next == |done + SummaryLine(s, i)|
    ensures buf != null ==> Wrote(original, buf[..], 0, done + SummaryLine(s, i))
  {
    next := ptr;
    SummaryLineOf(s, i, done);
    var value := PropertyValue(PropertyOf(s, i), s.locale);
    if value.Some? {
      next := AppendPair(buf, original, done, next, PropertyName(i), value.value);
    }
  }

  lemma SummaryLinesSnoc(head: seq<Byte>, s: SummaryInfo, i: nat)
    ensures head + SummaryLines(s, i + 1) == head + SummaryLines(s, i) + SummaryLine(s, i)
  {
    var a, b := SummaryLines(s, i), SummaryLine(s, i);
    assert SummaryLines(s, i + 1) == a + b;
    assert head + (a + b) == head + a + b;
  }

  lemma SummaryLineOf(s: SummaryInfo, i: nat, done: seq<Byte>)
    ensures var value := PropertyValue(PropertyOf(s, i), s.locale);
      done + SummaryLine(s, i) ==
        if value.Some? then done + FieldBytes(PropertyName(i), 0) + FieldBytes(value.value, 1) + NewLine() else done
  {
  }
}
