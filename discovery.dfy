/**
 * What the lazy discovery of TMsiDatabase (TMsiDatabase.cpp) produces, as
 * values: the list of table names, the tables that are kept, and the files
 * listed for the kept tables, in order. The session classes are proved to
 * build exactly these.
 */
module Discovery {
  import opened WideString
  import opened Wrappers
  import opened MsiApi
  import opened MsiColumns
  import opened MsiRecords
  import opened MsiSchema
  import opened FileNames

  const VALIDATION: WString := Wide("_Validation")
  const STREAMS: WString := Wide("_Streams")
  const CSV_EXTENSION: WString := Wide(".csv")
  const SUMMARY_NAME: WString := Wide("_SummaryInformation")

  // ---------------------------------------------------------------------------
  // Case-insensitive lookup (FindStringInList, IsFilePresent)

  /** The first entry equal to s ignoring case, if any. */
  function FirstMatch(names: seq<WString>, s: WString): (r: Option<nat>)
    ensures r.Some? ==> r.value < |names| && SameIgnoringCase(names[r.value], s)
    ensures r.Some? ==> forall j | 0 <= j < r.value :: !SameIgnoringCase(names[j], s)
    ensures r.None? <==> forall j | 0 <= j < |names| :: !SameIgnoringCase(names[j], s)
    decreases |names|
  {
    if names == [] then None
    else if SameIgnoringCase(names[0], s) then Some(0)
    else match FirstMatch(names[1..], s)
      case None => None
      case Some(i) => Some(i + 1)
  }

  /** No two entries are equal ignoring case. */
  predicate NoCaseDuplicates(names: seq<WString>)
  {
    forall i, j | 0 <= i < j < |names| :: !SameIgnoringCase(names[i], names[j])
  }

  // ---------------------------------------------------------------------------
  // LoadTableNames

  /** `if(!FindStringInList(list, n)) list.push_back(n)`. */
  function AddName(list: seq<WString>, n: WString): seq<WString>
  {
    if FirstMatch(list, n).Some? then list else list + [n]
  }

  /** The table name of a _Validation row: its first field, when it can be read. */
  function RowName(rec: Record): Option<WString>
  {
    var got := RecordGetString(rec, 0, [], true);
    if got.0 then Some(got.1) else None
  }

  /** The names of the rows, in order, that can be read. */
  function RowNames(rows: seq<Record>): seq<WString>
    decreases |rows|
  {
    if rows == [] then []
    else
      RowNames(rows[..|rows| - 1]) +
      (match RowName(rows[|rows| - 1]) case None => [] case Some(n) => [n])
  }

  /** The list after the fetch loop over the _Validation rows. */
  function AddRows(list: seq<WString>, rows: seq<Record>): seq<WString>
    decreases |rows|
  {
    if rows == [] then list
    else
      var l := AddRows(list, rows[..|rows| - 1]);
      match RowName(rows[|rows| - 1])
      case None => l
      case Some(n) => AddName(l, n)
  }

  /**
   * The list LoadTableNames leaves: the names of the _Validation rows that
   * are new ignoring case, then "_Streams" when that table opens and is new.
   */
  function TableNamesAfter(list: seq<WString>, db: Database): seq<WString>
  {
    var l := if VALIDATION in db.views then AddRows(list, Fetched(db.views[VALIDATION])) else list;
    if STREAMS in db.views then AddName(l, STREAMS) else l
  }

  /** The result of LoadTableNames. */
  function TableNamesCode(names: seq<WString>): nat
  {
    if |names| > 0 then ERROR_SUCCESS else ERROR_NO_MORE_ITEMS
  }

  /**
   * Adding a name keeps the list as a prefix, makes the name present, adds
   * it exactly when it was absent, and keeps the list free of duplicates.
   */
  lemma AddNameProperties(list: seq<WString>, n: WString)
    ensures list <= AddName(list, n)
    ensures FirstMatch(AddName(list, n), n).Some?
    ensures FirstMatch(list, n).None? <==> AddName(list, n) == list + [n]
    ensures FirstMatch(list, n).Some? <==> AddName(list, n) == list
    ensures NoCaseDuplicates(list) ==> NoCaseDuplicates(AddName(list, n))
  {
    var r := AddName(list, n);
    if FirstMatch(list, n).None? {
      assert r[|list|] == n;
      assert SameIgnoringCase(r[|list|], n);
    }
  }

  /**
   * The fetch loop keeps the list as a prefix and free of duplicates, makes
   * every readable row name present, and adds nothing but row names.
   */
  lemma {:induction false} AddRowsProperties(list: seq<WString>, rows: seq<Record>)
    ensures list <= AddRows(list, rows)
    ensures NoCaseDuplicates(list) ==> NoCaseDuplicates(AddRows(list, rows))
    ensures forall n | n in RowNames(rows) :: FirstMatch(AddRows(list, rows), n).Some?
    ensures forall k | |list| <= k < |AddRows(list, rows)| :: AddRows(list, rows)[k] in RowNames(rows)
    decreases |rows|
  {
    if rows != [] {
      var init := rows[..|rows| - 1];
      AddRowsProperties(list, init);
      var l := AddRows(list, init);
      match RowName(rows[|rows| - 1])
      case None =>
        assert RowNames(rows) == RowNames(init);
      case Some(n) =>
        AddNameProperties(l, n);
        assert RowNames(rows) == RowNames(init) + [n];
        forall m | m in RowNames(rows)
          ensures FirstMatch(AddName(l, n), m).Some?
        {
          if m != n {
            assert m in RowNames(init);
            var i := FirstMatch(l, m).value;
            assert AddName(l, n)[i] == l[i];
          }
        }
    }
  }

  /**
   * LoadTableNames on a list without duplicates leaves one without
   * duplicates that starts with the old list, holds every readable
   * _Validation row name, holds "_Streams" exactly when it was there or that
   * table opens, and ends with "_Streams" when it was added.
   */
  lemma TableNamesProperties(list: seq<WString>, db: Database)
    requires NoCaseDuplicates(list)
    ensures NoCaseDuplicates(TableNamesAfter(list, db))
    ensures list <= TableNamesAfter(list, db)
    ensures VALIDATION in db.views ==>
      forall n | n in RowNames(Fetched(db.views[VALIDATION])) :: FirstMatch(TableNamesAfter(list, db), n).Some?
    ensures STREAMS in db.views ==> FirstMatch(TableNamesAfter(list, db), STREAMS).Some?
    ensures VALIDATION !in db.views && STREAMS !in db.views ==> TableNamesAfter(list, db) == list
    ensures var l := if VALIDATION in db.views then AddRows(list, Fetched(db.views[VALIDATION])) else list;
      STREAMS in db.views && FirstMatch(l, STREAMS).None? ==> TableNamesAfter(list, db) == l + [STREAMS]
    ensures TableNamesCode(TableNamesAfter(list, db)) == ERROR_SUCCESS <==> |TableNamesAfter(list, db)| > 0
  {
    var l := if VALIDATION in db.views then AddRows(list, Fetched(db.views[VALIDATION])) else list;
    if VALIDATION in db.views {
      AddRowsProperties(list, Fetched(db.views[VALIDATION]));
    }
    if STREAMS in db.views {
      AddNameProperties(l, STREAMS);
      if VALIDATION in db.views {
        forall n | n in RowNames(Fetched(db.views[VALIDATION]))
          ensures FirstMatch(AddName(l, STREAMS), n).Some?
        {
          var i := FirstMatch(l, n).value;
          assert AddName(l, STREAMS)[i] == l[i];
        }
      }
    }
  }

  // ---------------------------------------------------------------------------
  // LoadTables

  /** The allocations that can fail: a table object, a stream file of a table row, a CSV file of a table. */
  datatype AllocSite = TableObject(index: nat) | StreamFile(table: WString, row: nat) | CsvFile(table: WString)

  /**
   * What LoadTables does from name i on: the indices of the names whose view
   * opens, whose table object is allocated and whose columns load, and the
   * result code, ERROR_NOT_ENOUGH_MEMORY when it stops at a failed allocation.
   */
  function TablesFrom(names: seq<WString>, db: Database, alloc: AllocSite -> bool, i: nat): (r: (seq<nat>, nat))
    decreases |names| - i
  {
    if i >= |names| then ([], ERROR_SUCCESS)
    else if names[i] !in db.views then TablesFrom(names, db, alloc, i + 1)
    else if !alloc(TableObject(i)) then ([], ERROR_NOT_ENOUGH_MEMORY)
    else
      var rest := TablesFrom(names, db, alloc, i + 1);
      (if ColumnsCode(db.views[names[i]]) == ERROR_SUCCESS then [i] + rest.0 else rest.0, rest.1)
  }

  /**
   * The kept tables are names that open and load, in list order; the result
   * is ERROR_NOT_ENOUGH_MEMORY exactly when some name that opens cannot get
   * its table object, and then nothing after the first such name is kept.
   */
  lemma {:induction false} TablesFromProperties(names: seq<WString>, db: Database, alloc: AllocSite -> bool, i: nat)
    ensures var r := TablesFrom(names, db, alloc, i);
      (forall k | 0 <= k < |r.0| :: i <= r.0[k] < |names| && names[r.0[k]] in db.views &&
         alloc(TableObject(r.0[k])) && ColumnsCode(db.views[names[r.0[k]]]) == ERROR_SUCCESS) &&
      (forall k, m | 0 <= k < m < |r.0| :: r.0[k] < r.0[m])
    ensures TablesFrom(names, db, alloc, i).1 == ERROR_SUCCESS || TablesFrom(names, db, alloc, i).1 == ERROR_NOT_ENOUGH_MEMORY
    ensures TablesFrom(names, db, alloc, i).1 == ERROR_NOT_ENOUGH_MEMORY <==>
      exists j | i <= j < |names| :: names[j] in db.views && !alloc(TableObject(j))
    ensures TablesFrom(names, db, alloc, i).1 == ERROR_SUCCESS ==>
      forall j | i <= j < |names| ::
        j in TablesFrom(names, db, alloc, i).0 <==> names[j] in db.views && ColumnsCode(db.views[names[j]]) == ERROR_SUCCESS
    decreases |names| - i
  {
    if i < |names| {
      TablesFromProperties(names, db, alloc, i + 1);
    }
  }

  // ---------------------------------------------------------------------------
  // LoadFiles

  /** MSI_FT: the kind of a file. */
  datatype FileType = NoFile | SummaryFile | BinaryFile | TableFile

  /** m_hMsiHandle: no handle, the record of a stream file, or a summary information handle. */
  datatype Handle = NoHandle | RecordHandle(record: Record) | SummaryHandle(info: SummaryInfo)

  /** The record behind a handle, an empty record for any other handle. */
  function RecordOf(h: Handle): Record
  {
    if h.RecordHandle? then h.record else Record([])
  }

  /** The summary information behind a handle; any other handle gives no properties. */
  function SummaryOf(h: Handle): SummaryInfo
  {
    if h.SummaryHandle? then h.info else SummaryInfo(false, [], Locale(_ => None, _ => []))
  }

  /** What LoadFiles reads of a loaded table. */
  datatype TableInfo = TableInfo(name: WString, view: View, columns: seq<Column>, streamColumn: nat, nameColumn: nat)

  /** A table with both a stream column and a name column lists one file per row; every other table one CSV file. */
  predicate IsStreamTable(t: TableInfo)
  {
    t.streamColumn != INVALID_SIZE_T && t.nameColumn != INVALID_SIZE_T
  }

  /** A file LoadFiles lists: the index of its table, its type and its handle. */
  datatype Entry = Entry(table: nat, fileType: FileType, handle: Handle)

  /** The item name of a stream row: the text of its name column, when it can be read. */
  function ItemName(t: TableInfo, rec: Record): Option<WString>
  {
    var got := RecordGetString(rec, t.nameColumn, [], true);
    if got.0 then Some(got.1) else None
  }

  /**
   * The files of the rows from r on of a stream table: one per row whose
   * file object is allocated and whose name can be read.
   */
  function RowEntries(t: TableInfo, ti: nat, rows: seq<Record>, alloc: AllocSite -> bool, r: nat): seq<Entry>
    decreases |rows| - r
  {
    if r >= |rows| then [] else RowEntry(t, ti, rows, alloc, r) + RowEntries(t, ti, rows, alloc, r + 1)
  }

  /** The file of row r, if its file object is allocated and its name can be read. */
  function RowEntry(t: TableInfo, ti: nat, rows: seq<Record>, alloc: AllocSite -> bool, r: nat): seq<Entry>
    requires r < |rows|
  {
    if alloc(StreamFile(t.name, r)) && ItemName(t, rows[r]).Some? then [Entry(ti, BinaryFile, RecordHandle(rows[r]))] else []
  }

  /**
   * The code of the SetBinaryFile calls of the first n rows: that of the
   * last row whose file object is allocated, ERROR_NOT_SUPPORTED for a row
   * without a name, and ERROR_SUCCESS when no such row exists.
   */
  function BindCode(t: TableInfo, rows: seq<Record>, alloc: AllocSite -> bool, n: nat): nat
    requires n <= |rows|
    decreases n
  {
    if n == 0 then ERROR_SUCCESS
    else if alloc(StreamFile(t.name, n - 1)) then (if ItemName(t, rows[n - 1]).Some? then ERROR_SUCCESS else ERROR_NOT_SUPPORTED)
    else BindCode(t, rows, alloc, n - 1)
  }

  /** What LoadMultipleStreamFiles returns: the execute code, or once the view executes the code of its rows. */
  function StreamFilesCode(t: TableInfo, alloc: AllocSite -> bool): nat
  {
    if t.view.executeCode != ERROR_SUCCESS then t.view.executeCode else BindCode(t, t.view.rows, alloc, |t.view.rows|)
  }

  /**
   * The code of the rows is ERROR_SUCCESS or ERROR_NOT_SUPPORTED, the latter
   * exactly when the last row whose file object is allocated has no name.
   */
  lemma {:induction false} BindCodeProperties(t: TableInfo, rows: seq<Record>, alloc: AllocSite -> bool, n: nat)
    requires n <= |rows|
    ensures BindCode(t, rows, alloc, n) == ERROR_SUCCESS || BindCode(t, rows, alloc, n) == ERROR_NOT_SUPPORTED
    ensures BindCode(t, rows, alloc, n) == ERROR_NOT_SUPPORTED <==>
      exists j | 0 <= j < n :: alloc(StreamFile(t.name, j)) && ItemName(t, rows[j]).None? &&
        forall m | j < m < n :: !alloc(StreamFile(t.name, m))
    decreases n
  {
    if n > 0 && !alloc(StreamFile(t.name, n - 1)) {
      BindCodeProperties(t, rows, alloc, n - 1);
    }
  }

  /** Taking row r off the rows still to come moves its entry to the ones done. */
  lemma RowEntriesStep(t: TableInfo, ti: nat, rows: seq<Record>, alloc: AllocSite -> bool, r: nat, es: seq<Entry>, done: seq<Entry>)
    requires r < |rows| && done + RowEntries(t, ti, rows, alloc, r) == RowEntries(t, ti, rows, alloc, 0)
    ensures done + RowEntry(t, ti, rows, alloc, r) + RowEntries(t, ti, rows, alloc, r + 1) == RowEntries(t, ti, rows, alloc, 0)
    ensures es + done + RowEntry(t, ti, rows, alloc, r) == es + (done + RowEntry(t, ti, rows, alloc, r))
  {
    var e := RowEntry(t, ti, rows, alloc, r);
    assert done + e + RowEntries(t, ti, rows, alloc, r + 1) == done + (e + RowEntries(t, ti, rows, alloc, r + 1));
  }

  /** The files of one table. */
  function TableEntries(t: TableInfo, ti: nat, alloc: AllocSite -> bool): seq<Entry>
  {
    if IsStreamTable(t) then RowEntries(t, ti, Fetched(t.view), alloc, 0)
    else if alloc(CsvFile(t.name)) then [Entry(ti, TableFile, NoHandle)]
    else []
  }

  /** The files of the tables from i on, table by table in list order. */
  function EntriesFrom(ts: seq<TableInfo>, alloc: AllocSite -> bool, i: nat): seq<Entry>
    decreases |ts| - i
  {
    if i >= |ts| then [] else TableEntries(ts[i], i, alloc) + EntriesFrom(ts, alloc, i + 1)
  }

  /** Taking table i off the tables still to come moves its entries to the ones done. */
  lemma EntriesFromStep(ts: seq<TableInfo>, alloc: AllocSite -> bool, i: nat, done: seq<Entry>)
    requires i < |ts| && done + EntriesFrom(ts, alloc, i) == EntriesFrom(ts, alloc, 0)
    ensures done + TableEntries(ts[i], i, alloc) + EntriesFrom(ts, alloc, i + 1) == EntriesFrom(ts, alloc, 0)
  {
    var e := TableEntries(ts[i], i, alloc);
    assert done + e + EntriesFrom(ts, alloc, i + 1) == done + (e + EntriesFrom(ts, alloc, i + 1));
  }

  /**
   * The files of a stream table's rows are binary files holding those rows,
   * in fetch order, one for every row that is allocated and named.
   */
  lemma {:induction false} RowEntriesProperties(t: TableInfo, ti: nat, rows: seq<Record>, alloc: AllocSite -> bool, r: nat)
    requires r <= |rows|
    ensures |RowEntries(t, ti, rows, alloc, r)| <= |rows| - r
    ensures forall k | 0 <= k < |RowEntries(t, ti, rows, alloc, r)| ::
      RowEntries(t, ti, rows, alloc, r)[k].table == ti && RowEntries(t, ti, rows, alloc, r)[k].fileType == BinaryFile &&
      RowEntries(t, ti, rows, alloc, r)[k].handle.RecordHandle?
    ensures (forall j | r <= j < |rows| :: alloc(StreamFile(t.name, j)) && ItemName(t, rows[j]).Some?) ==>
      RowEntries(t, ti, rows, alloc, r) == seq(|rows| - r, k requires 0 <= k < |rows| - r => Entry(ti, BinaryFile, RecordHandle(rows[r + k])))
    decreases |rows| - r
  {
    if r < |rows| {
      RowEntriesProperties(t, ti, rows, alloc, r + 1);
    }
  }

  /**
   * A table that is not a stream table lists exactly one CSV file when its
   * file object is allocated; a stream table lists only binary files.
   */
  lemma TableEntriesProperties(t: TableInfo, ti: nat, alloc: AllocSite -> bool)
    ensures !IsStreamTable(t) && alloc(CsvFile(t.name)) ==> TableEntries(t, ti, alloc) == [Entry(ti, TableFile, NoHandle)]
    ensures !IsStreamTable(t) && !alloc(CsvFile(t.name)) ==> TableEntries(t, ti, alloc) == []
    ensures IsStreamTable(t) ==> |TableEntries(t, ti, alloc)| <= |Fetched(t.view)|
    ensures IsStreamTable(t) ==> forall k | 0 <= k < |TableEntries(t, ti, alloc)| ::
      TableEntries(t, ti, alloc)[k].fileType == BinaryFile
    ensures forall k | 0 <= k < |TableEntries(t, ti, alloc)| :: TableEntries(t, ti, alloc)[k].table == ti
  {
    if IsStreamTable(t) {
      RowEntriesProperties(t, ti, Fetched(t.view), alloc, 0);
    }
  }

  /** The files are listed table by table: their table indices never decrease. */
  lemma {:induction false} EntriesInTableOrder(ts: seq<TableInfo>, alloc: AllocSite -> bool, i: nat)
    ensures forall k | 0 <= k < |EntriesFrom(ts, alloc, i)| :: i <= EntriesFrom(ts, alloc, i)[k].table < |ts|
    ensures forall k, m | 0 <= k < m < |EntriesFrom(ts, alloc, i)| ::
      EntriesFrom(ts, alloc, i)[k].table <= EntriesFrom(ts, alloc, i)[m].table
    decreases |ts| - i
  {
    if i < |ts| {
      EntriesInTableOrder(ts, alloc, i + 1);
      TableEntriesProperties(ts[i], i, alloc);
    }
  }

  // ---------------------------------------------------------------------------
  // SetUniqueFileName

  /** Candidate k of SetUniqueFileName: the first name for 0, retry k after that. */
  function Candidate(folder: WString, base: WString, ext: WString, k: nat): WString
  {
    if k == 0 then FirstCandidate(folder, base, ext) else RetryCandidate(base, k, ext)
  }

  /**
   * When no file is named like any of them, a name with a folder is
   * "folder\base.ext", and the second try is "base_001.ext" whatever the folder.
   */
  lemma CandidateExamples()
    ensures Candidate(Wide("Binary"), Wide("logo"), Wide(".bmp"), 0) == Wide("Binary\\logo.bmp")
    ensures Candidate(Wide("Binary"), Wide("logo"), Wide(".bmp"), 1) == Wide("logo_001.bmp")
  {
    assert Digits(1) == ['1' as int];
  }

  // ---------------------------------------------------------------------------
  // The names of the listed files

  /**
   * Candidate k is the one SetUniqueFileName takes against the names listed
   * before: no listed name equals it ignoring case, and every earlier
   * candidate is taken.
   */
  ghost predicate FirstFree(names: seq<WString>, folder: WString, base: WString, ext: WString, k: nat)
  {
    FirstMatch(names, Candidate(folder, base, ext, k)).None? &&
    forall j | 0 <= j < k :: FirstMatch(names, Candidate(folder, base, ext, j)).Some?
  }

  /** The name SetUniqueFileName gives against the names listed before: the first free candidate. */
  ghost predicate FreeName(names: seq<WString>, folder: WString, base: WString, ext: WString, name: WString)
  {
    exists k: nat :: name == Candidate(folder, base, ext, k) && FirstFree(names, folder, base, ext, k)
  }

  /** There is only one first free candidate. */
  lemma FreeNameUnique(names: seq<WString>, folder: WString, base: WString, ext: WString, a: WString, b: WString)
    requires FreeName(names, folder, base, ext, a) && FreeName(names, folder, base, ext, b)
    ensures a == b
  {
    var i: nat :| a == Candidate(folder, base, ext, i) && FirstFree(names, folder, base, ext, i);
    var j: nat :| b == Candidate(folder, base, ext, j) && FirstFree(names, folder, base, ext, j);
  }

  /**
   * The alias FindReferencedFile gives a stream row of the table: only in
   * "_Streams", only for an item name with a dot whose "<B>\<rest>" is
   * already listed, and then "<table>\<rest>".
   */
  function Alias(names: seq<WString>, table: WString, item: WString): Option<WString>
  {
    var dot := FirstDot(item);
    if table == STREAMS && dot.Some? && FirstMatch(names, ReferencedName(item, dot.value)).Some?
    then Some(AliasName(table, item, dot.value)) else None
  }

  /**
   * The name a file gets from its table, type and handle against the names
   * listed before it: a CSV file "<table>.csv" or its first free retry; a
   * binary file its alias, or else the first free name of its file-safe
   * item name, split into base and extension, inside the table's folder.
   */
  ghost predicate ChosenName(names: seq<WString>, t: TableInfo, fileType: FileType, handle: Handle, name: WString)
  {
    match fileType
    case TableFile => FreeName(names, [], t.name, CSV_EXTENSION, name)
    case BinaryFile =>
      (match ItemName(t, RecordOf(handle))
       case None => false
       case Some(item) =>
         (match Alias(names, t.name, item)
          case Some(a) => name == a
          case None =>
            var parts := SplitExtension(FileSafe(item));
            FreeName(names, t.name, parts.0, parts.1, name)))
    case _ => false
  }

  /** Each listed name is the one its entry gets against the names listed before it. */
  ghost predicate NamesFit(ts: seq<TableInfo>, es: seq<Entry>, names: seq<WString>)
  {
    |names| == |es| && forall k | 0 <= k < |es| :: NameFitsAt(ts, es, names, k)
  }

  /** Name k is the one entry k gets against the names before it. */
  ghost predicate NameFitsAt(ts: seq<TableInfo>, es: seq<Entry>, names: seq<WString>, k: nat)
  {
    k < |es| && k < |names| && es[k].table < |ts| &&
    ChosenName(names[..k], ts[es[k].table], es[k].fileType, es[k].handle, names[k])
  }

  /** The names so far fit the entries so far, and the next file takes the name its entry gets. */
  lemma NamesFitAppend(ts: seq<TableInfo>, es: seq<Entry>, names: seq<WString>, e: Entry, name: WString)
    requires NamesFit(ts, es, names) && e.table < |ts| && ChosenName(names, ts[e.table], e.fileType, e.handle, name)
    ensures NamesFit(ts, es + [e], names + [name])
  {
    var names' := names + [name];
    forall k | 0 <= k < |es| + 1
      ensures NameFitsAt(ts, es + [e], names', k)
    {
      assert names'[..k] == names[..k];
      if k < |es| {
        assert NameFitsAt(ts, es, names, k);
      }
    }
  }

  /** Against the same names, an entry gets only one name. */
  lemma ChosenNameUnique(names: seq<WString>, t: TableInfo, fileType: FileType, handle: Handle, a: WString, b: WString)
    requires ChosenName(names, t, fileType, handle, a) && ChosenName(names, t, fileType, handle, b)
    ensures a == b
  {
    match fileType
    case TableFile =>
      FreeNameUnique(names, [], t.name, CSV_EXTENSION, a, b);
    case BinaryFile =>
      var item := ItemName(t, RecordOf(handle)).value;
      if Alias(names, t.name, item).None? {
        var parts := SplitExtension(FileSafe(item));
        FreeNameUnique(names, t.name, parts.0, parts.1, a, b);
      }
  }

  /** The entries determine the names: two name lists that fit the same entries are equal. */
  lemma NamesFitUnique(ts: seq<TableInfo>, es: seq<Entry>, a: seq<WString>, b: seq<WString>)
    requires NamesFit(ts, es, a) && NamesFit(ts, es, b)
    ensures a == b
  {
    NamesFitPrefix(ts, es, a, b, |es|);
    assert a == a[..|es|] && b == b[..|es|];
  }

  lemma {:induction false} NamesFitPrefix(ts: seq<TableInfo>, es: seq<Entry>, a: seq<WString>, b: seq<WString>, n: nat)
    requires NamesFit(ts, es, a) && NamesFit(ts, es, b) && n <= |es|
    ensures a[..n] == b[..n]
    decreases n
  {
    if n > 0 {
      NamesFitPrefix(ts, es, a, b, n - 1);
      var k := n - 1;
      NamesFitStep(ts, es, a, b, k);
      assert a[..n] == a[..k] + [a[k]];
      assert b[..n] == b[..k] + [b[k]];
    }
  }

  /** Name lists that fit the same entries and agree before k agree at k. */
  lemma NamesFitStep(ts: seq<TableInfo>, es: seq<Entry>, a: seq<WString>, b: seq<WString>, k: nat)
    requires NamesFit(ts, es, a) && NamesFit(ts, es, b) && k < |es| && a[..k] == b[..k]
    ensures a[k] == b[k]
  {
    assert NameFitsAt(ts, es, a, k) && NameFitsAt(ts, es, b, k);
    var t, e := ts[es[k].table], es[k];
    assert ChosenName(a[..k], t, e.fileType, e.handle, a[k]);
    assert ChosenName(b[..k], t, e.fileType, e.handle, b[k]);
    ChosenNameUnique(a[..k], t, e.fileType, e.handle, a[k], b[k]);
  }

  /** Table Property, listed alone, gives "Property.csv". */
  lemma CsvNameExample(v: View, cs: seq<Column>)
    ensures var t := TableInfo(Wide("Property"), v, cs, INVALID_SIZE_T, INVALID_SIZE_T);
      !IsStreamTable(t) && NamesFit([t], [Entry(0, TableFile, NoHandle)], [Wide("Property.csv")])
  {
    var t := TableInfo(Wide("Property"), v, cs, INVALID_SIZE_T, INVALID_SIZE_T);
    var names := [Wide("Property.csv")];
    assert Candidate([], t.name, CSV_EXTENSION, 0) == Wide("Property.csv");
    assert FirstFree([], [], t.name, CSV_EXTENSION, 0);
    assert names[..0] == [];
    assert NameFitsAt([t], [Entry(0, TableFile, NoHandle)], names, 0);
  }

  /**
   * In "_Streams", a row "B.x.y" whose "B\x.y" is listed takes the alias
   * "_Streams\x.y"; in any other table it takes no alias.
   */
  lemma AliasExample(table: WString)
    ensures Alias([Wide("B\\x.y")], STREAMS, Wide("B.x.y")) == Some(Wide("_Streams\\x.y"))
    ensures table != STREAMS ==> Alias([Wide("B\\x.y")], table, Wide("B.x.y")) == None
  {
    ReferenceExample();
    assert SameIgnoringCase(Wide("B\\x.y"), Wide("B\\x.y"));
  }
}
