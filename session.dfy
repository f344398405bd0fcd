/**
 * The objects of an open archive (TMsiTable.cpp, TMsiFile.cpp,
 * TMsiDatabase.cpp): reference-counted tables and files, and the database
 * that discovers them once, lists them one at a time and pins the last
 * one listed. The three classes refer to each other, so they share one
 * module.
 *
 * Destroying an object is modelled by what its destructor releases; the
 * memory itself is not. The linked lists of the source are sequences.
 */
module MsiSession {
  import opened WideString
  import opened Wrappers
  import opened MsiApi
  import opened MsiColumns
  import opened MsiRecords
  import opened MsiBlobs
  import opened MsiSchema
  import opened FileNames
  import opened CsvWriter
  import opened CsvContent
  import opened Discovery

  /**
   * m_pFileEntry: NULL before discovery, then a position in the file list
   * (the list head once every file has been listed). Emptying the lists
   * leaves a link to a former entry dangling; the head stays valid.
   */
  datatype Cursor = NotStarted | At(index: nat) | Dangling

  /**
   * FindStringInList: true exactly when some entry of the list equals the
   * name ignoring case.
   */
  method FindStringInList(list: seq<WString>, name: WString) returns (found: bool)
    ensures found <==> FirstMatch(list, name).Some?
  {
    for i := 0 to |list|
      invariant forall j | 0 <= j < i :: !SameIgnoringCase(list[j], name)
    {
      if SameIgnoringCase(list[i], name) {
        return true;
      }
    }
    return false;
  }

  /** The first n candidates of SetUniqueFileName are all names of listed files. */
  ghost predicate Taken(names: seq<WString>, folder: WString, base: WString, ext: WString, n: nat)
  {
    forall k | 0 <= k < n :: FirstMatch(names, Candidate(folder, base, ext, k)).Some?
  }

  lemma TakenStep(names: seq<WString>, folder: WString, base: WString, ext: WString, n: nat)
    requires Taken(names, folder, base, ext, n) && FirstMatch(names, Candidate(folder, base, ext, n)).Some?
    ensures Taken(names, folder, base, ext, n + 1)
  {
  }

  /**
   * The state of the search of SetUniqueFileName before candidate k: the
   * earlier candidates are taken, and each earlier retry is recorded with
   * the list entry it collided with.
   */
  ghost predicate Searched(names: seq<WString>, folder: WString, base: WString, ext: WString, k: nat, which: map<nat, nat>)
  {
    Taken(names, folder, base, ext, k) && Collided(names, which, base, ext, k)
  }

  /**
   * Candidate k is taken too: record it. A retry always collides with an
   * entry no earlier retry hit, so fewer entries remain to collide with.
   */
  lemma SearchStep(names: seq<WString>, folder: WString, base: WString, ext: WString, k: nat, which: map<nat, nat>)
    returns (which': map<nat, nat>)
    requires Searched(names, folder, base, ext, k, which) && FirstMatch(names, Candidate(folder, base, ext, k)).Some?
    ensures Searched(names, folder, base, ext, k + 1, which')
    ensures k == 0 ==> which' == which
    ensures k > 0 ==> Indices(|names|) - which'.Keys < Indices(|names|) - which.Keys
  {
    TakenStep(names, folder, base, ext, k);
    if k == 0 {
      which' := which;
      assert which == map[];
    } else {
      var p := FirstMatch(names, Candidate(folder, base, ext, k)).value;
      CollisionIsNew(names, which, base, ext, k, p);
      which' := which[p := k];
      assert p in Indices(|names|) - which.Keys;
    }
  }

  /** The numbers below n. */
  ghost function Indices(n: nat): (r: set<nat>)
    ensures forall j: nat :: j in r <==> j < n
  {
    if n == 0 then {} else Indices(n - 1) + {n - 1}
  }

  /**
   * The retries of SetUniqueFileName before retry `bound`, each recorded
   * with the list entry its name collided with.
   */
  ghost predicate Collided(names: seq<WString>, which: map<nat, nat>, base: WString, ext: WString, bound: nat)
  {
    forall q | q in which ::
      q < |names| && 1 <= which[q] < bound && SameIgnoringCase(names[q], RetryCandidate(base, which[q], ext))
  }

  /**
   * The entry a new retry collides with was not hit by an earlier retry:
   * two retries never agree ignoring case, so they cannot both match it.
   */
  lemma CollisionIsNew(names: seq<WString>, which: map<nat, nat>, base: WString, ext: WString, k: nat, p: nat)
    requires Collided(names, which, base, ext, k) && 1 <= k
    requires p < |names| && SameIgnoringCase(names[p], RetryCandidate(base, k, ext))
    ensures p !in which && Collided(names, which[p := k], base, ext, k + 1)
  {
    if p in which {
      RetryCandidatesDiffer(base, ext, which[p], k);
    }
  }

  /**
   * The search loop of SetUniqueFileName: tries "folder\base+ext" (or
   * "base+ext" without a folder), then "base_001+ext", "base_002+ext", ...
   * without the folder, and gives the first candidate that no listed file
   * has, ignoring case. Every candidate before it is taken.
   */
  method UniqueName(db: MsiDatabase, folder: WString, base: WString, ext: WString) returns (name: WString, ghost tries: nat)
    ensures name == Candidate(folder, base, ext, tries)
    ensures FirstMatch(db.Names(), name).None?
    ensures Taken(db.Names(), folder, base, ext, tries)
  {
    ghost var names := db.Names();
    var candidate := FirstCandidate(folder, base, ext);
    var index := 1;
    // which list entry each retry so far collided with
    ghost var which: map<nat, nat> := map[];
    var present := db.IsFilePresent(candidate);
    while present != null
      invariant candidate == Candidate(folder, base, ext, index - 1)
      invariant present == null <==> FirstMatch(names, candidate).None?
      invariant Searched(names, folder, base, ext, index - 1, which)
      decreases Indices(|names|) - which.Keys, if index == 1 then 1 else 0
    {
      candidate, present, which := Retry(db, names, folder, base, ext, index, which);
      index := index + 1;
    }
    name := candidate;
    tries := index - 1;
  }

  /** One turn of the search loop of SetUniqueFileName: the retry with the given index, looked up. */
  method Retry(db: MsiDatabase, ghost names: seq<WString>, folder: WString, base: WString, ext: WString, index: nat, ghost which: map<nat, nat>)
    returns (candidate: WString, present: MsiFile?, ghost which': map<nat, nat>)
    requires names == db.Names() && 1 <= index
    requires Searched(names, folder, base, ext, index - 1, which) && FirstMatch(names, Candidate(folder, base, ext, index - 1)).Some?
    ensures candidate == Candidate(folder, base, ext, index)
    ensures present == null <==> FirstMatch(names, candidate).None?
    ensures Searched(names, folder, base, ext, index, which')
    ensures index == 1 ==> which' == which
    ensures index > 1 ==> Indices(|names|) - which'.Keys < Indices(|names|) - which.Keys
  {
    which' := SearchStep(names, folder, base, ext, index - 1, which);
    candidate := RetryCandidate(base, index, ext);
    present := db.IsFilePresent(candidate);
    assert db.Names() == names;
  }

  // ===========================================================================
  // TMsiTable

  class MsiTable {
    const db: MsiDatabase
    const name: WString
    const view: View
    /** m_bIsStreamsTable: the name is "_Streams", compared case-sensitively. */
    const isStreamsTable: bool := name == STREAMS
    var columns: seq<Column>
    var streamColumn: nat
    var nameColumn: nat
    var refs: int

    /**
     * A new table on an opened view: no columns yet, no stream or name
     * column, one reference, marked as the streams table exactly when the
     * name is "_Streams" compared case-sensitively; it takes a reference on
     * the database.
     */
    constructor(db: MsiDatabase, name: WString, view: View)
      modifies db`refs
      ensures this.db == db && this.name == name && this.view == view
      ensures isStreamsTable <==> name == STREAMS
      ensures columns == [] && streamColumn == INVALID_SIZE_T && nameColumn == INVALID_SIZE_T
      ensures refs == 1
      ensures db.refs == old(db.refs) + 1
    {
      this.db := db;
      this.name := name;
      this.view := view;
      columns := [];
      streamColumn := INVALID_SIZE_T;
      nameColumn := INVALID_SIZE_T;
      refs := 1;
      new;
      var _ := db.AddRef();
    }

    /** What the file loaders read of the table. */
    ghost function Info(): TableInfo
      reads this`columns, this`streamColumn, this`nameColumn
    {
      TableInfo(name, view, columns, streamColumn, nameColumn)
    }

    /** A table LoadTables keeps: its columns loaded and classified. */
    ghost predicate Loaded()
      reads this`columns, this`streamColumn, this`nameColumn
    {
      ColumnsCode(view) == ERROR_SUCCESS && columns == ViewColumns(view) &&
      streamColumn == StreamColumnOf(columns) && nameColumn == NameColumnOf(columns)
    }

    method AddRef() returns (r: int)
      modifies this`refs
      ensures refs == old(refs) + 1 && r == refs
    {
      refs := refs + 1;
      r := refs;
    }

    /**
     * Release: one reference less; the table that reaches zero is
     * destroyed, which releases its reference on the database.
     */
    method Release() returns (r: int)
      modifies this`refs, db`refs
      ensures r == old(refs) - 1 && refs == r
      ensures db.refs == old(db.refs) - (if r == 0 then 1 else 0)
    {
      refs := refs - 1;
      if refs == 0 {
        var _ := db.Release();
        return 0;
      }
      return refs;
    }

    /**
     * LoadColumns: fails with the code of the first column information call
     * that fails; otherwise appends the columns of the entries that have both
     * a name and a type, and none at all when the two counts differ.
     */
    method LoadColumns() returns (err: nat)
      modifies this`columns
      ensures err == ColumnsCode(view)
      ensures columns == old(columns) + ViewColumns(view)
    {
      if view.types.code != ERROR_SUCCESS {
        return view.types.code;
      }
      if view.names.code != ERROR_SUCCESS {
        return view.names.code;
      }
      var types, names := view.types.fields, view.names.fields;
      if |types| == |names| {
        for i := 0 to |types|
          invariant columns == old(columns) + ColumnsOf(names, types, i)
        {
          if |names[i]| > 0 && |types[i]| > 0 {
            columns := columns + [NewColumn(names[i], types[i])];
          }
        }
      }
      err := ERROR_SUCCESS;
    }

    /**
     * Load: loads the columns; when that succeeds, the stream column becomes
     * the first Stream column and, only when there is one, the name column
     * the first String column. Indices without such a column keep their value.
     */
    method Load() returns (err: nat)
      modifies this`columns, this`streamColumn, this`nameColumn
      ensures err == ColumnsCode(view)
      ensures columns == old(columns) + ViewColumns(view)
      ensures err != ERROR_SUCCESS ==> streamColumn == old(streamColumn) && nameColumn == old(nameColumn)
      ensures err == ERROR_SUCCESS ==> streamColumn == IndexOr(FirstOfKind(columns, Stream), old(streamColumn))
      ensures err == ERROR_SUCCESS ==>
        nameColumn == (if streamColumn != INVALID_SIZE_T then IndexOr(FirstOfKind(columns, String), old(nameColumn)) else old(nameColumn))
    {
      err := LoadColumns();
      if err == ERROR_SUCCESS {
        var i := 0;
        while i < |columns|
          invariant i <= |columns|
          invariant forall j | 0 <= j < i :: columns[j].kind != Stream
          invariant streamColumn == old(streamColumn)
        {
          if columns[i].kind == Stream {
            streamColumn := i;
            break;
          }
          i := i + 1;
        }
        if streamColumn != INVALID_SIZE_T {
          var k := 0;
          while k < |columns|
            invariant k <= |columns|
            invariant forall j | 0 <= j < k :: columns[j].kind != String
            invariant nameColumn == old(nameColumn)
          {
            if columns[k].kind == String {
              nameColumn := k;
              break;
            }
            k := k + 1;
          }
        }
      }
    }
  }

  // ===========================================================================
  // TMsiFile

  class MsiFile {
    const table: MsiTable
    const data: MsiBlob
    var refFile: MsiFile?
    /** The files reached through m_pRefFile, nearest first. */
    ghost var Chain: seq<MsiFile>
    var name: WString
    var handle: Handle
    var fileType: FileType
    var fileSize: nat
    var refs: int

    /** A new file of a table: no name, no type, no data, one reference; it takes a reference on the table. */
    constructor(table: MsiTable)
      modifies table`refs
      ensures this.table == table && fresh(data) && data.pbData == null && data.cbData == 0
      ensures refFile == null && Chain == []
      ensures name == [] && handle == NoHandle && fileType == NoFile && fileSize == 0 && refs == 1
      ensures table.refs == old(table.refs) + 1
    {
      this.table := table;
      data := new MsiBlob();
      refFile := null;
      Chain := [];
      name := [];
      handle := NoHandle;
      fileType := NoFile;
      fileSize := 0;
      refs := 1;
      new;
      var _ := table.AddRef();
    }

    /** The reference chain is what m_pRefFile leads to, and it ends. */
    ghost predicate ChainValid()
      reads this`refFile, this`Chain, (set g | g in Chain)`refFile, (set g | g in Chain)`Chain
      decreases |Chain|
    {
      if refFile == null then Chain == []
      else |Chain| > 0 && Chain[0] == refFile && refFile.Chain == Chain[1..] && refFile.ChainValid()
    }

    /** Every file of the chain has the rest of the chain as its own. */
    lemma {:induction false} ChainSuffix(k: nat)
      requires ChainValid() && k < |Chain|
      ensures Chain[k].Chain == Chain[k + 1..] && Chain[k].ChainValid()
      decreases |Chain|
    {
      if k > 0 {
        refFile.ChainSuffix(k - 1);
        assert Chain[k] == refFile.Chain[k - 1];
        assert refFile.Chain[k..] == Chain[k + 1..];
      }
    }

    /** A file never refers to itself, directly or through others. */
    lemma ChainAcyclic()
      requires ChainValid()
      ensures this !in Chain
    {
      if this in Chain {
        var k :| 0 <= k < |Chain| && Chain[k] == this;
        ChainSuffix(k);
      }
    }

    /** The size this file reports is that of its contents, once they load. */
    ghost predicate SizeLoaded()
      reads this`refFile, this`Chain, (set g | g in Chain)`refFile, (set g | g in Chain)`Chain
      reads Reach()`fileType, Reach()`handle, Reach()`fileSize, Tables()`columns, Tables()`streamColumn
      reads (set g | g in Reach() :: g.data)`pbData
    {
      ChainValid() &&
      var t := Target();
      t.Loads(t.data.pbData != null) ==> t.Expected().Some? && FileSize() == |t.Expected().value|
    }

    /** The file whose data this file shows: the end of the chain. */
    ghost function Target(): (t: MsiFile)
      reads this`refFile, this`Chain, (set g | g in Chain)`refFile, (set g | g in Chain)`Chain
      requires ChainValid()
      ensures t == this || t in Chain
      ensures t.refFile == null
      decreases |Chain|
    {
      if refFile == null then this else refFile.Target()
    }

    /** This file and the files of its chain. */
    ghost function Reach(): set<MsiFile>
      reads this`Chain
    {
      {this} + (set g | g in Chain)
    }

    /** The tables of Reach(). */
    ghost function Tables(): set<MsiTable>
      reads this`Chain
    {
      set g | g in Reach() :: g.table
    }

    /** The databases of Tables(). */
    ghost function Dbs(): set<MsiDatabase>
      reads this`Chain
    {
      set t | t in Tables() :: t.db
    }

    /** The buffer of the file's blob, as a frame. */
    ghost function Buffer(): set<object>
      reads data`pbData
    {
      if data.pbData == null then {} else {data.pbData}
    }

    /**
     * The bytes the file holds once loaded: the summary text, the stream of
     * the record's stream column (zeros of its size when it cannot be read,
     * which is what the zero-filled buffer then keeps), the CSV text of the
     * table when it renders, and nothing for a file without a type.
     */
    ghost function Expected(): Option<seq<Byte>>
      reads this`fileType, this`handle, table`columns, table`streamColumn
    {
      match fileType
      case SummaryFile => Some(Summary(SummaryOf(handle)))
      case BinaryFile =>
        var f := FieldOf(RecordOf(handle), table.streamColumn + 1);
        Some(if f.readable then f.stream else seq(|f.stream|, _ => 0))
      case TableFile =>
        var r := Csv(table.columns, table.view);
        if r.err == ERROR_SUCCESS then Some(r.bytes) else None
      case NoFile => None
    }

    /** Whether loading succeeds: in the fill pass a binary file needs a readable stream. */
    ghost predicate Loads(filled: bool)
      reads this`fileType, this`handle, table`columns, table`streamColumn
    {
      match fileType
      case SummaryFile => true
      case BinaryFile => !filled || FieldOf(RecordOf(handle), table.streamColumn + 1).readable
      case TableFile => Csv(table.columns, table.view).err == ERROR_SUCCESS
      case NoFile => false
    }

    /**
     * The size and the blob agree with the contents: a non-zero size is the
     * contents' length, and a buffer exists only for a non-empty file, with
     * exactly its size.
     */
    ghost predicate Sized()
      reads this`fileType, this`handle, table`columns, table`streamColumn, this`fileSize, data`pbData, data`cbData
    {
      data.Valid() &&
      (fileSize != 0 ==> Expected().Some? && fileSize == |Expected().value|) &&
      (data.pbData != null ==> Expected().Some? && 0 < fileSize && data.cbData == fileSize && data.pbData.Length == fileSize)
    }

    /** Sized, and a buffer holds the contents. */
    ghost predicate Local()
      reads this`fileType, this`handle, table`columns, table`streamColumn, this`fileSize, data`pbData, data`cbData, Buffer()
    {
      Sized() && (data.pbData != null ==> data.pbData[..] == Expected().value)
    }

    /** Sized, with a freshly reserved, zero-filled buffer. */
    ghost predicate Reserved()
      reads this`fileType, this`handle, table`columns, table`streamColumn, this`fileSize, data`pbData, data`cbData, Buffer()
    {
      Sized() && data.pbData != null && forall k | 0 <= k < data.pbData.Length :: data.pbData[k] == 0
    }

    /** FileSize: the size of the file at the end of the chain. */
    function FileSize(): (n: nat)
      reads this`refFile, this`Chain, this`fileSize
      reads (set g | g in Chain)`refFile, (set g | g in Chain)`Chain, (set g | g in Chain)`fileSize
      requires ChainValid()
      ensures n == Target().fileSize
      decreases |Chain|
    {
      if refFile != null then refFile.FileSize() else fileSize
    }

    /** FileData: the blob of the file at the end of the chain. */
    function FileData(): (b: MsiBlob)
      reads this`refFile, this`Chain, (set g | g in Chain)`refFile, (set g | g in Chain)`Chain
      requires ChainValid()
      ensures b == Target().data
      decreases |Chain|
    {
      if refFile != null then refFile.FileData() else data
    }

    // -------------------------------------------------------------------------
    // Loading. A file's bytes are produced twice: once to learn the size
    // (no buffer yet) and once into a zero-filled buffer of that size.
    // Which of the two happens depends on whether the blob holds a buffer.

    /**
     * LoadBinaryFile: without a buffer, the size of the record's stream;
     * with one, the stream read into it, at most the file size's worth.
     */
    method LoadBinaryFile() returns (err: nat, size: nat)
      requires data.Valid()
      requires data.pbData != null ==> fileSize <= data.pbData.Length
      modifies Buffer()
      ensures data.pbData == null ==> err == ERROR_SUCCESS && size == DataSize(RecordOf(handle), table.streamColumn + 1)
      ensures data.pbData != null ==> (err == ERROR_SUCCESS <==> FieldOf(RecordOf(handle), table.streamColumn + 1).readable)
      ensures data.pbData != null && err == ERROR_SUCCESS ==>
        var s := FieldOf(RecordOf(handle), table.streamColumn + 1).stream;
        size == Min(fileSize, |s|) && data.pbData[..size] == s[..size] && data.pbData[size..] == old(data.pbData[size..])
      ensures data.pbData != null && err != ERROR_SUCCESS ==> data.pbData[..] == old(data.pbData[..])
    {
      var column := table.streamColumn + 1;
      if data.pbData != null {
        err, size := ReadStream(RecordOf(handle), column, data.pbData, fileSize);
      } else {
        size := DataSize(RecordOf(handle), column);
        err := ERROR_SUCCESS;
      }
    }

    /** LoadCsvFile: the CSV text of the table, measured or written into the whole buffer. */
    method LoadCsvFile() returns (err: nat, size: nat)
      requires data.Valid()
      requires data.pbData != null ==> data.cbData == data.pbData.Length && |Csv(table.columns, table.view).bytes| <= data.cbData
      modifies Buffer()
      ensures err == Csv(table.columns, table.view).err && size == |Csv(table.columns, table.view).bytes|
      ensures data.pbData != null ==> Wrote(old(data.pbData[..]), data.pbData[..], 0, Csv(table.columns, table.view).bytes)
    {
      err, size := RenderCsv(data.pbData, table.columns, table.view);
    }

    /** LoadSummaryFile: the summary text, measured or written into the whole buffer. */
    method LoadSummaryFile() returns (err: nat, size: nat)
      requires data.Valid()
      requires data.pbData != null ==> data.cbData == data.pbData.Length && |Summary(SummaryOf(handle))| <= data.cbData
      modifies Buffer()
      ensures err == ERROR_SUCCESS && size == |Summary(SummaryOf(handle))|
      ensures data.pbData != null ==> Wrote(old(data.pbData[..]), data.pbData[..], 0, Summary(SummaryOf(handle)))
    {
      err, size := RenderSummary(data.pbData, SummaryOf(handle));
    }

    /**
     * The switch of LoadFileInternal, for a file that refers to no other: the
     * loader of the file's type, or ERROR_NOT_SUPPORTED for a file without one.
     */
    method LoadByType() returns (err: nat, size: nat)
      requires Sized()
      modifies Buffer()
      ensures err == ERROR_SUCCESS <==> Loads(data.pbData != null)
      ensures fileType == NoFile ==> err == ERROR_NOT_SUPPORTED
      ensures fileType == TableFile ==> err == Csv(table.columns, table.view).err
      ensures err == ERROR_SUCCESS ==> Expected().Some? && size == |Expected().value|
      ensures data.pbData != null && err == ERROR_SUCCESS ==> data.pbData[..] == Expected().value
      ensures data.pbData != null && err != ERROR_SUCCESS ==> data.pbData[..] == old(data.pbData[..])
    {
      match fileType
      case SummaryFile =>
        err, size := LoadSummaryFile();
      case BinaryFile =>
        err, size := LoadBinaryFile();
        if data.pbData != null && err == ERROR_SUCCESS {
          assert data.pbData[..] == data.pbData[..size];
        }
      case TableFile =>
        err, size := LoadCsvFile();
      case NoFile =>
        err, size := ERROR_NOT_SUPPORTED, 0;
    }

    /**
     * The state LoadFileInternal leaves, given the size and the blob size it
     * started from: the buffer holds the contents; loading succeeds as Loads
     * says, a file without a type being not supported and a table file
     * failing as its rendering does; on success the contents' length is the
     * new blob size (toData) or the new file size, and on failure neither
     * changes.
     */
    ghost predicate LoadOutcome(toData: bool, err: nat, size0: nat, cb0: nat)
      reads this`fileType, this`handle, table`columns, table`streamColumn, this`fileSize, data`pbData, data`cbData, Buffer()
    {
      Local() &&
      (err == ERROR_SUCCESS <==> Loads(data.pbData != null)) &&
      (fileType == NoFile ==> err == ERROR_NOT_SUPPORTED) &&
      (fileType == TableFile ==> err == Csv(table.columns, table.view).err) &&
      (err == ERROR_SUCCESS && !toData ==> fileSize == |Expected().value| && data.cbData == cb0) &&
      (err == ERROR_SUCCESS && toData ==> data.cbData == |Expected().value| && fileSize == size0) &&
      (err != ERROR_SUCCESS ==> fileSize == size0 && data.cbData == cb0)
    }

    /** The type-specific part of LoadFileInternal and where the size goes. */
    method LoadOwn(toData: bool) returns (err: nat)
      requires if toData then Reserved() else Local()
      modifies (if toData then {} else {this})`fileSize, (if toData then {data} else {})`cbData, Buffer()
      ensures data.pbData == old(data.pbData)
      ensures LoadOutcome(toData, err, old(fileSize), old(data.cbData))
    {
      if toData && !Loads(true) {
        // the zeros of the reserved buffer are what an unreadable stream leaves
        assert data.pbData[..] == Expected().value;
      }
      var size;
      err, size := LoadByType();
      if err == ERROR_SUCCESS {
        if toData {
          data.cbData := size;
        } else {
          fileSize := size;
        }
      }
    }

    /**
     * LoadFileInternal: loads the file at the end of the chain. On success
     * the size goes to the blob (when loading the data) or to the file size
     * (LoadFileSize); the buffer ends up holding the contents either way.
     * A file without a type is not supported; a table file fails as its
     * CSV rendering does.
     */
    method LoadFileInternal(toData: bool) returns (err: nat)
      requires ChainValid()
      requires if toData then Target().Reserved() else Target().Local()
      modifies (if toData then {} else {Target()})`fileSize, (if toData then {Target().data} else {})`cbData, Target().Buffer()
      ensures Target().data.pbData == old(Target().data.pbData)
      ensures Target().LoadOutcome(toData, err, old(Target().fileSize), old(Target().data.cbData))
      decreases |Chain|
    {
      if refFile != null {
        assert Target() == refFile.Target();
        err := refFile.LoadFileInternal(toData);
      } else {
        err := LoadOwn(toData);
      }
    }

    /**
     * LoadFileData: makes the data of the file at the end of the chain
     * present. Nothing happens when the blob already holds the file size;
     * otherwise a zero-filled buffer of the file size is reserved and filled.
     * A binary file whose stream cannot be read fails, and its buffer keeps
     * the zeros.
     */
    method LoadFileData(heapOk: bool) returns (err: nat)
      requires ChainValid() && Target().Local()
      modifies Target().data
      ensures Target().Local()
      ensures old(Target().data.cbData) >= Target().fileSize ==>
        err == ERROR_SUCCESS && Target().data.pbData == old(Target().data.pbData) && Target().data.cbData == old(Target().data.cbData)
      ensures old(Target().data.cbData) < Target().fileSize && !heapOk ==>
        err == ERROR_NOT_ENOUGH_MEMORY && Target().data.pbData == null
      ensures old(Target().data.cbData) < Target().fileSize && heapOk ==>
        Target().data.pbData != null && fresh(Target().data.pbData) && (err == ERROR_SUCCESS <==> Target().Loads(true))
      ensures err == ERROR_SUCCESS ==>
        Target().data.cbData == Target().fileSize && (Target().fileSize > 0 ==> Target().data.pbData != null)
      decreases |Chain|
    {
      if refFile != null {
        err := refFile.LoadFileData(heapOk);
        return;
      }
      err := ERROR_SUCCESS;
      if data.cbData < fileSize {
        err := data.Reserve(fileSize, heapOk);
        if err == ERROR_SUCCESS {
          err := LoadFileInternal(true);
        }
      }
    }

    // -------------------------------------------------------------------------
    // Naming

    /**
     * SetUniqueFileName: the file takes the first free candidate name. The
     * file itself is not listed yet.
     */
    method SetUniqueFileName(db: MsiDatabase, folder: WString, base: WString, ext: WString) returns (err: nat, ghost tries: nat)
      modifies this`name
      ensures err == ERROR_SUCCESS
      ensures name == Candidate(folder, base, ext, tries)
      ensures FirstMatch(old(db.Names()), name).None?
      ensures Taken(old(db.Names()), folder, base, ext, tries)
    {
      name, tries := UniqueName(db, folder, base, ext);
      err := ERROR_SUCCESS;
    }

    /**
     * SetBinaryFile: a stream row becomes a binary file holding the record.
     * Its item name is the row's name column; a row without one is not
     * supported and changes nothing. A "Table.item" row of _Streams whose
     * "Table\item" is already listed refers to that file and takes the name
     * "_Streams\item" with a new reference on the file; any other row gets
     * the first free name of its file-safe item name, split into base and
     * extension, inside the folder of its table.
     */
    method SetBinaryFile(db: MsiDatabase, rec: Record) returns (err: nat, ghost tries: nat)
      requires this !in db.files
      requires db.Chains()
      modifies this`refFile, this`Chain, this`name, this`fileType, this`handle, db.files`refs
      ensures err == ERROR_SUCCESS <==> ItemName(table.Info(), rec).Some?
      ensures err != ERROR_SUCCESS ==>
        refFile == old(refFile) && Chain == old(Chain) && name == old(name) && fileType == old(fileType) && handle == old(handle)
      ensures err == ERROR_SUCCESS ==>
        fileType == BinaryFile && handle == RecordHandle(rec) && ChainValid() && forall g | g in Chain :: g in db.files
      ensures err == ERROR_SUCCESS && old(db.ReferenceOf(table, ItemName(table.Info(), rec).value)).Some? ==>
        var item := ItemName(table.Info(), rec).value;
        refFile == db.files[old(db.ReferenceOf(table, item)).value] && Chain == [refFile] + refFile.Chain &&
        name == AliasName(table.name, item, FirstDot(item).value)
      ensures err == ERROR_SUCCESS && old(db.ReferenceOf(table, ItemName(table.Info(), rec).value)).None? ==>
        var parts := SplitExtension(FileSafe(ItemName(table.Info(), rec).value));
        refFile == null && Chain == [] && name == Candidate(table.name, parts.0, parts.1, tries) &&
        FirstMatch(old(db.Names()), name).None? && Taken(old(db.Names()), table.name, parts.0, parts.1, tries)
      ensures forall f | f in db.files :: f.refs == old(f.refs) + (if err == ERROR_SUCCESS && f == refFile then 1 else 0)
    {
      var got := RecordGetString(rec, table.nameColumn, [], true);
      if !got.0 {
        return ERROR_NOT_SUPPORTED, 0;
      }
      tries := NameBinaryFile(db, got.1);
      fileType := BinaryFile;
      handle := RecordHandle(rec);
      err := ERROR_SUCCESS;
    }

    /** The naming part of SetBinaryFile, for the item name of the row. */
    method NameBinaryFile(db: MsiDatabase, item: WString) returns (ghost tries: nat)
      requires this !in db.files
      requires db.Chains()
      modifies this`refFile, this`Chain, this`name, db.files`refs
      ensures ChainValid() && forall g | g in Chain :: g in db.files
      ensures old(db.ReferenceOf(table, item)).Some? ==>
        refFile == db.files[old(db.ReferenceOf(table, item)).value] && Chain == [refFile] + refFile.Chain &&
        name == AliasName(table.name, item, FirstDot(item).value)
      ensures old(db.ReferenceOf(table, item)).None? ==>
        var parts := SplitExtension(FileSafe(item));
        refFile == null && Chain == [] && name == Candidate(table.name, parts.0, parts.1, tries) &&
        FirstMatch(old(db.Names()), name).None? && Taken(old(db.Names()), table.name, parts.0, parts.1, tries)
      ensures forall f | f in db.files :: f.refs == old(f.refs) + (if f == refFile then 1 else 0)
    {
      var ref, alias := db.FindReferencedFile(table, item);
      if ref == null {
        tries := OwnName(db, item);
      } else {
        ReferTo(db, ref, alias);
        tries := 0;
      }
    }

    /** The other branch of SetBinaryFile: no reference, and the first free name of the file-safe item name. */
    method OwnName(db: MsiDatabase, item: WString) returns (ghost tries: nat)
      modifies this`refFile, this`Chain, this`name
      ensures var parts := SplitExtension(FileSafe(item));
        refFile == null && Chain == [] && name == Candidate(table.name, parts.0, parts.1, tries) &&
        FirstMatch(old(db.Names()), name).None? && Taken(old(db.Names()), table.name, parts.0, parts.1, tries)
    {
      refFile, Chain := null, [];
      var safe := MakeItemNameFileSafe(item);
      var parts := SplitExtension(safe);
      var _, t := SetUniqueFileName(db, table.name, parts.0, parts.1);
      tries := t;
    }

    /** The alias branch of SetBinaryFile: refer to a listed file, take its alias name and a reference on it. */
    method ReferTo(db: MsiDatabase, ref: MsiFile, alias: WString)
      requires this !in db.files && ref in db.files && db.Chains()
      modifies this`refFile, this`Chain, this`name, ref`refs
      ensures refFile == ref && Chain == [ref] + ref.Chain && name == alias
      ensures ChainValid() && forall g | g in Chain :: g in db.files
      ensures ref.refs == old(ref.refs) + 1
    {
      refFile := ref;
      Chain := [ref] + ref.Chain;
      assert Chain[1..] == ref.Chain;
      name := alias;
      var _ := ref.AddRef();
    }

    /** SetCsvFile: a table becomes one CSV file named after the table, "<table>.csv" or the first free retry. */
    method SetCsvFile(db: MsiDatabase) returns (err: nat, ghost tries: nat)
      requires this !in db.files
      modifies this`fileType, this`handle, this`name
      ensures err == ERROR_SUCCESS && fileType == TableFile && handle == NoHandle
      ensures name == Candidate([], table.name, CSV_EXTENSION, tries)
      ensures FirstMatch(old(db.Names()), name).None? && Taken(old(db.Names()), [], table.name, CSV_EXTENSION, tries)
    {
      fileType := TableFile;
      handle := NoHandle;
      err, tries := SetUniqueFileName(db, [], table.name, CSV_EXTENSION);
    }

    /** SetSummaryFile: the summary information becomes "_SummaryInformation.csv" or the first free retry. */
    method SetSummaryFile(db: MsiDatabase, info: SummaryInfo) returns (err: nat, ghost tries: nat)
      requires this !in db.files
      modifies this`fileType, this`handle, this`name
      ensures err == ERROR_SUCCESS && fileType == SummaryFile && handle == SummaryHandle(info)
      ensures name == Candidate([], SUMMARY_NAME, CSV_EXTENSION, tries)
      ensures FirstMatch(old(db.Names()), name).None? && Taken(old(db.Names()), [], SUMMARY_NAME, CSV_EXTENSION, tries)
    {
      fileType := SummaryFile;
      handle := SummaryHandle(info);
      err, tries := SetUniqueFileName(db, [], SUMMARY_NAME, CSV_EXTENSION);
    }

    method AddRef() returns (r: int)
      modifies this`refs
      ensures refs == old(refs) + 1 && r == refs
    {
      refs := refs + 1;
      r := refs;
    }

    /**
     * Release: one reference less. A file that reaches zero is destroyed,
     * which releases the file it refers to and its table. No count ever
     * rises; when the file survives nothing but its own count changes.
     */
    method Release() returns (r: int)
      requires ChainValid()
      modifies Reach()`refs, Tables()`refs, Dbs()`refs
      ensures r == old(refs) - 1 && refs == r
      ensures forall g | g in Reach() :: g.refs <= old(g.refs)
      ensures forall t | t in Tables() :: t.refs <= old(t.refs)
      ensures forall d | d in Dbs() :: d.refs <= old(d.refs)
      ensures r != 0 ==> forall g | g in Reach() && g != this :: g.refs == old(g.refs)
      ensures r != 0 ==> forall t | t in Tables() :: t.refs == old(t.refs)
      ensures r != 0 ==> forall d | d in Dbs() :: d.refs == old(d.refs)
      ensures r == 0 ==> table.refs < old(table.refs)
      ensures r == 0 && refFile == null ==> table.refs == old(table.refs) - 1
      ensures r == 0 && refFile != null ==> refFile.refs < old(refFile.refs)
      decreases |Chain|, 1
    {
      refs := refs - 1;
      if refs == 0 {
        Destroy();
        return 0;
      }
      return refs;
    }

    /** ~TMsiFile: releases the referenced file, then the table. */
    method Destroy()
      requires ChainValid()
      modifies Reach()`refs, Tables()`refs, Dbs()`refs
      ensures refs == old(refs)
      ensures forall g | g in Reach() :: g.refs <= old(g.refs)
      ensures forall t | t in Tables() :: t.refs <= old(t.refs)
      ensures forall d | d in Dbs() :: d.refs <= old(d.refs)
      ensures table.refs < old(table.refs)
      ensures refFile == null ==> table.refs == old(table.refs) - 1
      ensures refFile != null ==> refFile.refs < old(refFile.refs)
      decreases |Chain|, 0
    {
      ChainAcyclic();
      if refFile != null {
        var _ := refFile.Release();
      }
      var _ := table.Release();
    }
  }

  // ===========================================================================
  // File lists

  ghost function FileSet(fs: seq<MsiFile>): set<MsiFile>
  {
    set f | f in fs
  }

  /** The blobs of the files. */
  ghost function BlobsOf(fs: seq<MsiFile>): set<MsiBlob>
  {
    set f | f in fs :: f.data
  }

  /** The buffers the files hold. */
  ghost function BuffersOf(fs: seq<MsiFile>): set<array<Byte>>
    reads BlobsOf(fs)`pbData
  {
    set f | f in fs && f.data.pbData != null :: f.data.pbData
  }

  /** The tables of the files. */
  ghost function TablesOf(fs: seq<MsiFile>): set<MsiTable>
  {
    set f | f in fs :: f.table
  }

  /**
   * A file may join the files fs of a list: it is a new object with a blob
   * and a buffer of its own, its chain leads through files of fs, and when it refers to no other file its
   * size and buffer agree with its contents and no file of fs has its name,
   * ignoring case. (An alias name is not checked against the list.)
   */
  ghost predicate Joins(fs: seq<MsiFile>, f: MsiFile)
    reads f`refFile, f`Chain, FileSet(fs)`refFile, FileSet(fs)`Chain, f`name, fs`name
    reads f`fileType, f`handle, f`fileSize, f.table`columns, f.table`streamColumn, f.data`pbData, f.data`cbData, f.Buffer()
    reads BlobsOf(fs)`pbData
  {
    f !in fs && f.data !in BlobsOf(fs) && (f.data.pbData == null || f.data.pbData !in BuffersOf(fs)) &&
    (forall g | g in f.Chain :: g in fs) && f.ChainValid() &&
    (f.refFile == null ==> f.Local() && forall i | 0 <= i < |fs| :: !SameIgnoringCase(fs[i].name, f.name))
  }

  /** A file list: built by appending, one joining file at a time. */
  ghost predicate FileList(fs: seq<MsiFile>)
    reads FileSet(fs)`refFile, FileSet(fs)`Chain, fs`name, fs`fileType, fs`handle, fs`fileSize
    reads TablesOf(fs)`columns, TablesOf(fs)`streamColumn, BlobsOf(fs)`pbData, BlobsOf(fs)`cbData, BuffersOf(fs)
    decreases |fs|
  {
    fs == [] || (FileList(fs[..|fs| - 1]) && Joins(fs[..|fs| - 1], fs[|fs| - 1]))
  }

  /** Every file has a valid chain of files of the list. */
  ghost predicate ChainsIn(fs: seq<MsiFile>)
    reads FileSet(fs)`refFile, FileSet(fs)`Chain
  {
    forall f | f in fs :: (forall g | g in f.Chain :: g in fs) && f.ChainValid()
  }

  /** Every file of a file list has a valid chain of earlier files. */
  lemma {:induction false} FileListChains(fs: seq<MsiFile>)
    requires FileList(fs)
    ensures ChainsIn(fs)
    decreases |fs|
  {
    if fs != [] {
      var init := fs[..|fs| - 1];
      FileListChains(init);
      assert fs == init + [fs[|fs| - 1]];
    }
  }

  /** A joining file extends a file list. */
  lemma FileListAppend(fs: seq<MsiFile>, f: MsiFile)
    requires FileList(fs) && Joins(fs, f)
    ensures FileList(fs + [f])
  {
    assert (fs + [f])[..|fs|] == fs;
  }

  /** The file g refers to the same file as in the old state. */
  twostate predicate Linked(g: MsiFile)
    reads g`refFile, g`Chain
  {
    g.refFile == old(g.refFile) && g.Chain == old(g.Chain)
  }

  /** No other file of fs refers to g, directly or through the files it refers to. */
  ghost predicate Unreferenced(fs: seq<MsiFile>, g: MsiFile)
    reads FileSet(fs)`Chain
  {
    forall h | h in fs && h != g :: g !in h.Chain
  }

  /** The files fs carry the names ns, in list order. */
  ghost predicate NamedAs(fs: seq<MsiFile>, ns: seq<WString>)
    reads fs`name
  {
    |fs| == |ns| && forall k | 0 <= k < |fs| :: fs[k].name == ns[k]
  }

  /** Nothing a file list reads of the file g differs from the old state. */
  twostate predicate Steady(g: MsiFile)
    reads g`refFile, g`Chain, g`name, g`fileType, g`handle, g`fileSize, g.table`columns, g.table`streamColumn
    reads g.data`pbData, g.data`cbData, g.Buffer()
  {
    g.refFile == old(g.refFile) && g.Chain == old(g.Chain) && g.name == old(g.name) &&
    g.fileType == old(g.fileType) && g.handle == old(g.handle) && g.fileSize == old(g.fileSize) &&
    g.table.columns == old(g.table.columns) && g.table.streamColumn == old(g.table.streamColumn) &&
    g.data.pbData == old(g.data.pbData) && g.data.cbData == old(g.data.cbData) &&
    (g.data.pbData != null ==> g.data.pbData[..] == old(g.data.pbData[..]))
  }

  /** A chain stays valid while its files stay as they were. */
  twostate lemma {:induction false} ChainSteady(f: MsiFile)
    requires old(f.ChainValid()) && Linked(f) && forall g | g in old(f.Chain) :: Linked(g)
    ensures f.ChainValid()
    decreases |old(f.Chain)|
  {
    if f.refFile != null {
      var r := f.refFile;
      assert forall g | g in old(r.Chain) :: g in old(f.Chain);
      ChainSteady(r);
    }
  }

  /** While a chain stays as it was, so does the file it ends in. */
  twostate lemma {:induction false} TargetSteady(f: MsiFile)
    requires old(f.ChainValid()) && unchanged(f`refFile, f`Chain)
    requires forall g | g in old(f.Chain) :: unchanged(g`refFile, g`Chain)
    ensures f.ChainValid() && f.Target() == old(f.Target())
    decreases |old(f.Chain)|
  {
    assert forall g | g in old(f.Chain) :: Linked(g);
    ChainSteady(f);
    if f.refFile != null {
      var r := f.refFile;
      assert forall g | g in old(r.Chain) :: g in old(f.Chain);
      TargetSteady(r);
    }
  }

  /** The last file still joins the files before it while none of them changes. */
  twostate lemma LastSteady(fs: seq<MsiFile>)
    requires fs != [] && old(Joins(fs[..|fs| - 1], fs[|fs| - 1])) && forall g | g in fs :: Steady(g)
    ensures Joins(fs[..|fs| - 1], fs[|fs| - 1])
  {
    var init, f := fs[..|fs| - 1], fs[|fs| - 1];
    assert f in fs;
    forall g | g in old(f.Chain) + [f]
      ensures Linked(g)
    {
      assert g in fs;
    }
    ChainSteady(f);
    assert forall g | g in init :: g in fs;
    assert BuffersOf(init) == old(BuffersOf(init));
    if f.refFile == null {
      assert f.Expected() == old(f.Expected());
      assert f.Local();
      forall i | 0 <= i < |init|
        ensures init[i].name == old(init[i].name)
      {
        assert init[i] in fs;
      }
    }
  }

  /** A file list stays one while none of its files changes. */
  twostate lemma {:induction false} FileListSteady(fs: seq<MsiFile>)
    requires old(FileList(fs)) && forall g | g in fs :: Steady(g)
    ensures FileList(fs)
    decreases |fs|
  {
    if fs != [] {
      var init := fs[..|fs| - 1];
      assert forall g | g in init :: g in fs;
      FileListSteady(init);
      LastSteady(fs);
    }
  }

  /** The file at k joined the files before it. */
  lemma {:induction false} FileListAt(fs: seq<MsiFile>, k: nat)
    requires FileList(fs) && k < |fs|
    ensures FileList(fs[..k]) && Joins(fs[..k], fs[k])
    decreases |fs|
  {
    if k < |fs| - 1 {
      var init := fs[..|fs| - 1];
      assert init[..k] == fs[..k] && init[k] == fs[k];
      FileListAt(init, k);
    }
  }

  /** The files of a file list are distinct objects, with distinct blobs, and no two hold the same buffer. */
  lemma FileListDistinct(fs: seq<MsiFile>)
    requires FileList(fs)
    ensures forall i, j | 0 <= i < j < |fs| ::
      fs[i] != fs[j] && fs[i].data != fs[j].data && (fs[j].data.pbData == null || fs[i].data.pbData != fs[j].data.pbData)
  {
    forall i, j | 0 <= i < j < |fs|
      ensures fs[i] != fs[j] && fs[i].data != fs[j].data && (fs[j].data.pbData == null || fs[i].data.pbData != fs[j].data.pbData)
    {
      FileListAt(fs, j);
      assert fs[..j][i] == fs[i];
    }
  }

  /**
   * Every file of a file list has a valid chain, and the file at its end is
   * a listed file that refers to no other and whose size and buffer agree
   * with its contents.
   */
  lemma TargetListed(fs: seq<MsiFile>, k: nat)
    requires FileList(fs) && k < |fs|
    ensures fs[k].ChainValid() && fs[k].Target() in fs && fs[k].Target().Local()
  {
    FileListAt(fs, k);
    var t := fs[k].Target();
    assert t in fs by {
      if t != fs[k] {
        assert t in fs[..k];
      }
    }
    var j :| 0 <= j < |fs| && fs[j] == t;
    FileListAt(fs, j);
  }

  /**
   * What loading may change of a file that refers to no other: its size,
   * the contents of its buffer and, for a new buffer, its blob; it then
   * keeps its size and buffer consistent with its contents.
   */
  twostate predicate Reloaded(t: MsiFile)
    reads t`refFile, t`Chain, t`name, t`fileType, t`handle, t`fileSize, t.table`columns, t.table`streamColumn
    reads t.data`pbData, t.data`cbData, t.Buffer()
  {
    Linked(t) && t.name == old(t.name) && t.fileType == old(t.fileType) && t.handle == old(t.handle) &&
    t.table.columns == old(t.table.columns) && t.table.streamColumn == old(t.table.streamColumn) &&
    (t.data.pbData == null || t.data.pbData == old(t.data.pbData) || fresh(t.data.pbData)) && t.Local()
  }

  /** What the joins of later files read of g is as before, but for a buffer g may have been given. */
  twostate predicate Framed(g: MsiFile)
    reads g`refFile, g`Chain, g`name, g.data`pbData
  {
    Linked(g) && g.name == old(g.name) && (g.data.pbData == null || g.data.pbData == old(g.data.pbData) || fresh(g.data.pbData))
  }

  /** The last file still joins the files before it when it is as before and they are framed. */
  twostate lemma LastAfterLoad(fs: seq<MsiFile>)
    requires fs != [] && old(Joins(fs[..|fs| - 1], fs[|fs| - 1])) && Steady(fs[|fs| - 1])
    requires forall g | g in fs && g != fs[|fs| - 1] :: Framed(g)
    ensures Joins(fs[..|fs| - 1], fs[|fs| - 1])
  {
    var init, f := fs[..|fs| - 1], fs[|fs| - 1];
    assert forall g | g in init :: g in fs && g != f;
    forall g | g in old(f.Chain)
      ensures Linked(g)
    {
      assert g in fs && g != f;
    }
    ChainSteady(f);
    assert f.data.pbData == null || f.data.pbData !in BuffersOf(init) by {
      if f.data.pbData != null {
        forall g | g in init && g.data.pbData != null
          ensures g.data.pbData != f.data.pbData
        {
          if g.data.pbData == old(g.data.pbData) {
            assert old(g.data.pbData) in old(BuffersOf(init));
          }
        }
      }
    }
    if f.refFile == null {
      assert f.Expected() == old(f.Expected());
      forall i | 0 <= i < |init|
        ensures init[i].name == old(init[i].name)
      {
        assert init[i] in init;
      }
    }
  }

  /** The loaded file, listed last, still joins the files before it. */
  twostate lemma LoadedJoins(fs: seq<MsiFile>)
    requires fs != [] && old(Joins(fs[..|fs| - 1], fs[|fs| - 1])) && old(fs[|fs| - 1].refFile) == null && Reloaded(fs[|fs| - 1])
    requires forall g | g in fs && g != fs[|fs| - 1] :: Steady(g)
    ensures Joins(fs[..|fs| - 1], fs[|fs| - 1])
  {
    var init, t := fs[..|fs| - 1], fs[|fs| - 1];
    assert forall g | g in init :: g in fs && g != t;
    assert BuffersOf(init) == old(BuffersOf(init));
    forall i | 0 <= i < |init|
      ensures init[i].name == old(init[i].name)
    {
      assert init[i] in init;
    }
  }

  /**
   * A file list stays one when one of its files that refers to no other was
   * loaded and nothing else of the list changed.
   */
  twostate lemma {:induction false} FileListLoaded(fs: seq<MsiFile>)
    requires old(FileList(fs))
    requires exists t | t in fs :: old(t.refFile) == null && Reloaded(t) && forall g | g in fs && g != t :: Steady(g)
    ensures FileList(fs)
    decreases |fs|
  {
    var init, last := fs[..|fs| - 1], fs[|fs| - 1];
    var t :| t in fs && old(t.refFile) == null && Reloaded(t) && forall g | g in fs && g != t :: Steady(g);
    assert fs == init + [last];
    if t != last {
      assert t in init && Steady(last);
      assert forall g | g in init :: g in fs;
      FileListLoaded(init);
      forall g | g in fs && g != last
        ensures Framed(g)
      {
        if g != t {
          assert Steady(g);
        }
      }
      LastAfterLoad(fs);
    } else {
      assert forall g | g in init :: g in fs && g != t;
      FileListSteady(init);
      LoadedJoins(fs);
    }
  }

  /** The other files of a file list have other blobs and other buffers than t. */
  lemma ListedApart(fs: seq<MsiFile>, t: MsiFile)
    requires FileList(fs) && t in fs
    ensures forall g | g in fs && g != t :: g.data != t.data && (g.data.pbData == null || g.data.pbData != t.data.pbData)
  {
    FileListDistinct(fs);
    forall g | g in fs && g != t
      ensures g.data != t.data && (g.data.pbData == null || g.data.pbData != t.data.pbData)
    {
      var i :| 0 <= i < |fs| && fs[i] == g;
      var j :| 0 <= j < |fs| && fs[j] == t;
      assert i < j || j < i;
    }
  }

  /**
   * LoadFileSize on a file of a list whose target is apart from the others:
   * the target loads its size, and every other file of the list is as it was.
   */
  method LoadListedSize(f: MsiFile, ghost t: MsiFile, ghost fs: seq<MsiFile>) returns (err: nat)
    requires f.ChainValid() && t == f.Target() && t in fs && t.Local()
    requires forall g | g in fs && g != t :: g.data != t.data && (g.data.pbData == null || g.data.pbData != t.data.pbData)
    modifies t`fileSize, t.Buffer()
    ensures f.ChainValid() && t == f.Target()
    ensures t.LoadOutcome(false, err, old(t.fileSize), old(t.data.cbData))
    ensures Reloaded(t) && t.data.pbData == old(t.data.pbData)
    ensures forall g | g in fs && g != t :: Steady(g)
    ensures forall g | g in fs :: g.refs == old(g.refs)
  {
    err := f.LoadFileInternal(false);
  }

  /**
   * LoadFileData on a file of a list whose target is apart from the others:
   * only the target's blob changes, and every other file of the list is as it was.
   */
  method LoadListedData(f: MsiFile, ghost t: MsiFile, ghost fs: seq<MsiFile>, heapOk: bool) returns (err: nat)
    requires f.ChainValid() && t == f.Target() && t in fs && t.Local()
    requires forall g | g in fs && g != t :: g.data != t.data && (g.data.pbData == null || g.data.pbData != t.data.pbData)
    modifies t.data
    ensures f.ChainValid() && t == f.Target()
    ensures err == ERROR_SUCCESS <==> old(t.data.cbData) >= t.fileSize || (heapOk && t.Loads(true))
    ensures err == ERROR_SUCCESS ==> t.data.cbData == t.fileSize && (t.fileSize > 0 ==> t.data.pbData != null)
    ensures Reloaded(t)
    ensures forall g | g in fs && g != t :: Steady(g)
  {
    err := f.LoadFileData(heapOk);
  }

  /**
   * A file list stays one when the target of one of its files was reloaded
   * and every other file is steady.
   */
  twostate lemma FileListSized(fs: seq<MsiFile>)
    requires old(FileList(fs))
    requires exists t | t in fs :: old(t.refFile) == null && Reloaded(t) && forall g | g in fs && g != t :: Steady(g)
    ensures FileList(fs)
  {
    FileListLoaded(fs);
  }

  /** The files are the entries: the same table of ts, type and handle, position by position. */
  ghost predicate ListsOf(fs: seq<MsiFile>, es: seq<Entry>, ts: seq<MsiTable>)
    reads fs`fileType, fs`handle
  {
    |fs| == |es| &&
    forall k | 0 <= k < |fs| ::
      es[k].table < |ts| && fs[k].table == ts[es[k].table] && fs[k].fileType == es[k].fileType && fs[k].handle == es[k].handle
  }

  /** None of the files holds a buffer yet. */
  ghost predicate Unloaded(fs: seq<MsiFile>)
    reads BlobsOf(fs)`pbData
  {
    forall f | f in fs :: f.data.pbData == null
  }

  lemma ListsAppend(fs: seq<MsiFile>, es: seq<Entry>, ts: seq<MsiTable>, f: MsiFile, e: Entry)
    requires ListsOf(fs, es, ts) && Unloaded(fs)
    requires e.table < |ts| && f.table == ts[e.table] && f.fileType == e.fileType && f.handle == e.handle && f.data.pbData == null
    ensures ListsOf(fs + [f], es + [e], ts) && Unloaded(fs + [f])
  {
  }

  // ===========================================================================
  // TMsiDatabase

  class MsiDatabase {
    /** The opened MSI database, the archive's file time and which allocations succeed. */
    const source: Database
    const fileTime: FileTime
    const alloc: AllocSite -> bool
    var tableNames: seq<WString>
    var cursor: Cursor
    var lastFile: MsiFile?
    var tables: seq<MsiTable>
    var files: seq<MsiFile>
    var tableCount: nat
    var fileCount: nat
    var refs: int

    /** A new database: nothing discovered, nothing pinned, one reference. */
    constructor(source: Database, fileTime: FileTime, alloc: AllocSite -> bool)
      ensures this.source == source && this.fileTime == fileTime && this.alloc == alloc
      ensures tableNames == [] && cursor == NotStarted && lastFile == null && tables == [] && files == []
      ensures tableCount == 0 && fileCount == 0 && refs == 1
    {
      this.source := source;
      this.fileTime := fileTime;
      this.alloc := alloc;
      tableNames := [];
      cursor := NotStarted;
      lastFile := null;
      tables := [];
      files := [];
      tableCount := 0;
      fileCount := 0;
      refs := 1;
    }

    method AddRef() returns (r: int)
      modifies this`refs
      ensures refs == old(refs) + 1 && r == refs
    {
      refs := refs + 1;
      r := refs;
    }

    /** Release: one reference less; the destructor only closes the MSI handle. */
    method Release() returns (r: int)
      modifies this`refs
      ensures r == old(refs) - 1 && refs == r
    {
      refs := refs - 1;
      r := refs;
    }

    /**
     * FromHandle: the database a plugin handle stands for, with a reference
     * for the caller. A handle is the database itself or null, which stands
     * for every handle the signature check rejects.
     */
    static method FromHandle(h: MsiDatabase?) returns (db: MsiDatabase?)
      requires h != null ==> h.Valid()
      modifies (if h == null then {} else {h as MsiDatabase})`refs
      ensures db == h
      ensures h != null ==> h.refs == old(h.refs) + 1 && h.Valid()
    {
      db := h;
      if h != null {
        label entered:
        var _ := h.AddRef();
        FileListSteady@entered(h.files);
      }
    }

    /** UnlockAndRelease: the caller's reference goes; the lock is not part of this model. */
    method UnlockAndRelease()
      requires Valid()
      modifies this`refs
      ensures refs == old(refs) - 1 && Valid()
      ensures old(Discovered()) ==> Discovered()
      ensures lastFile != null && old(lastFile.ChainValid()) ==>
        lastFile.ChainValid() && lastFile.Target() == old(lastFile.Target()) && lastFile.FileSize() == old(lastFile.FileSize())
    {
      label entered:
      var _ := Release();
      FileListSteady@entered(files);
      if lastFile != null && old(lastFile.ChainValid()) {
        TargetSteady@entered(lastFile);
      }
      if old(Discovered()) {
        DiscoveredKept@entered();
      }
    }

    /** The invariant survives a step that changes none of the objects it reads. */
    twostate lemma ValidUntouched()
      requires old(Valid())
      requires unchanged(this)
      requires unchanged(old(FileSet(files)), old(TablesOf(files)), old(BlobsOf(files)), old(BuffersOf(files)))
      ensures Valid()
    {
    }

    ghost function FileObjects(): set<MsiFile>
      reads this`files
    {
      FileSet(files)
    }

    ghost function TableObjects(): set<MsiTable>
      reads this`tables
    {
      set t | t in tables
    }

    /** The names of the listed files, in list order. */
    ghost function Names(): (r: seq<WString>)
      reads this`files, files`name
      ensures |r| == |files| && forall i | 0 <= i < |files| :: r[i] == files[i].name
    {
      NamesOf(files)
    }

    ghost function NamesOf(fs: seq<MsiFile>): (r: seq<WString>)
      reads fs`name
      ensures |r| == |fs| && forall i | 0 <= i < |fs| :: r[i] == fs[i].name
    {
      if fs == [] then [] else NamesOf(fs[..|fs| - 1]) + [fs[|fs| - 1].name]
    }

    lemma NamesAre(ns: seq<WString>)
      requires NamedAs(files, ns)
      ensures Names() == ns
    {
    }

    /**
     * IsFilePresent: the first listed file whose name equals the given one
     * ignoring case, or null when there is none.
     */
    method IsFilePresent(s: WString) returns (f: MsiFile?)
      ensures f == null <==> FirstMatch(Names(), s).None?
      ensures f != null ==> f == files[FirstMatch(Names(), s).value]
    {
      ghost var names := Names();
      for i := 0 to |files|
        invariant forall j | 0 <= j < i :: !SameIgnoringCase(names[j], s)
      {
        if SameIgnoringCase(files[i].name, s) {
          assert FirstMatch(names, s) == Some(i);
          return files[i];
        }
      }
      return null;
    }

    /** Every listed file has a valid chain of listed files. */
    ghost predicate Chains()
      reads this`files, FileSet(files)`refFile, FileSet(files)`Chain
    {
      ChainsIn(files)
    }

    /**
     * The listed file a stream name of a table refers to: only in _Streams,
     * only for a name with a dot, the file named like it with its first dot
     * replaced by a backslash.
     */
    ghost function ReferenceOf(t: MsiTable, item: WString): (r: Option<nat>)
      reads this`files, files`name
      ensures r.Some? ==> r.value < |files|
    {
      var dot := FirstDot(item);
      if t.isStreamsTable && dot.Some? then FirstMatch(Names(), ReferencedName(item, dot.value)) else None
    }

    /** FindReferencedFile: the file of ReferenceOf, and the alias name "<table>\<text after the first dot>". */
    method FindReferencedFile(t: MsiTable, item: WString) returns (ref: MsiFile?, alias: WString)
      ensures ref == null <==> ReferenceOf(t, item).None?
      ensures ref != null ==> ref == files[ReferenceOf(t, item).value] && alias == AliasName(t.name, item, FirstDot(item).value)
    {
      ref, alias := null, [];
      if t.isStreamsTable {
        var dot := FirstDot(item);
        if dot.Some? {
          ref := IsFilePresent(ReferencedName(item, dot.value));
          if ref != null {
            alias := AliasName(t.name, item, dot.value);
          }
        }
      }
    }

    // -------------------------------------------------------------------------
    // Invariants of the lists

    /** The list holds a reference on every file, and the pin one more on the last file listed. */
    ghost predicate RefsOk()
      reads this`files, this`lastFile, files`refs
    {
      forall f | f in files :: f.refs >= (if f == lastFile then 2 else 1)
    }

    /** The file list: counted, and a file list of the tables. */
    ghost predicate Listing()
      reads this`files, this`fileCount, this`tables, FileSet(files)`refFile, FileSet(files)`Chain, files`name
      reads files`fileType, files`handle, files`fileSize
      reads TablesOf(files)`columns, TablesOf(files)`streamColumn, BlobsOf(files)`pbData, BlobsOf(files)`cbData, BuffersOf(files)
    {
      fileCount == |files| && FileList(files) && forall f | f in files :: f.table in tables
    }

    /** The state between two tables of LoadFiles: the list as above, listing the entries es, and no pin. */
    ghost predicate Loading(es: seq<Entry>)
      reads this`files, this`fileCount, this`tables, this`lastFile, FileSet(files)`refFile, FileSet(files)`Chain, files`name
      reads files`fileType, files`handle, files`fileSize, files`refs
      reads TablesOf(files)`columns, TablesOf(files)`streamColumn, BlobsOf(files)`pbData, BlobsOf(files)`cbData, BuffersOf(files)
    {
      Listing() && RefsOk() && lastFile == null && Lists(files, es)
    }

    /** The table list: counted, distinct, every table of this database. */
    ghost predicate TablesOk()
      reads this`tables, this`tableCount
    {
      tableCount == |tables| && (forall i, j | 0 <= i < j < |tables| :: tables[i] != tables[j]) &&
      forall t | t in tables :: t.db == this
    }

    /** The table names are free of duplicates, ignoring case. */
    ghost predicate NamesOk()
      reads this`tableNames
    {
      NoCaseDuplicates(tableNames)
    }

    /**
     * The database invariant: both lists as above, the table names free of
     * duplicates, nothing discovered before the cursor is set, the cursor
     * inside the file list, and the pin on the file listed last.
     */
    ghost predicate Valid()
      reads this, FileSet(files)`refFile, FileSet(files)`Chain, files`name, files`fileType, files`handle, files`fileSize, files`refs
      reads TablesOf(files)`columns, TablesOf(files)`streamColumn, BlobsOf(files)`pbData, BlobsOf(files)`cbData, BuffersOf(files)
    {
      Listing() && RefsOk() && TablesOk() && NamesOk() &&
      (cursor.NotStarted? ==> tableNames == [] && tables == [] && files == []) &&
      (cursor.At? ==> cursor.index <= |files|) &&
      (cursor.Dangling? ==> tables == [] && files == []) &&
      (lastFile != null ==> cursor.At? && 0 < cursor.index && lastFile == files[cursor.index - 1])
    }

    /** The descriptions LoadFiles reads of the tables, in list order. */
    ghost function Infos(ts: seq<MsiTable>): (r: seq<TableInfo>)
      reads ts`columns, ts`streamColumn, ts`nameColumn
      ensures |r| == |ts| && forall i | 0 <= i < |ts| :: r[i] == ts[i].Info()
    {
      if ts == [] then [] else Infos(ts[..|ts| - 1]) + [ts[|ts| - 1].Info()]
    }

    /** The descriptions stay while the tables keep their columns. */
    twostate lemma InfosSteady(ts: seq<MsiTable>)
      requires forall t | t in ts :: t.columns == old(t.columns) && t.streamColumn == old(t.streamColumn) && t.nameColumn == old(t.nameColumn)
      ensures Infos(ts) == old(Infos(ts))
    {
      assert forall k | 0 <= k < |ts| :: ts[k] in ts;
    }

    /** The files are the entries of the tables, none of them holding a buffer yet. */
    ghost predicate Lists(fs: seq<MsiFile>, es: seq<Entry>)
      reads this`tables, fs`fileType, fs`handle, BlobsOf(fs)`pbData
    {
      ListsOf(fs, es, tables) && Unloaded(fs)
    }

    /**
     * The tables are the ones LoadTables keeps for the names: for each kept
     * name, in order, a table of that name on its view, loaded.
     */
    ghost predicate Retained()
      reads this`tableNames, this`tables, tables`columns, tables`streamColumn, tables`nameColumn
    {
      var kept := TablesFrom(tableNames, source, alloc, 0).0;
      |tables| == |kept| &&
      forall k | 0 <= k < |kept| ::
        kept[k] < |tableNames| && tableNames[kept[k]] in source.views &&
        tables[k].name == tableNames[kept[k]] && tables[k].view == source.views[tableNames[kept[k]]] && tables[k].Loaded()
    }

    // -------------------------------------------------------------------------
    // Discovery

    /**
     * LoadTableNames: the names of the _Validation rows, each added when new
     * ignoring case, then "_Streams" when that table opens and is new.
     * ERROR_NO_MORE_ITEMS when the list stays empty.
     */
    method LoadTableNames() returns (err: nat)
      modifies this`tableNames
      ensures tableNames == TableNamesAfter(old(tableNames), source)
      ensures err == TableNamesCode(tableNames)
    {
      if VALIDATION in source.views {
        var view := source.views[VALIDATION];
        if view.executeCode == ERROR_SUCCESS {
          var rows := view.rows;
          for i := 0 to |rows|
            invariant tableNames == AddRows(old(tableNames), rows[..i])
          {
            assert rows[..i + 1][..i] == rows[..i];
            var got := RecordGetString(rows[i], 0, [], true);
            if got.0 {
              var present := FindStringInList(tableNames, got.1);
              if !present {
                tableNames := tableNames + [got.1];
              }
            }
          }
          assert rows[..|rows|] == rows;
        }
      }
      if STREAMS in source.views {
        var present := FindStringInList(tableNames, STREAMS);
        if !present {
          tableNames := tableNames + [STREAMS];
        }
      }
      err := if |tableNames| > 0 then ERROR_SUCCESS else ERROR_NO_MORE_ITEMS;
    }

    /** A table LoadTables keeps: of this database, on the name's view, loaded, with the list's reference only. */
    ghost predicate Kept(t: MsiTable, name: WString)
      reads t`columns, t`streamColumn, t`nameColumn, t`refs
    {
      name in source.views && t.db == this && t.name == name && t.view == source.views[name] && t.Loaded() && t.refs == 1
    }

    /**
     * The body of LoadTables for one name whose view opens: a new table,
     * given back when it loads and released (giving back its reference on
     * the database) when it does not.
     */
    method OpenTable(name: WString) returns (t: MsiTable?)
      requires name in source.views
      modifies this`refs
      ensures t == null <==> ColumnsCode(source.views[name]) != ERROR_SUCCESS
      ensures t != null ==> fresh(t) && Kept(t, name) && refs == old(refs) + 1
      ensures t == null ==> refs == old(refs)
    {
      t := new MsiTable(this, name, source.views[name]);
      var e := t.Load();
      if e != ERROR_SUCCESS {
        var _ := t.Release();
        t := null;
      }
    }

    /**
     * The state of LoadTables before name i, relative to the tables t0, the
     * count c0 and the database references r0 it started with: the tables
     * kept so far are the ones TablesFrom keeps before i, each new and
     * loaded, and the rest of TablesFrom is still to come.
     */
    ghost predicate TablesSoFar(t0: seq<MsiTable>, c0: nat, r0: int, i: nat, kept: seq<nat>)
      reads this`tableNames, this`tables, this`tableCount, this`refs
      reads tables`columns, tables`streamColumn, tables`nameColumn, tables`refs
    {
      i <= |tableNames| &&
      TablesFrom(tableNames, source, alloc, 0).0 == kept + TablesFrom(tableNames, source, alloc, i).0 &&
      TablesFrom(tableNames, source, alloc, 0).1 == TablesFrom(tableNames, source, alloc, i).1 &&
      |tables| == |t0| + |kept| && tables[..|t0|] == t0 &&
      (forall k | 0 <= k < |kept| :: kept[k] < |tableNames| && Kept(tables[|t0| + k], tableNames[kept[k]])) &&
      (forall j, k | 0 <= j < k < |tables| && |t0| <= k :: tables[j] != tables[k]) &&
      tableCount == c0 + |kept| && refs == r0 + |kept|
    }

    /** One name of LoadTables: stop on a failed allocation, otherwise open the table and keep it when it loads. */
    method LoadTableAt(ghost t0: seq<MsiTable>, ghost c0: nat, ghost r0: int, i: nat, ghost kept: seq<nat>)
      returns (stop: bool, ghost kept': seq<nat>)
      requires i < |tableNames| && TablesSoFar(t0, c0, r0, i, kept)
      modifies this`tables, this`tableCount, this`refs
      ensures !stop ==> TablesSoFar(t0, c0, r0, i + 1, kept')
      ensures stop ==> TablesSoFar(t0, c0, r0, i, kept) && TablesFrom(tableNames, source, alloc, i) == ([], ERROR_NOT_ENOUGH_MEMORY)
      ensures forall t | t in tables :: t in old(tables) || fresh(t)
    {
      kept' := kept;
      var name := tableNames[i];
      if name !in source.views {
        return false, kept';
      }
      if !alloc(TableObject(i)) {
        return true, kept';
      }
      ghost var rest := TablesFrom(tableNames, source, alloc, i + 1);
      var t := OpenTable(name);
      if t != null {
        tables := tables + [t];
        tableCount := tableCount + 1;
        assert TablesFrom(tableNames, source, alloc, i).0 == [i] + rest.0;
        kept' := kept + [i];
      }
      stop := false;
    }

    /**
     * LoadTables: a table object for every name whose view opens; a table is
     * kept when it loads and released otherwise. A failed allocation stops
     * the loop with ERROR_NOT_ENOUGH_MEMORY; the tables kept so far stay.
     */
    method LoadTables() returns (err: nat)
      modifies this`tables, this`tableCount, this`refs
      ensures err == TablesFrom(tableNames, source, alloc, 0).1
      ensures var kept := TablesFrom(tableNames, source, alloc, 0).0;
        |tables| == |old(tables)| + |kept| && tables[..|old(tables)|] == old(tables) &&
        forall k | 0 <= k < |kept| :: kept[k] < |tableNames| && Kept(tables[|old(tables)| + k], tableNames[kept[k]])
      ensures forall j, k | 0 <= j < k < |tables| && |old(tables)| <= k :: tables[j] != tables[k]
      ensures forall t | t in tables :: t in old(tables) || fresh(t)
      ensures tableCount == old(tableCount) + (|tables| - |old(tables)|)
      ensures refs == old(refs) + (|tables| - |old(tables)|)
    {
      ghost var kept: seq<nat> := [];
      var i := 0;
      while i < |tableNames|
        invariant TablesSoFar(old(tables), old(tableCount), old(refs), i, kept)
        invariant forall t | t in tables :: t in old(tables) || fresh(t)
      {
        var stop;
        stop, kept := LoadTableAt(old(tables), old(tableCount), old(refs), i, kept);
        if stop {
          return ERROR_NOT_ENOUGH_MEMORY;
        }
        i := i + 1;
      }
      err := ERROR_SUCCESS;
    }

    /**
     * InsertTailList and the count increment: a new file joins the end of
     * the list, provided its chain is listed and, when it refers to no other
     * file, its contents are consistent and its name is new. Its name is
     * the one its entry gets against the names ns listed before.
     */
    method InsertFile(f: MsiFile, ghost e: Entry, ghost es: seq<Entry>, ghost infos: seq<TableInfo>, ghost ns: seq<WString>)
      requires Listing() && RefsOk() && lastFile == null && Lists(files, es)
      requires Joins(files, f) && f.refs >= 1
      requires e.table < |tables| && f.table == tables[e.table] && f.fileType == e.fileType && f.handle == e.handle
      requires f.data.pbData == null
      requires NamedAs(files, ns) && NamesFit(infos, es, ns)
      requires e.table < |infos| && ChosenName(ns, infos[e.table], e.fileType, e.handle, f.name)
      modifies this`files, this`fileCount
      ensures files == old(files) + [f] && fileCount == old(fileCount) + 1
      ensures Listing() && RefsOk() && Lists(files, es + [e])
      ensures NamedAs(files, ns + [f.name]) && NamesFit(infos, es + [e], ns + [f.name])
    {
      FileListAppend(files, f);
      ListsAppend(files, es, tables, f, e);
      NamesFitAppend(infos, es, ns, e, f.name);
      // the buffers FileList reads are arrays, never this database
      ghost var buffers: set<object> := BuffersOf(files + [f]);
      assert this !in buffers;
      files := files + [f];
      fileCount := fileCount + 1;
    }

    /**
     * The allocation and SetBinaryFile call of one row of
     * LoadMultipleStreamFiles: a new file of the table, not listed, bound to
     * the row when the row has a name, under the name the row's entry gets
     * against the listed names ns. Only an alias takes a reference on a
     * listed file, and nothing else of the listed files changes.
     */
    method NewStreamFile(t: MsiTable, rec: Record, ghost ns: seq<WString>) returns (f: MsiFile, ok: bool)
      requires FileList(files) && NamedAs(files, ns)
      modifies t`refs, FileObjects()`refs
      ensures ok <==> ItemName(t.Info(), rec).Some?
      ensures fresh(f) && fresh(f.data) && f.table == t && f.refs == 1
      ensures f.fileSize == 0 && f.data.pbData == null && f.data.cbData == 0
      ensures !ok ==> f.refFile == null && f.Chain == []
      ensures ok ==>
        f.fileType == BinaryFile && f.handle == RecordHandle(rec) && f.ChainValid() && (forall g | g in f.Chain :: g in files) &&
        (f.refFile == null ==> forall i | 0 <= i < |files| :: !SameIgnoringCase(files[i].name, f.name))
      ensures ok ==> ChosenName(ns, t.Info(), BinaryFile, RecordHandle(rec), f.name)
      ensures forall g | g in files :: g.refs == old(g.refs) + (if ok && g == f.refFile then 1 else 0)
      ensures FileList(files) && NamedAs(files, ns)
    {
      f := NewFile(t);
      FileListChains(files);
      NamesAre(ns);
      label created:
      ok := BindStream(f, rec);
      FileListSteady@created(files);
      assert forall k | 0 <= k < |files| :: files[k] in files;
    }

    /** A new file of the table, not listed; nothing the list reads changes. */
    method NewFile(t: MsiTable) returns (f: MsiFile)
      requires FileList(files)
      modifies t`refs
      ensures fresh(f) && fresh(f.data) && f.table == t && f.refs == 1 && f.refFile == null && f.Chain == []
      ensures f.fileSize == 0 && f.data.pbData == null && f.data.cbData == 0
      ensures FileList(files) && forall g | g in files :: g.refs == old(g.refs)
    {
      f := new MsiFile(t);
      FileListSteady(files);
    }

    /** The SetBinaryFile call of NewStreamFile, for a file not listed: what the rest of the loading needs of it. */
    method BindStream(f: MsiFile, rec: Record) returns (ok: bool)
      requires Chains() && f !in files && f.refFile == null && f.Chain == []
      modifies f`refFile, f`Chain, f`name, f`fileType, f`handle, FileObjects()`refs
      ensures ok <==> ItemName(f.table.Info(), rec).Some?
      ensures !ok ==> f.refFile == null && f.Chain == []
      ensures ok ==> f.fileType == BinaryFile && f.handle == RecordHandle(rec) && f.ChainValid() && forall g | g in f.Chain :: g in files
      ensures ok && f.refFile == null ==> forall i | 0 <= i < |files| :: !SameIgnoringCase(files[i].name, f.name)
      ensures ok ==> ChosenName(old(Names()), f.table.Info(), BinaryFile, RecordHandle(rec), f.name)
      ensures forall g | g in files :: g.refs == old(g.refs) + (if ok && g == f.refFile then 1 else 0)
      ensures forall g | g in files :: Steady(g)
    {
      ghost var names := Names();
      var err, tries := f.SetBinaryFile(this, rec);
      ok := err == ERROR_SUCCESS;
      assert Names() == names;
      if ok {
        var item := ItemName(f.table.Info(), rec).value;
        if Alias(names, f.table.name, item).None? {
          var parts := SplitExtension(FileSafe(item));
          assert FirstFree(names, f.table.name, parts.0, parts.1, tries);
        }
      }
    }

    /**
     * Release of a file that is not listed, refers to no other and holds its
     * only reference: it goes, with its references on its table and on the
     * table's database; the list and its counts stay.
     */
    method Discard(f: MsiFile)
      requires Listing() && f !in files && f.refFile == null && f.Chain == [] && f.refs == 1 && f.table.db == this
      modifies f`refs, f.table`refs, this`refs
      ensures Listing() && forall g | g in files :: g.refs == old(g.refs)
      ensures f.refs == 0 && f.table.refs < old(f.table.refs)
    {
      assert f.Reach() == {f} && f.Tables() == {f.table} && f.Dbs() == {this};
      var _ := f.Release();
      FileListSteady(files);
    }

    /**
     * One row of LoadMultipleStreamFiles whose file object is allocated: a
     * new binary file of the table for the row, listed under the name its
     * entry gets when SetBinaryFile succeeds, and released otherwise.
     */
    method AddStreamFile(t: MsiTable, rec: Record, ghost ti: nat, ghost es: seq<Entry>, ghost infos: seq<TableInfo>, ghost ns: seq<WString>)
      returns (ok: bool, ghost name: WString)
      requires Listing() && RefsOk() && lastFile == null
      requires ti < |tables| && tables[ti] == t && t.db == this && Lists(files, es)
      requires ti < |infos| && infos[ti] == t.Info() && NamedAs(files, ns) && NamesFit(infos, es, ns)
      modifies this`files, this`fileCount, this`refs, t`refs, FileObjects()`refs
      ensures Listing() && RefsOk()
      ensures ok <==> ItemName(t.Info(), rec).Some?
      ensures ok ==> Lists(files, es + [Entry(ti, BinaryFile, RecordHandle(rec))])
      ensures ok ==> NamedAs(files, ns + [name]) && NamesFit(infos, es + [Entry(ti, BinaryFile, RecordHandle(rec))], ns + [name])
      ensures !ok ==> files == old(files) && NamedAs(files, ns)
      ensures forall g | g in files :: g in old(files) || fresh(g)
    {
      var f;
      f, ok := NewStreamFile(t, rec, ns);
      name := f.name;
      if ok {
        ListStreamFile(f, t, rec, ti, es, infos, ns);
      } else {
        Discard(f);
      }
    }

    /** A stream file bound to its row joins the list as the row's entry, under the name that entry gets. */
    method ListStreamFile(f: MsiFile, t: MsiTable, rec: Record, ghost ti: nat, ghost es: seq<Entry>, ghost infos: seq<TableInfo>,
                          ghost ns: seq<WString>)
      requires Listing() && RefsOk() && lastFile == null
      requires ti < |tables| && tables[ti] == t && Lists(files, es)
      requires ti < |infos| && infos[ti] == t.Info() && NamedAs(files, ns) && NamesFit(infos, es, ns)
      requires f !in files && f.data !in BlobsOf(files) && f.table == t && f.refs == 1
      requires f.fileSize == 0 && f.data.pbData == null && f.data.cbData == 0
      requires f.fileType == BinaryFile && f.handle == RecordHandle(rec) && f.ChainValid() && (forall g | g in f.Chain :: g in files)
      requires f.refFile == null ==> forall i | 0 <= i < |files| :: !SameIgnoringCase(files[i].name, f.name)
      requires ChosenName(ns, t.Info(), BinaryFile, RecordHandle(rec), f.name)
      modifies this`files, this`fileCount
      ensures files == old(files) + [f]
      ensures Listing() && RefsOk() && Lists(files, es + [Entry(ti, BinaryFile, RecordHandle(rec))])
      ensures NamedAs(files, ns + [f.name]) && NamesFit(infos, es + [Entry(ti, BinaryFile, RecordHandle(rec))], ns + [f.name])
    {
      InsertFile(f, Entry(ti, BinaryFile, RecordHandle(rec)), es, infos, ns);
    }

    /**
     * LoadMultipleStreamFiles: when the table's view executes, one binary
     * file per fetched row, in fetch order, for every row whose file object
     * is allocated and whose name can be read, each named as its entry gets
     * against the names listed before it. The result is the execute code,
     * or the code of the last SetBinaryFile call.
     */
    method LoadMultipleStreamFiles(t: MsiTable, ghost ti: nat, ghost es: seq<Entry>, ghost infos: seq<TableInfo>, ghost ns: seq<WString>)
      returns (err: nat, ghost ns': seq<WString>)
      requires Listing() && RefsOk() && lastFile == null
      requires ti < |tables| && tables[ti] == t && t.db == this && Lists(files, es)
      requires ti < |infos| && infos[ti] == t.Info() && NamedAs(files, ns) && NamesFit(infos, es, ns)
      modifies this`files, this`fileCount, this`refs, t`refs, FileObjects()`refs
      ensures Listing() && RefsOk()
      ensures err == StreamFilesCode(t.Info(), alloc)
      ensures Lists(files, es + RowEntries(t.Info(), ti, Fetched(t.view), alloc, 0))
      ensures NamedAs(files, ns') && NamesFit(infos, es + RowEntries(t.Info(), ti, Fetched(t.view), alloc, 0), ns')
      ensures forall g | g in files :: g in old(files) || fresh(g)
    {
      ghost var added: seq<Entry> := [];
      ghost var info := t.Info();
      ns' := ns;
      err := t.view.executeCode;
      assert es + added == es;
      if err == ERROR_SUCCESS {
        var rows := t.view.rows;
        for r := 0 to |rows|
          invariant Listing() && RefsOk() && Lists(files, es + added) && t.Info() == info
          invariant NamedAs(files, ns') && NamesFit(infos, es + added, ns') && err == BindCode(info, rows, alloc, r)
          invariant forall g | g in files :: g in old(files) || fresh(g)
          invariant added + RowEntries(info, ti, rows, alloc, r) == RowEntries(info, ti, rows, alloc, 0)
        {
          err, added, ns' := LoadStreamRow(t, info, rows, r, ti, es, added, infos, ns', err);
        }
        assert Fetched(t.view) == rows && t.Info() == info;
        assert RowEntries(info, ti, rows, alloc, |rows|) == [] && added + [] == added;
      } else {
        assert RowEntries(info, ti, Fetched(t.view), alloc, 0) == [] && es + added == es;
      }
    }

    /**
     * One row of LoadMultipleStreamFiles: a file for the row when its file
     * object is allocated and AddStreamFile lists it; the ghost added grows
     * by that row's entry and the names by its name.
     */
    method LoadStreamRow(t: MsiTable, ghost info: TableInfo, rows: seq<Record>, r: nat, ghost ti: nat, ghost es: seq<Entry>, ghost added: seq<Entry>,
                         ghost infos: seq<TableInfo>, ghost ns: seq<WString>, err: nat)
      returns (err': nat, ghost added': seq<Entry>, ghost ns': seq<WString>)
      requires Listing() && RefsOk() && lastFile == null && Lists(files, es + added) && t.Info() == info
      requires ti < |tables| && tables[ti] == t && t.db == this && r < |rows|
      requires ti < |infos| && infos[ti] == info && NamedAs(files, ns) && NamesFit(infos, es + added, ns)
      requires added + RowEntries(info, ti, rows, alloc, r) == RowEntries(info, ti, rows, alloc, 0)
      modifies this`files, this`fileCount, this`refs, t`refs, FileObjects()`refs
      ensures Listing() && RefsOk() && Lists(files, es + added') && t.Info() == info
      ensures NamedAs(files, ns') && NamesFit(infos, es + added', ns')
      ensures err' == (if !alloc(StreamFile(t.name, r)) then err else if ItemName(info, rows[r]).Some? then ERROR_SUCCESS else ERROR_NOT_SUPPORTED)
      ensures forall g | g in files :: g in old(files) || fresh(g)
      ensures added' + RowEntries(info, ti, rows, alloc, r + 1) == RowEntries(info, ti, rows, alloc, 0)
    {
      ghost var entry := RowEntry(info, ti, rows, alloc, r);
      RowEntriesStep(info, ti, rows, alloc, r, es, added);
      err', ns' := err, ns;
      if alloc(StreamFile(t.name, r)) {
        var ok;
        ok, ns' := AddStreamRow(t, info, rows, r, ti, es + added, infos, ns);
        err' := if ok then ERROR_SUCCESS else ERROR_NOT_SUPPORTED;
      } else {
        assert es + added + entry == es + added;
      }
      added' := added + entry;
    }

    /** A row of LoadMultipleStreamFiles whose file object is allocated: AddStreamFile, with the row's entry as the result. */
    method AddStreamRow(t: MsiTable, ghost info: TableInfo, rows: seq<Record>, r: nat, ghost ti: nat, ghost es: seq<Entry>,
                        ghost infos: seq<TableInfo>, ghost ns: seq<WString>)
      returns (ok: bool, ghost ns': seq<WString>)
      requires Listing() && RefsOk() && lastFile == null && Lists(files, es) && t.Info() == info
      requires ti < |tables| && tables[ti] == t && t.db == this && r < |rows| && alloc(StreamFile(t.name, r))
      requires ti < |infos| && infos[ti] == info && NamedAs(files, ns) && NamesFit(infos, es, ns)
      modifies this`files, this`fileCount, this`refs, t`refs, FileObjects()`refs
      ensures Listing() && RefsOk() && t.Info() == info
      ensures ok <==> ItemName(info, rows[r]).Some?
      ensures Lists(files, es + RowEntry(info, ti, rows, alloc, r))
      ensures NamedAs(files, ns') && NamesFit(infos, es + RowEntry(info, ti, rows, alloc, r), ns')
      ensures forall g | g in files :: g in old(files) || fresh(g)
    {
      ghost var name;
      ok, name := AddStreamFile(t, rows[r], ti, es, infos, ns);
      ns' := if ok then ns + [name] else ns;
      if !ok {
        assert es + [] == es;
      }
    }

    /** The allocation and SetCsvFile call of LoadSimpleCsvFile: a new CSV file of the table, not listed. */
    method NewCsvFile(t: MsiTable, ghost ns: seq<WString>) returns (f: MsiFile, err: nat)
      requires NamedAs(files, ns)
      modifies t`refs
      ensures err == ERROR_SUCCESS
      ensures fresh(f) && fresh(f.data) && f.table == t && f.refs == 1 && f.data.pbData == null
      ensures f.refFile == null && f.Chain == [] && f.fileType == TableFile && f.handle == NoHandle && f.Local()
      ensures forall i | 0 <= i < |files| :: !SameIgnoringCase(files[i].name, f.name)
      ensures FreeName(ns, [], t.name, CSV_EXTENSION, f.name)
      ensures forall g | g in files :: Steady(g)
      ensures NamedAs(files, ns)
    {
      f := new MsiFile(t);
      ghost var tries: nat;
      NamesAre(ns);
      err, tries := f.SetCsvFile(this);
      assert FirstFree(ns, [], t.name, CSV_EXTENSION, tries);
    }

    /**
     * LoadSimpleCsvFile: one CSV file for the table when its file object is
     * allocated, under the name its entry gets; ERROR_NOT_ENOUGH_MEMORY
     * otherwise. SetCsvFile cannot fail, so the file is always listed.
     */
    method LoadSimpleCsvFile(t: MsiTable, ghost ti: nat, ghost es: seq<Entry>, ghost infos: seq<TableInfo>, ghost ns: seq<WString>)
      returns (err: nat, ghost ns': seq<WString>)
      requires Listing() && RefsOk() && lastFile == null
      requires ti < |tables| && tables[ti] == t && t.db == this && Lists(files, es)
      requires ti < |infos| && infos[ti] == t.Info() && NamedAs(files, ns) && NamesFit(infos, es, ns)
      modifies this`files, this`fileCount, t`refs
      ensures Listing() && RefsOk()
      ensures err == (if alloc(CsvFile(t.name)) then ERROR_SUCCESS else ERROR_NOT_ENOUGH_MEMORY)
      ensures Lists(files, es + (if alloc(CsvFile(t.name)) then [Entry(ti, TableFile, NoHandle)] else []))
      ensures NamedAs(files, ns') && NamesFit(infos, es + (if alloc(CsvFile(t.name)) then [Entry(ti, TableFile, NoHandle)] else []), ns')
      ensures forall g | g in files :: g in old(files) || fresh(g)
    {
      err, ns' := ERROR_NOT_ENOUGH_MEMORY, ns;
      assert es + [] == es;
      if alloc(CsvFile(t.name)) {
        var f;
        f, err := NewCsvFile(t, ns);
        FileListSteady(files);
        InsertFile(f, Entry(ti, TableFile, NoHandle), es, infos, ns);
        ns' := ns + [f.name];
      }
    }

    /**
     * LoadFiles: the tables in list order, a stream table giving a file per
     * row and every other table one CSV file, each file named as its entry
     * gets against the files listed before it.
     */
    method LoadFiles() returns (err: nat)
      requires Listing() && RefsOk() && TablesOk() && lastFile == null && files == []
      modifies this`files, this`fileCount, this`refs, TableObjects()`refs
      ensures err == ERROR_SUCCESS && Listing() && RefsOk()
      ensures Lists(files, EntriesFrom(Infos(tables), alloc, 0))
      ensures NamesFit(Infos(tables), EntriesFrom(Infos(tables), alloc, 0), Names())
      ensures forall g | g in files :: fresh(g)
    {
      ghost var infos := Infos(tables);
      ghost var es: seq<Entry> := [];
      ghost var ns: seq<WString> := [];
      for i := 0 to |tables|
        invariant Loading(es) && Infos(tables) == infos && forall g | g in files :: fresh(g)
        invariant NamedAs(files, ns) && NamesFit(infos, es, ns)
        invariant es + EntriesFrom(infos, alloc, i) == EntriesFrom(infos, alloc, 0)
      {
        es, ns := LoadTableFiles(i, infos, es, ns);
      }
      assert EntriesFrom(infos, alloc, |tables|) == [] && es == EntriesFrom(infos, alloc, 0);
      NamesAre(ns);
      err := ERROR_SUCCESS;
    }

    /**
     * One table of LoadFiles: the files of its rows for a stream table, one
     * CSV file otherwise; the ghost es grows by the table's entries and ns
     * by their names.
     */
    method LoadTableFiles(i: nat, ghost infos: seq<TableInfo>, ghost es: seq<Entry>, ghost ns: seq<WString>)
      returns (ghost es': seq<Entry>, ghost ns': seq<WString>)
      requires Loading(es) && TablesOk() && Infos(tables) == infos && i < |tables|
      requires NamedAs(files, ns) && NamesFit(infos, es, ns)
      requires es + EntriesFrom(infos, alloc, i) == EntriesFrom(infos, alloc, 0)
      modifies this`files, this`fileCount, this`refs, TableObjects()`refs, FileObjects()`refs
      ensures Loading(es') && Infos(tables) == infos && forall g | g in files :: g in old(files) || fresh(g)
      ensures NamedAs(files, ns') && NamesFit(infos, es', ns')
      ensures es' + EntriesFrom(infos, alloc, i + 1) == EntriesFrom(infos, alloc, 0)
    {
      var t := tables[i];
      EntriesFromStep(infos, alloc, i, es);
      if t.streamColumn != INVALID_SIZE_T && t.nameColumn != INVALID_SIZE_T {
        var _, n := LoadMultipleStreamFiles(t, i, es, infos, ns);
        ns' := n;
      } else {
        var _, n := LoadSimpleCsvFile(t, i, es, infos, ns);
        ns' := n;
      }
      InfosSteady(tables);
      es' := es + TableEntries(infos[i], i, alloc);
    }

    // -------------------------------------------------------------------------
    // Enumeration

    /** What a release of a listed file may touch lies in the lists and this database. */
    lemma ReleaseFrame(f: MsiFile)
      requires Listing() && TablesOk() && f in files
      ensures f.ChainValid() && f.Reach() <= FileObjects() && f.Tables() <= TableObjects() && f.Dbs() <= {this}
    {
      FileListChains(files);
    }

    /**
     * ReleaseLastFile: the pin moves to f, which may be null. The old pinned
     * file gives back the pin's reference (it stays listed, so it survives),
     * f takes one, and f is returned.
     */
    method ReleaseLastFile(f: MsiFile?) returns (r: MsiFile?)
      requires Listing() && RefsOk() && TablesOk()
      requires lastFile != null ==> lastFile in files
      requires f != null ==> f in files
      modifies this`lastFile, this`refs, FileObjects()`refs, TableObjects()`refs
      ensures r == f && lastFile == f
      ensures Listing() && RefsOk()
      ensures forall g | g in files ::
        g.refs == old(g.refs) - (if g == old(lastFile) then 1 else 0) + (if g == f then 1 else 0)
      ensures forall t | t in tables :: t.refs == old(t.refs)
      ensures refs == old(refs)
    {
      if lastFile != null {
        UnpinListed(lastFile);
      }
      // the buffers FileList reads are arrays, never this database
      ghost var buffers: set<object> := BuffersOf(files);
      assert this !in buffers;
      lastFile := null;
      if f != null {
        Pin(f);
      }
      buffers := BuffersOf(files);
      assert this !in buffers;
      lastFile := f;
      r := f;
    }

    /** The AddRef of a listed file; the list stays a file list. */
    method Pin(f: MsiFile)
      requires Listing()
      modifies f`refs
      ensures Listing() && f.refs == old(f.refs) + 1
    {
      var _ := f.AddRef();
      FileListSteady(files);
    }

    /** Unpin for a listed file: the list stays a file list. */
    method UnpinListed(f: MsiFile)
      requires Listing() && TablesOk() && f in files && f.refs >= 2
      modifies FileObjects()`refs, TableObjects()`refs, this`refs
      ensures Listing() && f.refs == old(f.refs) - 1
      ensures forall g | g in files && g != f :: g.refs == old(g.refs)
      ensures forall t | t in tables :: t.refs == old(t.refs)
      ensures refs == old(refs)
    {
      ReleaseFrame(f);
      label unpinning:
      Unpin(f);
      FileListSteady@unpinning(files);
    }

    /** The release of a file that holds another reference: only its own count changes. */
    method Unpin(f: MsiFile)
      requires f.ChainValid() && f.refs >= 2
      requires f.Reach() <= FileObjects() && f.Tables() <= TableObjects() && f.Dbs() <= {this}
      modifies FileObjects()`refs, TableObjects()`refs, this`refs
      ensures f.refs == old(f.refs) - 1
      ensures forall g | g in files && g != f :: g.refs == old(g.refs)
      ensures forall t | t in tables :: t.refs == old(t.refs)
      ensures refs == old(refs)
    {
      var _ := f.Release();
    }

    /** LastFile: the pinned file, with a reference for the caller. */
    method LastFile() returns (r: MsiFile?)
      requires Valid()
      modifies FileObjects()`refs
      ensures r == lastFile && Valid()
      ensures forall g | g in files :: g.refs == old(g.refs) + (if g == r then 1 else 0)
    {
      if lastFile != null {
        var _ := lastFile.AddRef();
      }
      r := lastFile;
      FileListSteady(files);
    }

    /**
     * TMsiFile::Release on a listed file that holds a reference beyond the
     * list's and the pin's: only its own count drops, and the lists stay valid.
     */
    method ReleaseListed(f: MsiFile)
      requires Valid() && f in files && f.refs >= (if f == lastFile then 3 else 2)
      modifies this`refs, FileObjects()`refs, TableObjects()`refs
      ensures Valid() && f.refs == old(f.refs) - 1
      ensures forall g | g in files && g != f :: g.refs == old(g.refs)
      ensures forall t | t in tables :: t.refs == old(t.refs)
      ensures refs == old(refs)
    {
      UnpinListed(f);
    }

    /**
     * TMsiFile::LoadFileData on a listed file: the file at the end of its
     * chain loads its data, nothing else of the lists changes, and they stay
     * valid. It succeeds when the blob already holds the file size, and
     * otherwise when the buffer is reserved and the contents load.
     */
    method LoadData(f: MsiFile, heapOk: bool) returns (err: nat, ghost t: MsiFile)
      requires Valid() && f in files
      modifies BlobsOf(files)
      ensures Valid() && f.ChainValid() && t == f.Target() && t in files && t.Local()
      ensures err == ERROR_SUCCESS <==> old(t.data.cbData) >= t.fileSize || (heapOk && t.Loads(true))
      ensures err == ERROR_SUCCESS ==> t.data.cbData == t.fileSize && (t.fileSize > 0 ==> t.data.pbData != null)
    {
      var k :| 0 <= k < |files| && files[k] == f;
      TargetListed(files, k);
      t := f.Target();
      ListedApart(files, t);
      label loading:
      err := LoadListedData(f, t, files, heapOk);
      assert t in files && old@loading(t.refFile) == null && Reloaded@loading(t) && forall g | g in files && g != t :: Steady@loading(g);
      FileListLoaded@loading(files);
    }

    /**
     * What the first GetNextFile finds: the table names; the tables
     * LoadTables keeps for them; and, unless a table object could not be
     * allocated or no table was kept, the files of those tables.
     */
    ghost predicate Discovered()
      reads this`tableNames, this`tables, this`files, tables`columns, tables`streamColumn, tables`nameColumn
      reads files`fileType, files`handle
    {
      tableNames == TableNamesAfter([], source) && Retained() &&
      if TablesFrom(tableNames, source, alloc, 0).1 == ERROR_SUCCESS && tables != [] then
        ListsOf(files, EntriesFrom(Infos(tables), alloc, 0), tables)
      else files == []
    }

    /**
     * The discovery of GetNextFile's first call: the table names, then the
     * tables when there are names, then the files when there are tables,
     * each step only while the ones before succeed; the cursor then stands
     * at the first file.
     */
    method Discover()
      requires Valid() && cursor.NotStarted?
      modifies this`tableNames, this`tables, this`tableCount, this`files, this`fileCount, this`refs, this`cursor
      ensures Valid() && Discovered() && Unloaded(files) && cursor == At(0) && lastFile == null
      ensures TablesFrom(tableNames, source, alloc, 0).1 == ERROR_SUCCESS && tables != [] ==>
        NamesFit(Infos(tables), EntriesFrom(Infos(tables), alloc, 0), Names())
      ensures forall t | t in tables :: fresh(t)
      ensures forall g | g in files :: fresh(g)
    {
      var err := DiscoverTables();
      // At(0) is the first entry of the file list, whatever it then holds,
      // so the cursor may be set before the files are loaded
      cursor := At(0);
      err := DiscoverFiles(err);
      ValidAtStart();
    }

    /** The invariant with the cursor at the first entry and nothing pinned. */
    lemma ValidAtStart()
      requires Listing() && RefsOk() && TablesOk() && NamesOk()
      requires cursor == At(0) && lastFile == null
      ensures Valid()
    {
    }

    /** The last step of the discovery: the files, when the tables loaded and there are some. */
    method DiscoverFiles(err0: nat) returns (err: nat)
      requires Listing() && RefsOk() && TablesOk() && lastFile == null && files == []
      requires tableNames == TableNamesAfter([], source) && Retained()
      requires err0 == TablesFrom(tableNames, source, alloc, 0).1 || tables == []
      modifies this`files, this`fileCount, this`refs, TableObjects()`refs
      ensures Listing() && RefsOk() && Discovered() && Unloaded(files)
      ensures TablesFrom(tableNames, source, alloc, 0).1 == ERROR_SUCCESS && tables != [] ==>
        NamesFit(Infos(tables), EntriesFrom(Infos(tables), alloc, 0), Names())
      ensures forall g | g in files :: fresh(g)
    {
      err := err0;
      if err == ERROR_SUCCESS && |tables| > 0 && |files| == 0 {
        label loading:
        err := LoadFiles();
        InfosSteady@loading(tables);
      }
    }

    /**
     * The first two steps of the discovery: the table names when there are
     * none yet, then the tables when there are names and no tables yet.
     */
    method DiscoverTables() returns (err: nat)
      requires Valid() && cursor.NotStarted?
      modifies this`tableNames, this`tables, this`tableCount, this`refs
      ensures tableNames == TableNamesAfter([], source) && NamesOk() && Retained()
      ensures err == TablesFrom(tableNames, source, alloc, 0).1 || (tableNames == [] && tables == [])
      ensures TablesOk() && files == [] && fileCount == 0 && lastFile == null && cursor == old(cursor)
      ensures forall t | t in tables :: fresh(t)
    {
      err := ERROR_SUCCESS;
      if |tableNames| == 0 {
        err := LoadTableNames();
        TableNamesProperties([], source);
      }
      if err == ERROR_SUCCESS && |tableNames| > 0 && |tables| == 0 {
        err := LoadTables();
      }
    }

    /**
     * LoadFileSize on a listed file: the file at the end of its chain loads
     * its size; the list stays a file list and no other size changes.
     */
    method LoadFileSize(f: MsiFile, ghost t: MsiFile) returns (err: nat)
      requires Listing() && RefsOk() && f in files && f.ChainValid() && t == f.Target()
      modifies t`fileSize, t.Buffer()
      ensures Listing() && RefsOk() && f.SizeLoaded()
      ensures forall g | g in files :: g.refs == old(g.refs)
    {
      var k :| 0 <= k < |files| && files[k] == f;
      TargetListed(files, k);
      ListedApart(files, t);
      ghost var tb := t.Buffer();
      assert this !in tb;
      label loading:
      err := LoadListedSize(f, t, files);
      assert t in files && old@loading(t.refFile) == null && Reloaded@loading(t) && forall g | g in files && g != t :: Steady@loading(g);
      FileListSized@loading(files);
    }
    /**
     * The enumeration step of GetNextFile: the file under the cursor, if
     * any. The cursor moves past it, its size is loaded, it takes a
     * reference for the caller, and the pin moves to it.
     */
    method Advance() returns (r: MsiFile?)
      requires Valid() && cursor.At?
      modifies this`cursor, this`lastFile, this`refs, FileObjects()`refs, TableObjects()`refs, FileObjects()`fileSize, BuffersOf(files)
      ensures Valid()
      ensures old(cursor.index) < |files| ==> r == files[old(cursor.index)] && cursor == At(old(cursor.index) + 1) && lastFile == r
      ensures old(cursor.index) >= |files| ==> r == null && cursor == old(cursor) && lastFile == old(lastFile)
      ensures forall g | g in old(files) ::
        g.refs == old(g.refs) + (if g == r then 2 else 0) - (if r != null && g == old(lastFile) then 1 else 0)
      ensures r != null ==> r.SizeLoaded() && r.refs >= 3
      ensures forall t | t in old(tables) :: unchanged(t`columns, t`streamColumn, t`nameColumn)
      ensures forall g | g in old(files) :: unchanged(g`fileType, g`handle)
    {
      var i := cursor.index;
      if i < |files| {
        // the buffers the lists read are arrays, never this database
        ghost var buffers: set<object> := BuffersOf(files);
        assert this !in buffers;
        label start:
        r := Step(files[i], i);
        ValidStepped@start();
      } else {
        r := null;
      }
    }

    /** The invariant holds again once the cursor has moved past the file now pinned. */
    twostate lemma ValidStepped()
      requires old(Valid()) && old(cursor.At?) && old(cursor.index) < |old(files)|
      requires unchanged(this`tables, this`tableCount, this`tableNames, this`files)
      requires cursor == At(old(cursor.index) + 1) && lastFile == files[old(cursor.index)]
      requires Listing() && RefsOk()
      ensures Valid()
    {
    }

    /** What GetNextFile does with the file under the cursor: the cursor moves past it, then the file is taken. */
    method Step(f: MsiFile, i: nat) returns (r: MsiFile)
      requires Listing() && RefsOk() && TablesOk() && i < |files| && files[i] == f
      requires lastFile != null ==> lastFile in files
      modifies this`cursor, this`lastFile, this`refs, FileObjects()`refs, TableObjects()`refs, FileObjects()`fileSize, BuffersOf(files)
      ensures r == f && lastFile == f && f.SizeLoaded() && cursor == At(i + 1)
      ensures Listing() && RefsOk()
      ensures forall g | g in old(files) :: g.refs == old(g.refs) + (if g == f then 2 else 0) - (if g == old(lastFile) then 1 else 0)
      ensures forall t | t in old(tables) :: unchanged(t`columns, t`streamColumn, t`nameColumn)
      ensures forall g | g in old(files) :: unchanged(g`fileType, g`handle)
    {
      ghost var buffers: set<object> := BuffersOf(files);
      assert this !in buffers;
      cursor := At(i + 1);
      r := TakeSized(f, i);
    }

    /** The references GetNextFile takes on the file it returns, then its size. */
    method TakeSized(f: MsiFile, i: nat) returns (r: MsiFile)
      requires Listing() && RefsOk() && TablesOk() && i < |files| && files[i] == f
      requires lastFile != null ==> lastFile in files
      modifies this`lastFile, this`refs, FileObjects()`refs, TableObjects()`refs, FileObjects()`fileSize, BuffersOf(files)
      ensures r == f && lastFile == f && f.SizeLoaded()
      ensures Listing() && RefsOk()
      ensures forall g | g in old(files) :: g.refs == old(g.refs) + (if g == f then 2 else 0) - (if g == old(lastFile) then 1 else 0)
    {
      r := Take(f);
      // the size is loaded after the references are taken rather than
      // before: the two touch different fields, so the outcome is the same
      TargetListed(files, i);
      ghost var t := f.Target();
      ghost var tb := t.Buffer();
      assert this !in tb;
      var _ := LoadFileSize(f, t);
    }

    /** The references GetNextFile takes on the file it returns: the caller's, then the pin's, moved from the old pinned file. */
    method Take(f: MsiFile) returns (r: MsiFile)
      requires Listing() && RefsOk() && TablesOk() && f in files
      requires lastFile != null ==> lastFile in files
      modifies this`lastFile, this`refs, FileObjects()`refs, TableObjects()`refs
      ensures r == f && lastFile == f
      ensures Listing() && RefsOk()
      ensures forall g | g in old(files) :: g.refs == old(g.refs) + (if g == f then 2 else 0) - (if g == old(lastFile) then 1 else 0)
    {
      Pin(f);
      var p := ReleaseLastFile(f);
      r := f;
    }

    /**
     * GetNextFile: on the first call the discovery, then the files in list
     * order, one per call, and null on every call after the last. Each file
     * returned has its size loaded and carries a reference for the caller
     * and the pin's.
     */
    method GetNextFile() returns (r: MsiFile?)
      requires Valid() && !cursor.Dangling?
      modifies this, FileObjects()`refs, TableObjects()`refs, FileObjects()`fileSize, BuffersOf(files)
      ensures Valid()
      ensures old(cursor.NotStarted?) ==> Discovered()
      ensures old(cursor.At?) ==> files == old(files) && tables == old(tables) && tableNames == old(tableNames)
      ensures var i := if old(cursor.At?) then old(cursor.index) else 0;
        (i < |files| ==> r == files[i] && cursor == At(i + 1) && lastFile == r) &&
        (i >= |files| ==> r == null && cursor == At(i) && lastFile == old(lastFile))
      ensures old(cursor.At?) ==> forall g | g in files ::
        g.refs == old(g.refs) + (if g == r then 2 else 0) - (if r != null && g == old(lastFile) then 1 else 0)
      ensures r != null ==> r.SizeLoaded() && r.refs >= 3
      ensures forall t | t in tables :: t in old(tables) || fresh(t)
      ensures forall g | g in files :: g in old(files) || fresh(g)
    {
      if cursor.NotStarted? {
        r := First();
      } else {
        r := Advance();
      }
    }

    /** The first GetNextFile: the discovery, then the first file, if any. */
    method First() returns (r: MsiFile?)
      requires Valid() && cursor.NotStarted?
      modifies this, FileObjects()`refs, TableObjects()`refs, FileObjects()`fileSize, BuffersOf(files)
      ensures Valid() && Discovered()
      ensures |files| > 0 ==> r == files[0] && cursor == At(1) && lastFile == r
      ensures |files| == 0 ==> r == null && cursor == At(0) && lastFile == null
      ensures r != null ==> r.SizeLoaded() && r.refs >= 3
      ensures forall t | t in tables :: fresh(t)
      ensures forall g | g in files :: fresh(g)
    {
      Discover();
      // the discovery leaves no buffers, so Advance changes nothing it found
      assert BuffersOf(files) == {};
      label found:
      r := Advance();
      DiscoveredKept@found();
    }

    /** What the discovery found stays found while only references, sizes and buffers change. */
    twostate lemma DiscoveredKept()
      requires old(Discovered())
      requires unchanged(this`tableNames, this`tables, this`files)
      requires forall t | t in tables :: unchanged(t`columns, t`streamColumn, t`nameColumn)
      requires forall g | g in files :: unchanged(g`fileType, g`handle)
      ensures Discovered()
    {
      InfosSteady(tables);
      assert forall k | 0 <= k < |tables| :: tables[k] in tables;
      assert forall k | 0 <= k < |files| :: files[k] in files;
    }

    // -------------------------------------------------------------------------
    // Teardown

    /**
     * CloseAllFiles: the pin is given back, then both lists are emptied,
     * each entry released once, and both counts drop to zero; the table
     * names stay. The cursor is a link into the file list that
     * CloseAllFiles leaves alone: past the last file it is the list head,
     * which is where an empty list starts, and on a file it now points at
     * an entry that is gone.
     */
    method CloseAllFiles()
      requires Valid()
      modifies this, FileObjects()`refs, TableObjects()`refs
      ensures files == [] && fileCount == 0 && tables == [] && tableCount == 0 && lastFile == null
      ensures tableNames == old(tableNames)
      ensures cursor == (if old(cursor).At? && old(cursor.index) == |old(files)| then At(0)
        else if old(cursor).At? then Dangling else old(cursor))
      ensures Valid()
      ensures forall g | g in old(files) :: g.refs <= old(g.refs) - (if g == old(lastFile) then 2 else 1)
      ensures forall g | g in old(files) && old(Unreferenced(files, g)) :: g.refs == old(g.refs) - (if g == old(lastFile) then 2 else 1)
      ensures forall t | t in old(tables) :: t.refs <= old(t.refs) - 1
      ensures refs <= old(refs)
    {
      // the model's cursor is a list index, so where it points is read now
      var atHead := cursor.At? && cursor.index == |files|;
      var _ := ReleaseLastFile(null);
      EmptyLists();
      if cursor.At? {
        cursor := if atHead then At(0) else Dangling;
      }
    }

    /** The two DeleteLinkedList calls of CloseAllFiles and the counts they zero. */
    method EmptyLists()
      requires Listing() && TablesOk()
      modifies this`files, this`fileCount, this`tables, this`tableCount, this`refs, FileObjects()`refs, TableObjects()`refs
      ensures files == [] && fileCount == 0 && tables == [] && tableCount == 0
      ensures forall g | g in old(files) :: g.refs <= old(g.refs) - 1
      ensures forall g | g in old(files) && old(Unreferenced(files, g)) :: g.refs == old(g.refs) - 1
      ensures forall t | t in old(tables) :: t.refs <= old(t.refs) - 1
      ensures refs <= old(refs)
    {
      DeleteFileList();
      fileCount := 0;
      DeleteTableList();
      tableCount := 0;
    }

    /**
     * DeleteLinkedList over the file list: the entry at the front is
     * unlinked and released, until the list is empty. A release may destroy
     * the file and, through it, release the file it refers to and its table;
     * a file no other listed file refers to loses exactly the list's
     * reference, and no count rises.
     */
    method DeleteFileList()
      requires Listing() && TablesOk()
      modifies this`files, this`refs, FileObjects()`refs, TableObjects()`refs
      ensures files == []
      ensures forall g | g in old(files) :: g.refs <= old(g.refs) - 1
      ensures forall g | g in old(files) && old(Unreferenced(files, g)) :: g.refs == old(g.refs) - 1
      ensures forall t | t in old(tables) :: t.refs <= old(t.refs)
      ensures refs <= old(refs)
    {
      forall g | g in files
        ensures g.ChainValid() && g.Reach() <= FileObjects() && g.Tables() <= TableObjects() && g.Dbs() <= {this}
      {
        ReleaseFrame(g);
      }
      FileListDistinct(files);
      ReleaseEach();
    }

    /** The loop of DeleteLinkedList over the file list, for distinct files whose releases stay inside the lists. */
    method ReleaseEach()
      requires forall g | g in files ::
        g.ChainValid() && g.Reach() <= FileObjects() && g.Tables() <= TableObjects() && g.Dbs() <= {this}
      requires forall i, j | 0 <= i < j < |files| :: files[i] != files[j]
      modifies this`files, this`refs, FileObjects()`refs, TableObjects()`refs
      ensures files == [] && tables == old(tables)
      ensures forall g | g in old(files) :: g.refs <= old(g.refs) - 1
      ensures forall g | g in old(files) && old(Unreferenced(files, g)) :: g.refs == old(g.refs) - 1
      ensures forall t | t in old(tables) :: t.refs <= old(t.refs)
      ensures refs <= old(refs)
    {
      ghost var n := 0;
      while files != []
        invariant n <= |old(files)| && files == old(files)[n..] && tables == old(tables)
        invariant forall g | g in old(files) :: g.refs <= old(g.refs) - (if g in files then 0 else 1)
        invariant forall g | g in old(files) && old(Unreferenced(files, g)) :: g.refs == old(g.refs) - (if g in files then 0 else 1)
        invariant forall t | t in tables :: t.refs <= old(t.refs)
        invariant refs <= old(refs)
        decreases |files|
      {
        var f := files[0];
        assert f == old(files)[n] && f in old(files) && f !in old(files)[n + 1..];
        // only counts change in this loop, so the chain of f is as it was
        assert forall g | g in old(f.Chain) :: Linked(g);
        ChainSteady(f);
        assert f.Reach() == old(f.Reach());
        ReleaseFront(old(FileObjects()), old(TableObjects()));
        n := n + 1;
      }
    }

    /** One round of DeleteLinkedList over the file list: the front file is unlinked and released. */
    method ReleaseFront(ghost fs: set<MsiFile>, ghost ts: set<MsiTable>)
      requires files != [] && files[0].ChainValid()
      requires files[0].Reach() <= fs && files[0].Tables() <= ts && files[0].Dbs() <= {this}
      modifies this`files, this`refs, fs`refs, ts`refs
      ensures files == old(files[1..])
      ensures old(files[0]).refs == old(files[0].refs) - 1
      ensures forall g | g in fs :: g.refs <= old(g.refs)
      ensures forall g | g in fs && g !in old(files[0].Reach()) :: g.refs == old(g.refs)
      ensures forall t | t in ts :: t.refs <= old(t.refs)
      ensures refs <= old(refs)
    {
      var f := files[0];
      files := files[1..];
      var _ := f.Release();
    }

    /**
     * DeleteLinkedList over the table list: each table unlinked from the
     * front and released once. A table that reaches zero releases the
     * database, so its count never rises.
     */
    method DeleteTableList()
      requires TablesOk()
      modifies this`tables, this`refs, TableObjects()`refs
      ensures tables == []
      ensures forall t | t in old(tables) :: t.refs == old(t.refs) - 1
      ensures refs <= old(refs)
    {
      ghost var n := 0;
      while tables != []
        invariant n <= |old(tables)| && tables == old(tables)[n..]
        invariant forall t | t in tables :: t.db == this
        invariant forall t | t in old(tables) :: t.refs == old(t.refs) - (if t in tables then 0 else 1)
        invariant refs <= old(refs)
        decreases |tables|
      {
        var t := tables[0];
        assert t == old(tables)[n] && t !in old(tables)[n + 1..];
        tables := tables[1..];
        n := n + 1;
        var _ := t.Release();
      }
    }
  }
}
