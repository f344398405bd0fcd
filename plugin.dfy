/**
 * The packer plugin interface of Total Commander (wcx_msi.cpp): the DOS
 * time stamp of the archive, the header of the next file, the extraction of
 * the file listed last in chunks, and the closing of the archive.
 *
 * The host's callbacks and the Win32 file calls are values of a `Host`;
 * the conversion of the archive's FILETIME to local calendar time is a
 * function parameter.
 */
module Plugin {
  import opened WideString
  import opened Wrappers
  import opened MsiApi
  import opened FileNames
  import opened MsiBlobs
  import opened MsiSession

  // ---------------------------------------------------------------------------
  // Result codes and operations of the WCX interface

  const E_ECREATE: int := 16
  const E_EWRITE: int := 19
  const E_NOT_SUPPORTED: int := 24

  /** PROCESS_FILE_OPERATION */
  const PK_SKIP: int := 0
  const PK_TEST: int := 1
  const PK_EXTRACT: int := 2

  /** FILE_ATTRIBUTE_ARCHIVE of the Windows SDK. */
  const FILE_ATTRIBUTE_ARCHIVE: nat := 0x20

  /** The most bytes one WriteFile of the extraction loop asks for. */
  const CHUNK: nat := 0x1000

  const DWORD_RANGE: nat := 0x1_0000_0000

  // ---------------------------------------------------------------------------
  // FileTimeToDosFTime

  /** A WORD field of a SYSTEMTIME. */
  type Word = w: int | 0 <= w < 0x1_0000

  /** SYSTEMTIME, without the day of the week and the milliseconds, which the plugin does not read. */
  datatype SystemTime = SystemTime(year: Word, month: Word, day: Word, hour: Word, minute: Word, second: Word)

  /** DOS_FTIME: six unsigned bit fields. */
  datatype DosTime = DosTime(tsec: nat, min: nat, hour: nat, day: nat, month: nat, year: nat)

  /** Every field fits its width: 5, 6, 5, 5, 4 and 7 bits. */
  predicate Fits(d: DosTime)
  {
    d.tsec < 32 && d.min < 64 && d.hour < 32 && d.day < 32 && d.month < 16 && d.year < 128
  }

  /**
   * FileTimeToDosFTime after the conversion to local time: each field takes
   * the low bits of what is assigned to it (an assignment to an unsigned bit
   * field keeps the value modulo 2 to the width, negative values included).
   */
  function ToDosTime(st: SystemTime): (d: DosTime)
    ensures Fits(d)
  {
    DosTime((st.second / 2) % 32, st.minute % 64, st.hour % 32, st.day % 32, st.month % 16, (st.year - 60) % 128)
  }

  /** A calendar time that DOS_FTIME can hold: the years 1980 to 2107 and the usual ranges of the other fields. */
  predicate Representable(st: SystemTime)
  {
    1980 <= st.year < 2108 && 1 <= st.month <= 12 && 1 <= st.day <= 31 && st.hour < 24 && st.minute < 60 && st.second < 60
  }

  /** The year field counts the years since 1980 modulo 128, whatever the year. */
  lemma DosYear(st: SystemTime)
    ensures ToDosTime(st).year == (st.year - 1980) % 128
  {
    var k := st.year - 1980;
    assert st.year - 60 == k + 15 * 128;
    ModuloShift(k, 15);
  }

  lemma {:induction false} ModuloShift(k: int, n: nat)
    ensures (k + n * 128) % 128 == k % 128
  {
    if n > 0 {
      ModuloShift(k, n - 1);
      assert k + n * 128 == (k + (n - 1) * 128) + 128;
    }
  }

  /** For a representable time the fields are copied, the seconds halved and the year counted from 1980. */
  lemma DosTimeFields(st: SystemTime)
    requires Representable(st)
    ensures var d := ToDosTime(st);
      d.year == st.year - 1980 && d.month == st.month && d.day == st.day &&
      d.hour == st.hour && d.min == st.minute && d.tsec == st.second / 2
  {
    DosYear(st);
  }

  /** The 32 bits the DOS_FTIME bit fields occupy, the first field in the lowest bits. */
  function Pack(d: DosTime): nat
  {
    d.tsec + 32 * d.min + 2048 * d.hour + 65536 * d.day + 0x20_0000 * d.month + 0x200_0000 * d.year
  }

  /** How a reader of the 32 bits takes the fields apart: shifting right past each field in turn. */
  function Unpack(v: nat): DosTime
  {
    var r1 := v / 32;
    var r2 := r1 / 64;
    var r3 := r2 / 32;
    var r4 := r3 / 32;
    var r5 := r4 / 16;
    DosTime(v % 32, r1 % 64, r2 % 32, r3 % 32, r4 % 16, r5 % 128)
  }

  /** Fields that fit their widths fill 32 bits and read back unchanged. */
  lemma UnpackPack(d: DosTime)
    requires Fits(d)
    ensures Pack(d) < DWORD_RANGE
    ensures Unpack(Pack(d)) == d
  {
    var v := Pack(d);
    var r4 := d.month + 16 * d.year;
    var r3 := d.day + 32 * r4;
    var r2 := d.hour + 32 * r3;
    var r1 := d.min + 64 * r2;
    assert v == d.tsec + 32 * r1;
    assert v / 32 == r1 && v % 32 == d.tsec;
    assert r1 / 64 == r2 && r1 % 64 == d.min;
    assert r2 / 32 == r3 && r2 % 32 == d.hour;
    assert r3 / 32 == r4 && r3 % 32 == d.day;
    assert r4 / 16 == d.year && r4 % 16 == d.month;
  }

  /** The DOS date of a representable time reads back as its calendar fields, to the even second. */
  lemma DosTimeRoundTrip(st: SystemTime)
    requires Representable(st)
    ensures Unpack(Pack(ToDosTime(st))) ==
      DosTime(st.second / 2, st.minute, st.hour, st.day, st.month, st.year - 1980)
  {
    DosTimeFields(st);
    UnpackPack(ToDosTime(st));
  }

  // ---------------------------------------------------------------------------
  // MergePath

  /**
   * AddBackslash (utils.h is not part of this model): a backslash goes after
   * a non-empty path that does not end in one already.
   */
  function AddBackslash(s: WString): (r: WString)
    ensures s == [] || s[|s| - 1] == BACKSLASH ==> r == s
    ensures s != [] && s[|s| - 1] != BACKSLASH ==> r == s + [BACKSLASH]
  {
    if s != [] && s[|s| - 1] != BACKSLASH then s + [BACKSLASH] else s
  }

  /**
   * MergePath: the destination path, then, when a name is given, a
   * separator and the name. An absent string is the empty one.
   */
  function MergePath(path: WString, name: WString): (r: WString)
  {
    if name != [] then AddBackslash(path) + name else path
  }

  /**
   * The merged path is the path, one backslash exactly when a name follows
   * a path not ending in one, and the name.
   */
  lemma MergePathParts(path: WString, name: WString)
    ensures var r := MergePath(path, name);
      var sep := if name != [] && path != [] && path[|path| - 1] != BACKSLASH then [BACKSLASH] else [];
      r == path + sep + name
  {
  }

  /** Both parts empty give an empty path, a path alone is kept, and a name alone is the whole path. */
  lemma MergePathCases(path: WString, name: WString)
    ensures path == [] && name == [] ==> MergePath(path, name) == []
    ensures name == [] ==> MergePath(path, name) == path
    ensures path == [] ==> MergePath(path, name) == name
    ensures path != [] && path[|path| - 1] != BACKSLASH && name != [] ==> MergePath(path, name) == path + [BACKSLASH] + name
  {
    MergePathParts(path, name);
  }

  // ---------------------------------------------------------------------------
  // The extraction loop of ProcessFileW

  /** What WriteFile reports: failure, or success with the number of bytes written. */
  datatype WriteOutcome = WriteFailed | Wrote(count: nat)

  /**
   * The host side of the interface: the progress callbacks Total Commander
   * set (the wide one first), whether CreateFile opens a path, and what
   * WriteFile reports for the bytes at an offset.
   */
  datatype Host = Host(
    processDataW: Option<(WString, nat) -> bool>,
    processDataA: Option<(WString, nat) -> bool>,
    create: WString -> bool,
    write: (nat, seq<Byte>) -> WriteOutcome)

  /** CallProcessDataProc: the wide callback if set, else the ANSI one, else go on. */
  function CallProcessDataProc(host: Host, path: WString, offset: nat): bool
  {
    match host.processDataW
    case Some(p) => p(path, offset)
    case None =>
      match host.processDataA
      case Some(p) => p(path, offset)
      case None => true
  }

  /** A successful write of some bytes writes at least one and at most all of them. */
  ghost predicate Writes(host: Host)
  {
    forall offset: nat, bytes: seq<Byte> | bytes != [] && host.write(offset, bytes).Wrote? ::
      0 < host.write(offset, bytes).count <= |bytes|
  }

  /** The size of the next write: a full chunk, or what remains. */
  function Chunk(offset: nat, size: nat): (n: nat)
    requires offset <= size
    ensures n <= CHUNK && n <= size - offset
    ensures n == CHUNK || n == size - offset
    ensures n == 0 <==> offset == size
  {
    if offset + CHUNK > size then size - offset else CHUNK
  }

  /** The size of the next write as the DWORD arithmetic of the source computes it. */
  function ChunkAsWritten(offset: nat, size: nat): nat
    requires offset <= size < DWORD_RANGE
  {
    if (offset + CHUNK) % DWORD_RANGE > size then size - offset else CHUNK
  }

  /** Below the top chunk of the DWORD range the two computations agree. */
  lemma ChunkAsWrittenAgrees(offset: nat, size: nat)
    requires offset <= size < DWORD_RANGE && offset + CHUNK < DWORD_RANGE
    ensures ChunkAsWritten(offset, size) == Chunk(offset, size)
  {
  }

  /**
   * Near the top of the DWORD range the sum wraps: for a blob of 0xFFFFFFFF
   * bytes, at offset 0xFFFFF000 the source asks for a full chunk where
   * 0xFFF bytes remain, and the offset then wraps to 0.
   */
  lemma ChunkOverrun()
    ensures ChunkAsWritten(0xFFFF_F000, 0xFFFF_FFFF) == CHUNK
    ensures Chunk(0xFFFF_F000, 0xFFFF_FFFF) == 0xFFF
    ensures (0xFFFF_F000 + CHUNK) % DWORD_RANGE == 0
  {
  }

  /** The result of the extraction loop and the bytes the local file receives. */
  datatype Extraction = Extraction(result: int, written: seq<Byte>)

  /**
   * The extraction loop from an offset: the progress callback is asked
   * first and a refusal ends the loop unfinished; then the next chunk is
   * written, and an empty chunk ends it with success, a failed write with
   * E_EWRITE; the offset moves by what was written.
   */
  ghost function Extract(path: WString, data: seq<Byte>, host: Host, offset: nat): Extraction
    requires offset <= |data| && Writes(host)
    decreases |data| - offset
  {
    if !CallProcessDataProc(host, path, offset) then Extraction(E_NOT_SUPPORTED, [])
    else
      var n := Chunk(offset, |data|);
      if n == 0 then Extraction(0, [])
      else
        match host.write(offset, data[offset..offset + n])
        case WriteFailed => Extraction(E_EWRITE, [])
        case Wrote(w) =>
          var rest := Extract(path, data, host, offset + w);
          Extraction(rest.result, data[offset..offset + w] + rest.written)
  }

  /**
   * The local file receives the data from the offset in order, without a
   * gap, and all of it exactly when the loop succeeds; the loop ends with
   * success, E_EWRITE or E_NOT_SUPPORTED.
   */
  lemma {:induction false} ExtractWritesPrefix(path: WString, data: seq<Byte>, host: Host, offset: nat)
    requires offset <= |data| && Writes(host)
    ensures var e := Extract(path, data, host, offset);
      offset + |e.written| <= |data| && e.written == data[offset..offset + |e.written|] &&
      (e.result == 0 <==> e.written == data[offset..] && CallProcessDataProc(host, path, |data|)) &&
      (e.result == 0 || e.result == E_EWRITE || e.result == E_NOT_SUPPORTED)
    decreases |data| - offset
  {
    if CallProcessDataProc(host, path, offset) && Chunk(offset, |data|) != 0 {
      var n := Chunk(offset, |data|);
      var out := host.write(offset, data[offset..offset + n]);
      if out.Wrote? {
        var w := out.count;
        ExtractWritesPrefix(path, data, host, offset + w);
        var rest := Extract(path, data, host, offset + w);
        assert data[offset..offset + w] + data[offset + w..offset + w + |rest.written|] == data[offset..offset + w + |rest.written|];
        assert data[offset..offset + w] + data[offset + w..] == data[offset..];
        if rest.result != 0 && data[offset..offset + w] + rest.written == data[offset..] {
          assert |rest.written| == |data| - (offset + w);
          assert rest.written == data[offset + w..];
        }
      }
    }
  }

  /** A host that lets the loop go on and writes every byte it is given receives all of the data. */
  lemma {:induction false} ExtractComplete(path: WString, data: seq<Byte>, host: Host, offset: nat)
    requires offset <= |data| && Writes(host)
    requires forall k: nat | offset <= k <= |data| :: CallProcessDataProc(host, path, k)
    requires forall k: nat, bytes: seq<Byte> | bytes != [] :: host.write(k, bytes) == Wrote(|bytes|)
    ensures Extract(path, data, host, offset) == Extraction(0, data[offset..])
    decreases |data| - offset
  {
    var n := Chunk(offset, |data|);
    if n != 0 {
      ExtractComplete(path, data, host, offset + n);
      assert data[offset..offset + n] + data[offset + n..] == data[offset..];
    }
  }

  /** The bytes of a blob as the loop reads them: the first cbData bytes of the buffer. */
  function Contents(buffer: array?<Byte>, size: nat): seq<Byte>
    requires buffer == null ==> size == 0
    requires buffer != null ==> size <= buffer.Length
    reads buffer
  {
    if buffer == null then [] else buffer[..size]
  }

  /**
   * The loop of ProcessFileW over the loaded blob: the offset starts at 0
   * and the result at E_NOT_SUPPORTED, which stays when the progress
   * callback stops the loop.
   */
  method WriteOut(path: WString, buffer: array?<Byte>, size: nat, host: Host) returns (result: int, written: seq<Byte>)
    requires Writes(host)
    requires buffer == null ==> size == 0
    requires buffer != null ==> size <= buffer.Length
    ensures Extraction(result, written) == Extract(path, Contents(buffer, size), host, 0)
  {
    // the buffer does not change during the loop, so its bytes are read once
    var data := if buffer == null then [] else buffer[..size];
    var offset := 0;
    result := E_NOT_SUPPORTED;
    written := [];
    while CallProcessDataProc(host, path, offset)
      invariant offset <= size && result == E_NOT_SUPPORTED
      invariant Extract(path, data, host, 0) ==
        Extraction(Extract(path, data, host, offset).result, written + Extract(path, data, host, offset).written)
      decreases size - offset
    {
      var n := Chunk(offset, size);
      if n == 0 {
        result := 0;
        return;
      }
      match host.write(offset, data[offset..offset + n]) {
        case WriteFailed =>
          result := E_EWRITE;
          return;
        case Wrote(w) =>
          var part := data[offset..offset + w];
          ghost var rest := Extract(path, data, host, offset + w);
          assert written + (part + rest.written) == (written + part) + rest.written;
          written := written + part;
          offset := offset + w;
      }
    }
  }

  // ---------------------------------------------------------------------------
  // The entry points

  /** The objects an entry point may change for a handle: the database, the counts of its lists, its files' sizes, blobs and buffers. */
  ghost function DbFrame(h: MsiDatabase?): set<MsiDatabase>
  {
    if h == null then {} else {h as MsiDatabase}
  }

  ghost function FileFrame(h: MsiDatabase?): set<MsiFile>
    reads DbFrame(h)
  {
    if h == null then {} else h.FileObjects()
  }

  ghost function TableFrame(h: MsiDatabase?): set<MsiTable>
    reads DbFrame(h)
  {
    if h == null then {} else h.TableObjects()
  }

  ghost function BlobFrame(h: MsiDatabase?): set<MsiBlob>
    reads DbFrame(h)
  {
    if h == null then {} else BlobsOf(h.files)
  }

  /**
   * ProcessFileW: a test or a skip succeeds at once; an extraction needs
   * the pinned file, creates the local file at the merged path, loads the
   * file's data and runs the loop over it, then gives the file back. A
   * handle that is no database, an unknown operation and a missing pin
   * give E_NOT_SUPPORTED, a local file that cannot be created E_ECREATE.
   */
  method ProcessFile(h: MsiDatabase?, op: int, destPath: WString, destName: WString, host: Host, heapOk: bool)
    returns (result: int, written: seq<Byte>)
    requires h != null ==> h.Valid()
    requires Writes(host)
    modifies DbFrame(h)`refs, FileFrame(h)`refs, TableFrame(h)`refs, BlobFrame(h)
    ensures h == null || op != PK_EXTRACT ==> written == []
    ensures h == null ==> result == E_NOT_SUPPORTED
    ensures h != null && (op == PK_TEST || op == PK_SKIP) ==> result == 0
    ensures h != null && op != PK_TEST && op != PK_SKIP && op != PK_EXTRACT ==> result == E_NOT_SUPPORTED
    ensures h != null ==> h.Valid() && h.refs == old(h.refs) && forall g | g in h.files :: g.refs == old(g.refs)
    ensures h != null && op == PK_EXTRACT ==> h.lastFile == null ==> result == E_NOT_SUPPORTED && written == []
    ensures h != null && op == PK_EXTRACT && h.lastFile != null && !host.create(MergePath(destPath, destName)) ==>
      result == E_ECREATE && written == []
    ensures h != null && op == PK_EXTRACT && h.lastFile != null && host.create(MergePath(destPath, destName)) ==>
      h.lastFile.ChainValid() && var t := h.lastFile.Target();
      Shown(t, MergePath(destPath, destName), host, old(t.data.cbData) >= t.fileSize || (heapOk && t.Loads(true)), result, written)
  {
    result, written := E_NOT_SUPPORTED, [];
    var db := MsiDatabase.FromHandle(h);
    if db == null {
      return;
    }
    if op == PK_TEST || op == PK_SKIP {
      db.UnlockAndRelease();
      return 0, [];
    }
    if op != PK_EXTRACT {
      db.UnlockAndRelease();
      return;
    }
    result, written := ExtractAndUnlock(db, destPath, destName, host, heapOk);
  }

  /** The extraction under the handle's reference, which goes once the extraction is over. */
  method ExtractAndUnlock(db: MsiDatabase, destPath: WString, destName: WString, host: Host, heapOk: bool)
    returns (result: int, written: seq<Byte>)
    requires db.Valid() && Writes(host)
    modifies db.FileObjects()`refs, db.TableObjects()`refs, db`refs, BlobsOf(db.files)
    ensures db.Valid() && db.refs == old(db.refs) - 1 && forall g | g in db.files :: g.refs == old(g.refs)
    ensures db.lastFile == null ==> result == E_NOT_SUPPORTED && written == []
    ensures db.lastFile != null && !host.create(MergePath(destPath, destName)) ==> result == E_ECREATE && written == []
    ensures db.lastFile != null && host.create(MergePath(destPath, destName)) ==>
      db.lastFile.ChainValid() && var t := db.lastFile.Target();
      Shown(t, MergePath(destPath, destName), host, old(t.data.cbData) >= t.fileSize || (heapOk && t.Loads(true)), result, written)
  {
    result, written := ExtractLast(db, destPath, destName, host, heapOk);
    db.UnlockAndRelease();
  }

  /** The extraction branch of ProcessFileW; the caller holds the database. */
  method ExtractLast(db: MsiDatabase, destPath: WString, destName: WString, host: Host, heapOk: bool)
    returns (result: int, written: seq<Byte>)
    requires db.Valid() && Writes(host)
    modifies db.FileObjects()`refs, db.TableObjects()`refs, db`refs, BlobsOf(db.files)
    ensures db.Valid() && db.refs == old(db.refs) && forall g | g in db.files :: g.refs == old(g.refs)
    ensures db.lastFile == null ==> result == E_NOT_SUPPORTED && written == []
    ensures db.lastFile != null && !host.create(MergePath(destPath, destName)) ==> result == E_ECREATE && written == []
    ensures db.lastFile != null && host.create(MergePath(destPath, destName)) ==>
      db.lastFile.ChainValid() && var t := db.lastFile.Target();
      Shown(t, MergePath(destPath, destName), host, old(t.data.cbData) >= t.fileSize || (heapOk && t.Loads(true)), result, written)
  {
    result, written := E_NOT_SUPPORTED, [];
    var f := db.LastFile();
    if f == null {
      return;
    }
    var path := MergePath(destPath, destName);
    if host.create(path) {
      result, written := ExtractPinned(db, f, path, host, heapOk);
      TargetSteady(f);
    } else {
      result := E_ECREATE;
      db.ReleaseListed(f);
    }
  }

  /** The file pinned last is extracted, then its pin is released. */
  method ExtractPinned(db: MsiDatabase, f: MsiFile, path: WString, host: Host, heapOk: bool)
    returns (result: int, written: seq<Byte>)
    requires db.Valid() && Writes(host) && f == db.lastFile && f.refs >= 3
    modifies db.FileObjects()`refs, db.TableObjects()`refs, db`refs, BlobsOf(db.files)
    ensures db.Valid() && db.refs == old(db.refs) && db.lastFile == f
    ensures forall g | g in db.files :: g.refs == old(g.refs) - (if g == f then 1 else 0)
    ensures f.ChainValid() && var t := f.Target();
      Shown(t, path, host, old(t.data.cbData) >= t.fileSize || (heapOk && t.Loads(true)), result, written)
  {
    ghost var t, loaded;
    result, written, t, loaded := ExtractFile(db, f, path, host, heapOk);
    label shown:
    db.ReleaseListed(f);
    TargetSteady@shown(f);
  }

  /**
   * The outcome of the extraction of a file whose data was to be loaded:
   * when the data loaded, the loop over its bytes; otherwise nothing
   * written and E_NOT_SUPPORTED.
   */
  ghost predicate Shown(t: MsiFile, path: WString, host: Host, loaded: bool, result: int, written: seq<Byte>)
    reads t.data, t.data.pbData
  {
    Writes(host) && t.data.Valid() &&
    if loaded then Extraction(result, written) == Extract(path, Contents(t.data.pbData, t.data.cbData), host, 0)
    else result == E_NOT_SUPPORTED && written == []
  }

  /** The data of a listed file is loaded and, when it loads, written out. */
  method ExtractFile(db: MsiDatabase, f: MsiFile, path: WString, host: Host, heapOk: bool)
    returns (result: int, written: seq<Byte>, ghost t: MsiFile, ghost loaded: bool)
    requires db.Valid() && f in db.files && Writes(host)
    modifies BlobsOf(db.files)
    ensures db.Valid() && f.ChainValid() && t == f.Target()
    ensures forall g | g in db.files :: g.refs == old(g.refs)
    ensures loaded == (old(t.data.cbData) >= t.fileSize || (heapOk && t.Loads(true)))
    ensures Shown(t, path, host, loaded, result, written)
  {
    result, written := E_NOT_SUPPORTED, [];
    var err;
    err, t := db.LoadData(f, heapOk);
    loaded := err == ERROR_SUCCESS;
    if err == ERROR_SUCCESS {
      var blob := f.FileData();
      label loaded:
      result, written := WriteOut(path, blob.pbData, blob.cbData, host);
      db.ValidUntouched@loaded();
    }
  }

  /** The header ReadHeader fills for a file. */
  datatype Header = Header(fileName: WString, fileTime: DosTime, packSize: nat, unpSize: nat, fileAttr: nat)

  /**
   * ReadHeaderTemplate: the next file of the enumeration, with the DOS time
   * of the archive, its size as both sizes and the archive attribute; the
   * caller's reference on the file is given back at once. E_NOT_SUPPORTED,
   * rather than E_END_ARCHIVE, once the files are exhausted.
   */
  method ReadHeader(h: MsiDatabase?, toLocal: FileTime -> SystemTime) returns (result: int, header: Option<Header>)
    requires h != null ==> h.Valid() && !h.cursor.Dangling?
    modifies DbFrame(h), FileFrame(h)`refs, TableFrame(h)`refs, FileFrame(h)`fileSize, BuffersOf(if h == null then [] else h.files)
    ensures h == null ==> result == E_NOT_SUPPORTED && header == None
    ensures h != null ==> h.Valid() && !h.cursor.Dangling?
    ensures h != null && old(h.cursor.NotStarted?) ==> h.Discovered()
    ensures h != null && old(h.cursor.At?) ==> h.files == old(h.files)
    ensures h != null ==> var i := if old(h.cursor.At?) then old(h.cursor.index) else 0;
      (i < |h.files| ==>
        result == 0 && h.cursor == At(i + 1) && h.lastFile == h.files[i] && h.files[i].ChainValid() &&
        header == Some(Header(h.files[i].name, ToDosTime(toLocal(h.fileTime)), h.files[i].FileSize(), h.files[i].FileSize(), FILE_ATTRIBUTE_ARCHIVE))) &&
      (i >= |h.files| ==> result == E_NOT_SUPPORTED && header == None && h.cursor == At(i))
  {
    result, header := E_NOT_SUPPORTED, None;
    var db := MsiDatabase.FromHandle(h);
    if db == null {
      return;
    }
    result, header := ReadNext(db, toLocal);
    label read:
    db.UnlockAndRelease();
    assert db.files == old@read(db.files) && db.cursor == old@read(db.cursor) && db.lastFile == old@read(db.lastFile);
  }

  /** The header of the next file while the caller holds the database. */
  method ReadNext(db: MsiDatabase, toLocal: FileTime -> SystemTime) returns (result: int, header: Option<Header>)
    requires db.Valid() && !db.cursor.Dangling?
    modifies db, db.FileObjects()`refs, db.TableObjects()`refs, db.FileObjects()`fileSize, BuffersOf(db.files)
    ensures db.Valid() && !db.cursor.Dangling?
    ensures old(db.cursor.NotStarted?) ==> db.Discovered()
    ensures old(db.cursor.At?) ==> db.files == old(db.files)
    ensures var i := if old(db.cursor.At?) then old(db.cursor.index) else 0;
      (i < |db.files| ==>
        result == 0 && db.cursor == At(i + 1) && db.lastFile == db.files[i] && db.files[i].ChainValid() &&
        header == Some(Header(db.files[i].name, ToDosTime(toLocal(db.fileTime)), db.files[i].FileSize(), db.files[i].FileSize(), FILE_ATTRIBUTE_ARCHIVE))) &&
      (i >= |db.files| ==> result == E_NOT_SUPPORTED && header == None && db.cursor == At(i))
  {
    result, header := E_NOT_SUPPORTED, None;
    var fileTime := ToDosTime(toLocal(db.fileTime));
    var f := db.GetNextFile();
    if f != null {
      header := Some(Header(f.name, fileTime, f.FileSize(), f.FileSize(), FILE_ATTRIBUTE_ARCHIVE));
      label found:
      ReleaseFound(db, f);
      if old(db.cursor.NotStarted?) {
        db.DiscoveredKept@found();
      }
      result := 0;
    }
  }

  /** The reference GetNextFile handed out goes back; nothing the enumeration depends on changes. */
  method ReleaseFound(db: MsiDatabase, f: MsiFile)
    requires db.Valid() && f == db.lastFile && f.ChainValid() && f.refs >= 3
    modifies db`refs, db.FileObjects()`refs, db.TableObjects()`refs
    ensures db.Valid() && f.ChainValid() && f.FileSize() == old(f.FileSize())
    ensures unchanged(db`cursor, db`lastFile, db`files, db`tables, db`tableNames)
    ensures forall t | t in db.tables :: unchanged(t`columns, t`streamColumn, t`nameColumn)
    ensures forall g | g in db.files :: unchanged(g`fileType, g`handle)
  {
    db.ReleaseListed(f);
    TargetSteady(f);
  }

  /**
   * CloseArchive: every file and table is released and the lists emptied,
   * then the caller's reference and the archive's own go. A file loses the
   * list's reference and the pin's, exactly those when no other file refers
   * to it; a table loses at least the list's; the database at least its own.
   */
  method CloseArchive(h: MsiDatabase?) returns (result: int)
    requires h != null ==> h.Valid()
    modifies DbFrame(h), FileFrame(h)`refs, TableFrame(h)`refs
    ensures h == null ==> result == E_NOT_SUPPORTED
    ensures h != null ==>
      result == ERROR_SUCCESS && h.Valid() &&
      h.files == [] && h.tables == [] && h.fileCount == 0 && h.tableCount == 0 && h.lastFile == null &&
      h.tableNames == old(h.tableNames)
    ensures h != null ==> h.refs <= old(h.refs) - 1
    ensures h != null ==> forall g | g in old(h.files) :: g.refs <= old(g.refs) - (if g == old(h.lastFile) then 2 else 1)
    ensures h != null ==> forall g | g in old(h.files) && old(Unreferenced(h.files, g)) ::
      g.refs == old(g.refs) - (if g == old(h.lastFile) then 2 else 1)
    ensures h != null ==> forall t | t in old(h.tables) :: t.refs <= old(t.refs) - 1
  {
    var db := MsiDatabase.FromHandle(h);
    if db == null {
      return E_NOT_SUPPORTED;
    }
    db.CloseAllFiles();
    db.UnlockAndRelease();
    var _ := db.Release();
    result := ERROR_SUCCESS;
  }
}
