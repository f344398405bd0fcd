/**
 * What the plugin sees of Windows Installer (MSI.dll): records, views,
 * column information and summary information, given as values. Opening a
 * view, executing it and fetching its rows are inputs here, not calls.
 * The Win32 error codes the plugin passes around are defined here too.
 */
module MsiApi {
  import opened WideString
  import opened Wrappers

  const ERROR_SUCCESS: nat := 0
  const ERROR_NOT_ENOUGH_MEMORY: nat := 8
  const ERROR_NOT_SUPPORTED: nat := 50
  const ERROR_NO_MORE_ITEMS: nat := 259

  /** A signed 32-bit integer (INT). */
  type Int32 = i: int | -0x8000_0000 <= i < 0x8000_0000

  /** MSI_NULL_INTEGER: what MsiRecordGetInteger returns for a null field. */
  const MSI_NULL_INTEGER: Int32 := -0x8000_0000

  /**
   * One field of a record as the record functions report it: the integer
   * MsiRecordGetInteger returns, the text MsiRecordGetString returns (None
   * when that call fails), and the stream MsiRecordDataSize measures and
   * MsiRecordReadStream reads (`readable` is false when the read fails).
   */
  datatype Field = Field(integer: Int32, text: Option<WString>, stream: seq<Byte>, readable: bool)

  /** A field past the end of a record: a null integer, no text and no stream. */
  const AbsentField: Field := Field(MSI_NULL_INTEGER, None, [], false)

  /** A record; fields are numbered as MSI numbers them, field 0 first. */
  datatype Record = Record(fields: seq<Field>)

  /** Field n of a record. */
  function FieldOf(r: Record, n: nat): Field
  {
    if n < |r.fields| then r.fields[n] else AbsentField
  }

  /** MsiRecordDataSize of field n. */
  function DataSize(r: Record, n: nat): nat
  {
    |FieldOf(r, n).stream|
  }

  /**
   * MsiRecordReadStream(r, n, buf, &cap): on success reads the first
   * min(cap, size) bytes of the stream into the buffer and reports that many.
   */
  method ReadStream(r: Record, n: nat, buf: array<Byte>, cap: nat) returns (code: nat, count: nat)
    requires cap <= buf.Length
    modifies buf
    ensures code == ERROR_SUCCESS <==> FieldOf(r, n).readable
    ensures code == ERROR_SUCCESS ==> count == Min(cap, DataSize(r, n))
    ensures code == ERROR_SUCCESS ==> buf[..count] == FieldOf(r, n).stream[..count] && buf[count..] == old(buf[count..])
    ensures code != ERROR_SUCCESS ==> count == cap && buf[..] == old(buf[..])
  {
    var f := FieldOf(r, n);
    if !f.readable {
      return 1, cap;
    }
    count := Min(cap, |f.stream|);
    for k := 0 to count
      invariant buf[..k] == f.stream[..k]
      invariant buf[k..] == old(buf[k..])
    {
      buf[k] := f.stream[k];
      assert buf[..k + 1] == buf[..k] + [buf[k]];
      assert f.stream[..k + 1] == f.stream[..k] + [f.stream[k]];
    }
    code := ERROR_SUCCESS;
  }

  function Min(a: nat, b: nat): nat { if a <= b then a else b }
  function Max(a: nat, b: nat): nat { if a >= b then a else b }

  /**
   * A column-information record (MsiViewGetColumnInfo): its return code and,
   * when that is ERROR_SUCCESS, the strings of its fields 1..n as fetched.
   */
  datatype ColumnInfo = ColumnInfo(code: nat, fields: seq<WString>)

  /**
   * A view opened on one table: its type and name column information, the
   * return code of MsiViewExecute and the records MsiViewFetch then yields.
   */
  datatype View = View(types: ColumnInfo, names: ColumnInfo, executeCode: nat, rows: seq<Record>)

  /** The records a fetch loop over the view reads: none when the execution fails. */
  function Fetched(v: View): seq<Record>
  {
    if v.executeCode == ERROR_SUCCESS then v.rows else []
  }

  /**
   * The opened database: the views that "SELECT * FROM <name>" opens, by
   * table name. A name that is not a key does not open.
   */
  datatype Database = Database(views: map<WString, View>)

  // ---------------------------------------------------------------------------
  // Summary information

  /** A FILETIME: two DWORDs. */
  datatype FileTime = FileTime(low: nat, high: nat)

  /**
   * The locale-dependent formatting of GetDateFormat (None when it fails) and
   * GetTimeFormat (the text it leaves, empty when it fails).
   */
  datatype Locale = Locale(date: FileTime -> Option<WString>, time: FileTime -> WString)

  const VT_EMPTY: nat := 0
  const VT_I2: nat := 2
  const VT_I4: nat := 3
  const VT_LPSTR: nat := 30
  const VT_FILETIME: nat := 64

  /**
   * The outcome of MsiSummaryInfoGetProperty for one property id: whether it
   * succeeded, and the type, integer, file time and string it reported.
   */
  datatype Property = Property(ok: bool, vtype: nat, iValue: Int32, ft: FileTime, text: WString)

  /**
   * A summary information handle: whether MsiSummaryInfoGetPropertyCount
   * succeeds, the property ids from 0 upwards, and the user's locale.
   */
  datatype SummaryInfo = SummaryInfo(countOk: bool, properties: seq<Property>, locale: Locale)

  /** MsiSummaryInfoGetProperty for id i; an id past the given ones fails. */
  function PropertyOf(s: SummaryInfo, i: nat): Property
  {
    if i < |s.properties| then s.properties[i] else Property(false, VT_EMPTY, 0, FileTime(0, 0), [])
  }
}
