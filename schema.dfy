/**
 * The schema side of TMsiTable (TMsiTable.cpp): which columns LoadColumns
 * collects from a view's column information, and which of them Load picks
 * as the stream column and the name column.
 */
module MsiSchema {
  import opened WideString
  import opened Wrappers
  import opened MsiApi
  import opened MsiColumns

  /** INVALID_SIZE_T: (size_t)-1 on a 64-bit build, the "no column" index. */
  const INVALID_SIZE_T: nat := 0xFFFF_FFFF_FFFF_FFFF

  // ---------------------------------------------------------------------------
  // LoadColumns

  /**
   * The columns the insertion loop of LoadColumns builds from the first n
   * entries of the name and type strings: entry i becomes a column unless its
   * name or its type is empty.
   */
  function ColumnsOf(names: seq<WString>, types: seq<WString>, n: nat): seq<Column>
    requires n <= |names| && n <= |types|
  {
    if n == 0 then []
    else
      ColumnsOf(names, types, n - 1) +
      (if |names[n - 1]| > 0 && |types[n - 1]| > 0 then [NewColumn(names[n - 1], types[n - 1])] else [])
  }

  /** The entries below n that have both a name and a type, in increasing order. */
  function KeptEntries(names: seq<WString>, types: seq<WString>, n: nat): seq<nat>
    requires n <= |names| && n <= |types|
  {
    if n == 0 then []
    else KeptEntries(names, types, n - 1) + (if |names[n - 1]| > 0 && |types[n - 1]| > 0 then [n - 1] else [])
  }

  /**
   * The columns are exactly the kept entries, classified, in entry order.
   */
  lemma {:induction false} ColumnsOfKept(names: seq<WString>, types: seq<WString>, n: nat)
    requires n <= |names| && n <= |types|
    ensures |ColumnsOf(names, types, n)| == |KeptEntries(names, types, n)|
    ensures forall j | 0 <= j < |KeptEntries(names, types, n)| ::
      KeptEntries(names, types, n)[j] < n &&
      ColumnsOf(names, types, n)[j] == NewColumn(names[KeptEntries(names, types, n)[j]], types[KeptEntries(names, types, n)[j]])
    decreases n
  {
    if n > 0 {
      ColumnsOfKept(names, types, n - 1);
      var prev, kept := KeptEntries(names, types, n - 1), KeptEntries(names, types, n);
      var cols, pcols := ColumnsOf(names, types, n), ColumnsOf(names, types, n - 1);
      if |names[n - 1]| > 0 && |types[n - 1]| > 0 {
        assert kept == prev + [n - 1] && cols == pcols + [NewColumn(names[n - 1], types[n - 1])];
        assert forall j | 0 <= j < |prev| :: kept[j] == prev[j] && cols[j] == pcols[j];
      } else {
        assert kept == prev && cols == pcols;
      }
    }
  }

  /** The kept entries are increasing, and an entry is kept if and only if neither its name nor its type is empty. */
  lemma {:induction false} KeptEntriesExact(names: seq<WString>, types: seq<WString>, n: nat)
    requires n <= |names| && n <= |types|
    ensures forall j | 0 <= j < |KeptEntries(names, types, n)| :: KeptEntries(names, types, n)[j] < n
    ensures forall j, k | 0 <= j < k < |KeptEntries(names, types, n)| :: KeptEntries(names, types, n)[j] < KeptEntries(names, types, n)[k]
    ensures forall i | 0 <= i < n :: i in KeptEntries(names, types, n) <==> |names[i]| > 0 && |types[i]| > 0
    decreases n
  {
    if n > 0 {
      KeptEntriesExact(names, types, n - 1);
    }
  }

  /**
   * What LoadColumns appends for a view: nothing when either column
   * information call fails or the two field counts differ, otherwise the
   * columns of all entries.
   */
  function ViewColumns(v: View): seq<Column>
  {
    if v.types.code == ERROR_SUCCESS && v.names.code == ERROR_SUCCESS && |v.types.fields| == |v.names.fields| then
      ColumnsOf(v.names.fields, v.types.fields, |v.types.fields|)
    else []
  }

  /** The result of LoadColumns: the first failing column information call's code. */
  function ColumnsCode(v: View): nat
  {
    if v.types.code != ERROR_SUCCESS then v.types.code else v.names.code
  }

  /** LoadColumns succeeds exactly when both column information calls succeed; the field counts do not matter. */
  lemma ColumnsCodeSuccess(v: View)
    ensures ColumnsCode(v) == ERROR_SUCCESS <==> v.types.code == ERROR_SUCCESS && v.names.code == ERROR_SUCCESS
    ensures ColumnsCode(v) != ERROR_SUCCESS || |v.types.fields| != |v.names.fields| ==> ViewColumns(v) == []
  {
  }

  // ---------------------------------------------------------------------------
  // Load

  /** The index of the first column of kind k, if any. */
  function FirstOfKind(cols: seq<Column>, k: ColumnKind): (r: Option<nat>)
    ensures r.Some? ==> r.value < |cols| && cols[r.value].kind == k
    ensures r.Some? ==> forall j | 0 <= j < r.value :: cols[j].kind != k
    ensures r.None? <==> forall j | 0 <= j < |cols| :: cols[j].kind != k
    decreases |cols|
  {
    if cols == [] then None
    else if cols[0].kind == k then Some(0)
    else match FirstOfKind(cols[1..], k)
      case None => None
      case Some(i) => Some(i + 1)
  }

  /** An optional index as a size_t: INVALID_SIZE_T for none. */
  function IndexOr(r: Option<nat>, otherwise: nat): nat
  {
    if r.Some? then r.value else otherwise
  }

  /** The stream column Load sets up from INVALID_SIZE_T: the first Stream column. */
  function StreamColumnOf(cols: seq<Column>): nat
  {
    IndexOr(FirstOfKind(cols, Stream), INVALID_SIZE_T)
  }

  /** The name column Load sets up from INVALID_SIZE_T: the first String column, and only when there is a stream column. */
  function NameColumnOf(cols: seq<Column>): nat
  {
    if StreamColumnOf(cols) != INVALID_SIZE_T then IndexOr(FirstOfKind(cols, String), INVALID_SIZE_T) else INVALID_SIZE_T
  }

  /**
   * A table yields one file per row exactly when it has a Stream column and
   * a String column; the name column is then a String column and the stream
   * column a Stream column.
   */
  lemma StreamTableShape(cols: seq<Column>)
    requires |cols| < INVALID_SIZE_T
    ensures StreamColumnOf(cols) != INVALID_SIZE_T && NameColumnOf(cols) != INVALID_SIZE_T <==>
      (exists i | 0 <= i < |cols| :: cols[i].kind == Stream) && (exists i | 0 <= i < |cols| :: cols[i].kind == String)
    ensures StreamColumnOf(cols) != INVALID_SIZE_T ==> cols[StreamColumnOf(cols)].kind == Stream
    ensures NameColumnOf(cols) != INVALID_SIZE_T ==> cols[NameColumnOf(cols)].kind == String
  {
    var s, n := FirstOfKind(cols, Stream), FirstOfKind(cols, String);
    if s.Some? {
      assert cols[s.value].kind == Stream;
    }
    if n.Some? {
      assert cols[n.value].kind == String;
    }
  }
}
