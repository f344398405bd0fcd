/**
 * The record helpers of TMsi.cpp: a record field as text (integer or
 * string form) and as a binary blob. Column n of a table is field n + 1 of
 * its records, field 0 being the record's format template.
 */
module MsiRecords {
  import opened WideString
  import opened Wrappers
  import opened MsiApi
  import opened MsiBlobs

  /** The text written for a null integer. */
  function NullText(): WString { Wide("(null)") }

  /**
   * MsiRecordGetInteger, string form: the integer of field column + 1 as
   * signed decimal, or "(null)" for MSI_NULL_INTEGER. It always succeeds.
   */
  function RecordGetInteger(rec: Record, column: nat): (r: (bool, WString))
    ensures r.0
    ensures FieldOf(rec, column + 1).integer == MSI_NULL_INTEGER ==> r.1 == NullText()
    ensures FieldOf(rec, column + 1).integer != MSI_NULL_INTEGER ==>
      ParseSigned(r.1) == Some(FieldOf(rec, column + 1).integer as int)
  {
    var v := FieldOf(rec, column + 1).integer;
    SignedTextRoundTrip(v);
    if v != MSI_NULL_INTEGER then (true, SignedText(v)) else (true, NullText())
  }

  /** Reads back an optionally signed run of decimal digits. */
  function ParseSigned(s: WString): Option<int>
  {
    if |s| > 0 && s[0] == '-' as int && |s| > 1 && (forall i | 1 <= i < |s| :: IsDigit(s[i])) then
      Some(-(DigitsValue(s[1..]) as int))
    else if |s| > 0 && (forall i | 0 <= i < |s| :: IsDigit(s[i])) then Some(DigitsValue(s))
    else None
  }

  lemma SignedTextRoundTrip(i: int)
    ensures ParseSigned(SignedText(i)) == Some(i)
  {
    if i < 0 {
      DigitsRoundTrip(-i);
      assert SignedText(i)[1..] == Digits(-i);
    } else {
      DigitsRoundTrip(i);
    }
  }

  /** "(null)" is not the text of any integer, so the two cases of RecordGetInteger never meet. */
  lemma NullTextIsNoNumber(i: int)
    ensures SignedText(i) != NullText()
  {
    var n := NullText();
    assert n[0] == '(' as int;
    if i < 0 {
      assert SignedText(i)[0] == '-' as int;
    } else {
      assert IsDigit(SignedText(i)[0]);
    }
  }

  /** The size of the buffer MsiRecordGetString fetches into without allocating. */
  const STATIC_BUFFER_SIZE: nat := 0x80

  /**
   * MsiRecordGetString: when the length query for field column + 1
   * succeeds, the value is that field's text and the result is true; a text
   * needing more than the static buffer of 0x80 characters is fetched into an
   * allocated buffer, and when that allocation (allocOk) fails the result is
   * false. When the result is false the caller's value `prev` is left as it was.
   */
  function RecordGetString(rec: Record, column: nat, prev: WString, allocOk: bool): (r: (bool, WString))
    ensures r.0 <==> FieldOf(rec, column + 1).text.Some? &&
                     (|FieldOf(rec, column + 1).text.value| + 1 <= STATIC_BUFFER_SIZE || allocOk)
    ensures r.0 ==> r.1 == FieldOf(rec, column + 1).text.value
    ensures !r.0 ==> r.1 == prev
  {
    match FieldOf(rec, column + 1).text
    case None => (false, prev)
    case Some(t) =>
      var cc := |t| + 1;
      if cc > STATIC_BUFFER_SIZE then
        if allocOk then (true, t) else (false, prev)
      else (true, t)
  }

  /**
   * MsiRecordGetBinary: reads the stream of field column + 1 into a new
   * buffer of its reported size and stores buffer and size into the blob.
   * An empty stream or a failed allocation leaves no buffer, and the result
   * is true exactly when a buffer was stored. The size stored is the reported
   * data size, or the count read when the read succeeds.
   */
  method RecordGetBinary(rec: Record, column: nat, blob: MsiBlob, allocOk: bool) returns (ok: bool)
    modifies blob
    ensures ok <==> blob.pbData != null
    ensures ok <==> DataSize(rec, column + 1) > 0 && allocOk
    ensures ok ==> fresh(blob.pbData) && blob.pbData.Length == DataSize(rec, column + 1)
    ensures ok ==> blob.cbData == DataSize(rec, column + 1)
    ensures ok && FieldOf(rec, column + 1).readable ==> blob.pbData[..] == FieldOf(rec, column + 1).stream
    ensures !ok ==> blob.cbData == DataSize(rec, column + 1)
  {
    var pbValue: array?<Byte> := null;
    var cbValue := DataSize(rec, column + 1);
    if cbValue > 0 {
      if allocOk {
        var buffer := new Byte[cbValue];
        var code;
        code, cbValue := ReadStream(rec, column + 1, buffer, cbValue);
        pbValue := buffer;
      }
    }
    blob.pbData := pbValue;
    blob.cbData := cbValue;
    ok := blob.pbData != null;
  }
}
