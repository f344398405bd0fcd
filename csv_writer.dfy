/**
 * The byte-level CSV writer that TMsiFile.cpp uses to render tables and the
 * summary information: a UTF-8 byte order mark, quoted comma-separated
 * fields and CR LF line ends.
 *
 * Every helper works on a buffer and an offset into it and returns the
 * advanced offset. A null buffer stands for the "dry run" in which the
 * source passes pbBufferEnd == NULL: nothing is written and only the
 * offset advances, so the same code measures a rendering and then fills a
 * buffer of exactly that size.
 */
module CsvWriter {
  import opened WideString

  const COMMA: Byte := 0x2C
  const QUOTE: Byte := 0x22

  /** CR LF. */
  function NewLine(): seq<Byte> { [0x0D, 0x0A] }

  /** The UTF-8 byte order mark. */
  function Utf8Marker(): seq<Byte> { [0xEF, 0xBB, 0xBF] }

  /**
   * The bytes of one field: a comma unless it is the first field of its line,
   * then the UTF-8 text between double quotes. Quotes inside the value are
   * not escaped.
   */
  function FieldBytes(value: WString, index: nat): seq<Byte>
  {
    (if index > 0 then [COMMA] else []) + [QUOTE] + Utf8(value) + [QUOTE]
  }

  /** What a field starts with: the separator, if any, and the opening quote. */
  function FieldHead(index: nat): seq<Byte>
  {
    if index > 0 then [COMMA, QUOTE] else [QUOTE]
  }

  lemma FieldSplit(value: WString, index: nat)
    ensures FieldBytes(value, index) == FieldHead(index) + Utf8(value) + [QUOTE]
    ensures index > 0 ==> FieldHead(index) == [COMMA] + [QUOTE]
  {
  }

  /** The size the dry run counts for a field: separator, two quotes and the UTF-8 length. */
  lemma FieldLength(value: WString, index: nat)
    ensures |FieldBytes(value, index)| == (if index > 0 then 1 else 0) + 2 + Utf8Length(value)
  {
    Utf8LengthMatches(value);
  }

  /**
   * A field holds exactly two double quotes, at its ends, when the value has
   * none; a value holding a quote makes the field unreadable as CSV, since
   * nothing escapes it.
   */
  lemma FieldQuotes(value: WString, index: nat)
    ensures var f := FieldBytes(value, index);
      var body := f[(if index > 0 then 2 else 1)..|f| - 1];
      body == Utf8(value) && (QUOTE in body <==> QUOTE in value)
  {
    Utf8AsciiByteOccurs(value, QUOTE);
    var f := FieldBytes(value, index);
    var s := if index > 0 then 2 else 1;
    assert f[s..|f| - 1] == Utf8(value);
  }

  /** Where the buffer ends: pbBufferEnd, a null buffer standing for NULL. */
  function End(buf: array?<Byte>): nat
    reads {}
  {
    if buf == null then 0 else buf.Length
  }

  /** `after` is `before` with `bytes` written at offset `at`. */
  ghost predicate Wrote(before: seq<Byte>, after: seq<Byte>, at: nat, bytes: seq<Byte>)
  {
    at + |bytes| <= |before| && after == before[..at] + bytes + before[at + |bytes|..]
  }

  /** Two writes one after the other are one write of the concatenation. */
  lemma WroteThen(a: seq<Byte>, b: seq<Byte>, c: seq<Byte>, at: nat, x: seq<Byte>, y: seq<Byte>)
    requires Wrote(a, b, at, x) && Wrote(b, c, at + |x|, y)
    ensures Wrote(a, c, at, x + y)
  {
    assert b[..at + |x|] == a[..at] + x;
    assert b[at + |x| + |y|..] == a[at + |x| + |y|..];
  }

  /** `*p++ = x`: stores one byte and advances past it. */
  method PutByte(buf: array<Byte>, p: nat, x: Byte) returns (next: nat)
    requires p < buf.Length
    modifies buf
    ensures next == p + 1
    ensures Wrote(old(buf[..]), buf[..], p, [x])
  {
    buf[p] := x;
    assert buf[..] == old(buf[..p]) + [x] + old(buf[p + 1..]);
    next := p + 1;
  }

  /**
   * AppendNewLine: always advances by two; writes CR LF only when both bytes
   * fit before the end. The bytes `done` are those already written from the
   * start of the buffer, whose content before the rendering is `original`.
   */
  method AppendNewLine(buf: array?<Byte>, ghost original: seq<Byte>, ghost done: seq<Byte>, ptr: nat) returns (next: nat)
    requires ptr == |done|
    requires buf != null ==> Wrote(original, buf[..], 0, done)
    modifies buf
    ensures next == ptr + |NewLine()|
    ensures buf != null && next <= buf.Length ==> Wrote(original, buf[..], 0, done + NewLine())
    ensures buf != null && next > buf.Length ==> buf[..] == old(buf[..])
  {
    if buf != null && ptr + 2 <= buf.Length {
      buf[ptr] := 0x0D;
      buf[ptr + 1] := 0x0A;
      assert Wrote(old(buf[..]), buf[..], ptr, NewLine()) by {
        assert buf[..] == old(buf[..ptr]) + NewLine() + old(buf[ptr + 2..]);
      }
      WroteThen(original, old(buf[..]), buf[..], 0, done, NewLine());
    }
    next := ptr + 2;
  }

  /**
   * AppendUtf8Marker at the start of a buffer: always advances by three;
   * writes EF BB BF only when the three bytes fit.
   */
  method AppendUtf8Marker(buf: array?<Byte>) returns (next: nat)
    modifies buf
    ensures next == |Utf8Marker()|
    ensures buf != null && next <= buf.Length ==> Wrote(old(buf[..]), buf[..], 0, Utf8Marker())
    ensures buf != null && next > buf.Length ==> buf[..] == old(buf[..])
  {
    if buf != null && 3 <= buf.Length {
      buf[0] := 0xEF;
      buf[1] := 0xBB;
      buf[2] := 0xBF;
      assert buf[..] == Utf8Marker() + old(buf[3..]);
    }
    next := 3;
  }

  /**
   * The conversion call WideCharToMultiByte(CP_UTF8, 0, value, ..., buf + at,
   * cap): writes the encoding and returns its length when it fits in the
   * remaining capacity, and returns 0 otherwise.
   */
  method WideCharToMultiByte(value: WString, buf: array<Byte>, at: nat) returns (n: nat)
    requires at <= buf.Length
    modifies buf
    ensures |Utf8(value)| <= buf.Length - at ==> n == |Utf8(value)| && Wrote(old(buf[..]), buf[..], at, Utf8(value))
    ensures |Utf8(value)| > buf.Length - at ==> n == 0 && buf[..] == old(buf[..])
  {
    var bytes := Utf8(value);
    if |bytes| > buf.Length - at {
      return 0;
    }
    for k := 0 to |bytes|
      invariant forall j | 0 <= j < buf.Length :: buf[j] == if at <= j < at + k then bytes[j - at] else old(buf[j])
    {
      buf[at + k] := bytes[k];
    }
    assert buf[..] == old(buf[..at]) + bytes + old(buf[at + |bytes|..]);
    n := |bytes|;
  }

  /**
   * AppendFieldString. The dry run advances by the counted length
   * ((index > 0 ? 1 : 0) + 2 + the UTF-8 length) and writes nothing; the
   * fill pass writes the field's bytes and advances by exactly as much. The
   * fill pass writes its quotes without a bounds check, so it needs room for
   * the whole field.
   */
  method AppendFieldString(buf: array?<Byte>, ghost original: seq<Byte>, ghost done: seq<Byte>, ptr: nat, value: WString, index: nat)
    returns (next: nat)
    requires ptr == |done|
    requires buf != null ==> |done + FieldBytes(value, index)| <= buf.Length && Wrote(original, buf[..], 0, done)
    modifies buf
    ensures next == ptr + (if index > 0 then 1 else 0) + 2 + Utf8Length(value)
    ensures next == |done + FieldBytes(value, index)|
    ensures buf != null ==> Wrote(original, buf[..], 0, done + FieldBytes(value, index))
  {
    FieldLength(value, index);
    var length := (if index > 0 then 1 else 0) + 1 + Utf8Length(value) + 1;
    if buf == null {
      return ptr + length;
    }
    next := WriteField(buf, ptr, value, index);
    WroteThen(original, old(buf[..]), buf[..], 0, done, FieldBytes(value, index));
  }

  /** The fill pass of AppendFieldString: separator, quote, the converted text and the closing quote. */
  method WriteField(buf: array<Byte>, ptr: nat, value: WString, index: nat) returns (next: nat)
    requires ptr + |FieldBytes(value, index)| <= buf.Length
    modifies buf
    ensures next == ptr + |FieldBytes(value, index)|
    ensures Wrote(old(buf[..]), buf[..], ptr, FieldBytes(value, index))
  {
    ghost var b0 := buf[..];
    ghost var head := FieldHead(index);
    FieldSplit(value, index);
    var p := WriteFieldHead(buf, ptr, index);
    ghost var mid := buf[..];
    var n := WideCharToMultiByte(value, buf, p);
    WroteThen(b0, mid, buf[..], ptr, head, Utf8(value));
    p := p + n;
    ghost var mid2 := buf[..];
    p := PutByte(buf, p, QUOTE);
    WroteThen(b0, mid2, buf[..], ptr, head + Utf8(value), [QUOTE]);
    next := p;
  }

  /** The separator, when the field is not the first of its line, and the opening quote. */
  method WriteFieldHead(buf: array<Byte>, ptr: nat, index: nat) returns (next: nat)
    requires ptr + |FieldHead(index)| <= buf.Length
    modifies buf
    ensures next == ptr + |FieldHead(index)|
    ensures Wrote(old(buf[..]), buf[..], ptr, FieldHead(index))
  {
    if index > 0 {
      ghost var b0 := buf[..];
      next := PutByte(buf, ptr, COMMA);
      ghost var b1 := buf[..];
      next := PutByte(buf, next, QUOTE);
      WroteThen(b0, b1, buf[..], ptr, [COMMA], [QUOTE]);
    } else {
      next := PutByte(buf, ptr, QUOTE);
    }
  }
}
