/**
 * Wide (UTF-16) strings as the plugin handles them (TCHAR is wchar_t in
 * the Unicode build), the UTF-8 encoding that WideCharToMultiByte(CP_UTF8, 0)
 * produces for them, the case folding behind _tcsicmp, and the decimal text
 * produced by the "%i", "%u" and "%03u" formats.
 */
module WideString {

  /** One UTF-16 code unit (wchar_t). */
  type WChar = c: int | 0 <= c < 0x1_0000

  /** One byte of a buffer (BYTE). */
  type Byte = b: int | 0 <= b < 0x100

  /** A std::tstring / LPCTSTR: a sequence of UTF-16 code units without the terminator. */
  type WString = seq<WChar>

  /** The UTF-16 code unit of a character of a source literal (all literals here are ASCII). */
  function Unit(c: char): WChar
  {
    if c as int < 0x1_0000 then c as int else 0xFFFD
  }

  /** A string literal of the source (`_T("...")`) as UTF-16 code units. */
  function Wide(s: string): (w: WString)
    ensures |w| == |s|
    ensures forall i | 0 <= i < |s| :: w[i] == Unit(s[i])
  {
    seq(|s|, i requires 0 <= i < |s| => Unit(s[i]))
  }

  // ---------------------------------------------------------------------------
  // UTF-8 encoding (WideCharToMultiByte with CP_UTF8 and no flags)

  predicate IsHighSurrogate(c: WChar) { 0xD800 <= c < 0xDC00 }
  predicate IsLowSurrogate(c: WChar) { 0xDC00 <= c < 0xE000 }
  predicate IsSurrogate(c: WChar) { 0xD800 <= c < 0xE000 }

  /** True when the code unit at position i starts a valid surrogate pair. */
  predicate PairAt(s: WString, i: nat)
  {
    i + 1 < |s| && IsHighSurrogate(s[i]) && IsLowSurrogate(s[i + 1])
  }

  /** The UTF-8 bytes of one Unicode scalar value. */
  function EncodeScalar(cp: int): (r: seq<Byte>)
    requires 0 <= cp < 0x11_0000
    ensures 1 <= |r| <= 4
    ensures |r| == 1 <==> cp < 0x80
    ensures |r| == 1 ==> r[0] == cp
    ensures |r| > 1 ==> forall k | 0 <= k < |r| :: r[k] >= 0x80
  {
    if cp < 0x80 then [cp]
    else if cp < 0x800 then [0xC0 + cp / 0x40, 0x80 + cp % 0x40]
    else if cp < 0x1_0000 then
      [0xE0 + cp / 0x1000, 0x80 + (cp / 0x40) % 0x40, 0x80 + cp % 0x40]
    else
      [0xF0 + cp / 0x4_0000, 0x80 + (cp / 0x1000) % 0x40, 0x80 + (cp / 0x40) % 0x40, 0x80 + cp % 0x40]
  }

  /** The scalar value of the surrogate pair (hi, lo). */
  function PairScalar(hi: WChar, lo: WChar): (cp: int)
    requires IsHighSurrogate(hi) && IsLowSurrogate(lo)
    ensures 0x1_0000 <= cp < 0x11_0000
  {
    0x1_0000 + (hi - 0xD800) * 0x400 + (lo - 0xDC00)
  }

  /**
   * The UTF-8 encoding of a UTF-16 string: a valid surrogate pair becomes one
   * four-byte sequence, an unpaired surrogate becomes U+FFFD, and every other
   * code unit is encoded as the scalar value it is.
   */
  function Utf8(s: WString): seq<Byte>
    decreases |s|
  {
    if s == [] then []
    else if PairAt(s, 0) then EncodeScalar(PairScalar(s[0], s[1])) + Utf8(s[2..])
    else if IsSurrogate(s[0]) then EncodeScalar(0xFFFD) + Utf8(s[1..])
    else EncodeScalar(s[0]) + Utf8(s[1..])
  }

  /**
   * The byte count WideCharToMultiByte reports when asked for the size only,
   * as an independent count per code unit: 1 below 0x80, 2 below 0x800, 4 for
   * a surrogate pair, 3 for everything else (an unpaired surrogate included).
   */
  function Utf8Length(s: WString): nat
    decreases |s|
  {
    if s == [] then 0
    else if PairAt(s, 0) then 4 + Utf8Length(s[2..])
    else if s[0] < 0x80 then 1 + Utf8Length(s[1..])
    else if s[0] < 0x800 then 2 + Utf8Length(s[1..])
    else 3 + Utf8Length(s[1..])
  }

  /** The length the size query reports is the length of the encoding. */
  lemma {:induction false} Utf8LengthMatches(s: WString)
    ensures |Utf8(s)| == Utf8Length(s)
    decreases |s|
  {
    if s == [] {
    } else if PairAt(s, 0) {
      Utf8LengthMatches(s[2..]);
    } else {
      Utf8LengthMatches(s[1..]);
    }
  }

  /** A code unit below 0x80 is encoded as itself; others only as bytes of 0x80 and above. */
  lemma {:induction false} Utf8Ascii(s: WString)
    requires forall i | 0 <= i < |s| :: s[i] < 0x80
    ensures Utf8(s) == s
    decreases |s|
  {
    if s != [] {
      Utf8Ascii(s[1..]);
    }
  }

  /**
   * The byte b below 0x80 occurs in the encoding exactly when the code unit b
   * occurs in the string. In particular a double quote or a comma appears in
   * a CSV field's bytes only where the value itself holds one.
   */
  lemma {:induction false} Utf8AsciiByteOccurs(s: WString, b: Byte)
    requires b < 0x80
    ensures b in Utf8(s) <==> b in s
    decreases |s|
  {
    if s == [] {
    } else if PairAt(s, 0) {
      Utf8AsciiByteOccurs(s[2..], b);
      assert s == [s[0], s[1]] + s[2..];
    } else {
      Utf8AsciiByteOccurs(s[1..], b);
      assert s == [s[0]] + s[1..];
    }
  }

  // ---------------------------------------------------------------------------
  // Case-insensitive comparison (_tcsicmp in the "C" locale)

  /** The lower-case form of a code unit: only 'A'..'Z' change. */
  function Lower(c: WChar): WChar
  {
    if 'A' as int <= c <= 'Z' as int then c + 0x20 else c
  }

  /** The string compared by _tcsicmp: every code unit lower-cased. */
  function Fold(s: WString): (r: WString)
    ensures |r| == |s|
  {
    if s == [] then [] else [Lower(s[0])] + Fold(s[1..])
  }

  /** Folding works code unit by code unit. */
  lemma {:induction false} FoldAt(s: WString, i: nat)
    requires i < |s|
    ensures Fold(s)[i] == Lower(s[i])
    decreases i
  {
    if i > 0 {
      FoldAt(s[1..], i - 1);
    }
  }

  /** _tcsicmp(a, b) == 0. */
  predicate SameIgnoringCase(a: WString, b: WString)
  {
    Fold(a) == Fold(b)
  }

  lemma {:induction false} FoldConcat(a: WString, b: WString)
    ensures Fold(a + b) == Fold(a) + Fold(b)
    decreases |a|
  {
    if a == [] {
      assert a + b == b;
    } else {
      assert (a + b)[1..] == a[1..] + b;
      FoldConcat(a[1..], b);
    }
  }

  // ---------------------------------------------------------------------------
  // Decimal text

  predicate IsDigit(c: WChar) { '0' as int <= c <= '9' as int }

  /** The decimal digits of n, most significant first, without leading zeros. */
  function Digits(n: nat): (r: WString)
    ensures |r| >= 1
    ensures forall i | 0 <= i < |r| :: IsDigit(r[i])
    decreases n
  {
    if n < 10 then ['0' as int + n] else Digits(n / 10) + ['0' as int + n % 10]
  }

  /** The value of a run of decimal digits (what the conversion of _tcstoul accumulates). */
  function DigitsValue(s: WString): nat
    requires forall i | 0 <= i < |s| :: IsDigit(s[i])
    decreases |s|
  {
    if s == [] then 0
    else
      assert IsDigit(s[|s| - 1]);
      DigitsValue(s[..|s| - 1]) * 10 + (s[|s| - 1] - '0' as int)
  }

  /** Reading back the digits of n gives n. */
  lemma {:induction false} DigitsRoundTrip(n: nat)
    ensures DigitsValue(Digits(n)) == n
    decreases n
  {
    if n >= 10 {
      DigitsRoundTrip(n / 10);
      var d := Digits(n / 10) + ['0' as int + n % 10];
      assert d[..|d| - 1] == Digits(n / 10);
    }
  }

  /** Leading zeros do not change the value of a digit run. */
  lemma {:induction false} LeadingZeros(k: nat, s: WString)
    requires forall i | 0 <= i < |s| :: IsDigit(s[i])
    ensures forall i | 0 <= i < |Zeros(k) + s| :: IsDigit((Zeros(k) + s)[i])
    ensures DigitsValue(Zeros(k) + s) == DigitsValue(s)
    decreases |s|
  {
    if s == [] {
      ZerosValue(k);
      assert Zeros(k) + s == Zeros(k);
    } else {
      LeadingZeros(k, s[..|s| - 1]);
      assert (Zeros(k) + s)[..|Zeros(k) + s| - 1] == Zeros(k) + s[..|s| - 1];
    }
  }

  function Zeros(k: nat): (r: WString)
    ensures |r| == k
    ensures forall i | 0 <= i < k :: r[i] == '0' as int
  {
    seq(k, _ => '0' as int)
  }

  lemma {:induction false} ZerosValue(k: nat)
    ensures DigitsValue(Zeros(k)) == 0
    decreases k
  {
    if k > 0 {
      assert Zeros(k)[..k - 1] == Zeros(k - 1);
      ZerosValue(k - 1);
    }
  }

  /** "%u" of an unsigned value. */
  function UnsignedText(n: nat): WString
  {
    Digits(n)
  }

  /** "%i" of a signed value: a minus sign before the digits of the magnitude. */
  function SignedText(i: int): (r: WString)
    ensures i >= 0 ==> r == Digits(i)
    ensures i < 0 ==> r == ['-' as int] + Digits(-i)
  {
    if i < 0 then ['-' as int] + Digits(-i) else Digits(i)
  }

  /** "%03u": the digits of n, left padded with '0' to at least three characters. */
  function Padded3(n: nat): (r: WString)
    ensures |r| >= 3
    ensures forall i | 0 <= i < |r| :: IsDigit(r[i])
  {
    var d := Digits(n);
    var z := Zeros(if |d| < 3 then 3 - |d| else 0);
    LeadingZeros(|z|, d);
    z + d
  }

  /** "%03u" reads back as the number it was given, so different numbers give different text. */
  lemma Padded3RoundTrip(n: nat)
    ensures DigitsValue(Padded3(n)) == n
  {
    var d := Digits(n);
    LeadingZeros(if |d| < 3 then 3 - |d| else 0, d);
    DigitsRoundTrip(n);
  }

  lemma Padded3Injective(a: nat, b: nat)
    requires Padded3(a) == Padded3(b)
    ensures a == b
  {
    Padded3RoundTrip(a);
    Padded3RoundTrip(b);
  }

  /** Digits have no case: folding leaves them alone. */
  lemma {:induction false} FoldDigits(s: WString)
    requires forall i | 0 <= i < |s| :: IsDigit(s[i])
    ensures Fold(s) == s
    decreases |s|
  {
    if s != [] {
      FoldDigits(s[1..]);
      assert s == [s[0]] + s[1..];
    }
  }
}
