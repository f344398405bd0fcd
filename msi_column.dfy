/**
 * TMsiColumn (TMsiTable.cpp): a table column classified from the MSI type
 * tag that MsiViewGetColumnInfo(MSICOLINFO_TYPES) reports, such as "s72",
 * "L0", "i2" or "V0".
 */
module MsiColumns {
  import opened WideString
  import opened MsiApi

  /** MSI_TYPE. */
  datatype ColumnKind = Unknown | Integer | String | Stream

  /** The column's name, its tag as given, its kind and its size. */
  datatype Column = Column(name: WString, typeTag: WString, kind: ColumnKind, size: nat)

  /** ULONG_MAX: where _tcstoul saturates. */
  const ULONG_MAX: nat := 0xFFFF_FFFF

  /** The kind selected by the lower-cased first tag character. */
  function KindOf(lowered: WChar): ColumnKind
  {
    if lowered == 'i' as int then Integer
    else if lowered == 's' as int || lowered == 'l' as int then String
    else if lowered == 'v' as int then Stream
    else Unknown
  }

  /** The leading run of decimal digits of s. */
  function DigitRun(s: WString): (r: WString)
    ensures |r| <= |s| && r == s[..|r|]
    ensures forall i | 0 <= i < |r| :: IsDigit(r[i])
    ensures |r| < |s| ==> !IsDigit(s[|r|])
  {
    if s == [] || !IsDigit(s[0]) then [] else [s[0]] + DigitRun(s[1..])
  }

  /** _tcstoul(s, &end, 10) for s starting with a digit: the digits' value, saturated at ULONG_MAX. */
  function ParseUnsigned(s: WString): nat
  {
    var v := DigitsValue(DigitRun(s));
    if v > ULONG_MAX then ULONG_MAX else v
  }

  /** True when the tag's second character is a decimal digit. */
  predicate HasSize(tag: WString)
  {
    |tag| > 1 && IsDigit(tag[1])
  }

  /**
   * The TMsiColumn constructor. The kind comes from the first tag character
   * compared case-insensitively: 'i' is Integer with a default size of 4,
   * 's' and 'l' are String, 'v' is Stream, anything else is Unknown, each of
   * the last three with a default size of 0. When the second character is a
   * digit, the decimal number from there on replaces the default size.
   * The source folds the letter with CharLower, which follows the locale;
   * Lower folds only 'A'..'Z'. MSI column type tags are ASCII, so the two
   * agree on every tag MSI reports under any locale that folds ASCII
   * letters to ASCII.
   */
  function NewColumn(name: WString, tag: WString): (c: Column)
    ensures c.name == name && c.typeTag == tag
    ensures c.kind == Integer <==> |tag| > 0 && Lower(tag[0]) == 'i' as int
    ensures c.kind == String <==> |tag| > 0 && (Lower(tag[0]) == 's' as int || Lower(tag[0]) == 'l' as int)
    ensures c.kind == Stream <==> |tag| > 0 && Lower(tag[0]) == 'v' as int
    ensures !HasSize(tag) ==> c.size == (if c.kind == Integer then 4 else 0)
    ensures HasSize(tag) ==> c.size == ParseUnsigned(tag[1..])
  {
    var kind := if |tag| > 0 then KindOf(Lower(tag[0])) else Unknown;
    var size := if kind == Integer then 4 else 0;
    Column(name, tag, kind, if HasSize(tag) then ParseUnsigned(tag[1..]) else size)
  }

  /** The digits of a number read back as that number. */
  lemma DigitRunOfDigits(n: nat, rest: WString)
    requires rest == [] || !IsDigit(rest[0])
    ensures DigitRun(Digits(n) + rest) == Digits(n)
  {
    DigitRunPrefix(Digits(n), rest);
  }

  lemma {:induction false} DigitRunPrefix(d: WString, rest: WString)
    requires forall i | 0 <= i < |d| :: IsDigit(d[i])
    requires rest == [] || !IsDigit(rest[0])
    ensures DigitRun(d + rest) == d
    decreases |d|
  {
    if d == [] {
      assert d + rest == rest;
    } else {
      assert (d + rest)[1..] == d[1..] + rest;
      DigitRunPrefix(d[1..], rest);
    }
  }

  /**
   * A tag made of a kind letter and the decimal text of a size up to
   * ULONG_MAX classifies with exactly that size.
   */
  lemma SizeFromTag(letter: WChar, n: nat)
    requires n <= ULONG_MAX
    ensures NewColumn([], [letter] + Digits(n)).size == n
    ensures NewColumn([], [letter] + Digits(n)).kind == KindOf(Lower(letter))
  {
    var tag := [letter] + Digits(n);
    assert tag[1..] == Digits(n) + [];
    DigitRunOfDigits(n, []);
    DigitsRoundTrip(n);
  }

  /** A length beyond ULONG_MAX saturates. */
  lemma SizeSaturates(letter: WChar, n: nat)
    requires n > ULONG_MAX
    ensures NewColumn([], [letter] + Digits(n)).size == ULONG_MAX
  {
    var tag := [letter] + Digits(n);
    assert tag[1..] == Digits(n) + [];
    DigitRunOfDigits(n, []);
    DigitsRoundTrip(n);
  }

  /** "s72" is a string column of 72 characters, "I2" an integer column of size 2, "V0" a stream. */
  lemma TagExamples()
    ensures NewColumn(Wide("Name"), Wide("s72")) == Column(Wide("Name"), Wide("s72"), String, 72)
    ensures NewColumn(Wide("Id"), Wide("I2")).kind == Integer && NewColumn(Wide("Id"), Wide("I2")).size == 2
    ensures NewColumn(Wide("Data"), Wide("V0")).kind == Stream && NewColumn(Wide("Data"), Wide("V0")).size == 0
    ensures NewColumn(Wide("X"), Wide("i")).size == 4
  {
    SizeFromTag('s' as int, 72);
    assert Wide("s72") == ['s' as int] + Digits(72);
    SizeFromTag('I' as int, 2);
    assert Wide("I2") == ['I' as int] + Digits(2);
    SizeFromTag('V' as int, 0);
    assert Wide("V0") == ['V' as int] + Digits(0);
  }
}
