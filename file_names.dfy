/**
 * How the plugin turns MSI item names into file names (TMsiFile.cpp and
 * TMsiDatabase.cpp): control characters are replaced, a name is split
 * into base and extension, unique names are searched with numeric
 * suffixes, and a "Table.item" stream name is turned into the name of the
 * file it refers to.
 */
module FileNames {
  import opened WideString
  import opened Wrappers

  const BACKSLASH: WChar := '\\' as int
  const SLASH: WChar := '/' as int
  const DOT: WChar := '.' as int
  const UNDERSCORE: WChar := '_' as int

  // ---------------------------------------------------------------------------
  // MakeItemNameFileSafe

  /** A code unit as MakeItemNameFileSafe leaves it: below 0x20 it becomes '_'. */
  function SafeUnit(c: WChar): WChar
  {
    if 0 <= c < 0x20 then UNDERSCORE else c
  }

  /** The file-safe form of a name, one code unit at a time. */
  function FileSafe(s: WString): (r: WString)
    ensures |r| == |s|
    ensures forall i | 0 <= i < |s| :: r[i] == SafeUnit(s[i])
  {
    seq(|s|, i requires 0 <= i < |s| => SafeUnit(s[i]))
  }

  /**
   * MakeItemNameFileSafe: replaces, in place, every code unit below 0x20
   * with '_'.
   */
  method MakeItemNameFileSafe(name: WString) returns (r: WString)
    ensures r == FileSafe(name)
  {
    r := name;
    for i := 0 to |r|
      invariant |r| == |name|
      invariant forall k | 0 <= k < i :: r[k] == SafeUnit(name[k])
      invariant forall k | i <= k < |r| :: r[k] == name[k]
    {
      if 0 <= r[i] < 0x20 {
        r := r[i := UNDERSCORE];
      }
    }
  }

  /**
   * The file-safe form keeps the length, keeps every code unit from 0x20
   * up, leaves no control character behind, and a second pass changes
   * nothing.
   */
  lemma FileSafeProperties(s: WString)
    ensures |FileSafe(s)| == |s|
    ensures forall i | 0 <= i < |s| :: s[i] >= 0x20 ==> FileSafe(s)[i] == s[i]
    ensures forall i | 0 <= i < |s| :: s[i] < 0x20 ==> FileSafe(s)[i] == UNDERSCORE
    ensures forall i | 0 <= i < |s| :: FileSafe(s)[i] >= 0x20
    ensures FileSafe(FileSafe(s)) == FileSafe(s)
  {
  }

  // ---------------------------------------------------------------------------
  // GetFileExtension (utils.h is not part of this model)

  /**
   * Where the extension of a file name starts: at the last '.' that no path
   * separator follows, or at the end of the name when there is none.
   */
  function ExtensionStart(s: WString): (k: nat)
    ensures k <= |s|
    ensures k < |s| ==> s[k] == DOT
    ensures k < |s| ==> forall j | k < j < |s| :: s[j] != DOT && s[j] != BACKSLASH && s[j] != SLASH
  {
    ExtensionFrom(s, |s|)
  }

  function ExtensionFrom(s: WString, n: nat): (k: nat)
    requires n <= |s|
    ensures k <= |s|
    ensures k < |s| ==> k < n && s[k] == DOT
    ensures k < |s| ==> forall j | k < j < n :: s[j] != DOT && s[j] != BACKSLASH && s[j] != SLASH
    decreases n
  {
    if n == 0 then |s|
    else if s[n - 1] == DOT then n - 1
    else if s[n - 1] == BACKSLASH || s[n - 1] == SLASH then |s|
    else ExtensionFrom(s, n - 1)
  }

  /**
   * The split of SetBinaryFile: when the extension starts after the first
   * character the name is cut there, otherwise the whole name is the base
   * and the extension is empty.
   */
  function SplitExtension(s: WString): (r: (WString, WString))
    ensures r.0 + r.1 == s
    ensures r.1 == [] || r.1[0] == DOT
  {
    var k := ExtensionStart(s);
    if k > 0 then (s[..k], s[k..]) else (s, [])
  }

  // ---------------------------------------------------------------------------
  // SetUniqueFileName

  /** The first name tried: "folder\base+ext", or "base+ext" without a folder. */
  function FirstCandidate(folder: WString, base: WString, ext: WString): WString
  {
    (if |folder| > 0 then folder + [BACKSLASH] else []) + base + ext
  }

  /** The name tried on retry k: "base_NNN+ext" ("%s_%03u%s"), the folder left out. */
  function RetryCandidate(base: WString, k: nat, ext: WString): WString
  {
    base + [UNDERSCORE] + Padded3(k) + ext
  }

  /** Different retry numbers give names that differ even ignoring case. */
  lemma RetryCandidatesDiffer(base: WString, ext: WString, j: nat, k: nat)
    requires j != k
    ensures !SameIgnoringCase(RetryCandidate(base, j, ext), RetryCandidate(base, k, ext))
  {
    var pj, pk := Padded3(j), Padded3(k);
    FoldConcat(base + [UNDERSCORE] + pj, ext);
    FoldConcat(base + [UNDERSCORE], pj);
    FoldConcat(base + [UNDERSCORE], pk);
    FoldConcat(base + [UNDERSCORE] + pk, ext);
    FoldDigits(pj);
    FoldDigits(pk);
    var pre := Fold(base + [UNDERSCORE]);
    var fe := Fold(ext);
    if Fold(RetryCandidate(base, j, ext)) == Fold(RetryCandidate(base, k, ext)) {
      assert pre + pj + fe == pre + pk + fe;
      assert |pj| == |pk|;
      assert (pre + pj + fe)[|pre|..|pre| + |pj|] == pj;
      assert (pre + pk + fe)[|pre|..|pre| + |pk|] == pk;
      Padded3Injective(j, k);
    }
  }

  // ---------------------------------------------------------------------------
  // FindReferencedFile

  /** _tcschr(s, '.'): the position of the first dot, if any. */
  function FirstDot(s: WString): (r: Option<nat>)
    ensures r.None? <==> DOT !in s
    ensures r.Some? ==> r.value < |s| && s[r.value] == DOT && DOT !in s[..r.value]
  {
    if s == [] then None
    else if s[0] == DOT then Some(0)
    else match FirstDot(s[1..])
      case None => None
      case Some(k) => assert s[..k + 1] == [s[0]] + s[1..][..k]; Some(k + 1)
  }

  /** The name looked up for a stream name: its first dot replaced by a backslash. */
  function ReferencedName(s: WString, dot: nat): WString
    requires dot < |s|
  {
    s[dot := BACKSLASH]
  }

  /** The name an alias gets: "<table>\<text after the first dot>". */
  function AliasName(table: WString, s: WString, dot: nat): WString
    requires dot < |s|
  {
    table + [BACKSLASH] + s[dot + 1..]
  }

  /**
   * "B.x.y" refers to "B\x.y" and is listed as "_Streams\x.y": only the
   * first dot separates the table from the item.
   */
  lemma ReferenceExample()
    ensures FirstDot(Wide("B.x.y")) == Some(1)
    ensures ReferencedName(Wide("B.x.y"), 1) == Wide("B\\x.y")
    ensures AliasName(Wide("_Streams"), Wide("B.x.y"), 1) == Wide("_Streams\\x.y")
  {
    var s := Wide("B.x.y");
    assert s[0] != DOT && s[1] == DOT;
    assert FirstDot(s[1..]) == Some(0);
    ReferenceNames(s);
  }

  lemma ReferenceNames(s: WString)
    requires s == Wide("B.x.y")
    ensures ReferencedName(s, 1) == Wide("B\\x.y")
    ensures AliasName(Wide("_Streams"), s, 1) == Wide("_Streams\\x.y")
  {
    assert s[2..] == Wide("x.y");
  }
}
