/** The string helpers and the extension and directory filters of the
    engine (libdmfilesearch_impl.cpp, `ShouldIncludeFile`,
    `ShouldIncludeDirectory`, `GetFileExtension`, `ToLower`), and the
    substring search of `std::string::find` that they rely on. */
module Filters {
  import opened FileTypes

  predicate IsAsciiUpper(c: char) {
    'A' <= c <= 'Z'
  }

  /** `::tolower` in the "C" locale: only A to Z are folded. */
  function LowerChar(c: char): char {
    if IsAsciiUpper(c) then (c as int + 32) as char else c
  }

  /** `ToLower`: an ASCII fold of every character. */
  function ToLower(s: string): (r: string)
    ensures |r| == |s|
  {
    seq(|s|, k requires 0 <= k < |s| => LowerChar(s[k]))
  }

  /** Every upper-case letter moves 32 code points down to its lower-case
      form, every other character stays, and no upper-case letter is left. */
  lemma ToLowerChars(s: string)
    ensures forall k :: 0 <= k < |s| ==>
      if IsAsciiUpper(s[k]) then ToLower(s)[k] as int == s[k] as int + 32 else ToLower(s)[k] == s[k]
    ensures forall k :: 0 <= k < |s| ==> !IsAsciiUpper(ToLower(s)[k])
  {
  }

  /** Folding twice is folding once. */
  lemma ToLowerIdempotent(s: string)
    ensures ToLower(ToLower(s)) == ToLower(s)
  {
  }

  /** Folding commutes with taking a suffix. */
  lemma ToLowerSuffix(s: string, k: nat)
    requires k <= |s|
    ensures ToLower(s)[k..] == ToLower(s[k..])
  {
  }

  // ---------------------------------------------------------------------
  // Substring search
  // ---------------------------------------------------------------------

  /** `pat` sits in `text` at position `i`. */
  predicate OccursAt(text: string, pat: string, i: nat) {
    i + |pat| <= |text| && text[i..i + |pat|] == pat
  }

  /** `pat` is a substring of `text`. */
  ghost predicate Occurs(pat: string, text: string) {
    exists i: nat :: OccursAt(text, pat, i)
  }

  /** `text.find(pat, from)`: the first position at or after `from` where
      `pat` occurs, or `None` for `npos`. */
  function FindFrom(text: string, pat: string, from: nat): (r: Option<nat>)
    decreases |text| - from
    ensures r.Some? ==>
      from <= r.value && OccursAt(text, pat, r.value) &&
      forall j :: from <= j < r.value ==> !OccursAt(text, pat, j)
    ensures r.None? ==> forall j :: from <= j ==> !OccursAt(text, pat, j)
  {
    if from + |pat| > |text| then None
    else if text[from..from + |pat|] == pat then Some(from)
    else FindFrom(text, pat, from + 1)
  }

  /** `text.find(pat) != npos`. */
  function Contains(text: string, pat: string): bool
  {
    FindFrom(text, pat, 0).Some?
  }

  /** The search finds `pat` exactly when it is a substring. */
  lemma ContainsMeaning(text: string, pat: string)
    ensures Contains(text, pat) <==> Occurs(pat, text)
  {
    var r := FindFrom(text, pat, 0);
    if r.Some? {
      assert OccursAt(text, pat, r.value);
    }
  }

  /** The empty string occurs in every text. */
  lemma EmptyOccursEverywhere(text: string)
    ensures Contains(text, "")
  {
    assert OccursAt(text, "", 0);
    ContainsMeaning(text, "");
  }

  // ---------------------------------------------------------------------
  // Extensions
  // ---------------------------------------------------------------------

  /** `s.find_last_of(c)`. */
  function LastIndexOf(s: string, c: char): (r: Option<nat>)
    ensures r.None? <==> c !in s
    ensures r.Some? ==> r.value < |s| && s[r.value] == c && c !in s[r.value + 1..]
  {
    if |s| == 0 then None
    else if s[|s| - 1] == c then Some(|s| - 1)
    else
      var r := LastIndexOf(s[..|s| - 1], c);
      assert s == s[..|s| - 1] + [s[|s| - 1]];
      if r.Some? then
        assert s[r.value + 1..] == s[..|s| - 1][r.value + 1..] + [s[|s| - 1]];
        r
      else r
  }

  /** The last occurrence is the one with no occurrence after it. */
  lemma LastIndexOfUnique(s: string, c: char, pos: nat)
    requires pos < |s| && s[pos] == c && c !in s[pos + 1..]
    ensures LastIndexOf(s, c) == Some(pos)
  {
    assert s[pos] in s;
  }

  /** `GetFileExtension`: the lower-cased suffix of the name that starts at
      its last `.`, dot included, or "" when the name has no dot. */
  function GetFileExtension(fileName: string): (ext: string)
    ensures ext == "" || ext[0] == '.'
    ensures |ext| <= |fileName|
  {
    match LastIndexOf(fileName, '.')
    case None => ""
    case Some(pos) => ToLower(fileName[pos..])
  }

  /** The extension is empty exactly when the name has no dot; otherwise it
      is the folded tail of the name that starts with its only dot. */
  lemma ExtensionShape(fileName: string)
    ensures var ext := GetFileExtension(fileName);
      (ext == "" <==> '.' !in fileName) &&
      (ext != "" ==>
        |ext| <= |fileName| && ext[0] == '.' && '.' !in ext[1..] &&
        ext == ToLower(fileName[|fileName| - |ext|..]))
  {
    match LastIndexOf(fileName, '.')
    case None =>
    case Some(pos) =>
      var ext := ToLower(fileName[pos..]);
      assert ext[0] == '.';
      assert forall k :: 1 <= k < |ext| ==> ext[k] != '.' by {
        forall k | 1 <= k < |ext| ensures ext[k] != '.' {
          assert fileName[pos + k] in fileName[pos + 1..];
        }
      }
  }

  /** The extension does not depend on the case of the name. */
  lemma {:induction false} ExtensionIgnoresCase(fileName: string)
    ensures GetFileExtension(ToLower(fileName)) == GetFileExtension(fileName)
  {
    var lower := ToLower(fileName);
    ToLowerChars(fileName);
    assert forall k :: 0 <= k < |fileName| ==> (lower[k] == '.' <==> fileName[k] == '.');
    match LastIndexOf(fileName, '.')
    case None =>
      assert '.' !in lower by {
        forall k | 0 <= k < |lower| ensures lower[k] != '.' {
          assert fileName[k] in fileName;
        }
      }
    case Some(pos) =>
      assert lower[pos] == '.';
      assert '.' !in lower[pos + 1..] by {
        forall k | pos + 1 <= k < |lower| ensures lower[k] != '.' {
          assert fileName[k] in fileName[pos + 1..];
        }
      }
      LastIndexOfUnique(lower, '.', pos);
      ToLowerSuffix(fileName, pos);
      ToLowerIdempotent(fileName[pos..]);
  }

  // ---------------------------------------------------------------------
  // Filters
  // ---------------------------------------------------------------------

  /** The engine's three filter sets: include extensions, exclude
      extensions and excluded directory substrings. */
  datatype FilterSet = FilterSet(
    includeExtensions: set<string>,
    excludeExtensions: set<string>,
    excludeDirectories: set<string>)

  const NoFilters: FilterSet := FilterSet({}, {}, {})

  /** `ShouldIncludeFile`. The source also receives the file's path and
      never consults it. */
  function ShouldIncludeFile(filters: FilterSet, fileName: string): (ok: bool)
    ensures ok <==>
      GetFileExtension(fileName) !in filters.excludeExtensions &&
      (filters.includeExtensions == {} || GetFileExtension(fileName) in filters.includeExtensions)
  {
    var ext := GetFileExtension(fileName);
    if filters.excludeExtensions != {} && ext in filters.excludeExtensions then false
    else if filters.includeExtensions != {} && ext !in filters.includeExtensions then false
    else true
  }

  /** An extension in both sets is rejected: exclusion wins. */
  lemma ExcludeWinsOverInclude(filters: FilterSet, fileName: string)
    requires GetFileExtension(fileName) in filters.excludeExtensions
    requires GetFileExtension(fileName) in filters.includeExtensions
    ensures !ShouldIncludeFile(filters, fileName)
  {
  }

  /** The file filter gives the same answer for a name and its folded form. */
  lemma FileFilterIgnoresCase(filters: FilterSet, fileName: string)
    ensures ShouldIncludeFile(filters, ToLower(fileName)) == ShouldIncludeFile(filters, fileName)
  {
    ExtensionIgnoresCase(fileName);
  }

  /** `ShouldIncludeDirectory`: no excluded string is a substring of the
      path. */
  function ShouldIncludeDirectory(filters: FilterSet, dirPath: string): bool
  {
    forall d | d in filters.excludeDirectories :: !Contains(dirPath, d)
  }

  /** A path passes exactly when no excluded string is a substring of it. */
  lemma DirectoryFilterMeaning(filters: FilterSet, dirPath: string)
    ensures ShouldIncludeDirectory(filters, dirPath) <==>
      forall d :: d in filters.excludeDirectories ==> !Occurs(d, dirPath)
  {
    forall d | d in filters.excludeDirectories {
      ContainsMeaning(dirPath, d);
    }
  }

  /** An empty excluded string rejects every path. */
  lemma EmptyExcludeRejectsAll(filters: FilterSet, dirPath: string)
    requires "" in filters.excludeDirectories
    ensures !ShouldIncludeDirectory(filters, dirPath)
  {
    EmptyOccursEverywhere(dirPath);
  }
}
