/** `MatchPattern` (libdmfilesearch_impl.cpp:311-339): whole-word equality,
    substring containment, and the wildcard branch that rewrites the
    pattern into an ECMAScript regular expression and searches with it.

    The wildcard rewrite of a pattern whose only special characters are
    `*`, `?` and `.` always yields a regular expression of one shape: a run
    of single-character atoms (an ordinary character, or `.`) whose last
    atom carries a `*`. That shape has its own semantics here. Every other
    regular expression goes to a `RegexEngine` supplied by the caller,
    which stands for `std::regex` and is not modelled. */
module Matcher {
  import opened FileTypes
  import opened Filters

  /** `std::regex` as seen from the engine: whether a pattern compiles (with
      or without `icase`), and whether a compiled pattern is found in a
      text. */
  datatype RegexEngine = RegexEngine(
    compiles: (string, bool) -> bool,
    search: (string, string, bool) -> bool)

  // ---------------------------------------------------------------------
  // Regular expressions of the form  a1 a2 ... an*
  // ---------------------------------------------------------------------

  /** A single-character atom: an ordinary character, or `.`. */
  datatype Atom = Lit(c: char) | AnyChar

  /** In the ECMAScript grammar `.` matches any character except a line
      terminator; a byte string can hold two of them, LF and CR. */
  predicate AtomMatches(a: Atom, c: char) {
    match a
    case Lit(l) => c == l
    case AnyChar => c != '\n' && c != '\r'
  }

  /** `w` is in the language of `a1 ... an*`: one character for each of the
      first n-1 atoms, then any number of characters matching the last. */
  ghost predicate InStarLastLanguage(atoms: seq<Atom>, w: string)
    requires |atoms| >= 1
  {
    var n := |atoms| - 1;
    n <= |w| &&
    (forall k :: 0 <= k < n ==> AtomMatches(atoms[k], w[k])) &&
    (forall k :: n <= k < |w| ==> AtomMatches(atoms[n], w[k]))
  }

  /** `std::regex_search`: some substring of `text` is in the language. */
  ghost predicate StarLastSearch(atoms: seq<Atom>, text: string)
    requires |atoms| >= 1
  {
    exists i, j :: 0 <= i <= j <= |text| && InStarLastLanguage(atoms, text[i..j])
  }

  /** Each atom matches one character of `text`, starting at `i`. */
  predicate AtomsMatchAt(atoms: seq<Atom>, text: string, i: nat) {
    i + |atoms| <= |text| &&
    forall k :: 0 <= k < |atoms| ==> AtomMatches(atoms[k], text[i + k])
  }

  /** The atoms match at some position of `text`. */
  ghost predicate MatchesSomewhere(atoms: seq<Atom>, text: string) {
    exists i: nat :: AtomsMatchAt(atoms, text, i)
  }

  /** Tries every start position from `i` on. */
  function SearchFrom(atoms: seq<Atom>, text: string, i: nat): (found: bool)
    decreases |text| - i
    ensures found <==> exists j :: i <= j && AtomsMatchAt(atoms, text, j)
  {
    if i + |atoms| > |text| then false
    else if AtomsMatchAt(atoms, text, i) then true
    else SearchFrom(atoms, text, i + 1)
  }

  /** The search for `a1 ... an*`: the last atom may occur zero times, so it
      is enough to find `a1 ... a(n-1)`. */
  function SearchStarLast(atoms: seq<Atom>, text: string): (found: bool)
    requires |atoms| >= 1
    ensures found <==> StarLastSearch(atoms, text)
  {
    StarLastSearchIffPrefixOccurs(atoms, text);
    SearchFrom(atoms[..|atoms| - 1], text, 0)
  }

  /** A text contains a word of `a1 ... an*` exactly when `a1 ... a(n-1)`
      matches somewhere in it. */
  lemma StarLastSearchIffPrefixOccurs(atoms: seq<Atom>, text: string)
    requires |atoms| >= 1
    ensures StarLastSearch(atoms, text) <==> MatchesSomewhere(atoms[..|atoms| - 1], text)
  {
    var n := |atoms| - 1;
    var prefix := atoms[..n];
    if StarLastSearch(atoms, text) {
      var i, j :| 0 <= i <= j <= |text| && InStarLastLanguage(atoms, text[i..j]);
      var w := text[i..j];
      assert forall k :: 0 <= k < n ==> w[k] == text[i + k];
      assert AtomsMatchAt(prefix, text, i);
    }
    if i: nat :| AtomsMatchAt(prefix, text, i) {
      var w := text[i..i + n];
      assert forall k :: 0 <= k < n ==> w[k] == text[i + k];
      assert InStarLastLanguage(atoms, w);
    }
  }

  // ---------------------------------------------------------------------
  // The wildcard rewrite
  // ---------------------------------------------------------------------

  /** `std::replace(s.begin(), s.end(), from, to)`. */
  function Replace(s: string, from: char, to: char): (r: string)
    ensures |r| == |s|
    ensures forall k :: 0 <= k < |s| ==> r[k] == if s[k] == from then to else s[k]
  {
    seq(|s|, k requires 0 <= k < |s| => if s[k] == from then to else s[k])
  }

  /** The wildcard rewrite: every `*` and every `?` becomes `.`, every other
      character stays, and one `*` is appended. */
  function TranslateWildcard(pattern: string): (rx: string)
    ensures |rx| == |pattern| + 1 && rx[|pattern|] == '*'
    ensures '?' !in rx && '*' !in rx[..|pattern|]
    ensures forall k :: 0 <= k < |pattern| ==>
      rx[k] == if pattern[k] == '*' || pattern[k] == '?' then '.' else pattern[k]
  {
    var rx := Replace(Replace(pattern, '*', '.') + "*", '?', '.');
    assert forall k :: 0 <= k < |pattern| ==> rx[..|pattern|][k] != '*';
    rx
  }

  predicate HasWildcard(p: string) {
    '*' in p || '?' in p
  }

  /** The characters the ECMAScript grammar treats as special, apart from
      `*`, `?` and `.`. */
  const OtherSpecials: set<char> := {'^', '$', '\\', '+', '(', ')', '[', ']', '{', '}', '|'}

  /** A pattern whose rewrite has the `a1 ... an*` form. */
  predicate IsRestricted(p: string) {
    forall k :: 0 <= k < |p| ==> p[k] !in OtherSpecials
  }

  /** Reads a rewritten pattern of the restricted form as atoms: `.` is the
      any-character atom, every other character stands for itself, and the
      final `*` applies to the last atom. */
  function ParseStarLast(rx: string): (atoms: seq<Atom>)
    requires |rx| >= 1
    ensures |atoms| == |rx| - 1
  {
    seq(|rx| - 1, k requires 0 <= k < |rx| - 1 => if rx[k] == '.' then AnyChar else Lit(rx[k]))
  }

  /** What a wildcard pattern means once rewritten: one atom per pattern
      character, where `*`, `?` and `.` all stand for one arbitrary
      character. */
  function WildcardAtoms(p: string): (atoms: seq<Atom>)
    ensures |atoms| == |p|
  {
    seq(|p|, k requires 0 <= k < |p| =>
      if p[k] == '*' || p[k] == '?' || p[k] == '.' then AnyChar else Lit(p[k]))
  }

  /** Reading the rewrite back gives one atom per pattern character. */
  lemma ParseTranslate(p: string)
    ensures ParseStarLast(TranslateWildcard(p)) == WildcardAtoms(p)
  {
  }

  // ---------------------------------------------------------------------
  // MatchPattern
  // ---------------------------------------------------------------------

  /** The text or pattern as compared: folded unless case-sensitive. */
  function Fold(s: string, opts: SearchOptions): string {
    if opts.caseSensitive then s else ToLower(s)
  }

  /** `MatchPattern`. Both strings are folded first unless the search is
      case-sensitive; then whole-word mode compares for equality, a pattern
      with `*` or `?` is rewritten into a regular expression and searched
      for (a rewrite that does not compile falls back to containment of the
      unrewritten pattern), and any other pattern is a substring test. The
      regular expression is compiled with `icase` when the search is not
      case-sensitive; on the restricted form that flag changes nothing,
      because text and pattern are both folded already. */
  function MatchPattern(text: string, pattern: string, opts: SearchOptions, engine: RegexEngine): bool
  {
    var searchText := Fold(text, opts);
    var searchPattern := Fold(pattern, opts);
    if opts.wholeWord then
      searchText == searchPattern
    else if HasWildcard(searchPattern) then
      var rx := TranslateWildcard(searchPattern);
      if IsRestricted(searchPattern) then
        ParseTranslate(searchPattern);
        SearchStarLast(ParseStarLast(rx), searchText)
      else if engine.compiles(rx, !opts.caseSensitive) then
        engine.search(rx, searchText, !opts.caseSensitive)
      else
        Contains(searchText, searchPattern)
    else
      Contains(searchText, searchPattern)
  }

  /** What a match means in each mode: equality of the folded strings in
      whole-word mode, containment of the folded pattern when it has no
      wildcard, and a search in the language of the rewritten pattern when
      it has the restricted wildcard form. */
  lemma MatchPatternMeaning(text: string, pattern: string, opts: SearchOptions, engine: RegexEngine)
    ensures var matched := MatchPattern(text, pattern, opts, engine);
      (opts.wholeWord ==> (matched <==> Fold(text, opts) == Fold(pattern, opts))) &&
      (!opts.wholeWord && !HasWildcard(Fold(pattern, opts)) ==>
        (matched <==> Occurs(Fold(pattern, opts), Fold(text, opts)))) &&
      (!opts.wholeWord && HasWildcard(Fold(pattern, opts)) && IsRestricted(Fold(pattern, opts)) ==>
        (matched <==> StarLastSearch(WildcardAtoms(Fold(pattern, opts)), Fold(text, opts))))
  {
    var p := Fold(pattern, opts);
    if !opts.wholeWord && HasWildcard(p) && IsRestricted(p) {
      ParseTranslate(p);
      StarLastSearchIffPrefixOccurs(WildcardAtoms(p), Fold(text, opts));
    }
  }

  /** A restricted wildcard pattern matches exactly when the pattern without
      its last character, with `*`, `?` and `.` as one arbitrary character
      each, matches somewhere in the text: every wildcard stands for exactly
      one character, and the last pattern character is optional. */
  lemma WildcardMatchIffPrefixMatches(text: string, pattern: string, opts: SearchOptions, engine: RegexEngine)
    requires !opts.wholeWord
    requires HasWildcard(Fold(pattern, opts)) && IsRestricted(Fold(pattern, opts))
    ensures var p := Fold(pattern, opts);
      MatchPattern(text, pattern, opts, engine) <==>
      MatchesSomewhere(WildcardAtoms(p[..|p| - 1]), Fold(text, opts))
  {
    var p := Fold(pattern, opts);
    MatchPatternMeaning(text, pattern, opts, engine);
    StarLastSearchIffPrefixOccurs(WildcardAtoms(p), Fold(text, opts));
    assert WildcardAtoms(p)[..|p| - 1] == WildcardAtoms(p[..|p| - 1]);
  }

  /** A pattern without wildcards that is empty matches every text unless
      whole-word mode is on. */
  lemma EmptyPatternMatchesEverything(text: string, opts: SearchOptions, engine: RegexEngine)
    requires !opts.wholeWord
    ensures MatchPattern(text, "", opts, engine)
  {
    MatchPatternMeaning(text, "", opts, engine);
    EmptyOccursEverywhere(Fold(text, opts));
  }

  /** "*.txt" under the default options: already folded, a restricted
      wildcard pattern, and its first four characters read as two arbitrary
      characters followed by `t` and `x`. */
  lemma StarDotTxtForm()
    ensures Fold("*.txt", DefaultOptions) == "*.txt"
    ensures HasWildcard("*.txt") && IsRestricted("*.txt")
    ensures "*.txt"[..4] == "*.tx"
    ensures WildcardAtoms("*.tx") == [AnyChar, AnyChar, Lit('t'), Lit('x')]
  {
    assert "*.txt"[0] == '*';
    assert forall k :: 0 <= k < 5 ==> "*.txt"[k] in {'*', '.', 't', 'x'};
  }

  /** With the default options "*.txt" is rewritten to `..txt*`: it
      matches "a.txt". */
  lemma StarDotTxtMatches(engine: RegexEngine)
    ensures MatchPattern("a.txt", "*.txt", DefaultOptions, engine)
  {
    StarDotTxtForm();
    assert Fold("a.txt", DefaultOptions) == "a.txt";
    WildcardMatchIffPrefixMatches("a.txt", "*.txt", DefaultOptions, engine);
    assert AtomsMatchAt(WildcardAtoms("*.tx"), "a.txt", 0);
  }

  /** "*.txt" does not match "a.bin": there is no "tx" in it. */
  lemma StarDotTxtRejectsOtherExtension(engine: RegexEngine)
    ensures !MatchPattern("a.bin", "*.txt", DefaultOptions, engine)
  {
    StarDotTxtForm();
    assert Fold("a.bin", DefaultOptions) == "a.bin";
    WildcardMatchIffPrefixMatches("a.bin", "*.txt", DefaultOptions, engine);
    var atoms := WildcardAtoms("*.tx");
    forall i: nat
      ensures !AtomsMatchAt(atoms, "a.bin", i)
    {
      if i + 4 <= |"a.bin"| {
        assert !AtomMatches(atoms[2], "a.bin"[i + 2]);
      }
    }
  }

  /** "*.txt" does not match ".txt": its `*` needs one character before
      the dot, and only the final `t` is optional. */
  lemma StarDotTxtNeedsCharBeforeDot(engine: RegexEngine)
    ensures !MatchPattern(".txt", "*.txt", DefaultOptions, engine)
  {
    StarDotTxtForm();
    assert Fold(".txt", DefaultOptions) == ".txt";
    WildcardMatchIffPrefixMatches(".txt", "*.txt", DefaultOptions, engine);
    var atoms := WildcardAtoms("*.tx");
    forall i: nat
      ensures !AtomsMatchAt(atoms, ".txt", i)
    {
      if i + 4 <= |".txt"| {
        assert !AtomMatches(atoms[3], ".txt"[i + 3]);
      }
    }
  }

  /** Whole-word mode is equality: "main" matches "main" but neither
      "mainmodule" nor "the_main". */
  lemma WholeWordExamples(engine: RegexEngine)
    ensures var opts := DefaultOptions.(wholeWord := true);
      MatchPattern("main", "main", opts, engine) &&
      !MatchPattern("mainmodule", "main", opts, engine) &&
      !MatchPattern("the_main", "main", opts, engine)
  {
  }
}
