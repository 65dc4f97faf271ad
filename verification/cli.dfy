/** The argument parser of the `es` command-line tool (tools/es/main.cpp):
    `SplitString` and `ParseArguments`, which turn `argv` into a `CmdArgs`
    value or a failure. */
module Cli {
  import opened FileTypes
  import opened Seqs
  import opened Filters

  // ---------------------------------------------------------------------
  // SplitString
  // ---------------------------------------------------------------------

  /** The tokens of `s` read so far, when `cur` is the token being read:
      every delimiter ends the current token, and empty tokens are
      dropped. */
  function Split(s: string, d: char, cur: string): seq<string>
  {
    if s == [] then (if cur == [] then [] else [cur])
    else if s[0] == d then (if cur == [] then [] else [cur]) + Split(s[1..], d, [])
    else Split(s[1..], d, cur + [s[0]])
  }

  /** The tokens `SplitString` returns: the non-empty pieces between
      delimiters, in order. */
  function Tokens(s: string, d: char): seq<string> {
    Split(s, d, [])
  }

  /** `SplitString`: `std::getline` with a delimiter yields the pieces
      between delimiters one by one; the empty ones are skipped. The
      stream is read here one character at a time. */
  method SplitString(str: string, delimiter: char) returns (tokens: seq<string>)
    ensures tokens == Tokens(str, delimiter)
    ensures forall k :: 0 <= k < |tokens| ==> tokens[k] != "" && delimiter !in tokens[k]
    ensures Concat(tokens) == Remove(str, delimiter)
  {
    tokens := [];
    var token := "";
    var i := 0;
    while i < |str|
      invariant 0 <= i <= |str|
      invariant tokens + Split(str[i..], delimiter, token) == Tokens(str, delimiter)
    {
      assert str[i..][1..] == str[i + 1..];
      if str[i] == delimiter {
        if token != "" {
          tokens := tokens + [token];
        }
        token := "";
      } else {
        token := token + [str[i]];
      }
      i := i + 1;
    }
    if token != "" {
      tokens := tokens + [token];
    }
    TokensAreNonEmptyAndUndelimited(str, delimiter, "");
    TokensConcatenate(str, delimiter, "");
  }

  /** All the strings of `ts`, one after another. */
  function Concat(ts: seq<string>): (r: string)
  {
    if ts == [] then [] else ts[0] + Concat(ts[1..])
  }

  /** `s` without any occurrence of `d`. */
  function Remove(s: string, d: char): (r: string)
    ensures d !in r
  {
    if s == [] then [] else (if s[0] == d then [] else [s[0]]) + Remove(s[1..], d)
  }

  /** No token is empty and no token holds the delimiter. */
  lemma {:induction false} TokensAreNonEmptyAndUndelimited(s: string, d: char, cur: string)
    requires d !in cur
    ensures forall k :: 0 <= k < |Split(s, d, cur)| ==>
      Split(s, d, cur)[k] != "" && d !in Split(s, d, cur)[k]
  {
    if s != [] {
      if s[0] == d {
        TokensAreNonEmptyAndUndelimited(s[1..], d, []);
      } else {
        TokensAreNonEmptyAndUndelimited(s[1..], d, cur + [s[0]]);
      }
    }
  }

  lemma ConcatAppend(a: seq<string>, b: seq<string>)
    ensures Concat(a + b) == Concat(a) + Concat(b)
  {
    if a != [] {
      assert (a + b)[0] == a[0];
      assert (a + b)[1..] == a[1..] + b;
      ConcatAppend(a[1..], b);
    } else {
      assert a + b == b;
    }
  }

  /** The tokens, put back together, are the input with every delimiter
      removed. */
  lemma {:induction false} TokensConcatenate(s: string, d: char, cur: string)
    ensures Concat(Split(s, d, cur)) == cur + Remove(s, d)
  {
    if s == [] {
      assert Concat([cur]) == cur + Concat([]);
    } else if s[0] == d {
      TokensConcatenate(s[1..], d, []);
      var head: seq<string> := if cur == [] then [] else [cur];
      ConcatAppend(head, Split(s[1..], d, []));
      assert Concat([cur]) == cur + Concat([]);
    } else {
      TokensConcatenate(s[1..], d, cur + [s[0]]);
    }
  }

  /** The tokens joined with the delimiter between them. */
  function Join(ts: seq<string>, d: char): string
  {
    if ts == [] then []
    else if |ts| == 1 then ts[0]
    else ts[0] + [d] + Join(ts[1..], d)
  }

  /** A run without the delimiter extends the current token. */
  lemma {:induction false} SplitRun(t: string, s: string, d: char, cur: string)
    requires d !in t
    ensures Split(t + s, d, cur) == Split(s, d, cur + t)
  {
    if t != [] {
      assert t[0] in t;
      assert (t + s)[0] == t[0];
      assert (t + s)[1..] == t[1..] + s;
      SplitRun(t[1..], s, d, cur + [t[0]]);
      assert cur + [t[0]] + t[1..] == cur + t;
    } else {
      assert t + s == s && cur + t == cur;
    }
  }

  /** Splitting undoes joining: non-empty tokens without the delimiter,
      joined with it, split back into the same tokens. */
  lemma {:induction false} SplitJoin(ts: seq<string>, d: char)
    requires forall k :: 0 <= k < |ts| ==> ts[k] != "" && d !in ts[k]
    ensures Tokens(Join(ts, d), d) == ts
  {
    if |ts| == 1 {
      SplitRun(ts[0], [], d, []);
      assert ts[0] + [] == ts[0] && [] + ts[0] == ts[0];
      assert Split([], d, ts[0]) == [ts[0]] == ts;
    } else if |ts| > 1 {
      var rest := Join(ts[1..], d);
      SplitRun(ts[0], [d] + rest, d, []);
      assert ts[0] + [d] + rest == ts[0] + ([d] + rest);
      assert [] + ts[0] == ts[0];
      assert ([d] + rest)[0] == d && ([d] + rest)[1..] == rest;
      assert Split([d] + rest, d, ts[0]) == [ts[0]] + Split(rest, d, []);
      SplitJoin(ts[1..], d);
      assert [ts[0]] + ts[1..] == ts;
    }
  }

  /** `SplitString("a,,b,", ',')` is `["a", "b"]`. */
  lemma SplitExample()
    ensures Tokens("a,,b,", ',') == ["a", "b"]
  {
    assert Split(",", ',', "b") == ["b"] + Split("", ',', "");
    assert "b,"[1..] == "," && "" + ['b'] == "b";
    assert Split("b,", ',', "") == Split(",", ',', "b");
    assert Split(",b,", ',', "") == Split("b,", ',', "");
    assert Split(",,b,", ',', "a") == ["a"] + Split(",b,", ',', "");
    assert "a,,b,"[1..] == ",,b," && "" + ['a'] == "a";
    assert Split("a,,b,", ',', "") == Split(",,b,", ',', "a");
  }

  // ---------------------------------------------------------------------
  // Command-line arguments
  // ---------------------------------------------------------------------

  /** `CmdArgs`. */
  datatype CmdArgs = CmdArgs(
    searchTerms: seq<string>,
    rootPaths: seq<string>,
    indexFile: string,
    sortBy: string,
    options: SearchOptions,
    showHelp: bool,
    buildIndex: bool,
    saveIndex: bool,
    loadIndex: bool,
    quickSearch: bool,
    clearIndex: bool,
    showVersion: bool,
    includeExtensions: seq<string>,
    excludeExtensions: seq<string>,
    excludeDirectories: seq<string>)

  /** A default-constructed `CmdArgs`: index building on, sorting by name,
      default search options, everything else empty or off. */
  const DefaultArgs: CmdArgs :=
    CmdArgs([], [], "", "name", DefaultOptions, false, true, false, false, false, false, false, [], [], [])

  /** `ext` with one leading `.` removed. */
  function StripLeadingDot(ext: string): (r: string)
    ensures ext != "" && ext[0] == '.' ==> ext == "." + r
    ensures ext == "" || ext[0] != '.' ==> r == ext
    ensures r != "" && r[0] == '.' ==> |ext| >= 2 && ext[..2] == ".."
  {
    if ext != "" && ext[0] == '.' then ext[1..] else ext
  }

  /** The options that only turn a boolean on. */
  datatype Flag = Help | Version | Clear | Case | WholeWord | Regex | Path | DirsOnly | FilesOnly | Hidden

  /** The options that take the next argument as their value. */
  datatype ValueOpt = Build | Multiple | Save | Load | Max | Ext | ExcludeExt | ExcludeDir | SortBy

  /** What the parser makes of one argument: an option, a search term, or
      an unknown option. */
  datatype Opt = FlagOption(flag: Flag) | ValueOption(option: ValueOpt) | Quick | Plain | Unknown

  /** The spellings of each option. */
  function Spellings(o: Opt): set<string> {
    match o
    case FlagOption(Help) => {"-h", "--help"}
    case FlagOption(Version) => {"-v", "--version"}
    case ValueOption(Build) => {"-b", "--build"}
    case ValueOption(Multiple) => {"-m", "--multiple"}
    case ValueOption(Save) => {"--save"}
    case ValueOption(Load) => {"--load"}
    case FlagOption(Clear) => {"--clear"}
    case FlagOption(Case) => {"-c", "--case"}
    case FlagOption(WholeWord) => {"-w", "--whole-word"}
    case FlagOption(Regex) => {"-r", "--regex"}
    case FlagOption(Path) => {"-p", "--path"}
    case FlagOption(DirsOnly) => {"-d", "--dirs-only"}
    case FlagOption(FilesOnly) => {"-f", "--files-only"}
    case FlagOption(Hidden) => {"--hidden"}
    case ValueOption(Max) => {"--max"}
    case ValueOption(Ext) => {"--ext"}
    case ValueOption(ExcludeExt) => {"--exclude-ext"}
    case ValueOption(ExcludeDir) => {"--exclude-dir"}
    case ValueOption(SortBy) => {"--sort-by"}
    case Quick => {"-q", "--quick"}
    case Plain => {}
    case Unknown => {}
  }

  /** An argument that the parser treats as an option: one whose first
      character is `-`. The empty argument reads its terminating NUL there,
      so it is a search term. */
  predicate IsDashed(arg: string) {
    arg != "" && arg[0] == '-'
  }

  /** The `if`/`else if` chain of the `ParseArguments` loop, as far as it
      looks at the argument itself. The source tests for a leading `-`
      last; since every spelling has one, testing it first gives the same
      answer (`SpellingsAreDashed`, `ClassifyPlain`). */
  function Classify(arg: string): Opt {
    if !IsDashed(arg) then Plain
    else if arg in Spellings(FlagOption(Help)) then FlagOption(Help)
    else if arg in Spellings(FlagOption(Version)) then FlagOption(Version)
    else if arg in Spellings(ValueOption(Build)) then ValueOption(Build)
    else if arg in Spellings(ValueOption(Multiple)) then ValueOption(Multiple)
    else if arg in Spellings(ValueOption(Save)) then ValueOption(Save)
    else if arg in Spellings(ValueOption(Load)) then ValueOption(Load)
    else if arg in Spellings(FlagOption(Clear)) then FlagOption(Clear)
    else if arg in Spellings(FlagOption(Case)) then FlagOption(Case)
    else if arg in Spellings(FlagOption(WholeWord)) then FlagOption(WholeWord)
    else if arg in Spellings(FlagOption(Regex)) then FlagOption(Regex)
    else if arg in Spellings(FlagOption(Path)) then FlagOption(Path)
    else if arg in Spellings(FlagOption(DirsOnly)) then FlagOption(DirsOnly)
    else if arg in Spellings(FlagOption(FilesOnly)) then FlagOption(FilesOnly)
    else if arg in Spellings(FlagOption(Hidden)) then FlagOption(Hidden)
    else if arg in Spellings(ValueOption(Max)) then ValueOption(Max)
    else if arg in Spellings(ValueOption(Ext)) then ValueOption(Ext)
    else if arg in Spellings(ValueOption(ExcludeExt)) then ValueOption(ExcludeExt)
    else if arg in Spellings(ValueOption(ExcludeDir)) then ValueOption(ExcludeDir)
    else if arg in Spellings(ValueOption(SortBy)) then ValueOption(SortBy)
    else if arg in Spellings(Quick) then Quick
    else Unknown
  }

  /** Every spelling starts with `-`. */
  lemma SpellingsAreDashed(o: Opt, arg: string)
    requires arg in Spellings(o)
    ensures IsDashed(arg)
  {
  }

  /** An argument is a search term exactly when it does not start with
      `-`. */
  lemma ClassifyPlain(arg: string)
    ensures Classify(arg) == Plain <==> !IsDashed(arg)
  {
  }

  /** An argument is read as an option only when it is one of that
      option's spellings. */
  lemma ClassifySpelling(arg: string)
    ensures Classify(arg) != Plain && Classify(arg) != Unknown ==> arg in Spellings(Classify(arg))
  {
  }

  /** An argument is an unknown option only when it starts with `-` and is
      no spelling of any option. */
  lemma ClassifyUnknown(arg: string, o: Opt)
    ensures Classify(arg) == Unknown ==> IsDashed(arg) && arg !in Spellings(o)
  {
  }

  /** The ten booleans the flag options turn on. */
  datatype FlagBits = FlagBits(
    help: bool, version: bool, clear: bool,
    caseSensitive: bool, wholeWord: bool, useRegex: bool, searchInPath: bool,
    dirsOnly: bool, filesOnly: bool, includeHidden: bool)

  /** The flag booleans of `a`. */
  function BitsOf(a: CmdArgs): FlagBits {
    FlagBits(a.showHelp, a.showVersion, a.clearIndex,
      a.options.caseSensitive, a.options.wholeWord, a.options.useRegex, a.options.searchInPath,
      a.options.dirsOnly, a.options.filesOnly, a.options.includeHidden)
  }

  /** `a` with its flag booleans replaced by `f` and everything else kept. */
  function WithBits(a: CmdArgs, f: FlagBits): (r: CmdArgs)
    ensures BitsOf(r) == f
  {
    a.(showHelp := f.help, showVersion := f.version, clearIndex := f.clear,
       options := a.options.(caseSensitive := f.caseSensitive, wholeWord := f.wholeWord,
         useRegex := f.useRegex, searchInPath := f.searchInPath, dirsOnly := f.dirsOnly,
         filesOnly := f.filesOnly, includeHidden := f.includeHidden))
  }

  /** The boolean of `f` that `flag` turns on. */
  function Bit(f: FlagBits, flag: Flag): bool {
    match flag
    case Help => f.help
    case Version => f.version
    case Clear => f.clear
    case Case => f.caseSensitive
    case WholeWord => f.wholeWord
    case Regex => f.useRegex
    case Path => f.searchInPath
    case DirsOnly => f.dirsOnly
    case FilesOnly => f.filesOnly
    case Hidden => f.includeHidden
  }

  /** `f` with the boolean of `flag` turned on. */
  function Raise(f: FlagBits, flag: Flag): FlagBits {
    match flag
    case Help => f.(help := true)
    case Version => f.(version := true)
    case Clear => f.(clear := true)
    case Case => f.(caseSensitive := true)
    case WholeWord => f.(wholeWord := true)
    case Regex => f.(useRegex := true)
    case Path => f.(searchInPath := true)
    case DirsOnly => f.(dirsOnly := true)
    case FilesOnly => f.(filesOnly := true)
    case Hidden => f.(includeHidden := true)
  }

  /** Whether the boolean of `flag` is on in `a`. */
  function IsSet(a: CmdArgs, flag: Flag): bool {
    Bit(BitsOf(a), flag)
  }

  /** What a flag's branch of the loop does to `args`. */
  function SetFlag(a: CmdArgs, flag: Flag): CmdArgs {
    WithBits(a, Raise(BitsOf(a), flag))
  }

  /** Everything in `a` except the ten flag booleans. */
  function WithoutFlags(a: CmdArgs): CmdArgs {
    WithBits(a, FlagBits(false, false, false, false, false, false, false, false, false, false))
  }

  /** What the branch of a value-taking option does to `args`, given the
      value `v` that follows it. `stoi` stands for `std::stoi`; its `int`
      result is cast to `uint32_t`. */
  function SetValue(a: CmdArgs, option: ValueOpt, v: string, stoi: string -> int): CmdArgs {
    match option
    case Build => a.(rootPaths := a.rootPaths + [v], buildIndex := true)
    case Multiple => a.(rootPaths := Tokens(v, ','), buildIndex := true)
    case Save => a.(indexFile := v, saveIndex := true)
    case Load => a.(indexFile := v, loadIndex := true)
    case Max => a.(options := a.options.(maxResults := stoi(v) % U32_LIMIT))
    case Ext => a.(includeExtensions := a.includeExtensions + [StripLeadingDot(v)])
    case ExcludeExt => a.(excludeExtensions := a.excludeExtensions + Map(Tokens(v, ','), StripLeadingDot))
    case ExcludeDir => a.(excludeDirectories := a.excludeDirectories + [v])
    case SortBy => a.(sortBy := v)
  }

  /** The outcome of reading the argument at one position: a failure, or
      the position of the next argument and the updated `CmdArgs`. */
  datatype Step = Fail | Next(next: nat, args: CmdArgs)

  /** One iteration of the `ParseArguments` loop on `argv[i]`, once the
      argument is known to read as `o`. A value-taking option needs one
      more argument and `-q` two; otherwise the parse fails. */
  function StepOf(o: Opt, argv: seq<string>, i: nat, a: CmdArgs, stoi: string -> int): (r: Step)
    requires i < |argv|
    ensures r.Next? ==> i < r.next <= |argv| && r.next <= i + 3
  {
    match o
    case FlagOption(flag) => Next(i + 1, SetFlag(a, flag))
    case ValueOption(option) =>
      if i + 1 < |argv| then Next(i + 2, SetValue(a, option, argv[i + 1], stoi)) else Fail
    case Quick =>
      if i + 2 < |argv| then
        Next(i + 3, a.(rootPaths := a.rootPaths + [argv[i + 1]], searchTerms := a.searchTerms + [argv[i + 2]],
          quickSearch := true))
      else Fail
    case Plain => Next(i + 1, a.(searchTerms := a.searchTerms + [argv[i]]))
    case Unknown => Fail
  }

  /** One iteration of the `ParseArguments` loop on `argv[i]`. */
  function StepAt(argv: seq<string>, i: nat, a: CmdArgs, stoi: string -> int): (r: Step)
    requires i < |argv|
    ensures r.Next? ==> i < r.next <= |argv|
  {
    StepOf(Classify(argv[i]), argv, i, a, stoi)
  }

  /** The rest of the loop from position `i`: whether it succeeds, and the
      `CmdArgs` it leaves behind (a failure keeps what earlier arguments
      set). */
  function ParseFrom(argv: seq<string>, i: nat, a: CmdArgs, stoi: string -> int): (bool, CmdArgs)
    decreases |argv| - i
  {
    if i >= |argv| then (true, a)
    else match StepAt(argv, i, a, stoi)
      case Fail => (false, a)
      case Next(j, b) => ParseFrom(argv, j, b, stoi)
  }

  /** `ParseArguments`: `argv[0]` is the program name. */
  function Parse(argv: seq<string>, initial: CmdArgs, stoi: string -> int): (bool, CmdArgs) {
    ParseFrom(argv, 1, initial, stoi)
  }

  /** `ParseArguments`, updating `args` argument by argument. */
  method ParseArguments(argv: seq<string>, initial: CmdArgs, stoi: string -> int) returns (ok: bool, args: CmdArgs)
    ensures (ok, args) == Parse(argv, initial, stoi)
  {
    args := initial;
    var i := 1;
    while i < |argv|
      invariant ParseFrom(argv, i, args, stoi) == Parse(argv, initial, stoi)
      decreases |argv| - i
    {
      var step := ParseArgument(argv, i, args, stoi);
      if step.Fail? {
        return false, args;
      }
      i, args := step.next, step.args;
    }
    ok := true;
  }

  /** The body of the `ParseArguments` loop for `argv[i]`. */
  method ParseArgument(argv: seq<string>, i: nat, args: CmdArgs, stoi: string -> int) returns (step: Step)
    requires i < |argv|
    ensures step == StepAt(argv, i, args, stoi)
  {
    var arg := argv[i];
    match Classify(arg) {
      case FlagOption(flag) =>
        step := Next(i + 1, SetFlag(args, flag));
      case ValueOption(option) =>
        if i + 1 < |argv| {
          var updated := ApplyValue(args, option, argv[i + 1], stoi);
          step := Next(i + 2, updated);
        } else {
          step := Fail;
        }
      case Quick =>
        if i + 2 < |argv| {
          step := Next(i + 3, args.(rootPaths := args.rootPaths + [argv[i + 1]],
            searchTerms := args.searchTerms + [argv[i + 2]], quickSearch := true));
        } else {
          step := Fail;
        }
      case Plain =>
        step := Next(i + 1, args.(searchTerms := args.searchTerms + [arg]));
      case Unknown =>
        step := Fail;
    }
  }

  /** The branch of a value-taking option, with `-m` splitting its value,
      `--ext` stripping a dot and `--exclude-ext` walking its pieces. */
  method ApplyValue(args: CmdArgs, option: ValueOpt, v: string, stoi: string -> int) returns (r: CmdArgs)
    ensures r == SetValue(args, option, v, stoi)
  {
    match option {
      case Build => r := args.(rootPaths := args.rootPaths + [v], buildIndex := true);
      case Multiple =>
        var roots := SplitString(v, ',');
        r := args.(rootPaths := roots, buildIndex := true);
      case Save => r := args.(indexFile := v, saveIndex := true);
      case Load => r := args.(indexFile := v, loadIndex := true);
      case Max => r := args.(options := args.options.(maxResults := stoi(v) % U32_LIMIT));
      case Ext =>
        var ext := v;
        if ext != "" && ext[0] == '.' {
          ext := ext[1..];
        }
        r := args.(includeExtensions := args.includeExtensions + [ext]);
      case ExcludeExt =>
        var exts := AppendExcludeExtensions(args.excludeExtensions, v);
        r := args.(excludeExtensions := exts);
      case ExcludeDir => r := args.(excludeDirectories := args.excludeDirectories + [v]);
      case SortBy => r := args.(sortBy := v);
    }
  }

  /** The `--exclude-ext` loop: every non-empty comma-separated piece of
      `extList`, with one leading dot removed, appended in order. */
  method AppendExcludeExtensions(exts: seq<string>, extList: string) returns (r: seq<string>)
    ensures r == exts + Map(Tokens(extList, ','), StripLeadingDot)
  {
    var pieces := SplitString(extList, ',');
    r := exts;
    var j := 0;
    while j < |pieces|
      invariant 0 <= j <= |pieces|
      invariant r == exts + Map(pieces[..j], StripLeadingDot)
    {
      MapAppend(pieces[..j], [pieces[j]], StripLeadingDot);
      assert pieces[..j + 1] == pieces[..j] + [pieces[j]];
      r := r + [StripLeadingDot(pieces[j])];
      j := j + 1;
    }
    assert pieces[..j] == pieces;
  }

  // ---------------------------------------------------------------------
  // What the parser promises
  // ---------------------------------------------------------------------

  /** A step fails exactly when a value-taking option is the last
      argument, when `-q` is followed by fewer than two arguments, or when
      the argument is an unknown option. */
  lemma StepFailsExactly(o: Opt, argv: seq<string>, i: nat, a: CmdArgs, stoi: string -> int)
    requires i < |argv|
    ensures StepOf(o, argv, i, a, stoi).Fail? <==>
      (o.ValueOption? && i + 1 == |argv|) || (o == Quick && i + 2 >= |argv|) || o == Unknown
  {
  }

  /** Raising one flag turns its own boolean on and leaves the others. */
  lemma RaiseSetsItsOwnBit(f: FlagBits, flag: Flag, other: Flag)
    ensures Bit(Raise(f, flag), other) == (other == flag || Bit(f, other))
  {
  }

  /** A flag turns its own boolean on and leaves every other flag as it
      was. */
  lemma FlagSetsItsOwnBoolean(a: CmdArgs, flag: Flag, other: Flag)
    ensures IsSet(SetFlag(a, flag), other) == (other == flag || IsSet(a, other))
  {
    RaiseSetsItsOwnBit(BitsOf(a), flag, other);
  }

  /** A flag changes nothing but flags. */
  lemma FlagChangesOnlyFlags(a: CmdArgs, flag: Flag)
    ensures WithoutFlags(SetFlag(a, flag)) == WithoutFlags(a)
  {
  }

  /** A value-taking option leaves every flag as it was. */
  lemma ValueKeepsFlags(a: CmdArgs, option: ValueOpt, v: string, stoi: string -> int)
    ensures BitsOf(SetValue(a, option, v, stoi)) == BitsOf(a)
  {
    match option {
      case Build => case Multiple => case Save => case Load => case Max =>
      case Ext => case ExcludeExt => case ExcludeDir => case SortBy =>
    }
  }

  /** A value-taking option only appends to the search terms and the
      extension and directory lists. */
  lemma ValueOnlyAppends(a: CmdArgs, option: ValueOpt, v: string, stoi: string -> int)
    ensures var b := SetValue(a, option, v, stoi);
      a.searchTerms <= b.searchTerms &&
      a.includeExtensions <= b.includeExtensions &&
      a.excludeExtensions <= b.excludeExtensions &&
      a.excludeDirectories <= b.excludeDirectories
  {
    match option {
      case Build => case Multiple => case Save => case Load => case Max =>
      case Ext => case ExcludeExt => case ExcludeDir => case SortBy =>
    }
  }

  /** An argument that does not start with `-` is appended to the search
      terms and nothing else changes. */
  lemma PlainArgumentIsSearchTerm(argv: seq<string>, i: nat, a: CmdArgs, stoi: string -> int)
    requires i < |argv| && !IsDashed(argv[i])
    ensures StepAt(argv, i, a, stoi) == Next(i + 1, a.(searchTerms := a.searchTerms + [argv[i]]))
  {
  }

  /** Without options, every argument after the program name becomes a
      search term, in order. */
  lemma {:induction false} PlainArgumentsAreSearchTerms(argv: seq<string>, i: nat, a: CmdArgs, stoi: string -> int)
    requires forall k :: i <= k < |argv| ==> !IsDashed(argv[k])
    ensures ParseFrom(argv, i, a, stoi) ==
      (true, a.(searchTerms := a.searchTerms + (if i < |argv| then argv[i..] else [])))
    decreases |argv| - i
  {
    if i < |argv| {
      PlainArgumentIsSearchTerm(argv, i, a, stoi);
      var b := a.(searchTerms := a.searchTerms + [argv[i]]);
      PlainArgumentsAreSearchTerms(argv, i + 1, b, stoi);
      var tail := if i + 1 < |argv| then argv[i + 1..] else [];
      assert argv[i..] == [argv[i]] + tail;
      assert b.searchTerms + tail == a.searchTerms + argv[i..];
    } else {
      assert a.searchTerms + [] == a.searchTerms;
    }
  }

  /** `-b` appends one root; `-m` replaces the roots with the tokens of its
      comma-separated value; `-q` appends one root and one search term and
      turns quick search on. */
  lemma RootOptions(argv: seq<string>, i: nat, a: CmdArgs, stoi: string -> int)
    requires i + 1 < |argv|
    ensures var r := StepOf(ValueOption(Build), argv, i, a, stoi).args;
      r.rootPaths == a.rootPaths + [argv[i + 1]] && r.buildIndex
    ensures var r := StepOf(ValueOption(Multiple), argv, i, a, stoi).args;
      r.rootPaths == Tokens(argv[i + 1], ',') && r.buildIndex
    ensures var roots := StepOf(ValueOption(Multiple), argv, i, a, stoi).args.rootPaths;
      Concat(roots) == Remove(argv[i + 1], ',') &&
      forall k :: 0 <= k < |roots| ==> roots[k] != "" && ',' !in roots[k]
    ensures i + 2 < |argv| ==>
      var r := StepOf(Quick, argv, i, a, stoi).args;
      r.rootPaths == a.rootPaths + [argv[i + 1]] && r.searchTerms == a.searchTerms + [argv[i + 2]] &&
      r.quickSearch
  {
    TokensAreNonEmptyAndUndelimited(argv[i + 1], ',', "");
    TokensConcatenate(argv[i + 1], ',', "");
  }

  /** `--ext` appends its value with one leading dot removed when it has
      one; `--exclude-ext` appends each non-empty comma-separated piece of
      its value, in order, each with one leading dot removed when it has
      one. */
  lemma ExtensionOptions(argv: seq<string>, i: nat, a: CmdArgs, stoi: string -> int)
    requires i + 1 < |argv|
    ensures var r := StepOf(ValueOption(Ext), argv, i, a, stoi).args.includeExtensions;
      |r| == |a.includeExtensions| + 1 && r[..|a.includeExtensions|] == a.includeExtensions &&
      r[|r| - 1] == StripLeadingDot(argv[i + 1])
    ensures var r := StepOf(ValueOption(ExcludeExt), argv, i, a, stoi).args.excludeExtensions;
      var pieces := Tokens(argv[i + 1], ',');
      |r| == |a.excludeExtensions| + |pieces| && r[..|a.excludeExtensions|] == a.excludeExtensions &&
      forall k :: 0 <= k < |pieces| ==> r[|a.excludeExtensions| + k] == StripLeadingDot(pieces[k])
    ensures StepOf(ValueOption(ExcludeExt), argv, i, a, stoi).args.excludeExtensions ==
      a.excludeExtensions + Map(Tokens(argv[i + 1], ','), StripLeadingDot)
  {
  }

  /** A step only adds: the lists other than the roots only grow at their
      end. */
  lemma StepOnlyAppends(o: Opt, argv: seq<string>, i: nat, a: CmdArgs, stoi: string -> int)
    requires i < |argv| && StepOf(o, argv, i, a, stoi).Next?
    ensures var b := StepOf(o, argv, i, a, stoi).args;
      a.searchTerms <= b.searchTerms &&
      a.includeExtensions <= b.includeExtensions &&
      a.excludeExtensions <= b.excludeExtensions &&
      a.excludeDirectories <= b.excludeDirectories
  {
    match o {
      case FlagOption(flag) =>
        FlagChangesOnlyFlags(a, flag);
        assert WithoutFlags(SetFlag(a, flag)).searchTerms == SetFlag(a, flag).searchTerms;
      case ValueOption(option) =>
        ValueOnlyAppends(a, option, argv[i + 1], stoi);
      case Quick =>
      case Plain =>
    }
  }

  /** A flag once set stays set through a step. */
  lemma StepKeepsFlag(o: Opt, argv: seq<string>, i: nat, a: CmdArgs, stoi: string -> int, flag: Flag)
    requires i < |argv| && StepOf(o, argv, i, a, stoi).Next? && IsSet(a, flag)
    ensures IsSet(StepOf(o, argv, i, a, stoi).args, flag)
  {
    match o {
      case FlagOption(raised) =>
        FlagSetsItsOwnBoolean(a, raised, flag);
      case ValueOption(option) =>
        ValueKeepsFlags(a, option, argv[i + 1], stoi);
      case Quick =>
      case Plain =>
    }
  }

  /** So the whole parse only appends to those lists. */
  lemma {:induction false} ParseOnlyAppends(argv: seq<string>, i: nat, a: CmdArgs, stoi: string -> int)
    ensures var b := ParseFrom(argv, i, a, stoi).1;
      a.searchTerms <= b.searchTerms &&
      a.includeExtensions <= b.includeExtensions &&
      a.excludeExtensions <= b.excludeExtensions &&
      a.excludeDirectories <= b.excludeDirectories
    decreases |argv| - i
  {
    if i < |argv| {
      var step := StepAt(argv, i, a, stoi);
      if step.Next? {
        StepOnlyAppends(Classify(argv[i]), argv, i, a, stoi);
        ParseOnlyAppends(argv, step.next, step.args, stoi);
      }
    }
  }

  /** And a flag set before, or anywhere along, the parse is set at its
      end. */
  lemma {:induction false} ParseKeepsFlag(argv: seq<string>, i: nat, a: CmdArgs, stoi: string -> int, flag: Flag)
    requires IsSet(a, flag)
    ensures IsSet(ParseFrom(argv, i, a, stoi).1, flag)
    decreases |argv| - i
  {
    if i < |argv| {
      var step := StepAt(argv, i, a, stoi);
      if step.Next? {
        StepKeepsFlag(Classify(argv[i]), argv, i, a, stoi, flag);
        ParseKeepsFlag(argv, step.next, step.args, stoi, flag);
      }
    }
  }

  /** With no arguments after the program name the defaults stand: build
      the index, sort by name, default options. */
  lemma NoArgumentsKeepDefaults(argv: seq<string>, stoi: string -> int)
    requires |argv| <= 1
    ensures Parse(argv, DefaultArgs, stoi) == (true, DefaultArgs)
    ensures DefaultArgs.buildIndex && DefaultArgs.sortBy == "name" && DefaultArgs.options == DefaultOptions
  {
  }

  // ---------------------------------------------------------------------
  // The tool's extensions against the engine's
  // ---------------------------------------------------------------------

  /** The filter set the tool hands to the engine: each extension it
      collected, folded by `AddIncludeExtension` or `AddExcludeExtension`. */
  function Registered(exts: seq<string>): set<string> {
    set e | e in exts :: ToLower(e)
  }

  /** A collected extension that is not empty and does not start with a
      dot never equals the extension the engine computes for a file name,
      which is empty or starts with a dot. */
  lemma DotlessNeverMatches(e: string, fileName: string)
    requires e != "" && e[0] != '.'
    ensures ToLower(e) != GetFileExtension(fileName)
  {
    ExtensionShape(fileName);
    ToLowerChars(e);
  }

  /** So a non-empty include list of such extensions rejects every file. */
  lemma DotlessIncludeRejectsEveryFile(exts: seq<string>, filters: FilterSet, fileName: string)
    requires exts != [] && filters.includeExtensions == Registered(exts)
    requires forall k :: 0 <= k < |exts| ==> exts[k] != "" && exts[k][0] != '.'
    ensures !ShouldIncludeFile(filters, fileName)
  {
    assert ToLower(exts[0]) in filters.includeExtensions;
    forall e | e in exts
      ensures ToLower(e) != GetFileExtension(fileName)
    {
      DotlessNeverMatches(e, fileName);
    }
  }

  /** And an exclude list of such extensions never excludes anything: the
      file filter answers as if it were empty. */
  lemma DotlessExcludeNeverFires(exts: seq<string>, filters: FilterSet, fileName: string)
    requires filters.excludeExtensions == Registered(exts)
    requires forall k :: 0 <= k < |exts| ==> exts[k] != "" && exts[k][0] != '.'
    ensures ShouldIncludeFile(filters, fileName) == ShouldIncludeFile(filters.(excludeExtensions := {}), fileName)
  {
    forall e | e in exts
      ensures ToLower(e) != GetFileExtension(fileName)
    {
      DotlessNeverMatches(e, fileName);
    }
  }

  /** `--ext` stores such an extension unless its value is empty, is
      a single dot, or starts with two dots. */
  lemma ExtOptionStoresDotless(v: string)
    requires v != "" && v != "." && !(|v| >= 2 && v[..2] == "..")
    ensures StripLeadingDot(v) != "" && StripLeadingDot(v)[0] != '.'
  {
  }

  /** `--ext` reads as the include-extension option. */
  lemma ExtSpelling()
    ensures Classify("--ext") == ValueOption(Ext)
  {
  }

  /** The usage line `es --ext .h header` parses to an include list `["h"]`
      and the search term "header"; with that include list no file passes
      the engine's file filter. */
  lemma HelpExtExample(stoi: string -> int, filters: FilterSet, fileName: string)
    requires filters.includeExtensions == Registered(["h"])
    ensures Parse(["es", "--ext", ".h", "header"], DefaultArgs, stoi) ==
      (true, DefaultArgs.(includeExtensions := ["h"], searchTerms := ["header"]))
    ensures !ShouldIncludeFile(filters, fileName)
  {
    var argv := ["es", "--ext", ".h", "header"];
    ExtSpelling();
    assert argv[1] == "--ext" && argv[2] == ".h";
    assert StripLeadingDot(".h") == "h";
    var a1 := DefaultArgs.(includeExtensions := ["h"]);
    assert StepAt(argv, 1, DefaultArgs, stoi) == Next(3, a1);
    assert Parse(argv, DefaultArgs, stoi) == ParseFrom(argv, 3, a1, stoi);
    PlainArgumentsAreSearchTerms(argv, 3, a1, stoi);
    assert argv[3..] == ["header"];
    assert a1.searchTerms + argv[3..] == ["header"];
    DotlessIncludeRejectsEveryFile(["h"], filters, fileName);
  }
}
