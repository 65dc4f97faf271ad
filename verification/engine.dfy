/** The search engine `DmfilesearchImpl` (libdmfilesearch_impl.cpp): the
    record index and the name index it builds from directory walks, the
    filter sets and options that steer it, the searches over the index and
    over a fresh walk, saving and loading the index, and sorting results.

    The filesystem is an input here: `walk(root)` is the sequence of entries
    the recursive directory iterator yields under `root`, in traversal
    order, with the size and modification time the engine would query for
    each. An index file is an `Option` of its bytes (`None` when it cannot
    be opened). */
module Engine {
  import opened FileTypes
  import opened Filters
  import opened Matcher
  import opened Seqs
  import opened IndexFormat
  import opened ResultSort

  // ---------------------------------------------------------------------
  // Building the index
  // ---------------------------------------------------------------------

  /** A name that starts with `.`; an empty name is not hidden. */
  predicate IsHidden(name: string) {
    |name| > 0 && name[0] == '.'
  }

  /** Whether the builder keeps a walked entry: hidden names are skipped
      unless `includeHidden`, directories must pass the directory filter on
      their path, files the extension filter on their name. */
  predicate Admits(filters: FilterSet, opts: SearchOptions, e: Entry) {
    (opts.includeHidden || !IsHidden(e.name)) &&
    if e.isDirectory then ShouldIncludeDirectory(filters, e.path)
    else ShouldIncludeFile(filters, e.name)
  }

  function AdmitsFn(filters: FilterSet, opts: SearchOptions): Entry -> bool {
    e => Admits(filters, opts, e)
  }

  /** The records `BuildIndexRecursive(root)` appends: nothing when the root
      itself fails the directory filter, otherwise one record per admitted
      entry, in walk order. A rejected directory only loses its own record;
      the walk still visits what lies below it. */
  function Walked(filters: FilterSet, opts: SearchOptions, root: string, walk: string -> seq<Entry>): (rs: seq<FileInfo>)
    ensures |rs| <= |walk(root)|
  {
    if !ShouldIncludeDirectory(filters, root) then []
    else Map(Select(walk(root), AdmitsFn(filters, opts)), RecordOf)
  }

  /** The records of several roots, one root after the other. */
  function WalkedAll(filters: FilterSet, opts: SearchOptions, roots: seq<string>, walk: string -> seq<Entry>): (rs: seq<FileInfo>)
  {
    if roots == [] then []
    else WalkedAll(filters, opts, roots[..|roots| - 1], walk) + Walked(filters, opts, roots[|roots| - 1], walk)
  }

  /** The records of a walk are exactly the admitted entries' records, and
      a root that fails the directory filter contributes none. */
  lemma WalkedMembers(filters: FilterSet, opts: SearchOptions, root: string, walk: string -> seq<Entry>)
    ensures !ShouldIncludeDirectory(filters, root) ==> Walked(filters, opts, root, walk) == []
    ensures ShouldIncludeDirectory(filters, root) ==>
      forall e :: e in walk(root) && Admits(filters, opts, e) ==> RecordOf(e) in Walked(filters, opts, root, walk)
    ensures forall r :: r in Walked(filters, opts, root, walk) ==>
      exists e :: e in walk(root) && Admits(filters, opts, e) && r == RecordOf(e)
  {
    var kept := Select(walk(root), AdmitsFn(filters, opts));
    SelectMembers(walk(root), AdmitsFn(filters, opts));
    if ShouldIncludeDirectory(filters, root) {
      forall e | e in walk(root) && Admits(filters, opts, e)
        ensures RecordOf(e) in Walked(filters, opts, root, walk)
      {
        var k :| 0 <= k < |kept| && kept[k] == e;
        assert Map(kept, RecordOf)[k] == RecordOf(e);
      }
      forall r | r in Walked(filters, opts, root, walk)
        ensures exists e :: e in walk(root) && Admits(filters, opts, e) && r == RecordOf(e)
      {
        var k :| 0 <= k < |Map(kept, RecordOf)| && Map(kept, RecordOf)[k] == r;
        assert kept[k] in kept;
      }
    }
  }

  /** The extension filter decides files alone: a file below a rejected
      directory is still indexed. With `node_modules` excluded, the walk of
      `/p` drops the directory `/p/node_modules` but keeps the file
      `/p/node_modules/a.js`. */
  lemma ExcludedDirectoryIsNotPruned(walk: string -> seq<Entry>)
    requires walk("/p") == [
      Entry("/p/node_modules", "node_modules", "/p", true, 0, 7),
      Entry("/p/node_modules/a.js", "a.js", "/p/node_modules", false, 12, 9)]
    ensures Walked(FilterSet({}, {}, {"node_modules"}), DefaultOptions, "/p", walk) ==
      [FileInfo("/p/node_modules/a.js", "a.js", "/p/node_modules", 12, 9, false)]
  {
    var filters := FilterSet({}, {}, {"node_modules"});
    var entries := walk("/p");
    var keep := AdmitsFn(filters, DefaultOptions);
    assert !Occurs("node_modules", "/p");
    assert ShouldIncludeDirectory(filters, "/p");
    NodeModulesOccurs();
    assert !keep(entries[0]);
    assert keep(entries[1]);
    assert Select(entries[..1], keep) == [] by {
      assert entries[..1][..0] == [];
    }
    assert Select(entries, keep) == [entries[1]];
  }

  /** `node_modules` sits at position 3 of `/p/node_modules`. */
  lemma NodeModulesOccurs()
    ensures OccursAt("/p/node_modules", "node_modules", 3)
  {
  }

  /** Under the default options a hidden directory loses its own record,
      but a visible file inside it is kept. */
  lemma HiddenDirectoryIsNotPruned(walk: string -> seq<Entry>)
    requires walk("/p") == [
      Entry("/p/.git", ".git", "/p", true, 0, 3),
      Entry("/p/.git/config", "config", "/p/.git", false, 40, 5)]
    ensures Walked(NoFilters, DefaultOptions, "/p", walk) ==
      [FileInfo("/p/.git/config", "config", "/p/.git", 40, 5, false)]
  {
    var entries := walk("/p");
    var keep := AdmitsFn(NoFilters, DefaultOptions);
    assert ShouldIncludeDirectory(NoFilters, "/p");
    assert !keep(entries[0]);
    assert keep(entries[1]);
    assert Select(entries[..1], keep) == [] by {
      assert entries[..1][..0] == [];
    }
    assert Select(entries, keep) == [entries[1]];
  }

  // ---------------------------------------------------------------------
  // The name index
  // ---------------------------------------------------------------------

  /** The key a record is filed under: its file name, folded unless the
      search is case-sensitive. */
  function NameKey(r: FileInfo, caseSensitive: bool): string {
    if caseSensitive then r.fileName else ToLower(r.fileName)
  }

  /** The name index of `rs`: every position appended, as a `uint32_t`, to
      the list of its record's key. */
  function NameIndexOf(rs: seq<FileInfo>, caseSensitive: bool): (m: map<string, seq<U32>>)
  {
    if rs == [] then map[]
    else
      var m := NameIndexOf(rs[..|rs| - 1], caseSensitive);
      var key := NameKey(rs[|rs| - 1], caseSensitive);
      m[key := (if key in m then m[key] else []) + [(|rs| - 1) % U32_LIMIT]]
  }

  predicate StrictlyIncreasing(ps: seq<U32>) {
    forall i, j :: 0 <= i < j < |ps| ==> ps[i] < ps[j]
  }

  /** The keys of `m` are exactly the keys of the records. */
  ghost predicate KeysAreNames(m: map<string, seq<U32>>, rs: seq<FileInfo>, caseSensitive: bool) {
    forall key :: key in m <==> exists i :: 0 <= i < |rs| && NameKey(rs[i], caseSensitive) == key
  }

  /** A key's list holds, in increasing order, only positions of records
      filed under it. */
  ghost predicate ListsArePositions(m: map<string, seq<U32>>, rs: seq<FileInfo>, caseSensitive: bool) {
    forall key | key in m :: StrictlyIncreasing(m[key]) &&
      forall q :: q in m[key] ==> q < |rs| && NameKey(rs[q], caseSensitive) == key
  }

  /** Every position is in the list of its record's key. */
  ghost predicate PositionsAreListed(m: map<string, seq<U32>>, rs: seq<FileInfo>, caseSensitive: bool) {
    forall i :: 0 <= i < |rs| ==> NameKey(rs[i], caseSensitive) in m && i in m[NameKey(rs[i], caseSensitive)]
  }

  /** While positions fit in `uint32_t`: the keys are exactly the records'
      keys, every list is strictly increasing and holds only positions of
      records with its key, and every position is in the list of its own
      record's key. So every position appears exactly once in the index. */
  lemma {:induction false} NameIndexFilesEveryPositionOnce(rs: seq<FileInfo>, caseSensitive: bool)
    requires |rs| <= U32_LIMIT
    ensures KeysAreNames(NameIndexOf(rs, caseSensitive), rs, caseSensitive)
    ensures ListsArePositions(NameIndexOf(rs, caseSensitive), rs, caseSensitive)
    ensures PositionsAreListed(NameIndexOf(rs, caseSensitive), rs, caseSensitive)
  {
    NameIndexKeys(rs, caseSensitive);
    NameIndexLists(rs, caseSensitive);
    NameIndexListed(rs, caseSensitive);
  }

  lemma {:induction false} NameIndexKeys(rs: seq<FileInfo>, caseSensitive: bool)
    requires |rs| <= U32_LIMIT
    ensures KeysAreNames(NameIndexOf(rs, caseSensitive), rs, caseSensitive)
  {
    if rs != [] {
      var n := |rs| - 1;
      NameIndexKeys(rs[..n], caseSensitive);
      var m0 := NameIndexOf(rs[..n], caseSensitive);
      assert n % U32_LIMIT == n;
      assert NameIndexOf(rs, caseSensitive) == FileLast(m0, rs, caseSensitive);
      StepKeys(m0, rs, caseSensitive);
    }
  }

  lemma {:induction false} NameIndexLists(rs: seq<FileInfo>, caseSensitive: bool)
    requires |rs| <= U32_LIMIT
    ensures ListsArePositions(NameIndexOf(rs, caseSensitive), rs, caseSensitive)
  {
    if rs != [] {
      var n := |rs| - 1;
      NameIndexLists(rs[..n], caseSensitive);
      var m0 := NameIndexOf(rs[..n], caseSensitive);
      assert n % U32_LIMIT == n;
      assert NameIndexOf(rs, caseSensitive) == FileLast(m0, rs, caseSensitive);
      StepLists(m0, rs, caseSensitive);
    }
  }

  lemma {:induction false} NameIndexListed(rs: seq<FileInfo>, caseSensitive: bool)
    requires |rs| <= U32_LIMIT
    ensures PositionsAreListed(NameIndexOf(rs, caseSensitive), rs, caseSensitive)
  {
    if rs != [] {
      var n := |rs| - 1;
      NameIndexListed(rs[..n], caseSensitive);
      var m0 := NameIndexOf(rs[..n], caseSensitive);
      assert n % U32_LIMIT == n;
      assert NameIndexOf(rs, caseSensitive) == FileLast(m0, rs, caseSensitive);
      StepListed(m0, rs, caseSensitive);
    }
  }

  /** The map after filing the last record of `rs`, given the map of the
      records before it. */
  function FileLast(m0: map<string, seq<U32>>, rs: seq<FileInfo>, caseSensitive: bool): map<string, seq<U32>>
    requires 0 < |rs| <= U32_LIMIT
  {
    var key := NameKey(rs[|rs| - 1], caseSensitive);
    m0[key := (if key in m0 then m0[key] else []) + [|rs| - 1]]
  }

  lemma StepKeys(m0: map<string, seq<U32>>, rs: seq<FileInfo>, caseSensitive: bool)
    requires 0 < |rs| <= U32_LIMIT
    requires KeysAreNames(m0, rs[..|rs| - 1], caseSensitive)
    ensures KeysAreNames(FileLast(m0, rs, caseSensitive), rs, caseSensitive)
  {
    var n := |rs| - 1;
    var init := rs[..n];
    var m := FileLast(m0, rs, caseSensitive);
    var key := NameKey(rs[n], caseSensitive);
    forall k ensures k in m <==> exists i :: 0 <= i < |rs| && NameKey(rs[i], caseSensitive) == k {
      if k in m && k != key {
        assert k in m0;
        var i :| 0 <= i < n && NameKey(init[i], caseSensitive) == k;
        assert NameKey(rs[i], caseSensitive) == k;
      }
      if k !in m {
        forall i | 0 <= i < |rs| ensures NameKey(rs[i], caseSensitive) != k {
          if i < n {
            assert init[i] == rs[i];
          }
        }
      }
    }
  }

  lemma StepLists(m0: map<string, seq<U32>>, rs: seq<FileInfo>, caseSensitive: bool)
    requires 0 < |rs| <= U32_LIMIT
    requires ListsArePositions(m0, rs[..|rs| - 1], caseSensitive)
    ensures ListsArePositions(FileLast(m0, rs, caseSensitive), rs, caseSensitive)
  {
    var n := |rs| - 1;
    var init := rs[..n];
    var m := FileLast(m0, rs, caseSensitive);
    var key := NameKey(rs[n], caseSensitive);
    var old0 := if key in m0 then m0[key] else [];
    assert m[key] == old0 + [n];
    forall k | k in m
      ensures StrictlyIncreasing(m[k])
      ensures forall q :: q in m[k] ==> q < |rs| && NameKey(rs[q], caseSensitive) == k
    {
      if k == key {
        assert forall q :: q in old0 ==> q < n && NameKey(init[q], caseSensitive) == k;
        forall i, j | 0 <= i < j < |m[k]| ensures m[k][i] < m[k][j] {
          if j == |m[k]| - 1 {
            assert m[k][i] in old0;
          } else {
            assert m[k][i] == old0[i] && m[k][j] == old0[j];
          }
        }
        forall q | q in m[k] ensures q < |rs| && NameKey(rs[q], caseSensitive) == k {
          if q != n {
            assert q in old0;
            assert init[q] == rs[q];
          }
        }
      } else {
        assert m[k] == m0[k];
        forall q | q in m[k] ensures q < |rs| && NameKey(rs[q], caseSensitive) == k {
          assert init[q] == rs[q];
        }
      }
    }
  }

  lemma StepListed(m0: map<string, seq<U32>>, rs: seq<FileInfo>, caseSensitive: bool)
    requires 0 < |rs| <= U32_LIMIT
    requires PositionsAreListed(m0, rs[..|rs| - 1], caseSensitive)
    ensures PositionsAreListed(FileLast(m0, rs, caseSensitive), rs, caseSensitive)
  {
    var n := |rs| - 1;
    var init := rs[..n];
    var m := FileLast(m0, rs, caseSensitive);
    var key := NameKey(rs[n], caseSensitive);
    forall i | 0 <= i < |rs|
      ensures NameKey(rs[i], caseSensitive) in m && i in m[NameKey(rs[i], caseSensitive)]
    {
      if i < n {
        var k := NameKey(init[i], caseSensitive);
        assert init[i] == rs[i];
        assert k in m0 && i in m0[k];
        if k == key {
          assert m[k] == m0[k] + [n];
        }
      }
    }
  }

  // ---------------------------------------------------------------------
  // Searching the index
  // ---------------------------------------------------------------------

  /** The type filter of the index searches. */
  predicate TypeAllowed(opts: SearchOptions, r: FileInfo) {
    !(opts.dirsOnly && !r.isDirectory) && !(opts.filesOnly && r.isDirectory)
  }

  /** The text a pattern is matched against: the full path or the name. */
  function SearchText(opts: SearchOptions, r: FileInfo): string {
    if opts.searchInPath then r.fullPath else r.fileName
  }

  function WildcardKeep(pattern: string, opts: SearchOptions, engine: RegexEngine): FileInfo -> bool {
    r => TypeAllowed(opts, r) && MatchPattern(SearchText(opts, r), pattern, opts, engine)
  }

  function RegexKeep(pattern: string, opts: SearchOptions, engine: RegexEngine): FileInfo -> bool {
    r => TypeAllowed(opts, r) && engine.search(pattern, SearchText(opts, r), !opts.caseSensitive)
  }

  /** `SearchWithWildcard`: the records that pass the type filter and
      `MatchPattern`, in index order. */
  function WildcardMatches(index: seq<FileInfo>, pattern: string, opts: SearchOptions, engine: RegexEngine): (rs: seq<FileInfo>)
  {
    Select(index, WildcardKeep(pattern, opts, engine))
  }

  /** `SearchWithRegex`: nothing when the pattern does not compile,
      otherwise the records that pass the type filter and contain a match
      of the pattern, which is not folded and ignores `wholeWord`. */
  function RegexMatches(index: seq<FileInfo>, pattern: string, opts: SearchOptions, engine: RegexEngine): (rs: seq<FileInfo>)
  {
    if !engine.compiles(pattern, !opts.caseSensitive) then []
    else Select(index, RegexKeep(pattern, opts, engine))
  }

  /** `SearchInIndex`. */
  function IndexMatches(index: seq<FileInfo>, pattern: string, opts: SearchOptions, engine: RegexEngine): (rs: seq<FileInfo>)
  {
    if opts.useRegex then RegexMatches(index, pattern, opts, engine)
    else WildcardMatches(index, pattern, opts, engine)
  }

  /** `SearchWithOptions`: nothing on an empty index, otherwise the first
      `maxResults` matches. */
  function SearchResults(index: seq<FileInfo>, pattern: string, opts: SearchOptions, engine: RegexEngine): (rs: seq<FileInfo>)
  {
    if index == [] then [] else Truncate(IndexMatches(index, pattern, opts, engine), opts.maxResults)
  }

  /** What a search returns: nothing from an empty index, otherwise the
      first `maxResults` matches, or all of them when there are fewer; each
      of them an indexed record of an allowed type. A record is among the
      matches exactly when it is indexed, allowed and matched: by
      `MatchPattern` in wildcard mode, by the regex engine in regex mode,
      where a pattern that does not compile matches nothing. */
  lemma SearchResultsCharacterized(index: seq<FileInfo>, pattern: string, opts: SearchOptions, engine: RegexEngine)
    ensures var rs := SearchResults(index, pattern, opts, engine);
      |rs| <= opts.maxResults &&
      rs == IndexMatches(index, pattern, opts, engine)[..|rs|] &&
      forall r :: r in rs ==> r in index && TypeAllowed(opts, r)
    ensures index == [] ==> SearchResults(index, pattern, opts, engine) == []
    ensures index != [] ==>
      var n := |IndexMatches(index, pattern, opts, engine)|;
      |SearchResults(index, pattern, opts, engine)| == if n <= opts.maxResults then n else opts.maxResults as int
    ensures !opts.useRegex ==> forall r ::
      r in WildcardMatches(index, pattern, opts, engine) <==>
        r in index && TypeAllowed(opts, r) && MatchPattern(SearchText(opts, r), pattern, opts, engine)
    ensures opts.useRegex ==> forall r ::
      r in RegexMatches(index, pattern, opts, engine) <==>
        engine.compiles(pattern, !opts.caseSensitive) && r in index && TypeAllowed(opts, r) &&
        engine.search(pattern, SearchText(opts, r), !opts.caseSensitive)
    ensures opts.useRegex && !engine.compiles(pattern, !opts.caseSensitive) ==>
      SearchResults(index, pattern, opts, engine) == []
  {
    var rs := SearchResults(index, pattern, opts, engine);
    var all := IndexMatches(index, pattern, opts, engine);
    SelectMembers(index, WildcardKeep(pattern, opts, engine));
    SelectMembers(index, RegexKeep(pattern, opts, engine));
    forall r | r in rs ensures r in index && TypeAllowed(opts, r) {
      assert r in all;
    }
  }

  /** Asking for directories only and files only at once finds nothing. */
  lemma BothTypeFiltersFindNothing(index: seq<FileInfo>, pattern: string, opts: SearchOptions, engine: RegexEngine)
    requires opts.dirsOnly && opts.filesOnly
    ensures SearchResults(index, pattern, opts, engine) == []
  {
    SelectNone(index, WildcardKeep(pattern, opts, engine));
    SelectNone(index, RegexKeep(pattern, opts, engine));
  }

  // ---------------------------------------------------------------------
  // QuickSearch
  // ---------------------------------------------------------------------

  /** The entries `QuickSearch` reports: directories that pass the directory
      filter unless `filesOnly`, files that pass the extension filter unless
      `dirsOnly`, and in both cases `MatchPattern` on the path or the name.
      There is no hidden-name rule and no check of the root itself. */
  predicate QuickAdmits(filters: FilterSet, opts: SearchOptions, pattern: string, engine: RegexEngine, e: Entry) {
    (if e.isDirectory then ShouldIncludeDirectory(filters, e.path) && !opts.filesOnly
     else ShouldIncludeFile(filters, e.name) && !opts.dirsOnly) &&
    MatchPattern(if opts.searchInPath then e.path else e.name, pattern, opts, engine)
  }

  function QuickKeep(filters: FilterSet, opts: SearchOptions, pattern: string, engine: RegexEngine): Entry -> bool {
    e => QuickAdmits(filters, opts, pattern, engine, e)
  }

  /** The number of results after which `QuickSearch` stops: the limit is
      tested only after a push, so a limit of 0 still yields one result. */
  function QuickLimit(maxResults: U32): (n: nat)
    ensures n >= 1 && n >= maxResults
    ensures maxResults > 0 ==> n == maxResults
    ensures maxResults == 0 ==> n == 1
  {
    if maxResults == 0 then 1 else maxResults
  }

  /** Every match of the walk, in walk order. */
  function QuickMatches(filters: FilterSet, opts: SearchOptions, entries: seq<Entry>, pattern: string, engine: RegexEngine): (rs: seq<FileInfo>)
    ensures |rs| <= |entries|
  {
    Map(Select(entries, QuickKeep(filters, opts, pattern, engine)), RecordOf)
  }

  /** One more entry of a walk: its record is added exactly when it is
      kept. */
  lemma WalkStep(entries: seq<Entry>, i: nat, keep: Entry -> bool)
    requires i < |entries|
    ensures Map(Select(entries[..i + 1], keep), RecordOf) ==
      Map(Select(entries[..i], keep), RecordOf) + (if keep(entries[i]) then [RecordOf(entries[i])] else [])
  {
    assert entries[..i + 1] == entries[..i] + [entries[i]];
    SelectSnoc(entries[..i], entries[i], keep);
    MapAppend(Select(entries[..i], keep), if keep(entries[i]) then [entries[i]] else [], RecordOf);
  }

  /** One entry of the walk: the records so far grow by this entry's
      record exactly when `keep` admits it. */
  lemma QuickAdvance(entries: seq<Entry>, i: nat, keep: Entry -> bool, results: seq<FileInfo>)
    requires i < |entries|
    requires results == Map(Select(entries[..i], keep), RecordOf)
    ensures keep(entries[i]) ==>
      results + [RecordOf(entries[i])] == Map(Select(entries[..i + 1], keep), RecordOf) &&
      |results| + 1 == |Select(entries[..i + 1], keep)|
    ensures !keep(entries[i]) ==> results == Map(Select(entries[..i + 1], keep), RecordOf)
  {
    WalkStep(entries, i, keep);
    assert entries[..i + 1] == entries[..i] + [entries[i]];
    SelectSnoc(entries[..i], entries[i], keep);
  }

  /** A count that has just grown past the previous one, below the limit,
      and reaches `maxResults` is the limit. */
  lemma LimitReached(count: nat, maxResults: U32)
    requires 1 <= count <= QuickLimit(maxResults) && count >= maxResults
    ensures count == QuickLimit(maxResults)
  {
  }

  /** A count below `maxResults` is below the limit. */
  lemma LimitNotReached(count: nat, maxResults: U32)
    requires count < maxResults
    ensures count < QuickLimit(maxResults)
  {
  }

  /** Once `limit` matches have been collected from the first `n` entries,
      they are the first `limit` matches of the whole walk. */
  lemma QuickStopsAtLimit(entries: seq<Entry>, n: nat, keep: Entry -> bool, limit: nat)
    requires n <= |entries|
    requires |Select(entries[..n], keep)| == limit
    ensures Truncate(Map(Select(entries, keep), RecordOf), limit) == Map(Select(entries[..n], keep), RecordOf)
  {
    SelectPrefix(entries, n, keep);
    var all := Select(entries, keep);
    assert Map(all[..limit], RecordOf) == Map(all, RecordOf)[..limit];
  }

  /** A walk with fewer than `limit` matches yields all of them. */
  lemma QuickRunsOut(entries: seq<Entry>, keep: Entry -> bool, limit: nat)
    requires |Select(entries, keep)| < limit
    ensures Truncate(Map(Select(entries, keep), RecordOf), limit) == Map(Select(entries, keep), RecordOf)
  {
  }

  // ---------------------------------------------------------------------
  // The engine object
  // ---------------------------------------------------------------------

  /** `DmfilesearchImpl` and its state (libdmfilesearch_impl.h:64-71). The
      atomic `m_indexing` flag is a plain boolean; the unused mutex is not
      modelled. */
  class FileSearchEngine {
    var fileIndex: seq<FileInfo>
    var nameIndex: map<string, seq<U32>>
    var includeExtensions: set<string>
    var excludeExtensions: set<string>
    var excludeDirectories: set<string>
    var searchOptions: SearchOptions
    var indexing: bool

    /** A new engine: empty indexes and filters, default options, not
        indexing. */
    constructor()
      ensures fileIndex == [] && nameIndex == map[]
      ensures includeExtensions == {} && excludeExtensions == {} && excludeDirectories == {}
      ensures searchOptions == DefaultOptions && !indexing
    {
      fileIndex := [];
      nameIndex := map[];
      includeExtensions := {};
      excludeExtensions := {};
      excludeDirectories := {};
      searchOptions := DefaultOptions;
      indexing := false;
    }

    /** The three filter sets as one value. */
    function Filters(): FilterSet
      reads this
    {
      FilterSet(includeExtensions, excludeExtensions, excludeDirectories)
    }

    /** The name index matches the record index under the current options. */
    ghost predicate NameIndexCurrent()
      reads this
    {
      nameIndex == NameIndexOf(fileIndex, searchOptions.caseSensitive)
    }

    /** `Init`: clears indexes and filters and restores default options. */
    method Init() returns (ok: bool)
      modifies this
      ensures ok
      ensures fileIndex == [] && nameIndex == map[]
      ensures includeExtensions == {} && excludeExtensions == {} && excludeDirectories == {}
      ensures searchOptions == DefaultOptions && indexing == old(indexing)
      ensures NameIndexCurrent()
    {
      fileIndex := [];
      nameIndex := map[];
      includeExtensions := {};
      excludeExtensions := {};
      excludeDirectories := {};
      searchOptions := DefaultOptions;
      ok := true;
    }

    /** `BuildIndexRecursive`: appends the admitted entries of the walk of
        `directory`, unless the directory itself is filtered out. */
    method BuildIndexRecursive(directory: string, walk: string -> seq<Entry>)
      modifies this`fileIndex
      ensures fileIndex == old(fileIndex) + Walked(Filters(), searchOptions, directory, walk)
    {
      if !ShouldIncludeDirectory(Filters(), directory) {
        return;
      }
      var entries := walk(directory);
      var keep := AdmitsFn(Filters(), searchOptions);
      var i := 0;
      while i < |entries|
        invariant 0 <= i <= |entries|
        invariant fileIndex == old(fileIndex) + Map(Select(entries[..i], keep), RecordOf)
      {
        var entry := entries[i];
        WalkStep(entries, i, keep);
        var admit := AdmitEntry(entry);
        if admit {
          var info := FileInfo(entry.path, entry.name, entry.parent,
                               if entry.isDirectory then 0 else entry.size, entry.mtime, entry.isDirectory);
          fileIndex := fileIndex + [info];
        }
        i := i + 1;
      }
      assert entries[..i] == entries;
    }

    /** The checks at the top of the walk loop of `BuildIndexRecursive`. */
    method AdmitEntry(entry: Entry) returns (admit: bool)
      ensures admit == Admits(Filters(), searchOptions, entry)
    {
      if !searchOptions.includeHidden && IsHidden(entry.name) {
        return false;
      }
      if entry.isDirectory {
        admit := ShouldIncludeDirectory(Filters(), entry.path);
      } else {
        admit := ShouldIncludeFile(Filters(), entry.name);
      }
    }

    /** `BuildNameIndex`: rebuilds the name index from the record index. */
    method BuildNameIndex()
      modifies this`nameIndex
      ensures NameIndexCurrent()
    {
      var cs := searchOptions.caseSensitive;
      var rs := fileIndex;
      var m := map[];
      var i := 0;
      while i < |rs|
        invariant 0 <= i <= |rs|
        invariant m == NameIndexOf(rs[..i], cs)
      {
        assert rs[..i + 1][..i] == rs[..i];
        var key := if cs then rs[i].fileName else ToLower(rs[i].fileName);
        var positions := if key in m then m[key] else [];
        m := m[key := positions + [i % U32_LIMIT]];
        i := i + 1;
      }
      assert rs[..i] == rs;
      nameIndex := m;
    }

    /** `BuildIndex`: refused while a build is running; otherwise the index
        is rebuilt from one root and the flag is reset. */
    method BuildIndex(rootPath: string, walk: string -> seq<Entry>)
      modifies this
      ensures old(indexing) ==> fileIndex == old(fileIndex) && nameIndex == old(nameIndex) && indexing
      ensures !old(indexing) ==>
        fileIndex == Walked(Filters(), searchOptions, rootPath, walk) && NameIndexCurrent() && !indexing
      ensures Filters() == old(Filters()) && searchOptions == old(searchOptions)
    {
      if indexing {
        return;
      }
      indexing := true;
      fileIndex := [];
      nameIndex := map[];
      BuildIndexRecursive(rootPath, walk);
      BuildNameIndex();
      indexing := false;
    }

    /** `BuildIndexMultiple`: as `BuildIndex`, walking the roots in order. */
    method BuildIndexMultiple(rootPaths: seq<string>, walk: string -> seq<Entry>)
      modifies this
      ensures old(indexing) ==> fileIndex == old(fileIndex) && nameIndex == old(nameIndex) && indexing
      ensures !old(indexing) ==>
        fileIndex == WalkedAll(Filters(), searchOptions, rootPaths, walk) && NameIndexCurrent() && !indexing
      ensures Filters() == old(Filters()) && searchOptions == old(searchOptions)
    {
      if indexing {
        return;
      }
      indexing := true;
      fileIndex := [];
      nameIndex := map[];
      var i := 0;
      while i < |rootPaths|
        invariant 0 <= i <= |rootPaths|
        invariant fileIndex == WalkedAll(Filters(), searchOptions, rootPaths[..i], walk)
        invariant Filters() == old(Filters()) && searchOptions == old(searchOptions) && indexing
      {
        assert rootPaths[..i + 1][..i] == rootPaths[..i];
        BuildIndexRecursive(rootPaths[i], walk);
        i := i + 1;
      }
      assert rootPaths[..i] == rootPaths;
      BuildNameIndex();
      indexing := false;
    }

    /** `Search`: `SearchWithOptions` with the engine's own options. */
    method Search(pattern: string, engine: RegexEngine) returns (results: seq<FileInfo>)
      ensures results == SearchResults(fileIndex, pattern, searchOptions, engine)
    {
      results := SearchWithOptions(pattern, searchOptions, engine);
    }

    /** `SearchWithOptions`: empty on an empty index, otherwise the index
        search cut to `maxResults`. */
    method SearchWithOptions(pattern: string, options: SearchOptions, engine: RegexEngine) returns (results: seq<FileInfo>)
      ensures results == SearchResults(fileIndex, pattern, options, engine)
    {
      if fileIndex == [] {
        return [];
      }
      results := SearchInIndex(pattern, options, engine);
      if |results| > options.maxResults {
        results := results[..options.maxResults];
      }
    }

    /** `SearchInIndex`: regex mode or wildcard mode. */
    method SearchInIndex(pattern: string, options: SearchOptions, engine: RegexEngine) returns (results: seq<FileInfo>)
      ensures results == IndexMatches(fileIndex, pattern, options, engine)
    {
      if options.useRegex {
        results := SearchWithRegex(pattern, options, engine);
      } else {
        results := SearchWithWildcard(pattern, options, engine);
      }
    }

    /** `SearchWithWildcard`: one pass over the index. */
    method SearchWithWildcard(pattern: string, options: SearchOptions, engine: RegexEngine) returns (results: seq<FileInfo>)
      ensures results == WildcardMatches(fileIndex, pattern, options, engine)
    {
      var keep := WildcardKeep(pattern, options, engine);
      results := [];
      var rs := fileIndex;
      var i := 0;
      while i < |rs|
        invariant 0 <= i <= |rs|
        invariant results == Select(rs[..i], keep)
      {
        var info := rs[i];
        SelectStep(rs, i, keep);
        if TypeAllowed(options, info) {
          var searchText := if options.searchInPath then info.fullPath else info.fileName;
          if MatchPattern(searchText, pattern, options, engine) {
            results := results + [info];
          }
        }
        i := i + 1;
      }
      assert rs[..i] == rs;
    }

    /** `SearchWithRegex`: a pattern that does not compile gives no
        results; otherwise one pass over the index. */
    method SearchWithRegex(pattern: string, options: SearchOptions, engine: RegexEngine) returns (results: seq<FileInfo>)
      ensures results == RegexMatches(fileIndex, pattern, options, engine)
    {
      var icase := !options.caseSensitive;
      results := [];
      if !engine.compiles(pattern, icase) {
        return;
      }
      var keep := RegexKeep(pattern, options, engine);
      var rs := fileIndex;
      var i := 0;
      while i < |rs|
        invariant 0 <= i <= |rs|
        invariant results == Select(rs[..i], keep)
      {
        var info := rs[i];
        SelectStep(rs, i, keep);
        if TypeAllowed(options, info) {
          var searchText := if options.searchInPath then info.fullPath else info.fileName;
          if engine.search(pattern, searchText, icase) {
            results := results + [info];
          }
        }
        i := i + 1;
      }
      assert rs[..i] == rs;
    }

    /** The filter checks and the match in the walk loop of `QuickSearch`. */
    static method QuickAdmitEntry(filters: FilterSet, entry: Entry, options: SearchOptions, pattern: string,
                                  engine: RegexEngine)
      returns (admit: bool)
      ensures admit == QuickAdmits(filters, options, pattern, engine, entry)
    {
      if entry.isDirectory {
        if !ShouldIncludeDirectory(filters, entry.path) || options.filesOnly {
          return false;
        }
      } else {
        if !ShouldIncludeFile(filters, entry.name) || options.dirsOnly {
          return false;
        }
      }
      var searchText := if options.searchInPath then entry.path else entry.name;
      admit := MatchPattern(searchText, pattern, options, engine);
    }

    /** `QuickSearch`: walks `rootPath` without touching the index and
        returns the first matches, stopping once the limit is reached; the
        limit is tested after a push, so at least one match is returned
        when there is one. */
    method QuickSearch(rootPath: string, pattern: string, walk: string -> seq<Entry>, engine: RegexEngine)
      returns (results: seq<FileInfo>)
      ensures results == Truncate(QuickMatches(Filters(), searchOptions, walk(rootPath), pattern, engine),
                                  QuickLimit(searchOptions.maxResults))
    {
      results := QuickWalk(Filters(), searchOptions, walk(rootPath), pattern, engine,
                           QuickKeep(Filters(), searchOptions, pattern, engine));
    }

    /** The walk loop of `QuickSearch` over the entries of the walk, with
        the engine's filters and options as they stand. */
    static method QuickWalk(filters: FilterSet, options: SearchOptions, entries: seq<Entry>, pattern: string,
                            engine: RegexEngine, ghost keep: Entry -> bool)
      returns (results: seq<FileInfo>)
      requires forall e {:trigger QuickAdmits(filters, options, pattern, engine, e)} ::
        keep(e) == QuickAdmits(filters, options, pattern, engine, e)
      ensures results == Truncate(Map(Select(entries, keep), RecordOf), QuickLimit(options.maxResults))
    {
      ghost var limit := QuickLimit(options.maxResults);
      results := [];
      var i := 0;
      while i < |entries|
        invariant 0 <= i <= |entries|
        invariant results == Map(Select(entries[..i], keep), RecordOf)
        invariant |results| < limit
      {
        var entry := entries[i];
        QuickAdvance(entries, i, keep, results);
        var admit := QuickAdmitBy(filters, entry, options, pattern, engine, keep);
        if admit {
          var info := FileInfo(entry.path, entry.name, entry.parent,
                               if entry.isDirectory then 0 else entry.size, entry.mtime, entry.isDirectory);
          assert info == RecordOf(entry);
          results := results + [info];
          if |results| >= options.maxResults {
            LimitReached(|results|, options.maxResults);
            QuickStopsAtLimit(entries, i + 1, keep, limit);
            return;
          }
          LimitNotReached(|results|, options.maxResults);
        }
        i := i + 1;
      }
      assert entries[..i] == entries;
      QuickRunsOut(entries, keep, limit);
    }

    /** `QuickAdmitEntry` stated against the admission predicate the walk
        loop is specified with. */
    static method QuickAdmitBy(filters: FilterSet, entry: Entry, options: SearchOptions, pattern: string,
                               engine: RegexEngine, ghost keep: Entry -> bool)
      returns (admit: bool)
      requires forall e {:trigger QuickAdmits(filters, options, pattern, engine, e)} ::
        keep(e) == QuickAdmits(filters, options, pattern, engine, e)
      ensures admit == keep(entry)
    {
      admit := QuickAdmitEntry(filters, entry, options, pattern, engine);
    }

    /** `ClearIndex`: empties both indexes. */
    method ClearIndex()
      modifies this`fileIndex, this`nameIndex
      ensures fileIndex == [] && nameIndex == map[]
      ensures NameIndexCurrent()
    {
      fileIndex := [];
      nameIndex := map[];
    }

    /** `GetIndexedFileCount`: the number of records, cast to `uint32_t`. */
    method GetIndexedFileCount() returns (count: U32)
      ensures |fileIndex| < U32_LIMIT ==> count == |fileIndex|
      ensures count == |fileIndex| % U32_LIMIT
    {
      count := |fileIndex| % U32_LIMIT;
    }

    /** `SaveIndex`: when the file opens, the bytes written are the count
        cast to `uint32_t`, then every record field by field. */
    method SaveIndex(canOpen: bool) returns (ok: bool, written: seq<Byte>)
      ensures ok == canOpen
      ensures ok ==> written == EncodeIndex(fileIndex)
      ensures !ok ==> written == []
    {
      if !canOpen {
        return false, [];
      }
      var header := EncodeLE(|fileIndex|, 4);
      var records := WriteRecords(fileIndex);
      written := header + records;
      ok := true;
    }

    /** The records of `SaveIndex`, written one after another. */
    static method WriteRecords(rs: seq<FileInfo>) returns (written: seq<Byte>)
      ensures written == EncodeMany(EncodeRecord, rs)
    {
      written := [];
      var i := 0;
      while i < |rs|
        invariant 0 <= i <= |rs|
        invariant written == EncodeMany(EncodeRecord, rs[..i])
      {
        var record := WriteRecord(rs[i]);
        EncodeManySnoc(EncodeRecord, rs[..i], rs[i]);
        assert rs[..i + 1] == rs[..i] + [rs[i]];
        written := written + record;
        i := i + 1;
      }
      assert rs[..i] == rs;
    }

    /** One record as `SaveIndex` writes it: the three strings with their
        lengths, the size, the time and the directory flag. */
    static method WriteRecord(info: FileInfo) returns (record: seq<Byte>)
      ensures record == EncodeRecord(info)
    {
      record := EncodeString(info.fullPath) + EncodeString(info.fileName) + EncodeString(info.directory)
        + EncodeLE(info.fileSize, 8) + EncodeLE(info.modifyTime, 8) + [EncodeFlag(info.isDirectory)];
      EncodeRecordFields(info);
    }

    /** `LoadIndex`: a file that does not open changes nothing. Otherwise
        the record index is cleared and the records are read one by one;
        when all of them decode, they become the index and the name index
        is rebuilt. Input that runs out early is a failure that leaves the
        record index empty and the name index as it was. */
    method LoadIndex(file: Option<seq<Byte>>) returns (ok: bool)
      modifies this`fileIndex, this`nameIndex
      ensures file.None? ==> !ok && fileIndex == old(fileIndex) && nameIndex == old(nameIndex)
      ensures file.Some? && DecodeIndex(file.value).Some? ==>
        ok && fileIndex == DecodeIndex(file.value).value && NameIndexCurrent()
      ensures file.Some? && DecodeIndex(file.value).None? ==>
        !ok && fileIndex == [] && nameIndex == old(nameIndex)
    {
      if file.None? {
        return false;
      }
      var bytes := file.value;
      fileIndex := [];
      var header := ReadU32(bytes);
      if header.None? {
        return false;
      }
      DecodeAfterCount(bytes, header.value.0, header.value.1);
      var records := ReadItems(ReadRecord, header.value.0, header.value.1);
      if records.None? {
        return false;
      }
      fileIndex := records.value;
      BuildNameIndex();
      ok := true;
    }

    /** `AddIncludeExtension`: stores the folded argument; no dot is added. */
    method AddIncludeExtension(extension: string)
      modifies this`includeExtensions
      ensures includeExtensions == old(includeExtensions) + {ToLower(extension)}
    {
      includeExtensions := includeExtensions + {ToLower(extension)};
    }

    /** `AddExcludeExtension`: stores the folded argument; no dot is added. */
    method AddExcludeExtension(extension: string)
      modifies this`excludeExtensions
      ensures excludeExtensions == old(excludeExtensions) + {ToLower(extension)}
    {
      excludeExtensions := excludeExtensions + {ToLower(extension)};
    }

    /** `AddExcludeDirectory`: stores the argument as given. */
    method AddExcludeDirectory(directory: string)
      modifies this`excludeDirectories
      ensures excludeDirectories == old(excludeDirectories) + {directory}
    {
      excludeDirectories := excludeDirectories + {directory};
    }

    /** `ClearFilters`: empties the three filter sets. */
    method ClearFilters()
      modifies this`includeExtensions, this`excludeExtensions, this`excludeDirectories
      ensures Filters() == NoFilters
    {
      includeExtensions := {};
      excludeExtensions := {};
      excludeDirectories := {};
    }

    method SetSearchOptions(options: SearchOptions)
      modifies this`searchOptions
      ensures searchOptions == options
    {
      searchOptions := options;
    }

    method GetSearchOptions() returns (options: SearchOptions)
      ensures options == searchOptions
    {
      options := searchOptions;
    }

    /** `SortResults`: sorts the list in place for a known key and leaves it
        alone for any other string. */
    method SortResults(results: array<FileInfo>, sortBy: string)
      modifies results
      ensures SortedResult(sortBy, old(results[..]), results[..])
    {
      var key := ParseSortKey(sortBy);
      if key.None? {
        return;
      }
      var sorted := Sort(key.value, results[..]);
      assert |sorted| == |multiset(sorted)| == |multiset(results[..])| == results.Length;
      forall k | 0 <= k < results.Length {
        results[k] := sorted[k];
      }
      assert results[..] == sorted;
    }
  }
}
