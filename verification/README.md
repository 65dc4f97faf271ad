# dmfilesearch in Dafny

This project models the core of dmfilesearch, a file search engine in the
style of "Everything". It has two parts:

- the engine object `DmfilesearchImpl`;
- the argument parser of the command-line tool `es`.

The engine walks one or more directory trees and keeps one `DMFileInfo`
record per admitted entry. Entries are admitted by three filters: hidden
names, a set of included and excluded extensions, and excluded directory
substrings. The engine keeps a name index from file name to positions. It
answers searches by substring, whole word, `*`/`?` wildcard or regular
expression, each with a result limit. It can search the disk directly
without an index ("quick search"). It saves and loads the record index in
a length-prefixed binary format, and sorts results by name, size, date or
path.

The tool splits comma lists and turns `argv` into a command record, one
option at a time.

Modules, one per concern of the source:

| file | module | models |
|---|---|---|
| `types.dfy` | `FileTypes` | `DMFileInfo`, `DMSearchOptions`, one entry of a directory walk, fixed-width integers |
| `seqs.dfy` | `Seqs` | selecting and mapping over a walk |
| `filters.dfy` | `Filters` | `ToLower`, `GetFileExtension`, `ShouldIncludeFile`, `ShouldIncludeDirectory` |
| `matcher.dfy` | `Matcher` | `MatchPattern` and the wildcard-to-regex translation |
| `persistence.dfy` | `IndexFormat` | the byte format written by `SaveIndex` and read by `LoadIndex` |
| `sorting.dfy` | `ResultSort` | the four orders of `SortResults` |
| `engine.dfy` | `Engine` | the class `FileSearchEngine` with the engine's fields and methods, plus the functions that specify them |
| `cli.dfy` | `Cli` | `SplitString`, `ParseArguments` and the tool's use of the extension options |

Methods that change the engine's state are methods of
`Engine.FileSearchEngine`. Their `modifies` clauses name the fields the
source assigns. Each is proved against a specification function, and the
lemmas beside those functions state what the source promises.

The record index is specified by `Walked`/`WalkedAll`. Searches are
specified by `SearchResults`, and the quick search by `QuickMatches` and
`QuickLimit`. The byte format is specified by `EncodeIndex`/`DecodeIndex`,
and sorting by `SortedResult`.

Loops in the source are loops here: the walk, the name-index build, the
searches, the record reader, the splitter, the argument loop and the
exclude-extension loop. `SortResults` sorts its `array` in place.

Three consequences of the code, as written, are proved as lemmas.

- **Extension options with one leading dot never match.** The tool strips
  one leading dot from `--ext` and `--exclude-ext` values. The engine
  compares the stored value with an extension that is empty or starts with
  a dot. So for any non-empty value other than `.` and those starting with
  `..`, an `--ext` value matches no file and an `--exclude-ext` value
  excludes no file (`Cli.DotlessIncludeRejectsEveryFile`,
  `Cli.DotlessExcludeNeverFires`, `Cli.ExtOptionStoresDotless`). The help
  example `es --ext .h header` filters out every file (`Cli.HelpExtExample`).
- **Directory exclusion does not prune.** A directory that fails the
  directory filter loses only its own record. The files below it are still
  indexed (`Engine.ExcludedDirectoryIsNotPruned`).
- **A quick-search limit of 0 still yields a result.** The quick search
  tests its limit only after adding a result, so with a limit of 0 it
  returns the first match when there is one (`Engine.QuickLimit`).

## Model

| member | source | states |
|---|---|---|
| `Filters.ToLower` | src/libdmfilesearch/libdmfilesearch_impl.cpp:537-541 | folding keeps the length; what it does to each character is `Filters.ToLowerChars` |
| `Filters.ToLowerChars` | src/libdmfilesearch/libdmfilesearch_impl.cpp:537-541 | each ASCII capital becomes its lower-case letter, every other character stays, and no capital is left |
| `Filters.ToLowerIdempotent` | src/libdmfilesearch/libdmfilesearch_impl.cpp:537-541 | folding twice is folding once |
| `Filters.FindFrom` | src/libdmfilesearch/libdmfilesearch_impl.cpp:524 | `find` gives the first position at or after the start where the needle occurs, or none when it occurs nowhere there |
| `Filters.ContainsMeaning` | src/libdmfilesearch/libdmfilesearch_impl.cpp:524 | `find(...) != npos` holds exactly when the needle occurs somewhere in the text |
| `Filters.LastIndexOf` | src/libdmfilesearch/libdmfilesearch_impl.cpp:532 | `find_last_of` finds nothing exactly when the character is absent; otherwise it gives its last position |
| `Filters.GetFileExtension` | src/libdmfilesearch/libdmfilesearch_impl.cpp:531-535 | the extension is empty or starts with a dot, and is no longer than the name |
| `Filters.ExtensionShape` | src/libdmfilesearch/libdmfilesearch_impl.cpp:531-535 | the extension is empty exactly when the name has no dot; otherwise it starts with the name's last dot, holds no other dot and is the folded suffix of the name |
| `Filters.ExtensionIgnoresCase` | src/libdmfilesearch/libdmfilesearch_impl.cpp:531-535 | a name and its folded form have the same extension |
| `Filters.ShouldIncludeFile` | src/libdmfilesearch/libdmfilesearch_impl.cpp:506-520 | a file passes exactly when its extension is not excluded and the include set is empty or holds it |
| `Filters.ExcludeWinsOverInclude` | src/libdmfilesearch/libdmfilesearch_impl.cpp:509-517 | an extension both included and excluded is rejected |
| `Filters.FileFilterIgnoresCase` | src/libdmfilesearch/libdmfilesearch_impl.cpp:506-520 | the file filter gives the same answer for a name and its folded form |
| `Filters.DirectoryFilterMeaning` | src/libdmfilesearch/libdmfilesearch_impl.cpp:522-529 | a directory passes exactly when no excluded string is a substring of its path |
| `Filters.EmptyExcludeRejectsAll` | src/libdmfilesearch/libdmfilesearch_impl.cpp:522-529 | an excluded empty string rejects every directory |
| `Matcher.SearchFrom` | src/libdmfilesearch/libdmfilesearch_impl.cpp:331 | the search succeeds exactly when the atoms match at some position at or after the start |
| `Matcher.SearchStarLast` | src/libdmfilesearch/libdmfilesearch_impl.cpp:331 | `regex_search` of a pattern `a1..an*` succeeds exactly when some substring is in that pattern's language |
| `Matcher.StarLastSearchIffPrefixOccurs` | src/libdmfilesearch/libdmfilesearch_impl.cpp:320-331 | a search for `a1..an*` succeeds exactly when `a1..a(n-1)` matches somewhere: the last atom is optional |
| `Matcher.Replace` | src/libdmfilesearch/libdmfilesearch_impl.cpp:323-325 | `std::replace` keeps the length and substitutes exactly the positions holding the old character |
| `Matcher.TranslateWildcard` | src/libdmfilesearch/libdmfilesearch_impl.cpp:322-325 | the regex text is one character longer than the pattern and ends in `*`; every `*` and `?` of the pattern becomes `.`, every other character is kept |
| `Matcher.ParseTranslate` | src/libdmfilesearch/libdmfilesearch_impl.cpp:322-331 | read back, the translated regex is one atom per pattern character, where `*`, `?` and `.` each stand for one arbitrary character |
| `Matcher.MatchPattern` | src/libdmfilesearch/libdmfilesearch_impl.cpp:311-339 | computes the match: both strings folded unless case-sensitive, then equality in whole-word mode, the rewritten regex for a `*`/`?` pattern (substring of the unrewritten pattern when it does not compile), a substring test otherwise; its meaning is `Matcher.MatchPatternMeaning` |
| `Matcher.MatchPatternMeaning` | src/libdmfilesearch/libdmfilesearch_impl.cpp:311-339 | whole word means equality after folding; with no wildcard it means substring; a wildcard pattern means the star-last search of its translation |
| `Matcher.WildcardMatchIffPrefixMatches` | src/libdmfilesearch/libdmfilesearch_impl.cpp:320-335 | a wildcard pattern matches exactly when its atoms, minus the last, match somewhere in the text |
| `Matcher.EmptyPatternMatchesEverything` | src/libdmfilesearch/libdmfilesearch_impl.cpp:338 | outside whole-word mode the empty pattern matches every text |
| `Matcher.StarDotTxtMatches` | src/libdmfilesearch/libdmfilesearch_impl.cpp:320-331 | `*.txt` matches `a.txt` |
| `Matcher.StarDotTxtRejectsOtherExtension` | src/libdmfilesearch/libdmfilesearch_impl.cpp:320-331 | `*.txt` does not match `a.bin` |
| `Matcher.StarDotTxtNeedsCharBeforeDot` | src/libdmfilesearch/libdmfilesearch_impl.cpp:320-331 | `*.txt` does not match `.txt`, because the translated `*` became a `.` that needs one character |
| `Matcher.WholeWordExamples` | src/libdmfilesearch/libdmfilesearch_impl.cpp:315-317 | whole-word mode accepts `main` for `main` and rejects `mainmodule` and `the_main` |
| `IndexFormat.EncodeU32Truncates` | src/libdmfilesearch/libdmfilesearch_impl.cpp:357-364 | casting a count or a length to `uint32_t` keeps it modulo 2^32 |
| `IndexFormat.DecodeEncodeLE` | src/libdmfilesearch/libdmfilesearch_impl.cpp:358 | decoding an n-byte encoding gives back every value below 256^n |
| `IndexFormat.ReadU32` | src/libdmfilesearch/libdmfilesearch_impl.cpp:397 | reading a `uint32_t` succeeds exactly when 4 bytes remain and consumes exactly those 4 |
| `IndexFormat.ReadU64` | src/libdmfilesearch/libdmfilesearch_impl.cpp:419-420 | reading a `uint64_t` succeeds exactly when 8 bytes remain and consumes exactly those 8 |
| `IndexFormat.ReadEncodedU32` | src/libdmfilesearch/libdmfilesearch_impl.cpp:357-358 | a written `uint32_t` reads back as the value modulo 2^32, leaving what follows |
| `IndexFormat.ReadEncodedU64` | src/libdmfilesearch/libdmfilesearch_impl.cpp:375-376 | a written `uint64_t` reads back unchanged, leaving what follows |
| `IndexFormat.ReadEncodedString` | src/libdmfilesearch/libdmfilesearch_impl.cpp:362-373 | a length-prefixed byte string shorter than 2^32 reads back unchanged |
| `IndexFormat.EncodeStamp` | src/libdmfilesearch/libdmfilesearch_impl.cpp:375-377 | size, time and directory flag take 8 + 8 + 1 bytes |
| `IndexFormat.ReadEncodedRecord` | src/libdmfilesearch/libdmfilesearch_impl.cpp:361-377 | a written record reads back unchanged |
| `IndexFormat.ReadMany` | src/libdmfilesearch/libdmfilesearch_impl.cpp:402-424 | a successful read of n records yields exactly n records |
| `IndexFormat.ReadManyStuck` | src/libdmfilesearch/libdmfilesearch_impl.cpp:402-424 | when one record cannot be read, reading any larger count fails too |
| `IndexFormat.ReadEncodedMany` | src/libdmfilesearch/libdmfilesearch_impl.cpp:361-378 | n written records read back as the same n records, leaving what follows |
| `IndexFormat.ReadItems` | src/libdmfilesearch/libdmfilesearch_impl.cpp:402-424 | the reading loop returns what the record-list decoder specifies |
| `IndexFormat.EncodeIndex` | src/libdmfilesearch/libdmfilesearch_impl.cpp:351-386 | computes the saved bytes: the record count as a `uint32_t`, then each record; inverted by `IndexFormat.IndexRoundTrip` |
| `IndexFormat.DecodeIndex` | src/libdmfilesearch/libdmfilesearch_impl.cpp:388-434 | computes the loaded records: a count, then that many records, or none when the bytes run out; see `IndexFormat.IndexRoundTrip` |
| `IndexFormat.IndexRoundTrip` | src/libdmfilesearch/libdmfilesearch_impl.cpp:351-434 | loading what was saved gives back the same records, for fewer than 2^32 records of byte strings shorter than 2^32 |
| `ResultSort.ParseSortKey` | src/libdmfilesearch/libdmfilesearch_impl.cpp:481-503 | each of `name`, `size`, `date` and `path` selects its own key; every other string selects none |
| `ResultSort.LexLessIrreflexive` | src/libdmfilesearch/libdmfilesearch_impl.cpp:485 | `std::string::operator<` never holds between a string and itself |
| `ResultSort.LexLessTransitive` | src/libdmfilesearch/libdmfilesearch_impl.cpp:485 | `std::string::operator<` is transitive |
| `ResultSort.LexLessTotal` | src/libdmfilesearch/libdmfilesearch_impl.cpp:485 | of two different strings one is less than the other |
| `ResultSort.Less` | src/libdmfilesearch/libdmfilesearch_impl.cpp:481-502 | computes the four comparators: by name and by path with `operator<`, by size and by date descending; their order properties are the lemmas below |
| `ResultSort.LessAsymmetric` | src/libdmfilesearch/libdmfilesearch_impl.cpp:483-501 | each comparator is asymmetric |
| `ResultSort.NotLessTransitive` | src/libdmfilesearch/libdmfilesearch_impl.cpp:483-501 | "not less" is transitive for each comparator, so each is the strict weak order `std::sort` needs |
| `ResultSort.Insert` | src/libdmfilesearch/libdmfilesearch_impl.cpp:483-501 | inserting into a sorted list keeps it sorted and adds exactly that record |
| `ResultSort.Sort` | src/libdmfilesearch/libdmfilesearch_impl.cpp:481-503 | the result is a permutation of the input, sorted by the key |
| `ResultSort.SortedPermutationsAgree` | src/libdmfilesearch/libdmfilesearch_impl.cpp:481-503 | two sorted permutations of the same records agree on the key at every position: ties are the only freedom |
| `Engine.Walked` | src/libdmfilesearch/libdmfilesearch_impl.cpp:127-171 | the records one recursive build appends, at most one per walked entry |
| `Engine.WalkedAll` | src/libdmfilesearch/libdmfilesearch_impl.cpp:107-110 | computes the records of several roots, root after root |
| `Engine.WalkedMembers` | src/libdmfilesearch/libdmfilesearch_impl.cpp:127-171 | the records of a walk are exactly those of the admitted entries, and a root that fails the directory filter contributes none |
| `Engine.ExcludedDirectoryIsNotPruned` | src/libdmfilesearch/libdmfilesearch_impl.cpp:133-153 | with `node_modules` excluded, its directory record is dropped but a file inside it is indexed |
| `Engine.HiddenDirectoryIsNotPruned` | src/libdmfilesearch/libdmfilesearch_impl.cpp:140-143 | under the default options a hidden directory loses its own record but a visible file inside it is kept |
| `Engine.NameIndexOf` | src/libdmfilesearch/libdmfilesearch_impl.cpp:173-180 | computes the name index: each position, cast to `uint32_t`, appended to its record's key; characterized by `Engine.NameIndexFilesEveryPositionOnce` |
| `Engine.NameIndexFilesEveryPositionOnce` | src/libdmfilesearch/libdmfilesearch_impl.cpp:173-180 | the keys are exactly the (folded) names; each list holds increasing positions of records with that key, and every position is listed under its key |
| `Engine.SearchResults` | src/libdmfilesearch/libdmfilesearch_impl.cpp:186-214 | computes what a search returns: nothing on an empty index, otherwise the matches cut to `maxResults`; characterized by `Engine.SearchResultsCharacterized` |
| `Engine.SearchResultsCharacterized` | src/libdmfilesearch/libdmfilesearch_impl.cpp:186-309 | nothing from an empty index; otherwise exactly the first `min(matches, maxResults)` matches, each an indexed record of an allowed type; a record is a match exactly when it is indexed, allowed and accepted by `MatchPattern` (wildcard mode) or by the regex engine (regex mode, where a pattern that does not compile matches nothing) |
| `Engine.BothTypeFiltersFindNothing` | src/libdmfilesearch/libdmfilesearch_impl.cpp:276-277 | `dirsOnly` together with `filesOnly` finds nothing |
| `Engine.QuickLimit` | src/libdmfilesearch/libdmfilesearch_impl.cpp:250-254 | the quick search stops after `maxResults` results, and after one when the limit is 0 |
| `Engine.QuickMatches` | src/libdmfilesearch/libdmfilesearch_impl.cpp:216-263 | computes every match of the walk, in walk order, at most one per entry; the quick search returns its first `QuickLimit` |
| `Engine.WalkStep` | src/libdmfilesearch/libdmfilesearch_impl.cpp:240-250 | one more walked entry adds its record exactly when it is kept |
| `Engine.QuickAdvance` | src/libdmfilesearch/libdmfilesearch_impl.cpp:240-250 | one more walked entry adds its record, and one more selected entry, exactly when it is kept; otherwise nothing changes |
| `Engine.LimitReached` | src/libdmfilesearch/libdmfilesearch_impl.cpp:252-254 | a count that reaches `maxResults` from below the quick-search limit is that limit |
| `Engine.LimitNotReached` | src/libdmfilesearch/libdmfilesearch_impl.cpp:252-254 | a count below `maxResults` is below the quick-search limit |
| `Engine.QuickStopsAtLimit` | src/libdmfilesearch/libdmfilesearch_impl.cpp:252-254 | stopping once the limit is reached yields the first `limit` matches of the whole walk |
| `Engine.QuickRunsOut` | src/libdmfilesearch/libdmfilesearch_impl.cpp:223-256 | a walk with fewer matches than the limit yields all of them |
| `Engine.FileSearchEngine.constructor` | src/libdmfilesearch/libdmfilesearch_impl.h:64-71 | a new engine has empty indexes and filters, default options and is not indexing |
| `Engine.FileSearchEngine.Init` | src/libdmfilesearch/libdmfilesearch_impl.cpp:53-61 | returns true and clears both indexes and all filters and restores the default options |
| `Engine.FileSearchEngine.BuildIndexRecursive` | src/libdmfilesearch/libdmfilesearch_impl.cpp:127-171 | appends exactly the records of the admitted entries of the walk, in walk order |
| `Engine.FileSearchEngine.AdmitEntry` | src/libdmfilesearch/libdmfilesearch_impl.cpp:140-153 | decides the hidden-name rule, then the directory or the file filter |
| `Engine.FileSearchEngine.BuildNameIndex` | src/libdmfilesearch/libdmfilesearch_impl.cpp:173-180 | the name index afterwards is the one computed from the records |
| `Engine.FileSearchEngine.BuildIndex` | src/libdmfilesearch/libdmfilesearch_impl.cpp:63-91 | while a build runs nothing changes; otherwise the index is the walk of the root, the name index is current, and filters and options are unchanged |
| `Engine.FileSearchEngine.BuildIndexMultiple` | src/libdmfilesearch/libdmfilesearch_impl.cpp:93-125 | as `BuildIndex`, with the walks of all roots concatenated in order |
| `Engine.FileSearchEngine.Search` | src/libdmfilesearch/libdmfilesearch_impl.cpp:182-184 | searching with the engine's own options gives `SearchResults` |
| `Engine.FileSearchEngine.SearchWithOptions` | src/libdmfilesearch/libdmfilesearch_impl.cpp:186-214 | empty on an empty index, otherwise the matches cut to `maxResults` |
| `Engine.FileSearchEngine.SearchInIndex` | src/libdmfilesearch/libdmfilesearch_impl.cpp:265-271 | dispatches to the regex search when `useRegex` is set and to the wildcard search otherwise |
| `Engine.FileSearchEngine.SearchWithWildcard` | src/libdmfilesearch/libdmfilesearch_impl.cpp:273-285 | the indexed records of an allowed type that `MatchPattern` accepts, in index order |
| `Engine.FileSearchEngine.SearchWithRegex` | src/libdmfilesearch/libdmfilesearch_impl.cpp:287-309 | nothing when the pattern does not compile; otherwise the allowed records the regex finds, in index order |
| `Engine.FileSearchEngine.QuickAdmitEntry` | src/libdmfilesearch/libdmfilesearch_impl.cpp:231-241 | applies the directory or file filter, the type flags and `MatchPattern`, with no hidden-name rule |
| `Engine.FileSearchEngine.QuickAdmitBy` | src/libdmfilesearch/libdmfilesearch_impl.cpp:231-241 | the per-entry checks agree with the admission predicate the walk loop is specified with |
| `Engine.FileSearchEngine.QuickWalk` | src/libdmfilesearch/libdmfilesearch_impl.cpp:223-256 | the loop over the walk returns exactly the first `QuickLimit(maxResults)` admitted entries' records, in walk order, stopping as soon as the count reaches `maxResults` |
| `Engine.FileSearchEngine.QuickSearch` | src/libdmfilesearch/libdmfilesearch_impl.cpp:216-263 | the matches of the walk in walk order, cut to the quick-search limit; the index is untouched |
| `Engine.FileSearchEngine.ClearIndex` | src/libdmfilesearch/libdmfilesearch_impl.cpp:341-345 | both indexes become empty |
| `Engine.FileSearchEngine.GetIndexedFileCount` | src/libdmfilesearch/libdmfilesearch_impl.cpp:347-349 | the record count, cast to `uint32_t` |
| `Engine.FileSearchEngine.SaveIndex` | src/libdmfilesearch/libdmfilesearch_impl.cpp:351-386 | fails exactly when the file cannot be opened; otherwise writes `EncodeIndex` of the records |
| `Engine.FileSearchEngine.WriteRecords` | src/libdmfilesearch/libdmfilesearch_impl.cpp:361-378 | the writing loop emits the records' encodings in order |
| `Engine.FileSearchEngine.WriteRecord` | src/libdmfilesearch/libdmfilesearch_impl.cpp:362-377 | one record's bytes, field by field |
| `Engine.FileSearchEngine.LoadIndex` | src/libdmfilesearch/libdmfilesearch_impl.cpp:388-434 | an unopenable file changes nothing; a decodable file replaces the records and rebuilds the name index; an undecodable one leaves the records empty |
| `Engine.FileSearchEngine.AddIncludeExtension` | src/libdmfilesearch/libdmfilesearch_impl.cpp:436-438 | adds the folded extension, unchanged otherwise |
| `Engine.FileSearchEngine.AddExcludeExtension` | src/libdmfilesearch/libdmfilesearch_impl.cpp:440-442 | adds the folded extension, unchanged otherwise |
| `Engine.FileSearchEngine.AddExcludeDirectory` | src/libdmfilesearch/libdmfilesearch_impl.cpp:444-446 | adds the directory string as given |
| `Engine.FileSearchEngine.ClearFilters` | src/libdmfilesearch/libdmfilesearch_impl.cpp:448-452 | all three filter sets become empty |
| `Engine.FileSearchEngine.SetSearchOptions` | src/libdmfilesearch/libdmfilesearch_impl.cpp:454-456 | the options become the argument |
| `Engine.FileSearchEngine.GetSearchOptions` | src/libdmfilesearch/libdmfilesearch_impl.cpp:458-460 | returns the current options |
| `Engine.FileSearchEngine.SortResults` | src/libdmfilesearch/libdmfilesearch_impl.cpp:481-503 | for a known key the array becomes a sorted permutation of itself; for any other key it is unchanged |
| `Cli.SplitString` | tools/es/main.cpp:86-98 | the loop returns the non-empty delimiter-free pieces of the input, in order |
| `Cli.Tokens` | tools/es/main.cpp:86-98 | computes the non-empty pieces between delimiters; characterized by the three lemmas below |
| `Cli.TokensAreNonEmptyAndUndelimited` | tools/es/main.cpp:86-98 | every piece is non-empty and holds no delimiter |
| `Cli.TokensConcatenate` | tools/es/main.cpp:86-98 | the pieces concatenated are the input with its delimiters removed |
| `Cli.SplitJoin` | tools/es/main.cpp:86-98 | joining non-empty delimiter-free pieces with the delimiter and splitting again gives back the pieces |
| `Cli.SplitExample` | tools/es/main.cpp:86-98 | `a,,b,` splits into `a` and `b` |
| `Cli.StripLeadingDot` | tools/es/main.cpp:180-183 | a value starting with a dot is that dot followed by the result; any other value is kept unchanged |
| `Cli.SpellingsAreDashed` | tools/es/main.cpp:104-233 | every option spelling starts with `-` |
| `Cli.Classify` | tools/es/main.cpp:102-241 | computes which branch of the option chain an argument takes; characterized by the three lemmas below |
| `Cli.ClassifyPlain` | tools/es/main.cpp:234-237 | an argument is a search term exactly when it does not start with `-` |
| `Cli.ClassifySpelling` | tools/es/main.cpp:104-233 | an argument read as an option is one of that option's spellings |
| `Cli.ClassifyUnknown` | tools/es/main.cpp:238-241 | an argument read as unknown starts with `-` and is no option's spelling |
| `Cli.SetValue` | tools/es/main.cpp:110-223 | computes what each value-taking option does to the record; see `Cli.ValueKeepsFlags`, `Cli.ValueOnlyAppends`, `Cli.RootOptions`, `Cli.ExtensionOptions` |
| `Cli.StepOf` | tools/es/main.cpp:102-241 | a successful step consumes one to three arguments and never runs past the end |
| `Cli.ParseFrom` | tools/es/main.cpp:100-245 | computes the loop from one position on: stops with false at the first failing step, with true at the end |
| `Cli.Parse` | tools/es/main.cpp:100-245 | computes the whole parse, from the first argument after the program name |
| `Cli.StepFailsExactly` | tools/es/main.cpp:110-241 | a step fails exactly for a value option as the last argument, for `-q` without two more arguments, or for an unknown dashed argument |
| `Cli.FlagSetsItsOwnBoolean` | tools/es/main.cpp:104-169 | a flag option sets its own boolean and leaves every other boolean as it was |
| `Cli.FlagChangesOnlyFlags` | tools/es/main.cpp:104-169 | a flag option changes no field other than the booleans |
| `Cli.ValueKeepsFlags` | tools/es/main.cpp:110-223 | a value option leaves the ten flag booleans as they were |
| `Cli.ValueOnlyAppends` | tools/es/main.cpp:110-223 | a value option only appends to the search terms, the extension lists and the excluded directories |
| `Cli.PlainArgumentIsSearchTerm` | tools/es/main.cpp:234-237 | a non-dashed argument is appended to the search terms |
| `Cli.PlainArgumentsAreSearchTerms` | tools/es/main.cpp:100-245 | a tail of non-dashed arguments parses successfully, appending all of it to the search terms |
| `Cli.RootOptions` | tools/es/main.cpp:110-233 | `-b` appends one root and turns index building on; `-m` replaces the roots by the non-empty comma-separated pieces of its value and turns index building on; `-q` appends a root and a term and turns quick search on |
| `Cli.ExtensionOptions` | tools/es/main.cpp:178-207 | `--ext` appends its value with one leading dot removed when it has one; `--exclude-ext` appends every non-empty comma-separated piece, in order, each stripped the same way |
| `Cli.StepOnlyAppends` | tools/es/main.cpp:102-241 | no step removes a search term, an extension or an excluded directory |
| `Cli.StepKeepsFlag` | tools/es/main.cpp:102-241 | no step clears a boolean that is set |
| `Cli.ParseArguments` | tools/es/main.cpp:100-245 | the loop returns the success flag and record of `Parse` |
| `Cli.ParseArgument` | tools/es/main.cpp:102-241 | one iteration of the loop is `StepOf` on the argument's classification |
| `Cli.ApplyValue` | tools/es/main.cpp:110-223 | applying an option's value gives `SetValue`, including the split and the dot-stripping loops |
| `Cli.AppendExcludeExtensions` | tools/es/main.cpp:190-207 | appends each piece with its leading dot removed, in order |
| `Cli.ParseOnlyAppends` | tools/es/main.cpp:100-245 | a parse, successful or not, only extends the search terms, the extension lists and the excluded directories |
| `Cli.ParseKeepsFlag` | tools/es/main.cpp:100-245 | a parse keeps every flag boolean that was set |
| `Cli.NoArgumentsKeepDefaults` | tools/es/main.cpp:12-28 | with no arguments after the program name the parse succeeds with the defaults |
| `Cli.Registered` | tools/es/main.cpp:266-274 | computes the extension sets the tool hands to the engine: each collected value, folded |
| `Cli.DotlessNeverMatches` | src/libdmfilesearch/libdmfilesearch_impl.cpp:531-535 | a dotless extension is never the extension of any file |
| `Cli.DotlessIncludeRejectsEveryFile` | tools/es/main.cpp:266-269 | when only dotless `--ext` values are registered, every file is rejected |
| `Cli.DotlessExcludeNeverFires` | tools/es/main.cpp:271-274 | dotless `--exclude-ext` values never exclude a file |
| `Cli.ExtOptionStoresDotless` | tools/es/main.cpp:178-189 | `--ext .h` stores `h` |
| `Cli.HelpExtExample` | tools/es/main.cpp:82 | the help example `es --ext .h header` parses to include `h` and term `header`, and the engine then rejects every file |

## Left out

- Strings are byte strings. A Dafny `string` stands for the bytes of a
  `std::string`, one character per byte, and a UTF-8 name is given as its
  bytes. Matching and the index format are stated on that reading; read as
  Unicode text, a wildcard atom would match one code point where the source
  matches one byte.

- Filesystem access: the recursive walk, `is_directory`, file sizes and
  modification times (`GetFileSize`/`GetFileModifyTime`) are inputs. A walk
  is a function from a root to its entries in traversal order, with sizes
  and times already queried. Exceptions from the filesystem are not modelled.
- The general `std::regex` engine is the `RegexEngine` parameter. Only the
  regexes that `MatchPattern` builds from wildcard patterns without other
  metacharacters are given their meaning.
- Console output, timing and the `Test`, `Release` and
  `dmfilesearchGetModule` entry points are not modelled, nor is the
  mismatch between `Initialize` in the interface and `Init` in the class.
- The mutex is unused in the source and is not modelled. The atomic
  indexing flag is a plain boolean. Concurrent builds are not modelled.
- File streams: `SaveIndex` takes whether the file opened and returns the
  bytes written. `LoadIndex` takes the file's bytes, or none when it cannot
  be opened.
- IndexFormat.EncodeLE: the source writes integers in the machine's native
  byte order. The model fixes little-endian.
- IndexFormat.IndexRoundTrip: stated only for records whose strings hold
  byte-sized characters and are shorter than 2^32, with fewer than 2^32
  records. Longer data is cut by the `uint32_t` casts
  (`IndexFormat.EncodeU32Truncates`).
- Engine.FileSearchEngine.LoadIndex: the source does not check the stream
  after each read. A file that ends early still yields `count` records of
  unspecified contents and returns true. The model reports failure with an
  empty record index and the name index unchanged. The flag byte is read
  as 0 or 1 only.
- Cli.ParseArguments: `std::stoi` is a parameter, and the exceptions it
  throws on bad input are not modelled. Its result is cast to `uint32_t`
  modulo 2^32.
- Cli.SplitString: reads the input character by character rather than
  through `std::getline`. This gives the same pieces.
- Cli.Classify: tests for a leading `-` before comparing spellings. The
  source's order gives the same answer, because every spelling starts with
  `-` (`Cli.SpellingsAreDashed`).
- `ExecuteCommands`, `InitializeSearchEngine`, `ShowHelp`, `ShowVersion`,
  `PrintResults` and `main` in tools/es/main.cpp are not part of this
  model. Only the registration of `--ext`/`--exclude-ext` values with the
  engine is modelled (`Cli.Registered`).
- ResultSort.Sort: the order of records with equal keys is left open, as
  `std::sort` leaves it. The model's insertion sort stands in for it.
