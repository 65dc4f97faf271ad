/** Value types shared by the search engine and the command-line tool:
    the per-entry record, the search options, and one entry of a
    directory walk as the filesystem iterator delivers it. */
module FileTypes {

  /** One byte of the on-disk index format. */
  type Byte = b: int | 0 <= b < 0x100

  /** `uint32_t` and `uint64_t` values. */
  type U32 = x: int | 0 <= x < 0x1_0000_0000
  type U64 = x: int | 0 <= x < 0x1_0000_0000_0000_0000

  const U32_LIMIT: int := 0x1_0000_0000

  datatype Option<T> = None | Some(value: T)

  /** `DMFileInfo`: one indexed file or directory. */
  datatype FileInfo = FileInfo(
    fullPath: string,
    fileName: string,
    directory: string,
    fileSize: U64,
    modifyTime: U64,
    isDirectory: bool)

  /** `DMSearchOptions`. */
  datatype SearchOptions = SearchOptions(
    caseSensitive: bool,
    wholeWord: bool,
    useRegex: bool,
    searchInPath: bool,
    includeHidden: bool,
    dirsOnly: bool,
    filesOnly: bool,
    maxResults: U32)

  /** The options a default-constructed `DMSearchOptions` holds. */
  const DefaultOptions: SearchOptions :=
    SearchOptions(false, false, false, false, false, false, false, 1000)

  /** One entry produced by the recursive directory iterator, in traversal
      order: its path, its file name, its parent path, whether it is a
      directory, and what the size and modification-time queries answered
      for it (0 where the query failed). */
  datatype Entry = Entry(
    path: string,
    name: string,
    parent: string,
    isDirectory: bool,
    size: U64,
    mtime: U64)

  /** The record the walker builds for an entry: directories keep the
      default size 0. */
  function RecordOf(e: Entry): FileInfo
  {
    FileInfo(e.path, e.name, e.parent, if e.isDirectory then 0 else e.size, e.mtime, e.isDirectory)
  }

  /** `s` with its first `n` elements kept: `std::vector::resize(n)` applied
      only when the vector is longer. */
  function Truncate<T>(s: seq<T>, n: nat): (r: seq<T>)
    ensures |r| == if |s| <= n then |s| else n
    ensures r == s[..|r|]
  {
    if |s| <= n then s else s[..n]
  }
}
