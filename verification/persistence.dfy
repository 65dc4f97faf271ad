/** The byte layout `SaveIndex` writes and `LoadIndex` reads
    (libdmfilesearch_impl.cpp:351-434): a u32 record count, then per record
    the full path, the file name and the directory, each as a u32 length
    followed by its bytes, then the u64 size, the u64 modification time
    and one flag byte. Integers are little-endian here; the source writes
    the machine's own order. The encoder casts lengths and the count to
    `uint32_t` as the source does; the decoder is total: it fails where the
    input runs out instead of reading past its end. */
module IndexFormat {
  import opened FileTypes

  function Pow256(n: nat): (p: nat)
    ensures p >= 1
  {
    if n == 0 then 1 else 256 * Pow256(n - 1)
  }

  lemma Pow256Widths()
    ensures Pow256(4) == U32_LIMIT
    ensures Pow256(8) == 0x1_0000_0000_0000_0000
  {
  }

  // ---------------------------------------------------------------------
  // Integers
  // ---------------------------------------------------------------------

  /** The low `n` bytes of `x`, least significant first: what writing an
      `n`-byte unsigned integer holding `x` produces. */
  function EncodeLE(x: nat, n: nat): (bs: seq<Byte>)
    ensures |bs| == n
  {
    if n == 0 then [] else [x % 256] + EncodeLE(x / 256, n - 1)
  }

  /** Adding a multiple of `256^n` does not change the low `n` bytes. */
  lemma {:induction false} EncodeLEPeriodic(x: nat, c: nat, n: nat)
    ensures EncodeLE(x + Pow256(n) * c, n) == EncodeLE(x, n)
  {
    if n > 0 {
      var k := Pow256(n - 1) * c;
      Pow256Scale(n, c);
      ShiftByteOut(x, k);
      EncodeLEPeriodic(x / 256, c, n - 1);
    }
  }

  lemma Pow256Scale(n: nat, c: nat)
    requires n > 0
    ensures Pow256(n) * c == 256 * (Pow256(n - 1) * c)
  {
    assert Pow256(n) == 256 * Pow256(n - 1);
  }

  /** Adding a multiple of 256 leaves the low byte and shifts the rest. */
  lemma ShiftByteOut(x: nat, k: nat)
    ensures (x + 256 * k) % 256 == x % 256
    ensures (x + 256 * k) / 256 == x / 256 + k
  {
  }

  /** Only the low four bytes of a count or a length are written: the
      value is cast to `uint32_t` first. */
  lemma EncodeU32Truncates(x: nat)
    ensures EncodeLE(x, 4) == EncodeLE(x % U32_LIMIT, 4)
  {
    Pow256Widths();
    EncodeLEPeriodic(x % U32_LIMIT, x / U32_LIMIT, 4);
  }

  /** The value of little-endian bytes. */
  function DecodeLE(bs: seq<Byte>): nat
  {
    if bs == [] then 0 else bs[0] as int + 256 * DecodeLE(bs[1..])
  }

  lemma {:induction false} DecodeEncodeLE(x: nat, n: nat)
    requires x < Pow256(n)
    ensures DecodeLE(EncodeLE(x, n)) == x
  {
    if n > 0 {
      DecodeEncodeLE(x / 256, n - 1);
      assert EncodeLE(x, n)[1..] == EncodeLE(x / 256, n - 1);
    }
  }

  lemma DecodeLEStep(bs: seq<Byte>, k: nat)
    requires k < |bs|
    ensures DecodeLE(bs[k..]) == bs[k] as int + 256 * DecodeLE(bs[k + 1..])
  {
    assert bs[k..][1..] == bs[k + 1..];
  }

  /** Four bytes, least significant first, as a `uint32_t`. */
  function ReadU32(s: seq<Byte>): (r: Option<(U32, seq<Byte>)>)
    ensures r.Some? <==> |s| >= 4
    ensures r.Some? ==> r.value.1 == s[4..]
  {
    if |s| < 4 then None
    else Some((s[0] as int + 0x100 * s[1] as int + 0x1_0000 * s[2] as int + 0x100_0000 * s[3] as int, s[4..]))
  }

  /** Eight bytes, least significant first, as a `uint64_t`. */
  function ReadU64(s: seq<Byte>): (r: Option<(U64, seq<Byte>)>)
    ensures r.Some? <==> |s| >= 8
    ensures r.Some? ==> r.value.1 == s[8..]
  {
    if |s| < 8 then None
    else
      Some((s[0] as int + 0x100 * s[1] as int + 0x1_0000 * s[2] as int + 0x100_0000 * s[3] as int
        + 0x1_0000_0000 * s[4] as int + 0x100_0000_0000 * s[5] as int
        + 0x1_0000_0000_0000 * s[6] as int + 0x100_0000_0000_0000 * s[7] as int, s[8..]))
  }

  lemma DecodeLE4(bs: seq<Byte>)
    requires |bs| == 4
    ensures DecodeLE(bs) == bs[0] as int + 0x100 * bs[1] as int + 0x1_0000 * bs[2] as int + 0x100_0000 * bs[3] as int
  {
    DecodeLEStep(bs, 0);
    DecodeLEStep(bs, 1);
    DecodeLEStep(bs, 2);
    DecodeLEStep(bs, 3);
    assert bs[0..] == bs && bs[4..] == [];
  }

  lemma DecodeLE8(bs: seq<Byte>)
    requires |bs| == 8
    ensures DecodeLE(bs) == bs[0] as int + 0x100 * bs[1] as int + 0x1_0000 * bs[2] as int + 0x100_0000 * bs[3] as int
      + 0x1_0000_0000 * bs[4] as int + 0x100_0000_0000 * bs[5] as int
      + 0x1_0000_0000_0000 * bs[6] as int + 0x100_0000_0000_0000 * bs[7] as int
  {
    DecodeLEStep(bs, 0);
    DecodeLEStep(bs, 1);
    DecodeLEStep(bs, 2);
    DecodeLEStep(bs, 3);
    DecodeLEStep(bs, 4);
    DecodeLEStep(bs, 5);
    DecodeLEStep(bs, 6);
    DecodeLEStep(bs, 7);
    assert bs[0..] == bs && bs[8..] == [];
  }

  /** A `uint32_t` written and read back is the written value cast to
      32 bits. */
  lemma ReadEncodedU32(x: nat, rest: seq<Byte>)
    ensures ReadU32(EncodeLE(x, 4) + rest) == Some((x % U32_LIMIT, rest))
  {
    Pow256Widths();
    EncodeU32Truncates(x);
    var bs := EncodeLE(x % U32_LIMIT, 4);
    var s := bs + rest;
    assert s[..4] == bs && s[4..] == rest;
    DecodeEncodeLE(x % U32_LIMIT, 4);
    DecodeLE4(bs);
  }

  lemma ReadEncodedU64(x: U64, rest: seq<Byte>)
    ensures ReadU64(EncodeLE(x, 8) + rest) == Some((x, rest))
  {
    Pow256Widths();
    var bs := EncodeLE(x, 8);
    var s := bs + rest;
    assert s[..8] == bs && s[8..] == rest;
    DecodeEncodeLE(x, 8);
    DecodeLE8(bs);
  }

  // ---------------------------------------------------------------------
  // Strings
  // ---------------------------------------------------------------------

  /** A `std::string` holds bytes: every character is below 256. */
  predicate IsByteString(s: string) {
    forall k :: 0 <= k < |s| ==> s[k] as int < 256
  }

  /** The bytes of a string, one per character. */
  function StringBytes(s: string): (bs: seq<Byte>)
    ensures |bs| == |s|
  {
    seq(|s|, k requires 0 <= k < |s| => s[k] as int % 256)
  }

  function BytesString(bs: seq<Byte>): (s: string)
    ensures |s| == |bs| && IsByteString(s)
  {
    seq(|bs|, k requires 0 <= k < |bs| => bs[k] as char)
  }

  lemma BytesOfString(s: string)
    requires IsByteString(s)
    ensures BytesString(StringBytes(s)) == s
  {
  }

  /** The source casts every length to `uint32_t` and then writes that
      many bytes of the string. */
  predicate EncodableString(s: string) {
    IsByteString(s) && |s| < U32_LIMIT
  }

  /** A length-prefixed string: the cast length, then that many bytes. */
  function EncodeString(s: string): (bs: seq<Byte>)
    ensures |bs| == 4 + |s| % U32_LIMIT
  {
    EncodeLE(|s|, 4) + StringBytes(s[..|s| % U32_LIMIT])
  }

  function ReadString(s: seq<Byte>): Option<(string, seq<Byte>)> {
    match ReadU32(s)
    case None => None
    case Some((len, rest)) =>
      if |rest| < len then None else Some((BytesString(rest[..len]), rest[len..]))
  }

  lemma ReadEncodedString(str: string, rest: seq<Byte>)
    requires EncodableString(str)
    ensures ReadString(EncodeString(str) + rest) == Some((str, rest))
  {
    assert str[..|str| % U32_LIMIT] == str;
    var bytes := StringBytes(str);
    assert EncodeString(str) + rest == EncodeLE(|str|, 4) + (bytes + rest);
    ReadEncodedU32(|str|, bytes + rest);
    assert (bytes + rest)[..|str|] == bytes;
    assert (bytes + rest)[|str|..] == rest;
    BytesOfString(str);
  }

  // ---------------------------------------------------------------------
  // Records
  // ---------------------------------------------------------------------

  predicate EncodableRecord(r: FileInfo) {
    EncodableString(r.fullPath) && EncodableString(r.fileName) && EncodableString(r.directory)
  }

  /** What survives a save and a load: fewer than 2^32 records, each with
      byte strings shorter than 2^32. */
  predicate EncodableIndex(rs: seq<FileInfo>) {
    |rs| < U32_LIMIT && forall k :: 0 <= k < |rs| ==> EncodableRecord(rs[k])
  }

  /** A `bool` is written as one byte. */
  function EncodeFlag(b: bool): Byte {
    if b then 1 else 0
  }

  /** The three strings of a record, in the order they are written. */
  function EncodeNames(r: FileInfo): seq<Byte> {
    EncodeString(r.fullPath) + EncodeString(r.fileName) + EncodeString(r.directory)
  }

  /** The size, the modification time and the directory flag. */
  function EncodeStamp(r: FileInfo): (bs: seq<Byte>)
    ensures |bs| == 17
  {
    EncodeLE(r.fileSize, 8) + EncodeLE(r.modifyTime, 8) + [EncodeFlag(r.isDirectory)]
  }

  function EncodeRecord(r: FileInfo): seq<Byte> {
    EncodeNames(r) + EncodeStamp(r)
  }

  /** The six writes of one record, in order. */
  lemma EncodeRecordFields(r: FileInfo)
    ensures EncodeRecord(r) == EncodeString(r.fullPath) + EncodeString(r.fileName) + EncodeString(r.directory)
      + EncodeLE(r.fileSize, 8) + EncodeLE(r.modifyTime, 8) + [EncodeFlag(r.isDirectory)]
  {
  }

  /** The flag byte: 0 or 1, anything else is malformed. */
  function ReadFlag(s: seq<Byte>): Option<(bool, seq<Byte>)> {
    if |s| < 1 then None
    else if s[0] == 0 then Some((false, s[1..]))
    else if s[0] == 1 then Some((true, s[1..]))
    else None
  }

  function ReadNames(s: seq<Byte>): Option<(string, string, string, seq<Byte>)> {
    match ReadString(s)
    case None => None
    case Some((fullPath, s1)) =>
      match ReadString(s1)
      case None => None
      case Some((fileName, s2)) =>
        match ReadString(s2)
        case None => None
        case Some((directory, s3)) => Some((fullPath, fileName, directory, s3))
  }

  function ReadStamp(s: seq<Byte>): Option<(U64, U64, bool, seq<Byte>)> {
    match ReadU64(s)
    case None => None
    case Some((fileSize, s1)) =>
      match ReadU64(s1)
      case None => None
      case Some((modifyTime, s2)) =>
        match ReadFlag(s2)
        case None => None
        case Some((isDirectory, s3)) => Some((fileSize, modifyTime, isDirectory, s3))
  }

  function ReadRecord(s: seq<Byte>): Option<(FileInfo, seq<Byte>)> {
    match ReadNames(s)
    case None => None
    case Some((fullPath, fileName, directory, s1)) =>
      match ReadStamp(s1)
      case None => None
      case Some((fileSize, modifyTime, isDirectory, s2)) =>
        Some((FileInfo(fullPath, fileName, directory, fileSize, modifyTime, isDirectory), s2))
  }

  lemma ReadEncodedNames(r: FileInfo, rest: seq<Byte>)
    requires EncodableRecord(r)
    ensures ReadNames(EncodeNames(r) + rest) == Some((r.fullPath, r.fileName, r.directory, rest))
  {
    var p, n, d := EncodeString(r.fullPath), EncodeString(r.fileName), EncodeString(r.directory);
    assert EncodeNames(r) + rest == p + (n + (d + rest));
    ReadEncodedString(r.fullPath, n + (d + rest));
    ReadEncodedString(r.fileName, d + rest);
    ReadEncodedString(r.directory, rest);
    ReadThreeStrings(p, n, d, rest, r.fullPath, r.fileName, r.directory);
  }

  lemma ReadThreeStrings(p: seq<Byte>, n: seq<Byte>, d: seq<Byte>, rest: seq<Byte>, a: string, b: string, c: string)
    requires ReadString(p + (n + (d + rest))) == Some((a, n + (d + rest)))
    requires ReadString(n + (d + rest)) == Some((b, d + rest))
    requires ReadString(d + rest) == Some((c, rest))
    ensures ReadNames(p + (n + (d + rest))) == Some((a, b, c, rest))
  {
  }

  lemma ReadEncodedStamp(r: FileInfo, rest: seq<Byte>)
    ensures ReadStamp(EncodeStamp(r) + rest) == Some((r.fileSize, r.modifyTime, r.isDirectory, rest))
  {
    var sz, tm, fl := EncodeLE(r.fileSize, 8), EncodeLE(r.modifyTime, 8), [EncodeFlag(r.isDirectory)];
    assert EncodeStamp(r) + rest == sz + (tm + (fl + rest));
    ReadEncodedU64(r.fileSize, tm + (fl + rest));
    ReadEncodedU64(r.modifyTime, fl + rest);
    assert ReadFlag(fl + rest) == Some((r.isDirectory, rest));
  }

  /** A record written and read back is the same record, and the reader
      stops right after it. */
  lemma ReadEncodedRecord(r: FileInfo, rest: seq<Byte>)
    requires EncodableRecord(r)
    ensures ReadRecord(EncodeRecord(r) + rest) == Some((r, rest))
  {
    var names, stamp := EncodeNames(r), EncodeStamp(r);
    assert EncodeRecord(r) + rest == names + (stamp + rest);
    ReadEncodedNames(r, stamp + rest);
    ReadEncodedStamp(r, rest);
    ReadNamesThenStamp(names + (stamp + rest), stamp + rest, r, rest);
  }

  lemma ReadNamesThenStamp(s: seq<Byte>, s1: seq<Byte>, r: FileInfo, rest: seq<Byte>)
    requires ReadNames(s) == Some((r.fullPath, r.fileName, r.directory, s1))
    requires ReadStamp(s1) == Some((r.fileSize, r.modifyTime, r.isDirectory, rest))
    ensures ReadRecord(s) == Some((r, rest))
  {
  }

  // ---------------------------------------------------------------------
  // Runs of items
  // ---------------------------------------------------------------------

  /** Every item encoded by `enc`, one after the other. */
  function EncodeMany<T>(enc: T -> seq<Byte>, xs: seq<T>): seq<Byte> {
    if xs == [] then [] else enc(xs[0]) + EncodeMany(enc, xs[1..])
  }

  /** `n` items read in a row by `read`, and what is left after them. */
  function ReadMany<T>(read: seq<Byte> -> Option<(T, seq<Byte>)>, n: nat, s: seq<Byte>): (r: Option<(seq<T>, seq<Byte>)>)
    ensures r.Some? ==> |r.value.0| == n
  {
    if n == 0 then Some(([], s))
    else
      match read(s)
      case None => None
      case Some((x, s1)) =>
        match ReadMany(read, n - 1, s1)
        case None => None
        case Some((xs, s2)) => Some(([x] + xs, s2))
  }

  /** Writing one more item appends its bytes. */
  lemma {:induction false} EncodeManySnoc<T>(enc: T -> seq<Byte>, xs: seq<T>, x: T)
    ensures EncodeMany(enc, xs + [x]) == EncodeMany(enc, xs) + enc(x)
  {
    if xs == [] {
      assert [x][1..] == [];
    } else {
      assert (xs + [x])[1..] == xs[1..] + [x];
      EncodeManySnoc(enc, xs[1..], x);
    }
  }

  /** A streaming reader that has read `done` and stands at `rest` reads
      one more item. */
  lemma {:induction false} ReadManySnoc<T>(read: seq<Byte> -> Option<(T, seq<Byte>)>, i: nat, s: seq<Byte>,
                                           done: seq<T>, rest: seq<Byte>, x: T, rest2: seq<Byte>)
    requires ReadMany(read, i, s) == Some((done, rest))
    requires read(rest) == Some((x, rest2))
    ensures ReadMany(read, i + 1, s) == Some((done + [x], rest2))
  {
    if i > 0 {
      var first := read(s).value;
      assert ReadMany(read, i - 1, first.1) == Some((done[1..], rest));
      ReadManySnoc(read, i - 1, first.1, done[1..], rest, x, rest2);
      assert done == [first.0] + done[1..];
      assert [first.0] + (done[1..] + [x]) == done + [x];
    } else {
      assert [x] + [] == done + [x];
    }
  }

  /** An item that cannot be read stops the whole read. */
  lemma {:induction false} ReadManyStuck<T>(read: seq<Byte> -> Option<(T, seq<Byte>)>, i: nat, n: nat, s: seq<Byte>,
                                            done: seq<T>, rest: seq<Byte>)
    requires i < n
    requires ReadMany(read, i, s) == Some((done, rest))
    requires read(rest).None?
    ensures ReadMany(read, n, s).None?
  {
    if i > 0 {
      var first := read(s).value;
      assert ReadMany(read, i - 1, first.1) == Some((done[1..], rest));
      ReadManyStuck(read, i - 1, n - 1, first.1, done[1..], rest);
    }
  }

  /** When `read` undoes `enc` on every item, reading as many items as were
      written gives them back and stops right after them. */
  lemma {:induction false} ReadEncodedMany<T>(read: seq<Byte> -> Option<(T, seq<Byte>)>, enc: T -> seq<Byte>,
                                              xs: seq<T>, rest: seq<Byte>)
    requires forall k, tail :: 0 <= k < |xs| ==> read(enc(xs[k]) + tail) == Some((xs[k], tail))
    ensures ReadMany(read, |xs|, EncodeMany(enc, xs) + rest) == Some((xs, rest))
  {
    if xs != [] {
      var tail := EncodeMany(enc, xs[1..]) + rest;
      assert EncodeMany(enc, xs) + rest == enc(xs[0]) + tail;
      assert read(enc(xs[0]) + tail) == Some((xs[0], tail));
      assert forall k, t :: 0 <= k < |xs[1..]| ==> read(enc(xs[1..][k]) + t) == Some((xs[1..][k], t)) by {
        forall k, t | 0 <= k < |xs[1..]|
          ensures read(enc(xs[1..][k]) + t) == Some((xs[1..][k], t))
        {
          assert xs[1..][k] == xs[k + 1];
        }
      }
      ReadEncodedMany(read, enc, xs[1..], rest);
      assert [xs[0]] + xs[1..] == xs;
    } else {
      assert EncodeMany(enc, xs) + rest == rest;
    }
  }

  /** The read loop of `LoadIndex` (libdmfilesearch_impl.cpp:401-423):
      `count` items, one after the other, each appended as soon as it is
      read; `None` as soon as one cannot be read. */
  method ReadItems<T>(read: seq<Byte> -> Option<(T, seq<Byte>)>, count: nat, body: seq<Byte>) returns (items: Option<seq<T>>)
    ensures items.Some? <==> ReadMany(read, count, body).Some?
    ensures items.Some? ==> items.value == ReadMany(read, count, body).value.0
  {
    var done := [];
    var rest := body;
    var i := 0;
    while i < count
      invariant 0 <= i <= count
      invariant ReadMany(read, i, body) == Some((done, rest))
    {
      var next := read(rest);
      if next.None? {
        ReadManyStuck(read, i, count, body, done, rest);
        return None;
      }
      ReadManySnoc(read, i, body, done, rest, next.value.0, next.value.1);
      done := done + [next.value.0];
      rest := next.value.1;
      i := i + 1;
    }
    items := Some(done);
  }

  // ---------------------------------------------------------------------
  // The whole index
  // ---------------------------------------------------------------------

  /** The bytes `SaveIndex` writes for an index: the count cast to
      `uint32_t`, then every record. */
  function EncodeIndex(rs: seq<FileInfo>): seq<Byte> {
    EncodeLE(|rs|, 4) + EncodeMany(EncodeRecord, rs)
  }

  /** The records `LoadIndex` reads: the count, then that many records.
      Bytes after the last record are ignored, as the source ignores them. */
  function DecodeIndex(s: seq<Byte>): Option<seq<FileInfo>> {
    var header := ReadU32(s);
    if header.None? then None
    else
      var records := ReadMany(ReadRecord, header.value.0, header.value.1);
      if records.None? then None else Some(records.value.0)
  }

  /** `DecodeIndex` once the count has been read. */
  lemma DecodeAfterCount(s: seq<Byte>, count: nat, body: seq<Byte>)
    requires ReadU32(s) == Some((count, body))
    ensures DecodeIndex(s) ==
      if ReadMany(ReadRecord, count, body).None? then None else Some(ReadMany(ReadRecord, count, body).value.0)
  {
  }

  lemma ReadEncodedRecords(rs: seq<FileInfo>, rest: seq<Byte>)
    requires forall k :: 0 <= k < |rs| ==> EncodableRecord(rs[k])
    ensures ReadMany(ReadRecord, |rs|, EncodeMany(EncodeRecord, rs) + rest) == Some((rs, rest))
  {
    forall k, tail | 0 <= k < |rs|
      ensures ReadRecord(EncodeRecord(rs[k]) + tail) == Some((rs[k], tail))
    {
      ReadEncodedRecord(rs[k], tail);
    }
    ReadEncodedMany(ReadRecord, EncodeRecord, rs, rest);
  }

  /** Decoding what `SaveIndex` wrote gives back the same records, in the
      same order, whatever follows them in the file. */
  lemma IndexRoundTrip(rs: seq<FileInfo>, rest: seq<Byte>)
    requires EncodableIndex(rs)
    ensures DecodeIndex(EncodeIndex(rs) + rest) == Some(rs)
  {
    var body := EncodeMany(EncodeRecord, rs);
    var s := EncodeIndex(rs) + rest;
    assert s == EncodeLE(|rs|, 4) + (body + rest);
    ReadEncodedU32(|rs|, body + rest);
    assert |rs| % U32_LIMIT == |rs|;
    DecodeAfterCount(s, |rs|, body + rest);
    ReadEncodedRecords(rs, rest);
  }
}
