/** The orderings `SortResults` hands to `std::sort`
    (libdmfilesearch_impl.cpp:481-503) and a reference sort over them.
    `std::sort` is not stable, so only "ordered and a permutation" is
    specified; the order of ties is left open. */
module ResultSort {
  import opened FileTypes

  /** The four keys the engine recognises. */
  datatype SortKey = ByName | BySize | ByDate | ByPath

  /** The key a `sortBy` string selects; any other string sorts nothing. */
  function ParseSortKey(sortBy: string): (k: Option<SortKey>)
    ensures k == Some(ByName) <==> sortBy == "name"
    ensures k == Some(BySize) <==> sortBy == "size"
    ensures k == Some(ByDate) <==> sortBy == "date"
    ensures k == Some(ByPath) <==> sortBy == "path"
    ensures k.None? <==> sortBy !in {"name", "size", "date", "path"}
  {
    if sortBy == "name" then Some(ByName)
    else if sortBy == "size" then Some(BySize)
    else if sortBy == "date" then Some(ByDate)
    else if sortBy == "path" then Some(ByPath)
    else None
  }

  // ---------------------------------------------------------------------
  // std::string operator<
  // ---------------------------------------------------------------------

  /** `a < b` on `std::string`: character by character, and a proper
      prefix comes first. */
  predicate LexLess(a: string, b: string)
  {
    if |a| == 0 then |b| > 0
    else if |b| == 0 then false
    else if a[0] != b[0] then a[0] < b[0]
    else LexLess(a[1..], b[1..])
  }

  lemma {:induction false} LexLessIrreflexive(a: string)
    ensures !LexLess(a, a)
  {
    if |a| > 0 {
      LexLessIrreflexive(a[1..]);
    }
  }

  lemma {:induction false} LexLessTransitive(a: string, b: string, c: string)
    requires LexLess(a, b) && LexLess(b, c)
    ensures LexLess(a, c)
  {
    if |a| > 0 && a[0] == b[0] && b[0] == c[0] {
      LexLessTransitive(a[1..], b[1..], c[1..]);
    }
  }

  lemma {:induction false} LexLessTotal(a: string, b: string)
    requires a != b
    ensures LexLess(a, b) || LexLess(b, a)
  {
    if |a| > 0 && |b| > 0 && a[0] == b[0] {
      assert a == [a[0]] + a[1..] && b == [b[0]] + b[1..];
      LexLessTotal(a[1..], b[1..]);
    }
  }

  /** "Not less" chains: if `b <= a` and `c <= b` then `c <= a`. */
  lemma LexNotLessTransitive(a: string, b: string, c: string)
    requires !LexLess(a, b) && !LexLess(b, c)
    ensures !LexLess(a, c)
  {
    if LexLess(a, c) {
      if a == b {
        assert false;
      } else if b == c {
        assert false;
      } else {
        LexLessTotal(a, b);
        LexLessTotal(b, c);
        LexLessTransitive(c, b, a);
        LexLessTransitive(a, c, a);
        LexLessIrreflexive(a);
      }
    }
  }

  lemma LexLessAsymmetric(a: string, b: string)
    requires LexLess(a, b)
    ensures !LexLess(b, a)
  {
    if LexLess(b, a) {
      LexLessTransitive(a, b, a);
      LexLessIrreflexive(a);
    }
  }

  // ---------------------------------------------------------------------
  // The comparators
  // ---------------------------------------------------------------------

  /** The comparator lambda for each key: names and paths ascending, sizes
      and modification times descending. */
  predicate Less(key: SortKey, a: FileInfo, b: FileInfo)
  {
    match key
    case ByName => LexLess(a.fileName, b.fileName)
    case BySize => a.fileSize > b.fileSize
    case ByDate => a.modifyTime > b.modifyTime
    case ByPath => LexLess(a.fullPath, b.fullPath)
  }

  lemma LessAsymmetric(key: SortKey, a: FileInfo, b: FileInfo)
    requires Less(key, a, b)
    ensures !Less(key, b, a)
  {
    match key
    case ByName => LexLessAsymmetric(a.fileName, b.fileName);
    case ByPath => LexLessAsymmetric(a.fullPath, b.fullPath);
    case BySize =>
    case ByDate =>
  }

  lemma NotLessTransitive(key: SortKey, a: FileInfo, b: FileInfo, c: FileInfo)
    requires !Less(key, a, b) && !Less(key, b, c)
    ensures !Less(key, a, c)
  {
    match key
    case ByName => LexNotLessTransitive(a.fileName, b.fileName, c.fileName);
    case ByPath => LexNotLessTransitive(a.fullPath, b.fullPath, c.fullPath);
    case BySize =>
    case ByDate =>
  }

  /** No element is `Less` than one before it: the order `std::sort`
      establishes with the key's comparator. */
  predicate SortedBy(key: SortKey, s: seq<FileInfo>)
  {
    forall i, j :: 0 <= i < j < |s| ==> !Less(key, s[j], s[i])
  }

  // ---------------------------------------------------------------------
  // A reference sort
  // ---------------------------------------------------------------------

  /** Adding a first element that no later element is `Less` than keeps a
      sequence sorted. */
  lemma PrependSorted(key: SortKey, y: FileInfo, r: seq<FileInfo>)
    requires SortedBy(key, r)
    requires forall k :: 0 <= k < |r| ==> !Less(key, r[k], y)
    ensures SortedBy(key, [y] + r)
  {
    var t := [y] + r;
    forall i, j | 0 <= i < j < |t| ensures !Less(key, t[j], t[i]) {
      assert t[j] == r[j - 1];
      if i > 0 {
        assert t[i] == r[i - 1];
      }
    }
  }

  /** A bound that holds for every element of `s` and for `x` holds for
      every element of a permutation of `s` plus `x`. */
  lemma NoneBelow(key: SortKey, y: FileInfo, r: seq<FileInfo>, s: seq<FileInfo>, x: FileInfo)
    requires multiset(r) == multiset(s) + multiset{x}
    requires forall k :: 0 <= k < |s| ==> !Less(key, s[k], y)
    requires !Less(key, x, y)
    ensures forall k :: 0 <= k < |r| ==> !Less(key, r[k], y)
  {
    forall k | 0 <= k < |r| ensures !Less(key, r[k], y) {
      assert r[k] in multiset(r);
      if r[k] != x {
        assert r[k] in multiset(s);
        var j :| 0 <= j < |s| && s[j] == r[k];
      }
    }
  }

  /** `x` placed before the first element of a sorted `s` that is not
      `Less` than it. */
  function Insert(key: SortKey, x: FileInfo, s: seq<FileInfo>): (r: seq<FileInfo>)
    requires SortedBy(key, s)
    ensures multiset(r) == multiset(s) + multiset{x}
    ensures SortedBy(key, r)
  {
    if s == [] then [x]
    else if Less(key, s[0], x) then
      var rest := Insert(key, x, s[1..]);
      assert s == [s[0]] + s[1..];
      LessAsymmetric(key, s[0], x);
      NoneBelow(key, s[0], rest, s[1..], x);
      PrependSorted(key, s[0], rest);
      [s[0]] + rest
    else
      assert forall k :: 0 <= k < |s| ==> !Less(key, s[k], x) by {
        forall k | 0 <= k < |s| ensures !Less(key, s[k], x) {
          if k > 0 {
            NotLessTransitive(key, s[k], s[0], x);
          }
        }
      }
      PrependSorted(key, x, s);
      [x] + s
  }

  /** Insertion sort: a sorted permutation of `s`. */
  function Sort(key: SortKey, s: seq<FileInfo>): (r: seq<FileInfo>)
    ensures multiset(r) == multiset(s)
    ensures SortedBy(key, r)
  {
    if s == [] then []
    else
      assert s == [s[0]] + s[1..];
      Insert(key, s[0], Sort(key, s[1..]))
  }

  /** What `SortResults` leaves behind: a sorted permutation for a known
      key, the input itself for any other string. */
  ghost predicate SortedResult(sortBy: string, before: seq<FileInfo>, after: seq<FileInfo>)
  {
    match ParseSortKey(sortBy)
    case None => after == before
    case Some(key) => multiset(after) == multiset(before) && SortedBy(key, after)
  }

  /** Two sorted permutations of the same records agree on every key:
      ties are the only freedom `std::sort` has. */
  lemma {:induction false} SortedPermutationsAgree(key: SortKey, s: seq<FileInfo>, t: seq<FileInfo>)
    requires multiset(s) == multiset(t)
    requires SortedBy(key, s) && SortedBy(key, t)
    ensures |s| == |t|
    ensures forall k :: 0 <= k < |s| ==> !Less(key, s[k], t[k]) && !Less(key, t[k], s[k])
  {
    assert |s| == |multiset(s)| == |multiset(t)| == |t|;
    forall k | 0 <= k < |s|
      ensures !Less(key, s[k], t[k]) && !Less(key, t[k], s[k])
    {
      SortedRank(key, s, t, k);
      SortedRank(key, t, s, k);
    }
  }

  /** In a sorted permutation `t` of sorted `s`, the element at the same
      position as `s[k]` is not below it. */
  lemma SortedRank(key: SortKey, s: seq<FileInfo>, t: seq<FileInfo>, k: nat)
    requires multiset(s) == multiset(t)
    requires SortedBy(key, s) && SortedBy(key, t)
    requires k < |s| && |s| == |t|
    ensures !Less(key, t[k], s[k])
  {
    if Less(key, t[k], s[k]) {
      // Every t[i] with i <= k is below s[k]; they sit in s before k.
      assert forall i :: 0 <= i <= k ==> Less(key, t[i], s[k]) by {
        forall i | 0 <= i <= k ensures Less(key, t[i], s[k]) {
          if i < k && !Less(key, t[i], s[k]) {
            NotLessTransitive(key, t[k], t[i], s[k]);
          }
        }
      }
      CountBelow(key, s, t, k);
    }
  }

  /** Counting argument for `SortedRank`: at most k elements of `s` are
      below `s[k]`, so not all of the first k + 1 elements of `t` are. */
  lemma CountBelow(key: SortKey, s: seq<FileInfo>, t: seq<FileInfo>, k: nat)
    requires multiset(s) == multiset(t)
    requires SortedBy(key, s)
    requires k < |s| && k < |t|
    ensures exists i :: 0 <= i <= k && !Less(key, t[i], s[k])
  {
    var x := s[k];
    var below := (y: FileInfo) => Less(key, y, x);
    assert forall i :: k <= i < |s| ==> !below(s[i]) by {
      forall i | k <= i < |s| ensures !below(s[i]) {
        if i == k {
          LessIrreflexive(key, x);
        }
      }
    }
    CountPrefix(s, k, below);
    MultisetCount(s, t, below);
    if forall i :: 0 <= i <= k ==> below(t[i]) {
      CountAtLeast(t, k + 1, below);
    }
  }

  lemma LessIrreflexive(key: SortKey, a: FileInfo)
    ensures !Less(key, a, a)
  {
    match key
    case ByName => LexLessIrreflexive(a.fileName);
    case ByPath => LexLessIrreflexive(a.fullPath);
    case BySize =>
    case ByDate =>
  }

  /** How many elements of `s` satisfy `p`. */
  function Count(s: seq<FileInfo>, p: FileInfo -> bool): (n: nat)
    ensures n <= |s|
  {
    if s == [] then 0 else (if p(s[0]) then 1 else 0) + Count(s[1..], p)
  }

  lemma {:induction false} CountPrefix(s: seq<FileInfo>, k: nat, p: FileInfo -> bool)
    requires k <= |s|
    requires forall i :: k <= i < |s| ==> !p(s[i])
    ensures Count(s, p) <= k
  {
    if k > 0 {
      CountPrefix(s[1..], k - 1, p);
    } else if s != [] {
      CountPrefix(s[1..], 0, p);
    }
  }

  lemma {:induction false} CountAtLeast(s: seq<FileInfo>, k: nat, p: FileInfo -> bool)
    requires k <= |s|
    requires forall i :: 0 <= i < k ==> p(s[i])
    ensures Count(s, p) >= k
  {
    if k > 0 {
      CountAtLeast(s[1..], k - 1, p);
    }
  }

  lemma {:induction false} MultisetCount(s: seq<FileInfo>, t: seq<FileInfo>, p: FileInfo -> bool)
    requires multiset(s) == multiset(t)
    ensures Count(s, p) == Count(t, p)
    decreases |s|
  {
    if s != [] {
      var x := s[0];
      assert x in multiset(t);
      var j :| 0 <= j < |t| && t[j] == x;
      var t' := t[..j] + t[j + 1..];
      RemoveFromBoth(s, t, j);
      MultisetCount(s[1..], t', p);
      CountRemove(t, j, p);
    } else {
      assert |t| == |multiset(t)| == 0;
    }
  }

  /** Removing the first element of `s` and an equal element of `t` keeps
      the two sequences permutations of each other. */
  lemma RemoveFromBoth(s: seq<FileInfo>, t: seq<FileInfo>, j: nat)
    requires multiset(s) == multiset(t)
    requires s != [] && j < |t| && t[j] == s[0]
    ensures multiset(s[1..]) == multiset(t[..j] + t[j + 1..])
  {
    assert t == t[..j] + [t[j]] + t[j + 1..];
    assert s == [s[0]] + s[1..];
    calc {
      multiset(s[1..]);
      multiset(s) - multiset{s[0]};
      multiset(t) - multiset{s[0]};
      multiset(t[..j]) + multiset(t[j + 1..]);
      multiset(t[..j] + t[j + 1..]);
    }
  }

  lemma {:induction false} CountRemove(t: seq<FileInfo>, j: nat, p: FileInfo -> bool)
    requires j < |t|
    ensures Count(t, p) == (if p(t[j]) then 1 else 0) + Count(t[..j] + t[j + 1..], p)
  {
    if j > 0 {
      CountRemove(t[1..], j - 1, p);
      assert t[..j] + t[j + 1..] == [t[0]] + (t[1..][..j - 1] + t[1..][j..]);
    } else {
      assert t[..j] + t[j + 1..] == t[1..];
    }
  }
}
