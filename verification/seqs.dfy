/** The "walk a sequence, keep what passes, append it" shape shared by the
    index builder, both index searches and the quick search. */
module Seqs {

  /** The elements of `s` that satisfy `keep`, in their order in `s`. */
  function Select<T>(s: seq<T>, keep: T -> bool): (r: seq<T>)
    ensures |r| <= |s|
  {
    if s == [] then []
    else Select(s[..|s| - 1], keep) + (if keep(s[|s| - 1]) then [s[|s| - 1]] else [])
  }

  /** `f` applied to every element. */
  function Map<T, U>(s: seq<T>, f: T -> U): (r: seq<U>)
    ensures |r| == |s|
    ensures forall k :: 0 <= k < |s| ==> r[k] == f(s[k])
  {
    seq(|s|, k requires 0 <= k < |s| => f(s[k]))
  }

  /** One more element of the walk: the selection grows by that element
      exactly when it passes. */
  lemma SelectSnoc<T>(s: seq<T>, x: T, keep: T -> bool)
    ensures Select(s + [x], keep) == Select(s, keep) + (if keep(x) then [x] else [])
  {
    assert (s + [x])[..|s|] == s;
  }

  /** The same step, on the first `i + 1` elements of a walk. */
  lemma SelectStep<T>(s: seq<T>, i: nat, keep: T -> bool)
    requires i < |s|
    ensures Select(s[..i + 1], keep) == Select(s[..i], keep) + (if keep(s[i]) then [s[i]] else [])
  {
    assert s[..i + 1] == s[..i] + [s[i]];
    SelectSnoc(s[..i], s[i], keep);
  }

  /** The selection holds exactly the elements of `s` that pass. */
  lemma {:induction false} SelectMembers<T>(s: seq<T>, keep: T -> bool)
    ensures forall x :: x in Select(s, keep) <==> x in s && keep(x)
  {
    if s != [] {
      var init := s[..|s| - 1];
      SelectMembers(init, keep);
      assert s == init + [s[|s| - 1]];
    }
  }

  /** Nothing passes, nothing is selected. */
  lemma {:induction false} SelectNone<T>(s: seq<T>, keep: T -> bool)
    requires forall k :: 0 <= k < |s| ==> !keep(s[k])
    ensures Select(s, keep) == []
  {
    if s != [] {
      SelectNone(s[..|s| - 1], keep);
    }
  }

  /** Selecting from a prefix of the walk gives a prefix of the selection. */
  lemma {:induction false} SelectPrefix<T>(s: seq<T>, n: nat, keep: T -> bool)
    requires n <= |s|
    ensures |Select(s[..n], keep)| <= |Select(s, keep)|
    ensures Select(s[..n], keep) == Select(s, keep)[..|Select(s[..n], keep)|]
  {
    if n < |s| {
      var init := s[..|s| - 1];
      SelectPrefix(init, n, keep);
      assert init[..n] == s[..n];
    } else {
      assert s[..n] == s;
    }
  }

  lemma MapAppend<T, U>(a: seq<T>, b: seq<T>, f: T -> U)
    ensures Map(a + b, f) == Map(a, f) + Map(b, f)
  {
  }
}
