/** Sequence helpers shared by the path walk and the classifier. */
module Seqs {

  /** The parts laid end to end, in order. */
  function Flatten<T>(parts: seq<seq<T>>): (s: seq<T>)
    ensures parts == [] ==> s == []
    decreases |parts|
  {
    if parts == [] then [] else Flatten(parts[..|parts| - 1]) + parts[|parts| - 1]
  }

  lemma {:induction false} FlattenMember<T>(parts: seq<seq<T>>, x: T)
    ensures x in Flatten(parts) <==> exists k :: 0 <= k < |parts| && x in parts[k]
    decreases |parts|
  {
    if parts != [] {
      var n := |parts| - 1;
      FlattenMember(parts[..n], x);
      if x in Flatten(parts[..n]) {
        var k :| 0 <= k < n && x in parts[..n][k];
        assert x in parts[k];
      }
      if k :| 0 <= k < |parts| && x in parts[k] {
        if k < n {
          assert x in parts[..n][k];
        }
      }
    }
  }

  ghost predicate NoDuplicates<T>(s: seq<T>)
  {
    forall i, j :: 0 <= i < j < |s| ==> s[i] != s[j]
  }

  lemma NoDuplicatesConcat<T>(a: seq<T>, b: seq<T>)
    requires NoDuplicates(a) && NoDuplicates(b)
    requires forall x :: x in a ==> x !in b
    ensures NoDuplicates(a + b)
  {
    forall i, j | 0 <= i < j < |a + b|
      ensures (a + b)[i] != (a + b)[j]
    {
      if i < |a| && j >= |a| {
        assert (a + b)[i] in a && (a + b)[j] in b;
      }
    }
  }

  /** Parts that each hold no duplicate and share no element hold none together. */
  lemma {:induction false} FlattenNoDuplicates<T>(parts: seq<seq<T>>)
    requires forall k :: 0 <= k < |parts| ==> NoDuplicates(parts[k])
    requires forall k, l, x :: 0 <= k < l < |parts| && x in parts[k] ==> x !in parts[l]
    ensures NoDuplicates(Flatten(parts))
    decreases |parts|
  {
    if parts != [] {
      var n := |parts| - 1;
      FlattenNoDuplicates(parts[..n]);
      forall x | x in Flatten(parts[..n])
        ensures x !in parts[n]
      {
        FlattenMember(parts[..n], x);
        var k :| 0 <= k < n && x in parts[..n][k];
        assert x in parts[k];
      }
      NoDuplicatesConcat(Flatten(parts[..n]), parts[n]);
    }
  }

  /** `s` is `t` with some elements left out, the rest kept in their order. */
  ghost predicate IsSubsequence<T>(s: seq<T>, t: seq<T>)
    decreases |t|
  {
    if s == [] then true
    else if t == [] then false
    else (s[|s| - 1] == t[|t| - 1] && IsSubsequence(s[..|s| - 1], t[..|t| - 1])) ||
         IsSubsequence(s, t[..|t| - 1])
  }

  /** The elements of `s` that `keep` accepts, in their order. */
  function Filter<T(!new)>(s: seq<T>, keep: T -> bool): (r: seq<T>)
    ensures forall x :: x in r <==> x in s && keep(x)
    decreases |s|
  {
    if s == [] then []
    else
      var n := |s| - 1;
      assert s == s[..n] + [s[n]];
      Filter(s[..n], keep) + if keep(s[n]) then [s[n]] else []
  }

  /** Filtering keeps every accepted element as often as it occurs, and no other. */
  lemma {:induction false} FilterCounts<T(!new)>(s: seq<T>, keep: T -> bool, x: T)
    ensures multiset(Filter(s, keep))[x] == if keep(x) then multiset(s)[x] else 0
    decreases |s|
  {
    if s != [] {
      var n := |s| - 1;
      FilterCounts(s[..n], keep, x);
      assert s == s[..n] + [s[n]];
    }
  }

  /** Filtering keeps the order. */
  lemma {:induction false} FilterIsSubsequence<T(!new)>(s: seq<T>, keep: T -> bool)
    ensures IsSubsequence(Filter(s, keep), s)
    decreases |s|
  {
    if s != [] {
      var n := |s| - 1;
      FilterIsSubsequence(s[..n], keep);
      var r := Filter(s, keep);
      if keep(s[n]) {
        assert r[..|r| - 1] == Filter(s[..n], keep);
      } else {
        assert r == Filter(s[..n], keep);
      }
    }
  }

  /** Dropping the last element of `p + ys` drops the last element of `ys`. */
  lemma DropLastAppend<T>(p: seq<T>, ys: seq<T>)
    requires ys != []
    ensures (p + ys)[..|p + ys| - 1] == p + ys[..|ys| - 1]
    ensures (p + ys)[|p + ys| - 1] == ys[|ys| - 1]
  {
  }

  /** A prefix that stops before two swapped neighbours does not see the swap. */
  lemma SwapPrefix<T>(xs: seq<T>, a: T, b: T, ys: seq<T>, k: nat)
    requires k <= |xs|
    ensures (xs + [a, b] + ys)[..k] == (xs + [b, a] + ys)[..k]
  {
    assert (xs + [a, b] + ys)[..k] == xs[..k];
    assert (xs + [b, a] + ys)[..k] == xs[..k];
  }

  /** A prefix of `s + t` at least as long as `s` is `s` and a prefix of `t`. */
  lemma PrefixPastAppend<T>(s: seq<T>, t: seq<T>, k: nat)
    requires |s| <= k <= |s| + |t|
    ensures (s + t)[..k] == s + t[..k - |s|]
  {
  }
}
