/** `Array.prototype.filter` and the facts about it that the rest of the model uses. */
module Seqs {

  /** `s.filter(p)`: the elements of `s` that satisfy `p`, in their original order. */
  function Filter<T>(s: seq<T>, p: T -> bool): seq<T> {
    if s == [] then []
    else if p(s[0]) then [s[0]] + Filter(s[1..], p)
    else Filter(s[1..], p)
  }

  /** The filtered list keeps exactly the elements that satisfy `p`, in their
      original order. */
  lemma {:induction false} FilterSpec<T>(s: seq<T>, p: T -> bool)
    ensures |Filter(s, p)| <= |s|
    ensures forall i :: 0 <= i < |Filter(s, p)| ==> Filter(s, p)[i] in s && p(Filter(s, p)[i])
    ensures forall i :: 0 <= i < |s| && p(s[i]) ==> s[i] in Filter(s, p)
    ensures IsSubsequence(Filter(s, p), s)
  {
    if s != [] {
      var r, rest := Filter(s, p), Filter(s[1..], p);
      FilterSpec(s[1..], p);
      assert forall x :: x in s[1..] ==> x in s;
      forall i | 0 <= i < |s| && p(s[i])
        ensures s[i] in r
      {
        if i > 0 {
          assert s[1..][i - 1] == s[i];
        }
      }
      if p(s[0]) {
        assert r[1..] == rest;
      }
    }
  }

  /** `r` can be obtained from `s` by deleting elements: it keeps their relative order. */
  ghost predicate IsSubsequence<T>(r: seq<T>, s: seq<T>)
    decreases |s|
  {
    if r == [] then true
    else if s == [] then false
    else if r[0] == s[0] then IsSubsequence(r[1..], s[1..])
    else IsSubsequence(r, s[1..])
  }

  lemma {:induction false} FilterConcat<T>(a: seq<T>, b: seq<T>, p: T -> bool)
    ensures Filter(a + b, p) == Filter(a, p) + Filter(b, p)
  {
    if a == [] {
      assert a + b == b;
    } else {
      assert (a + b)[0] == a[0];
      assert (a + b)[1..] == a[1..] + b;
      FilterConcat(a[1..], b, p);
    }
  }

  lemma {:induction false} FilterKeepsAll<T>(s: seq<T>, p: T -> bool)
    requires forall i :: 0 <= i < |s| ==> p(s[i])
    ensures Filter(s, p) == s
  {
    if s != [] {
      FilterKeepsAll(s[1..], p);
    }
  }

  lemma {:induction false} FilterDropsAll<T>(s: seq<T>, p: T -> bool)
    requires forall i :: 0 <= i < |s| ==> !p(s[i])
    ensures Filter(s, p) == []
  {
    if s != [] {
      FilterDropsAll(s[1..], p);
    }
  }

  /** An element that fails `p` makes the filtered list shorter. */
  lemma {:induction false} FilterShorter<T>(s: seq<T>, p: T -> bool, k: int)
    requires 0 <= k < |s| && !p(s[k])
    ensures |Filter(s, p)| < |s|
  {
    FilterSpec(s[1..], p);
    if k > 0 {
      assert s[1..][k - 1] == s[k];
      FilterShorter(s[1..], p, k - 1);
    }
  }

  /** Elements of `s` at distinct positions are distinct. */
  ghost predicate Distinct<T>(s: seq<T>) {
    forall i, j :: 0 <= i < j < |s| ==> s[i] != s[j]
  }

  /** No two elements of `s` share a key. */
  ghost predicate DistinctBy<T, K>(s: seq<T>, key: T -> K) {
    forall i, j :: 0 <= i < j < |s| ==> key(s[i]) != key(s[j])
  }

  /** Filtering keeps keys distinct. */
  lemma {:induction false} FilterDistinctBy<T, K>(s: seq<T>, p: T -> bool, key: T -> K)
    requires DistinctBy(s, key)
    ensures DistinctBy(Filter(s, p), key)
  {
    if s != [] {
      FilterDistinctBy(s[1..], p, key);
      FilterSpec(s[1..], p);
      var tail := Filter(s[1..], p);
      forall k | 0 <= k < |tail|
        ensures key(s[0]) != key(tail[k])
      {
        var m :| 0 <= m < |s[1..]| && s[1..][m] == tail[k];
        assert s[m + 1] == tail[k];
      }
    }
  }

  /** Joining two lists with distinct keys, no key shared between them, gives a
      list with distinct keys. */
  lemma DistinctConcat<T, K>(a: seq<T>, b: seq<T>, key: T -> K)
    requires DistinctBy(a, key) && DistinctBy(b, key)
    requires forall i, j :: 0 <= i < |a| && 0 <= j < |b| ==> key(a[i]) != key(b[j])
    ensures DistinctBy(a + b, key)
  {
    var ab := a + b;
    forall i, j | 0 <= i < j < |ab|
      ensures key(ab[i]) != key(ab[j])
    {
      if j < |a| {
        assert ab[i] == a[i] && ab[j] == a[j];
      } else if i >= |a| {
        assert ab[i] == b[i - |a|] && ab[j] == b[j - |a|];
      } else {
        assert ab[i] == a[i] && ab[j] == b[j - |a|];
      }
    }
  }

  /** When only the middle block satisfies `p`, filtering by `p` cuts out that
      block. */
  lemma FilterBlock<T>(a: seq<T>, b: seq<T>, c: seq<T>, p: T -> bool)
    requires forall i :: 0 <= i < |a| ==> !p(a[i])
    requires forall i :: 0 <= i < |b| ==> p(b[i])
    requires forall i :: 0 <= i < |c| ==> !p(c[i])
    ensures Filter(a + b + c, p) == b
  {
    FilterConcat(a + b, c, p);
    FilterConcat(a, b, p);
    FilterDropsAll(a, p);
    FilterKeepsAll(b, p);
    FilterDropsAll(c, p);
  }

  lemma TailAfter<T>(a: seq<T>, b: seq<T>)
    ensures (a + b)[|a|..] == b
  {
  }

  lemma Reassociate<T>(p: seq<T>, r0: seq<T>, s0: seq<T>, r1: seq<T>, s1: seq<T>)
    requires r1 == []
    ensures (p + (r0 + s0)) + (r1 + s1) == p + (r0 + s0 + s1)
  {
  }

  lemma SplitThree<T>(s: seq<T>, lo: int, hi: int)
    requires 0 <= lo <= hi <= |s|
    ensures s == s[..lo] + s[lo..hi] + s[hi..]
  {
  }

  lemma SplitAround<T>(s: seq<T>, i: int)
    requires 0 <= i < |s|
    ensures s == s[..i] + [s[i]] + s[i + 1..]
  {
  }
}
