/**
 * Facts about Python lists used by several components: order-preserving
 * subsequences (what a filtering loop that appends keeps), the first
 * element with a given key (what the stores' search loops find) and the
 * removal of one position (`del xs[i]`).
 */
module Sequences {
  import opened Wrappers

  /** `a` is obtained from `b` by deleting some elements, keeping the order. */
  predicate IsSubsequence<T(==)>(a: seq<T>, b: seq<T>)
    decreases |b|
  {
    if a == [] then true
    else if b == [] then false
    else (a[0] == b[0] && IsSubsequence(a[1..], b[1..])) || IsSubsequence(a, b[1..])
  }

  lemma {:induction false} SubsequenceReflexive<T>(a: seq<T>)
    ensures IsSubsequence(a, a)
  {
    if a != [] {
      SubsequenceReflexive(a[1..]);
    }
  }

  lemma {:induction false} SubsequenceLength<T>(a: seq<T>, b: seq<T>)
    requires IsSubsequence(a, b)
    ensures |a| <= |b|
  {
    if a != [] {
      if a[0] == b[0] && IsSubsequence(a[1..], b[1..]) {
        SubsequenceLength(a[1..], b[1..]);
      } else {
        SubsequenceLength(a, b[1..]);
      }
    }
  }

  /** Every element of a subsequence is an element of the whole. */
  lemma {:induction false} SubsequenceMembers<T>(a: seq<T>, b: seq<T>, x: T)
    requires IsSubsequence(a, b) && x in a
    ensures x in b
  {
    if a[0] == b[0] && IsSubsequence(a[1..], b[1..]) {
      if x != a[0] {
        SubsequenceMembers(a[1..], b[1..], x);
      }
    } else {
      SubsequenceMembers(a, b[1..], x);
    }
  }

  /** A subsequence of a suffix of `b` is a subsequence of `b`. */
  lemma {:induction false} SubsequenceOfSuffix<T>(a: seq<T>, b: seq<T>, k: nat)
    requires k <= |b| && IsSubsequence(a, b[k..])
    ensures IsSubsequence(a, b)
  {
    if k > 0 {
      assert b[1..][k - 1..] == b[k..];
      SubsequenceOfSuffix(a, b[1..], k - 1);
      if a != [] {
        assert IsSubsequence(a, b[1..]);
      }
    }
  }

  /** Putting the same element in front of both sides keeps the relation. */
  lemma SubsequenceCons<T>(x: T, a: seq<T>, b: seq<T>)
    requires IsSubsequence(a, b)
    ensures IsSubsequence([x] + a, [x] + b)
  {
    assert ([x] + a)[1..] == a;
    assert ([x] + b)[1..] == b;
  }

  /** Putting an element in front of the whole only keeps the relation. */
  lemma SubsequenceSkip<T>(x: T, a: seq<T>, b: seq<T>)
    requires IsSubsequence(a, b)
    ensures IsSubsequence(a, [x] + b)
  {
    assert ([x] + b)[1..] == b;
  }

  /**
   * The position of the first element whose key is `k`, or `None`; the
   * search loop `for i, x in enumerate(xs): if key(x) == k: ...`.
   */
  function FindKey<T, K(==)>(s: seq<T>, key: T -> K, k: K): (r: Option<nat>)
    ensures r.Some? ==> r.value < |s| && key(s[r.value]) == k
    ensures r.Some? ==> forall i :: 0 <= i < r.value ==> key(s[i]) != k
    ensures r.None? <==> forall i :: 0 <= i < |s| ==> key(s[i]) != k
  {
    if s == [] then None
    else if key(s[0]) == k then Some(0)
    else match FindKey(s[1..], key, k)
      case None => None
      case Some(i) => Some(i + 1)
  }

  /** The first element whose key is `k`, or `None`: what `read` returns. */
  function Lookup<T, K(==)>(s: seq<T>, key: T -> K, k: K): (r: Option<T>)
    ensures r.None? <==> forall x :: x in s ==> key(x) != k
    ensures r.Some? ==> r.value in s && key(r.value) == k
    ensures r.Some? ==>
      exists i :: 0 <= i < |s| && s[i] == r.value && forall j :: 0 <= j < i ==> key(s[j]) != k
  {
    match FindKey(s, key, k)
    case None => None
    case Some(i) => Some(s[i])
  }

  /** `del s[i]`: the elements before and after `i`, in their order. */
  function RemoveAt<T>(s: seq<T>, i: nat): (r: seq<T>)
    requires i < |s|
    ensures |r| == |s| - 1
    ensures forall j :: 0 <= j < i ==> r[j] == s[j]
    ensures forall j :: i <= j < |r| ==> r[j] == s[j + 1]
  {
    s[..i] + s[i + 1..]
  }

  /** The contract of `FindKey` determines its result: the first match. */
  lemma FindKeyIs<T, K>(s: seq<T>, key: T -> K, k: K, i: nat)
    requires i < |s| && key(s[i]) == k
    requires forall j :: 0 <= j < i ==> key(s[j]) != k
    ensures FindKey(s, key, k) == Some(i)
  {
    var r := FindKey(s, key, k);
    assert r.Some?;
    assert !(r.value < i);
    assert !(i < r.value);
  }

  /**
   * Appending `x` and searching for its key finds an earlier element with
   * that key if there is one, and otherwise `x` itself at the end.
   */
  lemma FindAfterAppend<T, K>(s: seq<T>, key: T -> K, x: T)
    ensures FindKey(s + [x], key, key(x)) ==
      if FindKey(s, key, key(x)).Some? then FindKey(s, key, key(x)) else Some(|s|)
  {
    var t := s + [x];
    assert forall j :: 0 <= j < |s| ==> t[j] == s[j];
    match FindKey(s, key, key(x))
    case Some(i) =>
      FindKeyIs(t, key, key(x), i);
    case None =>
      FindKeyIs(t, key, key(x), |s|);
  }

  /** Appending an element whose key differs leaves every search for `k` as it was. */
  lemma FindAfterAppendOther<T, K>(s: seq<T>, key: T -> K, x: T, k: K)
    requires key(x) != k
    ensures FindKey(s + [x], key, k) == FindKey(s, key, k)
  {
    var t := s + [x];
    assert forall j :: 0 <= j < |s| ==> t[j] == s[j];
    match FindKey(s, key, k)
    case Some(i) =>
      FindKeyIs(t, key, k, i);
    case None =>
      assert forall j :: 0 <= j < |t| ==> key(t[j]) != k;
  }

  /**
   * Replacing the first match by an element with the same key: the search
   * then finds the replacement, at the same position.
   */
  lemma FindAfterReplace<T, K>(s: seq<T>, key: T -> K, k: K, x: T)
    requires FindKey(s, key, k).Some? && key(x) == k
    ensures FindKey(s[FindKey(s, key, k).value := x], key, k) == FindKey(s, key, k)
  {
    var i := FindKey(s, key, k).value;
    FindKeyIs(s[i := x], key, k, i);
  }

  /**
   * Deleting the first match (at `i`) exposes the next element with the same
   * key, if any; if there was none, the key is no longer found.
   */
  lemma FindAfterRemove<T, K>(s: seq<T>, key: T -> K, k: K, i: nat)
    requires FindKey(s, key, k) == Some(i)
    ensures FindKey(s[i + 1..], key, k).None? ==> FindKey(RemoveAt(s, i), key, k).None?
    ensures FindKey(s[i + 1..], key, k).Some? ==>
      FindKey(RemoveAt(s, i), key, k) == Some(i + FindKey(s[i + 1..], key, k).value)
  {
    var tail := s[i + 1..];
    var r := RemoveAt(s, i);
    assert r == s[..i] + tail;
    match FindKey(tail, key, k)
    case Some(m) =>
      assert r[i + m] == tail[m];
      forall j | 0 <= j < i + m
        ensures key(r[j]) != k
      {
        if j >= i {
          assert r[j] == tail[j - i];
        }
      }
      FindKeyIs(r, key, k, i + m);
    case None =>
      forall j | 0 <= j < |r|
        ensures key(r[j]) != k
      {
        if j >= i {
          assert r[j] == tail[j - i];
        }
      }
  }
}
