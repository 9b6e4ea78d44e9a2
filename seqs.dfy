/** Sequence operations with Python list semantics: `reverse()` and the
    slice `s[:n]`. */
module Seqs {

  function Reverse<T>(s: seq<T>): (r: seq<T>)
    ensures |r| == |s|
    ensures forall i :: 0 <= i < |s| ==> r[i] == s[|s| - 1 - i]
  {
    if s == [] then [] else Reverse(s[1..]) + [s[0]]
  }

  lemma {:induction false} ReverseReverse<T>(s: seq<T>)
    ensures Reverse(Reverse(s)) == s
  {}

  /** `s[:n]`: the first `n` elements, where a negative `n` counts from the end. */
  function SliceTo<T>(s: seq<T>, n: int): (r: seq<T>)
    ensures |r| <= |s| && r == s[..|r|]
    ensures n >= 0 ==> |r| == if n <= |s| then n else |s|
    ensures n < 0 ==> |r| == if |s| + n >= 0 then |s| + n else 0
  {
    if n >= 0 then (if n <= |s| then s[..n] else s)
    else if |s| + n >= 0 then s[..|s| + n]
    else []
  }

  /** Taking the first `n` of the reversed sequence and reversing them back
      gives the last `n` elements in their original order. */
  lemma {:induction false} LastInOrder<T>(s: seq<T>, n: int)
    ensures Reverse(SliceTo(Reverse(s), n)) == s[|s| - |SliceTo(Reverse(s), n)|..]
  {
    var t := SliceTo(Reverse(s), n);
    ReversedPrefix(s, |t|);
  }

  /** The first `k` elements of the reversal, reversed back, are the last `k`
      elements. */
  lemma {:induction false} ReversedPrefix<T>(s: seq<T>, k: nat)
    requires k <= |s|
    ensures Reverse(Reverse(s)[..k]) == s[|s| - k..]
  {
    var rs := Reverse(s);
    Mirror(Reverse(rs[..k]), rs, s, k);
  }

  /** If `r` mirrors the first `k` elements of `t`, and `t` mirrors `s`, then
      `r` is the last `k` elements of `s`. */
  lemma {:induction false} Mirror<T>(r: seq<T>, t: seq<T>, s: seq<T>, k: nat)
    requires k <= |t| == |s| && |r| == k
    requires forall i :: 0 <= i < k ==> r[i] == t[k - 1 - i]
    requires forall j :: 0 <= j < |t| ==> t[j] == s[|s| - 1 - j]
    ensures r == s[|s| - k..]
  {
    var suffix := s[|s| - k..];
    forall i | 0 <= i < k ensures r[i] == suffix[i] {
      assert r[i] == t[k - 1 - i];
    }
  }

  /** A sequence is its first `k` elements followed by the rest. */
  lemma {:induction false} SplitAt<T>(s: seq<T>, k: nat)
    requires k <= |s|
    ensures s == s[..k] + s[k..]
  {
  }

  /** Every element of a slice is an element of the sequence. */
  lemma {:induction false} SliceMembers<T>(s: seq<T>, i: nat, j: nat)
    requires i <= j <= |s|
    ensures forall x :: x in s[i..j] ==> x in s
  {
    forall x | x in s[i..j] ensures x in s {
      var k :| i <= k < j && s[k] == x;
    }
  }

  /** Two sequences agree on their first `n` elements exactly when they agree
      on the first `n - 1` and on element `n - 1`. */
  lemma {:induction false} PrefixStep<T>(a: seq<T>, b: seq<T>, n: nat)
    requires 0 < n <= |a| && n <= |b|
    ensures a[..n] == b[..n] <==> a[..n - 1] == b[..n - 1] && a[n - 1] == b[n - 1]
  {
    assert a[..n] == a[..n - 1] + [a[n - 1]];
    assert b[..n] == b[..n - 1] + [b[n - 1]];
    if a[..n] == b[..n] {
      assert a[..n][n - 1] == b[..n][n - 1];
      assert a[..n][..n - 1] == b[..n][..n - 1];
    }
  }

  /** `a` is `b` with some elements left out and the rest in their order. */
  predicate Subsequence<T(==)>(a: seq<T>, b: seq<T>)
    decreases |b|
  {
    |a| == 0 ||
    (|b| > 0 && ((a[0] == b[0] && Subsequence(a[1..], b[1..])) || Subsequence(a, b[1..])))
  }
}
