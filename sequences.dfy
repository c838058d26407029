/**
 Facts about sequences used by the format selector, the title sanitizer
 and the duration formatter: subsequences (what a `filter` or a `trim`
 leaves) and occurrence counts.
 */
module Sequences {

  /** `a` is what remains of `b` after deleting some of its elements, order kept. */
  ghost predicate IsSubsequence<T>(a: seq<T>, b: seq<T>)
    decreases |b|
  {
    if a == [] then true
    else if b == [] then false
    else (a[0] == b[0] && IsSubsequence(a[1..], b[1..])) || IsSubsequence(a, b[1..])
  }

  lemma {:induction false} SubsequenceMembers<T>(a: seq<T>, b: seq<T>)
    requires IsSubsequence(a, b)
    ensures forall x :: x in a ==> x in b
    decreases |b|
  {
    if a != [] {
      if a[0] == b[0] && IsSubsequence(a[1..], b[1..]) {
        SubsequenceMembers(a[1..], b[1..]);
        assert forall x :: x in a ==> x == a[0] || x in a[1..];
      } else {
        SubsequenceMembers(a, b[1..]);
      }
    }
  }

  /** Dropping the first element of a subsequence keeps it a subsequence. */
  lemma {:induction false} SubsequenceDropFirst<T>(a: seq<T>, b: seq<T>)
    requires a != [] && IsSubsequence(a, b)
    ensures IsSubsequence(a[1..], b)
    decreases |b|
  {
    if a[0] == b[0] && IsSubsequence(a[1..], b[1..]) {
      SubsequenceWeaken(a[1..], b[1..], b[0]);
    } else {
      SubsequenceDropFirst(a, b[1..]);
      SubsequenceWeaken(a[1..], b[1..], b[0]);
    }
  }

  /** A subsequence of `b` is a subsequence of `[x] + b`. */
  lemma SubsequenceWeaken<T>(a: seq<T>, b: seq<T>, x: T)
    requires IsSubsequence(a, b)
    ensures IsSubsequence(a, [x] + b)
  {
    assert ([x] + b)[1..] == b;
  }

  /** Dropping the last element of a subsequence keeps it a subsequence. */
  lemma {:induction false} SubsequenceDropLast<T>(a: seq<T>, b: seq<T>)
    requires a != [] && IsSubsequence(a, b)
    ensures IsSubsequence(a[..|a| - 1], b)
    decreases |b|
  {
    if |a| == 1 {
      assert a[..|a| - 1] == [];
    } else if a[0] == b[0] && IsSubsequence(a[1..], b[1..]) {
      SubsequenceDropLast(a[1..], b[1..]);
      assert a[1..][..|a[1..]| - 1] == a[..|a| - 1][1..];
    } else {
      SubsequenceDropLast(a, b[1..]);
    }
  }

  /** Every slice of a subsequence is a subsequence. */
  lemma {:induction false} SubsequenceSlice<T>(a: seq<T>, b: seq<T>, i: nat, j: nat)
    requires i <= j <= |a| && IsSubsequence(a, b)
    ensures IsSubsequence(a[i..j], b)
    decreases |a|
  {
    if j < |a| {
      SubsequenceDropLast(a, b);
      assert a[..|a| - 1][i..j] == a[i..j];
      SubsequenceSlice(a[..|a| - 1], b, i, j);
    } else if 0 < i {
      SubsequenceDropFirst(a, b);
      assert a[1..][i - 1..j - 1] == a[i..j];
      SubsequenceSlice(a[1..], b, i - 1, j - 1);
    } else {
      assert a[i..j] == a;
    }
  }

  /** `r` is the slice of `s` that starts at index `i`. */
  ghost predicate SliceAt<T>(s: seq<T>, r: seq<T>, i: int) {
    0 <= i <= |s| - |r| && s[i..i + |r|] == r
  }

  /** A slice of a subsequence of `b` is a subsequence of `b`. */
  lemma SliceIsSubsequence<T>(a: seq<T>, b: seq<T>, r: seq<T>, i: int)
    requires IsSubsequence(a, b) && SliceAt(a, r, i)
    ensures IsSubsequence(r, b)
  {
    SubsequenceSlice(a, b, i, i + |r|);
  }

  lemma SliceMembers<T>(s: seq<T>, r: seq<T>, i: int)
    requires SliceAt(s, r, i)
    ensures forall x :: x in r ==> x in s
  {
    assert forall k :: 0 <= k < |r| ==> r[k] == s[i + k];
  }

  /** Number of occurrences of `x` in `s`. */
  function Count<T(==)>(s: seq<T>, x: T): (n: nat)
    ensures n == 0 <==> x !in s
    ensures n <= |s|
  {
    if s == [] then 0 else (if s[0] == x then 1 else 0) + Count(s[1..], x)
  }

  lemma {:induction false} CountConcat<T>(a: seq<T>, b: seq<T>, x: T)
    ensures Count(a + b, x) == Count(a, x) + Count(b, x)
    decreases |a|
  {
    if a == [] {
      assert a + b == b;
    } else {
      assert (a + b)[1..] == a[1..] + b;
      CountConcat(a[1..], b, x);
    }
  }
}
