/** Sequence notions used to state what the iterator pipelines keep and in which order. */
module Seqs {

  /** `iter.skip(n).collect()`: drops the first `n` elements, or all of them. */
  function Skip<T>(s: seq<T>, n: nat): (r: seq<T>)
    ensures |r| == if |s| <= n then 0 else |s| - n
    ensures forall i :: 0 <= i < |r| ==> r[i] == s[n + i]
  {
    if |s| <= n then [] else s[n..]
  }

  /** `a` is obtained from `b` by deleting elements, keeping the order of the rest. */
  ghost predicate IsSubsequence<T>(a: seq<T>, b: seq<T>)
    decreases |b|
  {
    if |a| == 0 then true
    else if |b| == 0 then false
    else (a[0] == b[0] && IsSubsequence(a[1..], b[1..])) || IsSubsequence(a, b[1..])
  }

  /** `s` is a merge of `a` and `b`: every element of `s` is taken, in order, from the front of one of them. */
  ghost predicate Interleaves<T>(s: seq<T>, a: seq<T>, b: seq<T>)
    decreases |s|
  {
    if |s| == 0 then a == [] && b == []
    else
      (|a| > 0 && a[0] == s[0] && Interleaves(s[1..], a[1..], b)) ||
      (|b| > 0 && b[0] == s[0] && Interleaves(s[1..], a, b[1..]))
  }

  /** Each part of a merge keeps the order of the merged sequence. */
  lemma {:induction false} InterleavesSubsequences<T>(s: seq<T>, a: seq<T>, b: seq<T>)
    requires Interleaves(s, a, b)
    ensures IsSubsequence(a, s) && IsSubsequence(b, s)
    decreases |s|
  {
    if |s| > 0 {
      if |a| > 0 && a[0] == s[0] && Interleaves(s[1..], a[1..], b) {
        InterleavesSubsequences(s[1..], a[1..], b);
      } else {
        InterleavesSubsequences(s[1..], a, b[1..]);
      }
    }
  }

  /** Every element of a merge lands in exactly one part, counted with multiplicity. */
  lemma {:induction false} InterleavesMultiset<T>(s: seq<T>, a: seq<T>, b: seq<T>)
    requires Interleaves(s, a, b)
    ensures multiset(s) == multiset(a) + multiset(b)
    ensures |s| == |a| + |b|
    decreases |s|
  {
    if |s| > 0 {
      assert s == [s[0]] + s[1..];
      if |a| > 0 && a[0] == s[0] && Interleaves(s[1..], a[1..], b) {
        InterleavesMultiset(s[1..], a[1..], b);
        assert a == [a[0]] + a[1..];
      } else {
        InterleavesMultiset(s[1..], a, b[1..]);
        assert b == [b[0]] + b[1..];
      }
    }
  }

  /** An element of a subsequence is an element of the whole. */
  lemma {:induction false} SubsequenceMember<T>(a: seq<T>, b: seq<T>, x: T)
    requires IsSubsequence(a, b) && x in a
    ensures x in b
    decreases |b|
  {
    if a[0] == b[0] && IsSubsequence(a[1..], b[1..]) {
      if x != a[0] {
        assert x in a[1..];
        SubsequenceMember(a[1..], b[1..], x);
      }
    } else {
      SubsequenceMember(a, b[1..], x);
    }
  }
}
