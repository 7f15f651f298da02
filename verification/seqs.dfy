/**
 Generic facts about sequences used by the password history and the todo
 list: order-preserving subsequences and duplicate-free lists.
 */
module Seqs {

  /** `a` is `b` with some elements left out and the rest kept in order. */
  predicate IsSubsequence<T(==)>(a: seq<T>, b: seq<T>)
    decreases |b|
  {
    if b == [] then a == []
    else (a != [] && a[0] == b[0] && IsSubsequence(a[1..], b[1..])) || IsSubsequence(a, b[1..])
  }

  /** No element occurs twice. */
  predicate NoDup<T(==)>(s: seq<T>)
  {
    forall i, j :: 0 <= i < j < |s| ==> s[i] != s[j]
  }

  /** A subsequence is never longer than the whole. */
  lemma {:induction false} SubsequenceLength<T>(a: seq<T>, b: seq<T>)
    requires IsSubsequence(a, b)
    ensures |a| <= |b|
    decreases |b|
  {
    if b != [] {
      if a != [] && a[0] == b[0] && IsSubsequence(a[1..], b[1..]) {
        SubsequenceLength(a[1..], b[1..]);
      } else {
        SubsequenceLength(a, b[1..]);
      }
    }
  }

  /** Every sequence is a subsequence of itself. */
  lemma {:induction false} SubsequenceReflexive<T>(s: seq<T>)
    ensures IsSubsequence(s, s)
  {
    if s != [] {
      SubsequenceReflexive(s[1..]);
    }
  }

  /** Dropping one position keeps the rest as a subsequence. */
  lemma {:induction false} DropOneIsSubsequence<T>(s: seq<T>, i: nat)
    requires i < |s|
    ensures IsSubsequence(s[..i] + s[i + 1..], s)
  {
    if i == 0 {
      assert s[..i] + s[i + 1..] == s[1..];
      SubsequenceReflexive(s[1..]);
    } else {
      var t := s[..i] + s[i + 1..];
      DropOneIsSubsequence(s[1..], i - 1);
      assert t[1..] == s[1..][..i - 1] + s[1..][i..];
    }
  }

  /** A duplicate-free sequence stays duplicate-free when a position is dropped. */
  lemma DropOneNoDup<T>(s: seq<T>, i: nat)
    requires i < |s| && NoDup(s)
    ensures NoDup(s[..i] + s[i + 1..]) && s[i] !in s[..i] + s[i + 1..]
  {
    var t := s[..i] + s[i + 1..];
    assert forall k :: 0 <= k < |t| ==> t[k] == (if k < i then s[k] else s[k + 1]);
  }
}
