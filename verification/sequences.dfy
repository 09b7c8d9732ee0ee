/**
 Order-related relations between sequences: being a subsequence, and being an
 interleaving (merge) of two sequences. Both are stated recursively from the
 END of the sequences, which matches how a left-to-right loop that appends to
 a result list grows its output.
 */
module Sequences {

  function Last<T>(s: seq<T>): T
    requires |s| > 0
  {
    s[|s| - 1]
  }

  function DropLast<T>(s: seq<T>): seq<T>
    requires |s| > 0
  {
    s[..|s| - 1]
  }

  /** `a` can be obtained from `b` by deleting elements, keeping the rest in order. */
  ghost predicate IsSubsequence<T>(a: seq<T>, b: seq<T>)
    decreases |b|
  {
    if |a| == 0 then true
    else if |b| == 0 then false
    else (Last(a) == Last(b) && IsSubsequence(DropLast(a), DropLast(b)))
         || IsSubsequence(a, DropLast(b))
  }

  /** `c` is an interleaving of `a` and `b`: every element of `c` comes from
      exactly one of them, and each of `a` and `b` keeps its own order in `c`. */
  ghost predicate IsMerge<T>(c: seq<T>, a: seq<T>, b: seq<T>)
    decreases |c|
  {
    if |c| == 0 then |a| == 0 && |b| == 0
    else (|a| > 0 && Last(a) == Last(c) && IsMerge(DropLast(c), DropLast(a), b))
         || (|b| > 0 && Last(b) == Last(c) && IsMerge(DropLast(c), a, DropLast(b)))
  }

  /** An interleaving splits `c` exactly: lengths add up, the multiset of
      elements is shared out, and both halves are subsequences of `c`. */
  lemma {:induction false} MergeSplits<T>(c: seq<T>, a: seq<T>, b: seq<T>)
    requires IsMerge(c, a, b)
    ensures |a| + |b| == |c|
    ensures multiset(a) + multiset(b) == multiset(c)
    ensures IsSubsequence(a, c)
    ensures IsSubsequence(b, c)
    decreases |c|
  {
    if |c| == 0 {
    } else {
      assert c == DropLast(c) + [Last(c)];
      if |a| > 0 && Last(a) == Last(c) && IsMerge(DropLast(c), DropLast(a), b) {
        MergeSplits(DropLast(c), DropLast(a), b);
        assert a == DropLast(a) + [Last(a)];
        SubsequenceOfLonger(b, DropLast(c), Last(c));
      } else {
        MergeSplits(DropLast(c), a, DropLast(b));
        assert b == DropLast(b) + [Last(b)];
        SubsequenceOfLonger(a, DropLast(c), Last(c));
      }
    }
  }

  /** Appending an element to the longer sequence keeps the subsequence relation. */
  lemma SubsequenceOfLonger<T>(a: seq<T>, b: seq<T>, x: T)
    requires IsSubsequence(a, b)
    ensures IsSubsequence(a, b + [x])
  {
  }
}
