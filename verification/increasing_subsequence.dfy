/**
 The specification side: strictly increasing subsequences of a prefix `a[0..n)`,
 described by the positions they pick. A subsequence here is a list of positions
 `idx` that ascend strictly and whose values ascend strictly as well; its length
 is `|idx|`. The dynamic program is checked against this definition.
 */
module IncreasingSubsequence {

  /** `idx` picks positions of `a[0..n)` in ascending order, and the values at
      those positions ascend strictly. */
  ghost predicate IsIncreasingSubseq(a: seq<nat>, n: nat, idx: seq<nat>)
  {
    && n <= |a|
    && (forall k :: 0 <= k < |idx| ==> idx[k] < n)
    && (forall p, q :: 0 <= p < q < |idx| ==> idx[p] < idx[q] && a[idx[p]] < a[idx[q]])
  }

  /** The last position picked by `idx` is `i`. */
  ghost predicate EndsAt(idx: seq<nat>, i: nat)
  {
    |idx| > 0 && idx[|idx| - 1] == i
  }

  /** A subsequence of a shorter prefix is one of every longer prefix. */
  lemma Widen(a: seq<nat>, m: nat, n: nat, idx: seq<nat>)
    requires m <= n <= |a|
    requires IsIncreasingSubseq(a, m, idx)
    ensures IsIncreasingSubseq(a, n, idx)
  {
  }

  /** Appending a position `i` after a subsequence that ends at `j` keeps it
      strictly increasing when `j < i` and `a[j] < a[i]`: every value
      already picked is at most `a[j]`. */
  lemma Extend(a: seq<nat>, n: nat, idx: seq<nat>, j: nat, i: nat)
    requires IsIncreasingSubseq(a, n, idx) && EndsAt(idx, j)
    requires j < i < |a| && a[j] < a[i]
    ensures IsIncreasingSubseq(a, i + 1, idx + [i]) && EndsAt(idx + [i], i)
  {
  }

  /** Dropping the last position of a subsequence of length at least two leaves a
      subsequence that ends at an earlier position holding a smaller value. */
  lemma DropLast(a: seq<nat>, n: nat, idx: seq<nat>, i: nat) returns (j: nat)
    requires IsIncreasingSubseq(a, n, idx) && EndsAt(idx, i) && |idx| >= 2
    ensures IsIncreasingSubseq(a, n, idx[..|idx| - 1]) && EndsAt(idx[..|idx| - 1], j)
    ensures j < i < n && a[j] < a[i]
  {
    j := idx[|idx| - 2];
  }
}
