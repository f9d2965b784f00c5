/**
 The dynamic-programming recurrence behind `LIS`, written as pure functions, and
 the proof that it computes what the specification in `IncreasingSubsequence`
 describes: `BestEndingAt(a, i)` is the length of the longest strictly increasing
 subsequence of `a[0..i]` that ends at position `i`, and `LongestLength(a, n)` is
 the length of the longest strictly increasing subsequence of `a[0..n)`.
 */
module Recurrence {
  import opened IncreasingSubsequence

  function Max(x: nat, y: nat): nat
  {
    if x < y then y else x
  }

  /** The table entry for position `i`: one more than the best entry among the
      earlier positions whose value is strictly smaller than `a[i]`. */
  function BestEndingAt(a: seq<nat>, i: nat): (r: nat)
    requires i < |a|
    ensures 1 <= r <= i + 1
    decreases i, i + 1
  {
    1 + BestBefore(a, i, i)
  }

  /** The best entry among positions `j < k` with `a[j] < a[i]`, or 0 if none of
      them holds a smaller value; the inner loop of `LIS` folds it up in `j`. */
  function BestBefore(a: seq<nat>, i: nat, k: nat): (r: nat)
    requires k <= i < |a|
    ensures r <= k
    decreases i, k
  {
    if k == 0 then 0
    else
      var rest := BestBefore(a, i, k - 1);
      if a[k - 1] < a[i] then Max(rest, BestEndingAt(a, k - 1)) else rest
  }

  /** The largest table entry among positions `0..n)`, 0 for an empty prefix. */
  function LongestLength(a: seq<nat>, n: nat): (r: nat)
    requires n <= |a|
    ensures r <= n
    ensures n >= 1 ==> r >= 1
  {
    if n == 0 then 0 else Max(LongestLength(a, n - 1), BestEndingAt(a, n - 1))
  }

  /** Considering more earlier positions never lowers the best extension: the
      entry being filled never decreases during the inner loop. */
  lemma {:induction false} BestBeforeMonotone(a: seq<nat>, i: nat, k: nat, k': nat)
    requires k <= k' <= i < |a|
    ensures BestBefore(a, i, k) <= BestBefore(a, i, k')
    decreases k' - k
  {
    if k < k' {
      BestBeforeMonotone(a, i, k, k' - 1);
    }
  }

  /** Every earlier position with a strictly smaller value is taken into account. */
  lemma {:induction false} BestBeforeCovers(a: seq<nat>, i: nat, k: nat, j: nat)
    requires j < k <= i < |a| && a[j] < a[i]
    ensures BestEndingAt(a, j) <= BestBefore(a, i, k)
    decreases k
  {
    if j < k - 1 {
      BestBeforeCovers(a, i, k - 1, j);
    }
  }

  /** A positive best extension is attained by some earlier, strictly smaller
      position. */
  lemma {:induction false} BestBeforeAttained(a: seq<nat>, i: nat, k: nat) returns (j: nat)
    requires k <= i < |a| && BestBefore(a, i, k) > 0
    ensures j < k && a[j] < a[i] && BestEndingAt(a, j) == BestBefore(a, i, k)
    decreases k
  {
    var rest := BestBefore(a, i, k - 1);
    if a[k - 1] < a[i] && rest <= BestEndingAt(a, k - 1) {
      j := k - 1;
    } else {
      j := BestBeforeAttained(a, i, k - 1);
    }
  }

  /** Soundness of a table entry: some strictly increasing subsequence of
      `a[0..i]` ending at `i` has length `BestEndingAt(a, i)`. */
  lemma {:induction false} WitnessEndingAt(a: seq<nat>, i: nat) returns (idx: seq<nat>)
    requires i < |a|
    ensures IsIncreasingSubseq(a, i + 1, idx) && EndsAt(idx, i)
    ensures |idx| == BestEndingAt(a, i)
    decreases i
  {
    if BestBefore(a, i, i) == 0 {
      idx := [i];
    } else {
      var j := BestBeforeAttained(a, i, i);
      var prefix := WitnessEndingAt(a, j);
      Extend(a, j + 1, prefix, j, i);
      idx := prefix + [i];
    }
  }

  /** Optimality of a table entry: no strictly increasing subsequence ending at
      `i` is longer than `BestEndingAt(a, i)`. */
  lemma {:induction false} BoundEndingAt(a: seq<nat>, n: nat, idx: seq<nat>, i: nat)
    requires IsIncreasingSubseq(a, n, idx) && EndsAt(idx, i)
    ensures i < |a| && |idx| <= BestEndingAt(a, i)
    decreases |idx|
  {
    if |idx| >= 2 {
      var j := DropLast(a, n, idx, i);
      BoundEndingAt(a, n, idx[..|idx| - 1], j);
      BestBeforeCovers(a, i, i, j);
    }
  }

  /** A table entry is exactly the longest strictly increasing subsequence that
      ends at its position: it is attained, and nothing ending there is longer. */
  lemma BestEndingAtIsMaximum(a: seq<nat>, i: nat)
    requires i < |a|
    ensures exists idx :: IsIncreasingSubseq(a, i + 1, idx) && EndsAt(idx, i) && |idx| == BestEndingAt(a, i)
    ensures forall idx :: IsIncreasingSubseq(a, |a|, idx) && EndsAt(idx, i) ==> |idx| <= BestEndingAt(a, i)
  {
    var w := WitnessEndingAt(a, i);
    forall idx | IsIncreasingSubseq(a, |a|, idx) && EndsAt(idx, i)
      ensures |idx| <= BestEndingAt(a, i)
    {
      BoundEndingAt(a, |a|, idx, i);
    }
  }

  /** Every table entry of the prefix is at most the maximum. */
  lemma {:induction false} LongestCovers(a: seq<nat>, n: nat, i: nat)
    requires i < n <= |a|
    ensures BestEndingAt(a, i) <= LongestLength(a, n)
    decreases n
  {
    if i < n - 1 {
      LongestCovers(a, n - 1, i);
    }
  }

  /** Soundness of the maximum: some strictly increasing subsequence of `a[0..n)`
      has length `LongestLength(a, n)`. */
  lemma {:induction false} WitnessLongest(a: seq<nat>, n: nat) returns (idx: seq<nat>)
    requires n <= |a|
    ensures IsIncreasingSubseq(a, n, idx) && |idx| == LongestLength(a, n)
    decreases n
  {
    if n == 0 {
      idx := [];
    } else if LongestLength(a, n - 1) >= BestEndingAt(a, n - 1) {
      idx := WitnessLongest(a, n - 1);
      Widen(a, n - 1, n, idx);
    } else {
      idx := WitnessEndingAt(a, n - 1);
    }
  }

  /** Optimality of the maximum: no strictly increasing subsequence of `a[0..n)`
      is longer than `LongestLength(a, n)`. */
  lemma BoundLongest(a: seq<nat>, n: nat, idx: seq<nat>)
    requires IsIncreasingSubseq(a, n, idx)
    ensures |idx| <= LongestLength(a, n)
  {
    if |idx| > 0 {
      var i := idx[|idx| - 1];
      BoundEndingAt(a, n, idx, i);
      LongestCovers(a, n, i);
    }
  }

  /** `LongestLength(a, n)` is the length of a longest strictly increasing
      subsequence of `a[0..n)`: one of that length exists and none is longer. */
  lemma LongestLengthIsMaximum(a: seq<nat>, n: nat)
    requires n <= |a|
    ensures exists idx :: IsIncreasingSubseq(a, n, idx) && |idx| == LongestLength(a, n)
    ensures forall idx :: IsIncreasingSubseq(a, n, idx) ==> |idx| <= LongestLength(a, n)
  {
    var w := WitnessLongest(a, n);
    forall idx | IsIncreasingSubseq(a, n, idx)
      ensures |idx| <= LongestLength(a, n)
    {
      BoundLongest(a, n, idx);
    }
  }

  /** Only `a[0..n)` matters: two inputs that agree on it have the same answer. */
  lemma PrefixOnly(a: seq<nat>, b: seq<nat>, n: nat)
    requires n <= |a| && n <= |b| && a[..n] == b[..n]
    ensures LongestLength(a, n) == LongestLength(b, n)
  {
    forall idx | IsIncreasingSubseq(a, n, idx)
      ensures IsIncreasingSubseq(b, n, idx)
    {
      forall k | 0 <= k < |idx| ensures a[idx[k]] == b[idx[k]] {
        assert a[..n][idx[k]] == b[..n][idx[k]];
      }
    }
    forall idx | IsIncreasingSubseq(b, n, idx)
      ensures IsIncreasingSubseq(a, n, idx)
    {
      forall k | 0 <= k < |idx| ensures a[idx[k]] == b[idx[k]] {
        assert a[..n][idx[k]] == b[..n][idx[k]];
      }
    }
    var wa := WitnessLongest(a, n);
    var wb := WitnessLongest(b, n);
    BoundLongest(b, n, wa);
    BoundLongest(a, n, wb);
  }

  /** The comparison is strict: a position none of whose predecessors holds a
      strictly smaller value (equal values included) is extended by nothing. */
  lemma {:induction false} NoSmallerBefore(a: seq<nat>, i: nat, k: nat)
    requires k <= i < |a|
    requires forall j :: 0 <= j < k ==> a[i] <= a[j]
    ensures BestBefore(a, i, k) == 0
    decreases k
  {
    if k > 0 {
      NoSmallerBefore(a, i, k - 1);
    }
  }

  /** Equal values never extend one another, so a non-empty prefix whose values
      are all equal has answer 1. */
  lemma {:induction false} ConstantHasLengthOne(a: seq<nat>, n: nat)
    requires 1 <= n <= |a|
    requires forall k :: 0 <= k < n ==> a[k] == a[0]
    ensures LongestLength(a, n) == 1
    decreases n
  {
    NoSmallerBefore(a, n - 1, n - 1);
    if n > 1 {
      ConstantHasLengthOne(a, n - 1);
    }
  }
}
