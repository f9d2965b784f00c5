/**
 `dynamic_programming::longest_increasing_subsequence::LIS`: the quadratic
 dynamic program for the length of the longest strictly increasing subsequence
 of `a[0..n)`. The `uint64_t` elements are naturals; the `int` table entries and
 result are naturals too, since they never exceed `n`. The input is a value, so
 it cannot be modified.
 */
module LongestIncreasingSubsequence {
  import opened IncreasingSubsequence
  import opened Recurrence

  /** The table-filling phase of `LIS`: every entry starts at 1, then for each
      `i` the inner loop raises `lis[i]` to `lis[j] + 1` for every earlier `j`
      with `a[j] < a[i]` when that is larger. Afterwards `lis[i]` is the length of
      the longest strictly increasing subsequence of `a[0..i]` ending at `i`. */
  method LisTable(a: seq<nat>, n: nat) returns (lis: seq<nat>)
    requires n <= |a|
    ensures |lis| == n
    ensures forall i :: 0 <= i < n ==> 1 <= lis[i] <= i + 1
    ensures forall i :: 0 <= i < n ==> lis[i] == BestEndingAt(a, i)
    ensures forall i, idx :: 0 <= i < n && IsIncreasingSubseq(a, n, idx) && EndsAt(idx, i) ==> |idx| <= lis[i]
  {
    lis := seq(n, _ => 0);
    var i := 0;
    while i < n
      invariant 0 <= i <= n && |lis| == n
      invariant forall k :: 0 <= k < i ==> lis[k] == 1
    {
      lis := lis[i := 1];
      i := i + 1;
    }
    i := 0;
    while i < n
      invariant 0 <= i <= n && |lis| == n
      invariant forall k :: 0 <= k < i ==> lis[k] == BestEndingAt(a, k)
      invariant forall k :: i <= k < n ==> lis[k] == 1
    {
      var j := 0;
      while j < i
        invariant 0 <= j <= i && |lis| == n
        invariant forall k :: 0 <= k < i ==> lis[k] == BestEndingAt(a, k)
        invariant forall k :: i < k < n ==> lis[k] == 1
        invariant lis[i] == 1 + BestBefore(a, i, j) >= 1
      {
        if a[i] > a[j] && lis[i] < lis[j] + 1 {
          lis := lis[i := lis[j] + 1];
        }
        j := j + 1;
      }
      i := i + 1;
    }
    forall i, idx | 0 <= i < n && IsIncreasingSubseq(a, n, idx) && EndsAt(idx, i)
      ensures |idx| <= lis[i]
    {
      BoundEndingAt(a, n, idx, i);
    }
  }

  /** `LIS(a, n)`: the largest table entry, 0 when `n == 0`. The result is the
      length of a longest strictly increasing subsequence of `a[0..n)`: one of
      that length exists and none is longer. */
  method Lis(a: seq<nat>, n: nat) returns (res: nat)
    requires n <= |a|
    ensures n == 0 ==> res == 0
    ensures n >= 1 ==> 1 <= res <= n
    ensures exists idx :: IsIncreasingSubseq(a, n, idx) && |idx| == res
    ensures forall idx :: IsIncreasingSubseq(a, n, idx) ==> |idx| <= res
  {
    var lis := LisTable(a, n);
    res := 0;
    var i := 0;
    while i < n
      invariant 0 <= i <= n
      invariant res == LongestLength(a, i)
    {
      res := Max(res, lis[i]);
      i := i + 1;
    }
    LongestLengthIsMaximum(a, n);
  }

  /** The sequence used by the source's own test. */
  const Example: seq<nat> := [15, 21, 2, 3, 4, 5, 8, 4, 1, 1]

  /** Positions 2..6 of the example pick 2, 3, 4, 5, 8, a strictly increasing
      subsequence of length 5. */
  lemma ExampleWitness()
    ensures IsIncreasingSubseq(Example, 10, [2, 3, 4, 5, 6])
  {
  }

  /** The table for any sequence holding the example's values, filled in position
      by position along the recurrence; its largest entry is 5. */
  lemma ExampleTable(e: seq<nat>)
    requires |e| == 10 && e[0] == 15 && e[1] == 21 && e[2] == 2 && e[3] == 3 && e[4] == 4
    requires e[5] == 5 && e[6] == 8 && e[7] == 4 && e[8] == 1 && e[9] == 1
    ensures LongestLength(e, 10) == 5
  {
    assert BestEndingAt(e, 0) == 1;
    assert BestEndingAt(e, 1) == 2 by {
      assert BestBefore(e, 1, 1) == 1;
    }
    assert BestEndingAt(e, 2) == 1 by {
      assert BestBefore(e, 2, 1) == 0;
      assert BestBefore(e, 2, 2) == 0;
    }
    assert BestEndingAt(e, 3) == 2 by {
      assert BestBefore(e, 3, 1) == 0;
      assert BestBefore(e, 3, 2) == 0;
      assert BestBefore(e, 3, 3) == 1;
    }
    assert BestEndingAt(e, 4) == 3 by {
      assert BestBefore(e, 4, 1) == 0;
      assert BestBefore(e, 4, 2) == 0;
      assert BestBefore(e, 4, 3) == 1;
      assert BestBefore(e, 4, 4) == 2;
    }
    assert BestEndingAt(e, 5) == 4 by {
      assert BestBefore(e, 5, 1) == 0;
      assert BestBefore(e, 5, 2) == 0;
      assert BestBefore(e, 5, 3) == 1;
      assert BestBefore(e, 5, 4) == 2;
      assert BestBefore(e, 5, 5) == 3;
    }
    assert BestEndingAt(e, 6) == 5 by {
      assert BestBefore(e, 6, 1) == 0;
      assert BestBefore(e, 6, 2) == 0;
      assert BestBefore(e, 6, 3) == 1;
      assert BestBefore(e, 6, 4) == 2;
      assert BestBefore(e, 6, 5) == 3;
      assert BestBefore(e, 6, 6) == 4;
    }
    assert BestEndingAt(e, 7) == 3 by {
      assert BestBefore(e, 7, 1) == 0;
      assert BestBefore(e, 7, 2) == 0;
      assert BestBefore(e, 7, 3) == 1;
      assert BestBefore(e, 7, 4) == 2;
      assert BestBefore(e, 7, 5) == 2;
      assert BestBefore(e, 7, 6) == 2;
      assert BestBefore(e, 7, 7) == 2;
    }
    assert BestEndingAt(e, 8) == 1 by {
      assert BestBefore(e, 8, 1) == 0;
      assert BestBefore(e, 8, 2) == 0;
      assert BestBefore(e, 8, 3) == 0;
      assert BestBefore(e, 8, 4) == 0;
      assert BestBefore(e, 8, 5) == 0;
      assert BestBefore(e, 8, 6) == 0;
      assert BestBefore(e, 8, 7) == 0;
      assert BestBefore(e, 8, 8) == 0;
    }
    assert BestEndingAt(e, 9) == 1 by {
      assert BestBefore(e, 9, 1) == 0;
      assert BestBefore(e, 9, 2) == 0;
      assert BestBefore(e, 9, 3) == 0;
      assert BestBefore(e, 9, 4) == 0;
      assert BestBefore(e, 9, 5) == 0;
      assert BestBefore(e, 9, 6) == 0;
      assert BestBefore(e, 9, 7) == 0;
      assert BestBefore(e, 9, 8) == 0;
      assert BestBefore(e, 9, 9) == 0;
    }
    assert LongestLength(e, 1) == 1;
    assert LongestLength(e, 2) == 2;
    assert LongestLength(e, 3) == 2;
    assert LongestLength(e, 4) == 2;
    assert LongestLength(e, 5) == 3;
    assert LongestLength(e, 6) == 4;
    assert LongestLength(e, 7) == 5;
    assert LongestLength(e, 8) == 5;
    assert LongestLength(e, 9) == 5;
    assert LongestLength(e, 10) == 5;
  }

  /** The source's test: `LIS` of the example sequence with `n = 10` is 5. */
  method TestExample() returns (result: nat)
    ensures result == 5
  {
    result := Lis(Example, 10);
    ExampleTable(Example);
    LongestLengthIsMaximum(Example, 10);
  }
}
