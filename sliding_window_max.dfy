/** solutions/sliding-window-maximum.java: the maximum of every window of k
    consecutive elements, found with a deque of indices whose values do not
    increase from front to back. */
module SlidingWindowMax {

  /** The largest element of a non-empty sequence. */
  function Max(s: seq<int>): int
    requires |s| > 0
  {
    if |s| == 1 then s[0] else var m := Max(s[1..]); if s[0] > m then s[0] else m
  }

  /** Max bounds every element and is one of them. */
  lemma {:induction false} MaxSpec(s: seq<int>)
    requires |s| > 0
    ensures forall t :: 0 <= t < |s| ==> s[t] <= Max(s)
    ensures Max(s) in s
  {
    if |s| > 1 {
      MaxSpec(s[1..]);
      forall t | 1 <= t < |s| ensures s[t] <= Max(s) {
        assert s[t] == s[1..][t - 1];
      }
    }
  }

  /** An element bounding all others is the maximum. */
  lemma MaxIs(s: seq<int>, t: int)
    requires 0 <= t < |s| && forall u :: 0 <= u < |s| ==> s[u] <= s[t]
    ensures Max(s) == s[t]
  {
    MaxSpec(s);
  }

  /** The brute-force definition in the comment of the source: one maximum per
      window start 0 .. n-k. */
  function Windows(s: seq<int>, k: int): (r: seq<int>)
    requires k >= 1
    ensures |r| == if |s| >= k then |s| - k + 1 else 0
  {
    seq(if |s| >= k then |s| - k + 1 else 0, t requires 0 <= t <= |s| - k => Max(s[t..t + k]))
  }

  /** First index of the window owned by deque position p: the one after the
      previous deque index, or lo for the front. */
  function Prev(dq: seq<int>, lo: int, p: int): int
    requires 0 <= p < |dq|
  {
    if p == 0 then lo else dq[p - 1] + 1
  }

  /** First index after the last deque entry (lo when the deque is empty). */
  function After(dq: seq<int>, lo: int): int
  {
    if |dq| == 0 then lo else dq[|dq| - 1] + 1
  }

  /** Every deque index lies in [lo, hi). */
  predicate Within(dq: seq<int>, lo: int, hi: int)
  {
    forall p :: 0 <= p < |dq| ==> lo <= dq[p] < hi
  }

  /** Deque indices strictly increase from front to back. */
  predicate Increasing(dq: seq<int>)
  {
    forall p, q :: 0 <= p < q < |dq| ==> dq[p] < dq[q]
  }

  /** The values at the deque indices never increase from front to back. */
  predicate Descending(s: seq<int>, dq: seq<int>)
  {
    forall p, q :: 0 <= p < q < |dq| && 0 <= dq[p] < |s| && 0 <= dq[q] < |s| ==> s[dq[p]] >= s[dq[q]]
  }

  /** Each deque entry is at least every element between it and the previous
      entry (from lo for the front). */
  predicate Gaps(s: seq<int>, dq: seq<int>, lo: int)
  {
    forall p, m {:trigger Prev(dq, lo, p), s[m]} ::
      0 <= p < |dq| && Prev(dq, lo, p) <= m <= dq[p] && 0 <= m && dq[p] < |s| ==> s[m] <= s[dq[p]]
  }

  /** The deque of indices for the elements s[lo..hi). */
  predicate Ordered(s: seq<int>, dq: seq<int>, lo: int, hi: int)
  {
    0 <= lo <= hi <= |s| && Within(dq, lo, hi) && Increasing(dq) && Descending(s, dq) && Gaps(s, dq, lo)
  }

  /** The loop state after an iteration: the deque also ends at hi - 1. */
  predicate Monotone(s: seq<int>, dq: seq<int>, lo: int, hi: int)
  {
    Ordered(s, dq, lo, hi) && After(dq, lo) == hi
  }

  /** Popping from the back for s[i]: everything after the last entry is at
      most s[i]. */
  predicate Popping(s: seq<int>, dq: seq<int>, lo: int, i: int)
  {
    Ordered(s, dq, lo, i) && i < |s| && forall m :: After(dq, lo) <= m < i ==> s[m] <= s[i]
  }

  lemma GapsLater(s: seq<int>, dq: seq<int>, lo: int, lo': int)
    requires Gaps(s, dq, lo) && lo <= lo'
    ensures Gaps(s, dq, lo')
  {
    forall p, m | 0 <= p < |dq| && Prev(dq, lo', p) <= m <= dq[p] && 0 <= m && dq[p] < |s| ensures s[m] <= s[dq[p]] {
      assert Prev(dq, lo, p) <= m;
    }
  }

  lemma GapsTail(s: seq<int>, dq: seq<int>, lo: int)
    requires Gaps(s, dq, lo) && |dq| > 0
    ensures Gaps(s, dq[1..], dq[0] + 1)
  {
    var dq' := dq[1..];
    forall p, m | 0 <= p < |dq'| && Prev(dq', dq[0] + 1, p) <= m <= dq'[p] && 0 <= m && dq'[p] < |s| ensures s[m] <= s[dq'[p]] {
      assert Prev(dq', dq[0] + 1, p) == Prev(dq, lo, p + 1);
    }
  }

  lemma GapsInit(s: seq<int>, dq: seq<int>, lo: int)
    requires Gaps(s, dq, lo) && |dq| > 0
    ensures Gaps(s, dq[..|dq| - 1], lo)
  {
    var dq' := dq[..|dq| - 1];
    forall p, m | 0 <= p < |dq'| && Prev(dq', lo, p) <= m <= dq'[p] && 0 <= m && dq'[p] < |s| ensures s[m] <= s[dq'[p]] {
      assert Prev(dq', lo, p) == Prev(dq, lo, p);
    }
  }

  lemma GapsPush(s: seq<int>, dq: seq<int>, lo: int, i: int)
    requires Gaps(s, dq, lo) && 0 <= lo && Within(dq, lo, i) && 0 <= i < |s|
    requires forall m :: After(dq, lo) <= m < i ==> s[m] <= s[i]
    ensures Gaps(s, dq + [i], lo)
  {
    var dq' := dq + [i];
    forall p, m | 0 <= p < |dq'| && Prev(dq', lo, p) <= m <= dq'[p] && 0 <= m && dq'[p] < |s| ensures s[m] <= s[dq'[p]] {
      if p < |dq| {
        assert Prev(dq', lo, p) == Prev(dq, lo, p);
      } else {
        assert Prev(dq', lo, p) == After(dq, lo);
      }
    }
  }

  /** The first index of the window ending just before i. */
  function Lo(i: int, k: int): int
  {
    if i - k >= 0 then i - k else 0
  }

  /** Dropping the front index once it falls out of the window. */
  lemma Slide(s: seq<int>, dq: seq<int>, i: int, k: int)
    requires k >= 1 && i < |s| && Monotone(s, dq, Lo(i, k), i)
    ensures var dq' := if |dq| > 0 && dq[0] <= i - k then dq[1..] else dq;
      Popping(s, dq', Lo(i + 1, k), i)
  {
    if |dq| > 0 && dq[0] <= i - k {
      SlidePast(s, dq, Lo(i, k), i);
    } else {
      SlideKeep(s, dq, Lo(i, k), Lo(i + 1, k), i);
    }
  }

  lemma SlidePast(s: seq<int>, dq: seq<int>, lo: int, i: int)
    requires i < |s| && Monotone(s, dq, lo, i) && |dq| > 0 && dq[0] == lo
    ensures Popping(s, dq[1..], lo + 1, i)
  {
    GapsTail(s, dq, lo);
  }

  lemma SlideKeep(s: seq<int>, dq: seq<int>, lo: int, lo': int, i: int)
    requires i < |s| && Monotone(s, dq, lo, i) && lo <= lo' <= i && (|dq| == 0 || dq[0] >= lo')
    ensures Popping(s, dq, lo', i)
  {
    GapsLater(s, dq, lo, lo');
  }

  /** Dropping a back entry smaller than s[i]. */
  lemma PopBack(s: seq<int>, dq: seq<int>, lo: int, i: int)
    requires Popping(s, dq, lo, i) && |dq| > 0 && s[dq[|dq| - 1]] < s[i]
    ensures Popping(s, dq[..|dq| - 1], lo, i)
  {
    var last := |dq| - 1;
    var dq' := dq[..last];
    GapsInit(s, dq, lo);
    forall m | After(dq', lo) <= m < i ensures s[m] <= s[i] {
      if m <= dq[last] {
        assert Prev(dq, lo, last) == After(dq', lo);
      }
    }
  }

  /** Appending i once no back entry is smaller. */
  lemma Push(s: seq<int>, dq: seq<int>, lo: int, i: int)
    requires Popping(s, dq, lo, i) && (|dq| == 0 || s[dq[|dq| - 1]] >= s[i])
    ensures Monotone(s, dq + [i], lo, i + 1)
  {
    var dq' := dq + [i];
    forall p, q | 0 <= p < q < |dq'| ensures s[dq'[p]] >= s[dq'[q]] {
      if q == |dq| && p < |dq| - 1 {
        assert s[dq[p]] >= s[dq[|dq| - 1]];
      }
    }
    GapsPush(s, dq, lo, i);
  }

  /** The front of a deque for a non-empty window is its maximum. */
  lemma FrontIsMax(s: seq<int>, dq: seq<int>, lo: int, hi: int)
    requires Monotone(s, dq, lo, hi) && lo < hi
    ensures |dq| > 0 && s[dq[0]] == Max(s[lo..hi])
  {
    var w := s[lo..hi];
    forall u | 0 <= u < |w| ensures w[u] <= w[dq[0] - lo] {
      var m := lo + u;
      var p := Owner(dq, lo, m);
      assert s[m] <= s[dq[p]];
      if p > 0 {
        assert s[dq[0]] >= s[dq[p]];
      }
    }
    MaxIs(w, dq[0] - lo);
  }

  /** The deque position whose stretch holds m. */
  lemma Owner(dq: seq<int>, lo: int, m: int) returns (p: int)
    requires |dq| > 0 && forall a, b :: 0 <= a < b < |dq| ==> dq[a] < dq[b]
    requires lo <= m < After(dq, lo)
    ensures 0 <= p < |dq| && Prev(dq, lo, p) <= m <= dq[p]
  {
    p := |dq| - 1;
    while Prev(dq, lo, p) > m
      invariant 0 <= p < |dq| && m <= dq[p]
      decreases p
    {
      p := p - 1;
    }
  }

  /** A window of a prefix is the same window of the whole sequence. */
  lemma WindowAt(s: seq<int>, n: int, t: int, k: int)
    requires k >= 1 && 0 <= n <= |s| && 0 <= t <= n - k
    ensures Windows(s[..n], k)[t] == Max(s[t..t + k])
  {
    assert s[..n][t..t + k] == s[t..t + k];
  }

  /** One more element adds the window that ends at it, if it is long enough. */
  lemma WindowsExtend(s: seq<int>, i: int, k: int)
    requires k >= 1 && 0 <= i < |s|
    ensures Windows(s[..i + 1], k) == Windows(s[..i], k) + (if i >= k - 1 then [Max(s[i - k + 1..i + 1])] else [])
  {
    if i >= k - 1 {
      WindowsGrow(s, i, k);
    } else {
      assert |Windows(s[..i + 1], k)| == 0 == |Windows(s[..i], k)|;
    }
  }

  lemma WindowsGrow(s: seq<int>, i: int, k: int)
    requires 1 <= k <= i + 1 <= |s|
    ensures Windows(s[..i + 1], k) == Windows(s[..i], k) + [Max(s[i - k + 1..i + 1])]
  {
    var w1, w0 := Windows(s[..i + 1], k), Windows(s[..i], k);
    forall t | 0 <= t < |w0| ensures w1[t] == w0[t] {
      WindowAt(s, i + 1, t, k);
      WindowAt(s, i, t, k);
    }
    WindowAt(s, i + 1, |w0|, k);
    assert w1 == w0 + [w1[|w0|]];
  }

  /** `maxSlidingWindow`: for k >= 1 the window maxima in order, exactly the
      brute-force answer; for k <= 0 every front index has left its window by
      the next step, so each element is its own window and the output is the
      input. */
  method MaxSlidingWindow(nums: array<int>, k: int) returns (output: seq<int>)
    ensures k >= 1 ==> output == Windows(nums[..], k)
    ensures k <= 0 ==> output == nums[..]
  {
    output := [];
    var n := nums.Length;
    var dq: seq<int> := [];
    ghost var s := nums[..];
    for i := 0 to n
      invariant Within(dq, 0, i)
      invariant k >= 1 ==> Monotone(s, dq, Lo(i, k), i) && output == Windows(s[..i], k)
      invariant k <= 0 ==> dq == (if i == 0 then [] else [i - 1]) && output == s[..i]
    {
      dq, output := Step(nums, dq, output, i, k);
    }
    assert s[..n] == s;
  }

  /** One iteration of the loop of `maxSlidingWindow` for index i. */
  method Step(nums: array<int>, dq0: seq<int>, output0: seq<int>, i: int, k: int) returns (dq: seq<int>, output: seq<int>)
    requires 0 <= i < nums.Length && Within(dq0, 0, i)
    requires k >= 1 ==> Monotone(nums[..], dq0, Lo(i, k), i) && output0 == Windows(nums[..i], k)
    requires k <= 0 ==> dq0 == (if i == 0 then [] else [i - 1]) && output0 == nums[..i]
    ensures Within(dq, 0, i + 1)
    ensures k >= 1 ==> Monotone(nums[..], dq, Lo(i + 1, k), i + 1) && output == Windows(nums[..i + 1], k)
    ensures k <= 0 ==> dq == [i] && output == nums[..i + 1]
  {
    ghost var s := nums[..];
    output := output0;
    dq := Evict(nums, dq0, i, k);
    if k >= 1 {
      WindowsExtend(s, i, k);
      Push(s, dq, Lo(i + 1, k), i);
    }
    dq := dq + [i];
    if i >= k - 1 {
      if k >= 1 {
        FrontIsMax(s, dq, i - k + 1, i + 1);
      }
      output := output + [nums[dq[0]]];
    }
  }

  /** The first part of an iteration: drop the front index if it left the
      window, then the back entries smaller than nums[i]. */
  method Evict(nums: array<int>, dq0: seq<int>, i: int, k: int) returns (dq: seq<int>)
    requires 0 <= i < nums.Length && Within(dq0, 0, i)
    requires k >= 1 ==> Monotone(nums[..], dq0, Lo(i, k), i)
    requires k <= 0 ==> |dq0| <= 1
    ensures Within(dq, 0, i)
    ensures k >= 1 ==> Popping(nums[..], dq, Lo(i + 1, k), i)
    ensures k <= 0 ==> dq == []
    ensures |dq| == 0 || nums[dq[|dq| - 1]] >= nums[i]
  {
    dq := dq0;
    if k >= 1 {
      Slide(nums[..], dq, i, k);
    }
    if |dq| > 0 && dq[0] <= i - k {
      dq := dq[1..];
    }
    dq := PopSmaller(nums, dq, i, k);
  }

  /** The inner loop of `maxSlidingWindow`: drop back entries smaller than
      nums[i]. */
  method PopSmaller(nums: array<int>, dq0: seq<int>, i: int, k: int) returns (dq: seq<int>)
    requires 0 <= i < nums.Length && Within(dq0, 0, i)
    requires k >= 1 ==> Popping(nums[..], dq0, Lo(i + 1, k), i)
    ensures Within(dq, 0, i)
    ensures k >= 1 ==> Popping(nums[..], dq, Lo(i + 1, k), i)
    ensures |dq| <= |dq0| && dq == dq0[..|dq|]
    ensures |dq| == 0 || nums[dq[|dq| - 1]] >= nums[i]
  {
    dq := dq0;
    while |dq| > 0 && nums[dq[|dq| - 1]] < nums[i]
      invariant Within(dq, 0, i)
      invariant |dq| <= |dq0| && dq == dq0[..|dq|]
      invariant k >= 1 ==> Popping(nums[..], dq, Lo(i + 1, k), i)
    {
      if k >= 1 {
        PopBack(nums[..], dq, Lo(i + 1, k), i);
      }
      dq := dq[..|dq| - 1];
    }
  }

  /** The window maxima of {1,3,-1,-3,5,3,6,7} with k = 3. */
  method Demo() returns (output: seq<int>)
    ensures output == [3, 3, 5, 5, 6, 7]
  {
    var nums := new int[8] [1, 3, -1, -3, 5, 3, 6, 7];
    output := MaxSlidingWindow(nums, 3);
    assert nums[..] == [1, 3, -1, -3, 5, 3, 6, 7];
    DemoWindows();
  }

  lemma DemoWindows()
    ensures Windows([1, 3, -1, -3, 5, 3, 6, 7], 3) == [3, 3, 5, 5, 6, 7]
  {
    var s := [1, 3, -1, -3, 5, 3, 6, 7];
    MaxIs(s[0..3], 1);
    MaxIs(s[1..4], 0);
    MaxIs(s[2..5], 2);
    MaxIs(s[3..6], 1);
    MaxIs(s[4..7], 2);
    MaxIs(s[5..8], 2);
  }
}
