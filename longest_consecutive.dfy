/** problems/arrays-hashing/smallest-consecutive-sequence/solution.java:
    the length of the longest run of consecutive integers among the
    inputs, counting each run only from its first value. */
module LongestConsecutive {
  import opened SeqUtil

  /** x, x+1, ..., x+len-1 all belong to hs. */
  predicate Run(hs: set<int>, x: int, len: int)
  {
    forall y :: x <= y < x + len ==> y in hs
  }

  /** r is the length of a longest run of hs. */
  ghost predicate Longest(hs: set<int>, r: int)
  {
    (exists x :: Run(hs, x, r)) && forall x, len :: Run(hs, x, len) ==> len <= r
  }

  /** A run is no longer than the number of distinct values. */
  lemma {:induction false} RunBound(hs: set<int>, x: int, len: int)
    requires Run(hs, x, len)
    ensures len <= |hs|
    decreases len
  {
    if len > 0 {
      var last := x + len - 1;
      assert last in hs;
      var rest := hs - {last};
      assert Run(rest, x, len - 1);
      RunBound(rest, x, len - 1);
    }
  }

  /** Every run of positive length is part of a run that starts at a value
      whose predecessor is absent. */
  lemma {:induction false} RunStart(hs: set<int>, x: int, len: int) returns (s: int)
    requires len >= 1 && Run(hs, x, len)
    ensures s <= x && s - 1 !in hs && Run(hs, s, len + (x - s))
    decreases |hs| - len
  {
    RunBound(hs, x, len);
    if x - 1 !in hs {
      s := x;
    } else {
      assert Run(hs, x - 1, len + 1);
      RunBound(hs, x - 1, len + 1);
      s := RunStart(hs, x - 1, len + 1);
    }
  }

  /** Two longest-run lengths of the same set agree, so the answer depends
      on the set of values alone, not on duplicates or order. */
  lemma LongestUnique(hs: set<int>, r1: int, r2: int)
    requires Longest(hs, r1) && Longest(hs, r2)
    ensures r1 == r2
  {
    var x1 :| Run(hs, x1, r1);
    var x2 :| Run(hs, x2, r2);
  }

  /** The counting loop of one start n: stops at the first value not in hs. */
  method Streak(hs: set<int>, n: int) returns (c: int)
    requires n in hs
    ensures c > n && c !in hs && Run(hs, n, c - n)
  {
    c := n + 1;
    while c in hs
      invariant c > n && Run(hs, n, c - n)
      decreases |hs| - (c - n)
    {
      RunBound(hs, n, c - n + 1);
      c := c + 1;
    }
  }

  /** A streak that stops at a missing value bounds every run from its start. */
  lemma StreakLongest(hs: set<int>, n: int, c: int, len: int)
    requires c > n && c !in hs && Run(hs, n, len)
    ensures len <= c - n
  {
  }

  /** All starts taken from done have runs no longer than best. */
  ghost predicate Covered(hs: set<int>, done: set<int>, best: int)
  {
    forall n, len :: n in done && n - 1 !in hs && Run(hs, n, len) ==> len <= best
  }

  /** `longestConsecutive`: the length of a longest run of input values
      (0 for no input, at least 1 otherwise, never more than the number
      of distinct values). The set is visited in an unspecified order. */
  method LongestConsecutive(nums: array<int>) returns (max: int)
    ensures Longest(set k | 0 <= k < nums.Length :: nums[k], max)
    ensures nums.Length == 0 ==> max == 0
    ensures nums.Length > 0 ==> max >= 1
    ensures max <= |set k | 0 <= k < nums.Length :: nums[k]|
  {
    var hs: set<int> := {};
    for i := 0 to nums.Length
      invariant hs == set k | 0 <= k < i :: nums[k]
    {
      hs := hs + {nums[i]};
    }
    max := 0;
    var rest := hs;
    ghost var where := 0;
    while rest != {}
      invariant rest <= hs && max >= 0 && Run(hs, where, max)
      invariant Covered(hs, hs - rest, max)
      decreases |rest|
    {
      Member(rest);
      var n :| n in rest;
      if n - 1 !in hs {
        var c := Streak(hs, n);
        if c - n > max {
          max, where := c - n, n;
        }
        forall len | Run(hs, n, len) ensures len <= max {
          StreakLongest(hs, n, c, len);
        }
      }
      rest := rest - {n};
    }
    assert hs - rest == hs;
    forall x, len | Run(hs, x, len) ensures len <= max {
      if len >= 1 {
        var s := RunStart(hs, x, len);
        assert s in hs;
      }
    }
    RunBound(hs, where, max);
    if nums.Length > 0 {
      assert nums[0] in hs && Run(hs, nums[0], 1);
    }
    assert hs == set k | 0 <= k < nums.Length :: nums[k];
  }
}
