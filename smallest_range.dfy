/** problems/sliding-window/smallest-range-covering-elements-from-k-lists/
    solution.java: the narrowest range [lo, hi] holding at least one
    element of each of k sorted lists. A priority queue holds the current
    element of every list; the smallest is taken out and replaced by its
    successor, while `currMax` tracks the largest value in the queue. */
module SmallestRange {

  const IntMax := 0x7fff_ffff
  const IntMin := -0x8000_0000

  /** A queue entry: a value, its list and its position in that list. */
  datatype Entry = Entry(val: int, list: int, idx: int)

  predicate NonEmpty(nums: seq<seq<int>>)
  {
    forall l :: 0 <= l < |nums| ==> |nums[l]| >= 1
  }

  predicate SortedLists(nums: seq<seq<int>>)
  {
    forall l, p, q :: 0 <= l < |nums| && 0 <= p <= q < |nums[l]| ==> nums[l][p] <= nums[l][q]
  }

  /** Java ints, and no two elements so far apart that `currMax - currVal`
      reaches `Integer.MAX_VALUE`. */
  predicate InRange(nums: seq<seq<int>>)
  {
    && (forall l, i :: 0 <= l < |nums| && 0 <= i < |nums[l]| ==> IntMin <= nums[l][i] <= IntMax)
    && (forall l, i, m, j :: 0 <= l < |nums| && 0 <= i < |nums[l]| && 0 <= m < |nums| && 0 <= j < |nums[m]| ==>
          nums[l][i] - nums[m][j] < IntMax)
  }

  /** Some element of list s lies in [lo, hi]. */
  predicate Meets(s: seq<int>, lo: int, hi: int)
  {
    exists i :: 0 <= i < |s| && lo <= s[i] <= hi
  }

  /** [lo, hi] holds an element of every list. */
  predicate Covering(nums: seq<seq<int>>, lo: int, hi: int)
  {
    forall l :: 0 <= l < |nums| ==> Meets(nums[l], lo, hi)
  }

  /** The queue holds exactly one entry per list, the one at that list's
      current position. */
  predicate Queue(nums: seq<seq<int>>, pq: seq<Entry>, ptr: seq<int>)
  {
    && |ptr| == |nums| && |pq| == |nums|
    && (forall l :: 0 <= l < |nums| ==> 0 <= ptr[l] < |nums[l]|)
    && (forall t :: 0 <= t < |pq| ==>
          0 <= pq[t].list < |nums| && pq[t].idx == ptr[pq[t].list] && pq[t].val == nums[pq[t].list][pq[t].idx])
    && (forall t, u :: 0 <= t < u < |pq| ==> pq[t].list != pq[u].list)
    && (forall l :: 0 <= l < |nums| ==> Present(pq, l))
  }

  /** Some entry of the queue belongs to list l. */
  predicate Present(pq: seq<Entry>, l: int)
  {
    exists t :: 0 <= t < |pq| && pq[t].list == l
  }

  /** mx is the largest value in the queue. */
  predicate MaxIs(pq: seq<Entry>, mx: int)
  {
    (forall t :: 0 <= t < |pq| ==> pq[t].val <= mx) && exists t :: 0 <= t < |pq| && pq[t].val == mx
  }

  predicate MinAt(pq: seq<Entry>, m: int)
  {
    0 <= m < |pq| && forall t :: 0 <= t < |pq| ==> pq[m].val <= pq[t].val
  }

  /** Every element each list has moved past is below a. */
  ghost predicate Skipped(nums: seq<seq<int>>, ptr: seq<int>, a: int)
    requires |ptr| == |nums|
  {
    forall l, i :: 0 <= l < |nums| && 0 <= i < ptr[l] && i < |nums[l]| ==> nums[l][i] < a
  }

  /** The elements not yet taken out of the queue. */
  function Left(nums: seq<seq<int>>, ptr: seq<int>, n: int): int
    requires |ptr| == |nums| && 0 <= n <= |nums|
  {
    if n == 0 then 0 else Left(nums, ptr, n - 1) + |nums[n - 1]| - ptr[n - 1]
  }

  lemma {:induction false} LeftStep(nums: seq<seq<int>>, ptr: seq<int>, k: int, n: int)
    requires |ptr| == |nums| && 0 <= k < |nums| && 0 <= n <= |nums|
    ensures Left(nums, ptr[k := ptr[k] + 1], n) == Left(nums, ptr, n) - (if k < n then 1 else 0)
    decreases n
  {
    if n > 0 {
      LeftStep(nums, ptr, k, n - 1);
    }
  }

  lemma {:induction false} LeftPos(nums: seq<seq<int>>, ptr: seq<int>, n: int)
    requires |ptr| == |nums| && 0 <= n <= |nums|
    requires forall l :: 0 <= l < |nums| ==> ptr[l] < |nums[l]|
    ensures Left(nums, ptr, n) >= n
    decreases n
  {
    if n > 0 {
      LeftPos(nums, ptr, n - 1);
    }
  }

  lemma MinExists(pq: seq<Entry>)
    requires |pq| > 0
    ensures exists m :: MinAt(pq, m)
  {
    if |pq| > 1 {
      MinExists(pq[1..]);
      var m :| MinAt(pq[1..], m);
      if pq[0].val <= pq[1..][m].val {
        assert MinAt(pq, 0);
      } else {
        assert MinAt(pq, m + 1);
      }
    } else {
      assert MinAt(pq, 0);
    }
  }

  /** The range from the smallest to the largest value in the queue holds
      the current element of every list. */
  lemma Candidate(nums: seq<seq<int>>, pq: seq<Entry>, ptr: seq<int>, m: int, mx: int)
    requires Queue(nums, pq, ptr) && MinAt(pq, m) && MaxIs(pq, mx)
    ensures Covering(nums, pq[m].val, mx)
  {
    forall l | 0 <= l < |nums| ensures Meets(nums[l], pq[m].val, mx) {
      assert Present(pq, l);
      var t :| 0 <= t < |pq| && pq[t].list == l;
      assert pq[m].val <= nums[l][pq[t].idx] <= mx;
    }
  }

  /** Against a range [a, b] holding an element of every list, while no
      list has moved past an element >= a: the queue's largest value is
      at most b, and a smallest value below a has a successor and moving
      past it keeps the property. */
  lemma Pop(nums: seq<seq<int>>, pq: seq<Entry>, ptr: seq<int>, m: int, mx: int, a: int, b: int)
    requires SortedLists(nums) && Queue(nums, pq, ptr) && MinAt(pq, m) && MaxIs(pq, mx)
    requires Covering(nums, a, b) && Skipped(nums, ptr, a)
    ensures mx <= b
    ensures pq[m].val < a ==>
      pq[m].idx + 1 < |nums[pq[m].list]| && Skipped(nums, ptr[pq[m].list := pq[m].idx + 1], a)
  {
    var t :| 0 <= t < |pq| && pq[t].val == mx;
    var l := pq[t].list;
    assert Meets(nums[l], a, b);
    var i :| 0 <= i < |nums[l]| && a <= nums[l][i] <= b;
    assert ptr[l] <= i;
    assert nums[l][ptr[l]] <= nums[l][i];
    if pq[m].val < a {
      var k := pq[m].list;
      var ptr' := ptr[k := pq[m].idx + 1];
      assert Meets(nums[k], a, b);
      var j :| 0 <= j < |nums[k]| && a <= nums[k][j] <= b;
      assert ptr[k] != j;
      assert ptr[k] < j;
      forall l', i' | 0 <= l' < |nums| && 0 <= i' < ptr'[l'] && i' < |nums[l']| ensures nums[l'][i'] < a {
        if l' == k && i' == ptr[k] {
          assert nums[k][i'] == pq[m].val;
        }
      }
    }
  }

  /** Taking out entry m and queuing its successor keeps one entry per list. */
  lemma Requeue(nums: seq<seq<int>>, pq: seq<Entry>, ptr: seq<int>, m: int)
    requires Queue(nums, pq, ptr) && 0 <= m < |pq| && pq[m].idx + 1 < |nums[pq[m].list]|
    ensures var e := pq[m];
      Queue(nums, pq[..m] + pq[m + 1..] + [Entry(nums[e.list][e.idx + 1], e.list, e.idx + 1)], ptr[e.list := e.idx + 1])
  {
    var e := pq[m];
    var rest := pq[..m] + pq[m + 1..];
    var pq' := rest + [Entry(nums[e.list][e.idx + 1], e.list, e.idx + 1)];
    var ptr' := ptr[e.list := e.idx + 1];
    forall t | 0 <= t < |rest| ensures rest[t] == pq[if t < m then t else t + 1] {
    }
    forall l | 0 <= l < |nums| ensures Present(pq', l) {
      if l == e.list {
        assert pq'[|pq'| - 1].list == l;
      } else {
        assert Present(pq, l);
        var t :| 0 <= t < |pq| && pq[t].list == l;
        assert pq'[if t < m then t else t - 1].list == l;
      }
    }
    forall t, u | 0 <= t < u < |pq'| ensures pq'[t].list != pq'[u].list {
      if u == |pq'| - 1 {
        assert pq'[t] == pq[if t < m then t else t + 1];
      } else {
        assert pq'[t] == pq[if t < m then t else t + 1] && pq'[u] == pq[if u < m then u else u + 1];
      }
    }
    forall t | 0 <= t < |pq'| ensures pq'[t].idx == ptr'[pq'[t].list] {
      if t < |pq'| - 1 {
        assert pq'[t] == pq[if t < m then t else t + 1];
      }
    }
  }

  /** The queue's largest value after the successor is added. */
  lemma RequeueMax(pq: seq<Entry>, m: int, mx: int, x: Entry)
    requires MaxIs(pq, mx) && MinAt(pq, m) && x.val >= pq[m].val
    ensures MaxIs(pq[..m] + pq[m + 1..] + [x], if mx >= x.val then mx else x.val)
  {
    var pq' := pq[..m] + pq[m + 1..] + [x];
    forall t | 0 <= t < |pq'| - 1 ensures pq'[t] == pq[if t < m then t else t + 1] {
    }
    if mx >= x.val {
      var t :| 0 <= t < |pq| && pq[t].val == mx;
      if t == m {
        assert pq'[|pq'| - 1].val == mx;
      } else {
        assert pq'[if t < m then t else t - 1].val == mx;
      }
    } else {
      assert pq'[|pq'| - 1].val == x.val;
    }
  }

  /** The stored range is optimal against [a, b], or the lists have not
      yet moved past a. */
  ghost predicate Beats(nums: seq<seq<int>>, ptr: seq<int>, seen: bool, lo: int, hi: int)
    requires |ptr| == |nums|
  {
    forall a, b :: Covering(nums, a, b) ==> Skipped(nums, ptr, a) || (seen && hi - lo <= b - a)
  }

  /** The first loop: queue the head of every list and note the largest. */
  method Heads(nums: seq<seq<int>>) returns (pq: seq<Entry>, currMax: int)
    requires NonEmpty(nums) && InRange(nums)
    ensures Queue(nums, pq, seq(|nums|, _ => 0))
    ensures |nums| >= 1 ==> MaxIs(pq, currMax)
  {
    currMax := IntMin;
    pq := [];
    for i := 0 to |nums|
      invariant pq == seq(i, l requires 0 <= l < i => Entry(nums[l][0], l, 0))
      invariant forall t :: 0 <= t < i ==> nums[t][0] <= currMax
      invariant (i == 0 && currMax == IntMin) || exists t :: 0 <= t < i && nums[t][0] == currMax
    {
      currMax := if currMax >= nums[i][0] then currMax else nums[i][0];
      pq := pq + [Entry(nums[i][0], i, 0)];
    }
    forall l | 0 <= l < |nums| ensures Present(pq, l) {
      assert pq[l].list == l;
    }
    if |nums| >= 1 {
      var t :| 0 <= t < |nums| && nums[t][0] == currMax;
      assert pq[t].val == currMax;
    }
  }

  /** Everything the main loop keeps. */
  ghost predicate Inv(nums: seq<seq<int>>, pq: seq<Entry>, mx: int, ptr: seq<int>, seen: bool, lo: int, hi: int)
  {
    && Queue(nums, pq, ptr)
    && (|nums| >= 1 ==> MaxIs(pq, mx))
    && (seen ==> Covering(nums, lo, hi))
    && (!seen ==> lo == 0 && hi == IntMax)
    && (|nums| >= 1 || !seen)
    && Beats(nums, ptr, seen, lo, hi)
  }

  /** The stored range after the smallest entry is compared: replaced by
      [val, mx] exactly when that is strictly narrower. */
  predicate Compared(e: Entry, mx: int, seen: bool, lo: int, hi: int, seen': bool, lo': int, hi': int)
  {
    if mx - e.val < hi - lo then seen' && lo' == e.val && hi' == mx
    else seen' == seen && lo' == lo && hi' == hi
  }

  /** One round that queues the successor of the smallest entry keeps the
      loop invariant. */
  lemma Advance(nums: seq<seq<int>>, pq: seq<Entry>, mx: int, ptr: seq<int>, seen: bool, lo: int, hi: int, m: int,
                pq': seq<Entry>, mx': int, ptr': seq<int>, seen': bool, lo': int, hi': int)
    requires SortedLists(nums) && InRange(nums) && Inv(nums, pq, mx, ptr, seen, lo, hi)
    requires MinAt(pq, m) && pq[m].idx + 1 < |nums[pq[m].list]|
    requires Compared(pq[m], mx, seen, lo, hi, seen', lo', hi')
    requires var e := pq[m];
      var x := Entry(nums[e.list][e.idx + 1], e.list, e.idx + 1);
      && pq' == pq[..m] + pq[m + 1..] + [x]
      && mx' == (if mx >= x.val then mx else x.val)
      && ptr' == ptr[e.list := e.idx + 1]
    ensures Inv(nums, pq', mx', ptr', seen', lo', hi')
  {
    var e := pq[m];
    var x := Entry(nums[e.list][e.idx + 1], e.list, e.idx + 1);
    assert Queue(nums, pq', ptr') by {
      Requeue(nums, pq, ptr, m);
    }
    assert MaxIs(pq', mx') by {
      RequeueMax(pq, m, mx, x);
    }
    assert seen' ==> Covering(nums, lo', hi') by {
      Candidate(nums, pq, ptr, m, mx);
    }
    assert Beats(nums, ptr', seen', lo', hi') by {
      AdvanceBeats(nums, pq, mx, ptr, seen, lo, hi, m, seen', lo', hi');
    }
  }

  /** Moving one list forward, while every position stays inside its list,
      leaves fewer elements to take out. */
  lemma LeftDown(nums: seq<seq<int>>, ptr: seq<int>, k: int, i: int)
    requires |ptr| == |nums| && 0 <= k < |nums| && ptr[k] == i && i + 1 < |nums[k]|
    requires forall l :: 0 <= l < |nums| ==> ptr[l] < |nums[l]|
    ensures 0 <= Left(nums, ptr[k := i + 1], |nums|) < Left(nums, ptr, |nums|)
  {
    LeftStep(nums, ptr, k, |nums|);
    LeftPos(nums, ptr[k := i + 1], |nums|);
  }

  /** Moving past the smallest entry keeps every covering range either
      ahead of the lists or no narrower than the stored one. */
  lemma AdvanceBeats(nums: seq<seq<int>>, pq: seq<Entry>, mx: int, ptr: seq<int>, seen: bool, lo: int, hi: int, m: int,
                     seen': bool, lo': int, hi': int)
    requires SortedLists(nums) && InRange(nums) && Queue(nums, pq, ptr) && MaxIs(pq, mx)
    requires Beats(nums, ptr, seen, lo, hi) && (!seen ==> lo == 0 && hi == IntMax)
    requires MinAt(pq, m) && Compared(pq[m], mx, seen, lo, hi, seen', lo', hi')
    ensures Beats(nums, ptr[pq[m].list := pq[m].idx + 1], seen', lo', hi')
  {
    assert mx - pq[m].val < IntMax by {
      var t :| 0 <= t < |pq| && pq[t].val == mx;
    }
    var ptr' := ptr[pq[m].list := pq[m].idx + 1];
    forall a, b | Covering(nums, a, b) ensures Skipped(nums, ptr', a) || (seen' && hi' - lo' <= b - a) {
      if Skipped(nums, ptr, a) {
        Pop(nums, pq, ptr, m, mx, a, b);
      }
    }
  }

  /** A round whose smallest entry ends its list: every covering range is
      at least as wide as the stored one, which is now set. */
  lemma Finish(nums: seq<seq<int>>, pq: seq<Entry>, mx: int, ptr: seq<int>, seen: bool, lo: int, hi: int,
               m: int, seen': bool, lo': int, hi': int)
    requires SortedLists(nums) && InRange(nums) && Inv(nums, pq, mx, ptr, seen, lo, hi)
    requires MinAt(pq, m) && pq[m].idx + 1 >= |nums[pq[m].list]|
    requires Compared(pq[m], mx, seen, lo, hi, seen', lo', hi')
    ensures seen' && Covering(nums, lo', hi')
    ensures forall a, b :: Covering(nums, a, b) ==> hi' - lo' <= b - a
  {
    Candidate(nums, pq, ptr, m, mx);
    assert mx - pq[m].val < IntMax by {
      var t :| 0 <= t < |pq| && pq[t].val == mx;
    }
    forall a, b | Covering(nums, a, b) ensures seen' && hi' - lo' <= b - a {
      if Skipped(nums, ptr, a) {
        Pop(nums, pq, ptr, m, mx, a, b);
      }
    }
  }

  /** One pass of the main loop of `smallestRange`: take out the smallest
      entry, compare [its value, currMax] with the stored range, then put
      the next element of its list in, or report that the list ran out. */
  method Poll(nums: seq<seq<int>>, pq0: seq<Entry>, mx0: int, ghost ptr0: seq<int>, ghost seen0: bool, lo0: int, hi0: int)
    returns (pq: seq<Entry>, currMax: int, ghost ptr: seq<int>, ghost seen: bool, lo: int, hi: int, more: bool)
    requires SortedLists(nums) && InRange(nums) && Inv(nums, pq0, mx0, ptr0, seen0, lo0, hi0) && |pq0| > 0
    ensures more ==> Inv(nums, pq, currMax, ptr, seen, lo, hi)
    ensures more ==> 0 <= Left(nums, ptr, |nums|) < Left(nums, ptr0, |nums|)
    ensures !more ==> |nums| >= 1 && Covering(nums, lo, hi)
    ensures !more ==> forall a, b :: Covering(nums, a, b) ==> hi - lo <= b - a
  {
    MinExists(pq0);
    var m :| MinAt(pq0, m);
    var e := pq0[m];
    pq, currMax, ptr, seen, lo, hi := pq0[..m] + pq0[m + 1..], mx0, ptr0, seen0, lo0, hi0;
    if currMax - e.val < hi - lo {
      lo, hi := e.val, currMax;
      seen := true;
    }
    if e.idx + 1 < |nums[e.list]| {
      var nextVal := nums[e.list][e.idx + 1];
      pq := pq + [Entry(nextVal, e.list, e.idx + 1)];
      currMax := if currMax >= nextVal then currMax else nextVal;
      ptr := ptr[e.list := e.idx + 1];
      Advance(nums, pq0, mx0, ptr0, seen0, lo0, hi0, m, pq, currMax, ptr, seen, lo, hi);
      LeftDown(nums, ptr0, e.list, e.idx);
      more := true;
    } else {
      Finish(nums, pq0, mx0, ptr0, seen0, lo0, hi0, m, seen, lo, hi);
      more := false;
    }
  }

  /** `smallestRange`, returning `smallRange[0]` and `smallRange[1]`. For
      at least one list the result holds an element of every list and no
      such range is narrower; for no lists it is the initial [0, MAX]. */
  method Smallest(nums: seq<seq<int>>) returns (lo: int, hi: int)
    requires NonEmpty(nums) && SortedLists(nums) && InRange(nums)
    ensures |nums| == 0 ==> lo == 0 && hi == IntMax
    ensures |nums| >= 1 ==> Covering(nums, lo, hi)
    ensures |nums| >= 1 ==> forall a, b :: Covering(nums, a, b) ==> hi - lo <= b - a
  {
    var pq, currMax := Heads(nums);
    ghost var ptr: seq<int> := seq(|nums|, _ => 0);
    ghost var seen := false;
    lo, hi := 0, IntMax;
    while |pq| > 0
      invariant Inv(nums, pq, currMax, ptr, seen, lo, hi)
      decreases Left(nums, ptr, |nums|)
    {
      var more;
      pq, currMax, ptr, seen, lo, hi, more := Poll(nums, pq, currMax, ptr, seen, lo, hi);
      if !more {
        break;
      }
    }
  }
}
