/** problems/heap-priority-queue/employee-free-time/solution.java: the
    free time common to all employees, as the gaps left between the
    working intervals of everybody once they are sorted by start. */
module EmployeeFreeTime {

  datatype Interval = Interval(start: int, end: int)

  /** All schedules one after the other. */
  function Concat(schedule: seq<seq<Interval>>): seq<Interval>
  {
    if |schedule| == 0 then [] else Concat(schedule[..|schedule| - 1]) + schedule[|schedule| - 1]
  }

  /** The flattening holds exactly the intervals of the employees. */
  lemma {:induction false} ConcatMember(schedule: seq<seq<Interval>>, u: Interval)
    ensures u in Concat(schedule) <==> exists e :: 0 <= e < |schedule| && u in schedule[e]
    decreases |schedule|
  {
    if |schedule| > 0 {
      var last := |schedule| - 1;
      ConcatMember(schedule[..last], u);
      if u in Concat(schedule[..last]) {
        var e :| 0 <= e < last && u in schedule[..last][e];
        assert u in schedule[e];
      }
      if exists e :: 0 <= e < |schedule| && u in schedule[e] {
        var e :| 0 <= e < |schedule| && u in schedule[e];
        if e < last {
          assert u in schedule[..last][e];
        }
      }
    }
  }

  /** The flattening loops: every employee's intervals in turn. */
  method Flatten(schedule: seq<seq<Interval>>) returns (intervals: seq<Interval>)
    ensures intervals == Concat(schedule)
  {
    intervals := [];
    for e := 0 to |schedule|
      invariant intervals == Concat(schedule[..e])
    {
      assert schedule[..e + 1][..e] == schedule[..e];
      ghost var before := intervals;
      for t := 0 to |schedule[e]|
        invariant intervals == before + schedule[e][..t]
      {
        intervals := intervals + [schedule[e][t]];
        assert schedule[e][..t + 1] == schedule[e][..t] + [schedule[e][t]];
      }
      assert schedule[e][..|schedule[e]|] == schedule[e];
    }
    assert schedule[..|schedule|] == schedule;
  }

  predicate SortedByStart(s: seq<Interval>)
  {
    forall p, q :: 0 <= p < q < |s| ==> s[p].start <= s[q].start
  }

  predicate WellFormed(s: seq<Interval>)
  {
    forall k :: 0 <= k < |s| ==> s[k].start <= s[k].end
  }

  /** Point x lies in interval u (ends are exclusive). */
  predicate Covers(u: Interval, x: int)
  {
    u.start <= x < u.end
  }

  /** Nobody works at x. */
  predicate Free(s: seq<Interval>, x: int)
  {
    forall k :: 0 <= k < |s| ==> !Covers(s[k], x)
  }

  /** No interval of s overlaps g. */
  predicate Avoids(s: seq<Interval>, g: Interval)
  {
    forall k :: 0 <= k < |s| ==> s[k].end <= g.start || s[k].start >= g.end
  }

  predicate InGap(res: seq<Interval>, x: int)
  {
    exists p :: 0 <= p < |res| && Covers(res[p], x)
  }

  /** Gaps in increasing order, each ending no later than the next starts. */
  predicate Ordered(res: seq<Interval>)
  {
    forall p :: 0 <= p < |res| - 1 ==> res[p].end <= res[p + 1].start
  }

  /** `end` before interval i is looked at: the first interval's end, raised
      to every end seen before i. */
  function RunEnd(s: seq<Interval>, i: int): (e: int)
    requires 0 <= i <= |s| && |s| >= 1
    ensures forall k :: 0 <= k < i ==> s[k].end <= e
    ensures s[0].end <= e
  {
    if i == 0 then s[0].end
    else var e := RunEnd(s, i - 1); if e >= s[i - 1].end then e else s[i - 1].end
  }

  /** Everything promised of the gaps found among the first i intervals. */
  ghost predicate Scanned(s: seq<Interval>, res: seq<Interval>, i: int)
    requires 1 <= |s| && 0 <= i <= |s|
  {
    && (forall p :: 0 <= p < |res| ==> res[p].start < res[p].end && Avoids(s, res[p]))
    && (forall x :: Free(s, x) && s[0].start <= x && i >= 1 && x < s[i - 1].start ==> InGap(res, x))
    && (WellFormed(s) ==> Ordered(res) && (|res| > 0 ==> res[|res| - 1].end <= RunEnd(s, i)))
  }

  /** Every gap found among the first i intervals is the pair [end, start]
      the loop emits at interval from[p] < i, which starts after `end`. */
  ghost predicate Emitted(s: seq<Interval>, res: seq<Interval>, from: seq<int>, i: int)
    requires 1 <= |s| && 0 <= i <= |s|
  {
    |from| == |res| &&
    forall p :: 0 <= p < |res| ==>
      0 <= from[p] < i && s[from[p]].start > RunEnd(s, from[p]) && res[p] == Interval(RunEnd(s, from[p]), s[from[p]].start)
  }

  /** One iteration emits at most the gap opened by interval i. */
  lemma EmittedStep(s: seq<Interval>, res: seq<Interval>, from: seq<int>, i: int)
    requires 1 <= |s| && 0 <= i < |s| && Emitted(s, res, from, i)
    ensures s[i].start > RunEnd(s, i) ==> Emitted(s, res + [Interval(RunEnd(s, i), s[i].start)], from + [i], i + 1)
    ensures s[i].start <= RunEnd(s, i) ==> Emitted(s, res, from, i + 1)
  {
  }

  /** With well-formed intervals an emitted gap lies in the working span:
      after the first start and before the end of some interval. */
  lemma InSpan(s: seq<Interval>, res: seq<Interval>, from: seq<int>)
    requires 1 <= |s| && WellFormed(s) && Emitted(s, res, from, |s|)
    ensures forall p, x :: 0 <= p < |res| && Covers(res[p], x) ==>
              s[0].start <= x && exists k :: 0 <= k < |s| && x < s[k].end
  {
    forall p, x | 0 <= p < |res| && Covers(res[p], x)
      ensures s[0].start <= x && exists k :: 0 <= k < |s| && x < s[k].end
    {
      var t := from[p];
      assert s[0].start <= s[0].end <= RunEnd(s, t);
      assert x < s[t].start <= s[t].end;
    }
  }

  /** One iteration: a gap [end, start] is added exactly when the next
      interval starts after everything seen so far has ended. */
  lemma Step(s: seq<Interval>, res: seq<Interval>, i: int)
    requires 1 <= |s| && 0 <= i < |s| && SortedByStart(s) && Scanned(s, res, i)
    ensures s[i].start > RunEnd(s, i) ==> Scanned(s, res + [Interval(RunEnd(s, i), s[i].start)], i + 1)
    ensures s[i].start <= RunEnd(s, i) ==> Scanned(s, res, i + 1)
  {
    var e := RunEnd(s, i);
    var g := Interval(e, s[i].start);
    var res' := if s[i].start > e then res + [g] else res;
    forall x | Free(s, x) && s[0].start <= x && x < s[i].start ensures InGap(res', x) {
      StepCovers(s, res, i, res', x);
    }
    if s[i].start > e {
      assert Avoids(s, g) by {
        forall k | 0 <= k < |s| ensures s[k].end <= g.start || s[k].start >= g.end {
          if k >= i {
            assert s[i].start <= s[k].start || k == i;
          }
        }
      }
    }
    if WellFormed(s) {
      assert RunEnd(s, i + 1) >= e && RunEnd(s, i + 1) >= s[i].end >= s[i].start;
    }
  }

  /** A free point before interval i starts lies in a gap found so far or
      in the one interval i opens. */
  lemma StepCovers(s: seq<Interval>, res: seq<Interval>, i: int, res': seq<Interval>, x: int)
    requires 1 <= |s| && 0 <= i < |s| && SortedByStart(s) && Scanned(s, res, i)
    requires res' == if s[i].start > RunEnd(s, i) then res + [Interval(RunEnd(s, i), s[i].start)] else res
    requires Free(s, x) && s[0].start <= x && x < s[i].start
    ensures InGap(res', x)
  {
    if i >= 1 && x < s[i - 1].start {
      var p :| 0 <= p < |res| && Covers(res[p], x);
      assert res'[p] == res[p];
    } else {
      forall k | 0 <= k < i ensures s[k].end <= x {
        assert !Covers(s[k], x);
      }
      RunEndBelow(s, i, x);
      assert Covers(res'[|res'| - 1], x);
    }
  }

  /** A point at or after every end seen before i is at or after RunEnd. */
  lemma {:induction false} RunEndBelow(s: seq<Interval>, i: int, x: int)
    requires 1 <= |s| && 0 <= i <= |s|
    requires s[0].end <= x && forall k :: 0 <= k < i ==> s[k].end <= x
    ensures RunEnd(s, i) <= x
    decreases i
  {
    if i > 0 {
      RunEndBelow(s, i - 1, x);
    }
  }

  /** What the finished loop has found: sound, covering, emitted gaps in
      order, inside the working span. */
  lemma Gaps(s: seq<Interval>, res: seq<Interval>, from: seq<int>)
    requires 1 <= |s| && SortedByStart(s) && Scanned(s, res, |s|) && Emitted(s, res, from, |s|)
    ensures forall p :: 0 <= p < |res| ==> res[p].start < res[p].end && Avoids(s, res[p])
    ensures forall x :: Free(s, x) && s[0].start <= x && (exists k :: 0 <= k < |s| && x < s[k].end) ==> InGap(res, x)
    ensures WellFormed(s) ==> Ordered(res)
    ensures forall p :: 0 <= p < |res| ==>
              exists t :: 0 <= t < |s| && s[t].start > RunEnd(s, t) && res[p] == Interval(RunEnd(s, t), s[t].start)
    ensures WellFormed(s) ==> forall p, x :: 0 <= p < |res| && Covers(res[p], x) ==>
              s[0].start <= x && exists k :: 0 <= k < |s| && x < s[k].end
  {
    Covered(s, res);
    EmittedPairs(s, res, from);
    if WellFormed(s) {
      InSpan(s, res, from);
    }
  }

  /** Every free point of the working span lies in a gap. */
  lemma Covered(s: seq<Interval>, res: seq<Interval>)
    requires 1 <= |s| && SortedByStart(s) && Scanned(s, res, |s|)
    ensures forall x :: Free(s, x) && s[0].start <= x && (exists k :: 0 <= k < |s| && x < s[k].end) ==> InGap(res, x)
  {
    forall x | Free(s, x) && s[0].start <= x && (exists k :: 0 <= k < |s| && x < s[k].end)
      ensures InGap(res, x)
    {
      var k :| 0 <= k < |s| && x < s[k].end;
      assert !Covers(s[k], x);
      assert k == |s| - 1 || s[k].start <= s[|s| - 1].start;
    }
  }

  /** Every gap is a pair the loop emits. */
  lemma EmittedPairs(s: seq<Interval>, res: seq<Interval>, from: seq<int>)
    requires 1 <= |s| && Emitted(s, res, from, |s|)
    ensures forall p :: 0 <= p < |res| ==>
              exists t :: 0 <= t < |s| && s[t].start > RunEnd(s, t) && res[p] == Interval(RunEnd(s, t), s[t].start)
  {
    forall p | 0 <= p < |res|
      ensures exists t :: 0 <= t < |s| && s[t].start > RunEnd(s, t) && res[p] == Interval(RunEnd(s, t), s[t].start)
    {
      var t := from[p];
    }
  }

  /** The loop of `employeeFreeTime` over the sorted intervals. */
  method Scan(sorted: seq<Interval>) returns (res: seq<Interval>, ghost from: seq<int>)
    requires 1 <= |sorted| && SortedByStart(sorted)
    ensures Scanned(sorted, res, |sorted|) && Emitted(sorted, res, from, |sorted|)
  {
    res := [];
    from := [];
    var end := sorted[0].end;
    for i := 0 to |sorted|
      invariant end == RunEnd(sorted, i)
      invariant Scanned(sorted, res, i)
      invariant Emitted(sorted, res, from, i)
    {
      Step(sorted, res, i);
      EmittedStep(sorted, res, from, i);
      if sorted[i].start > end {
        res := res + [Interval(end, sorted[i].start)];
        from := from + [i];
      }
      end := if end >= sorted[i].end then end else sorted[i].end;
    }
  }

  /** `employeeFreeTime`. The library sort is outside the model: `sorted`
      is the flattened schedule rearranged by start, as `Collections.sort`
      returns it, and it must not be empty (the source reads its first
      interval). Every gap is non-empty and overlaps nobody's interval;
      every free point from the first start to the last end lies in a gap;
      with well-formed intervals the gaps come in order without overlap. */
  method FreeTime(schedule: seq<seq<Interval>>, sorted: seq<Interval>) returns (res: seq<Interval>)
    requires multiset(sorted) == multiset(Concat(schedule)) && SortedByStart(sorted)
    requires |Concat(schedule)| >= 1
    ensures forall p :: 0 <= p < |res| ==> res[p].start < res[p].end && Avoids(sorted, res[p])
    ensures forall x :: Free(sorted, x) && sorted[0].start <= x && (exists k :: 0 <= k < |sorted| && x < sorted[k].end) ==> InGap(res, x)
    ensures WellFormed(sorted) ==> Ordered(res)
    ensures forall p :: 0 <= p < |res| ==>
              exists t :: 0 <= t < |sorted| && sorted[t].start > RunEnd(sorted, t) && res[p] == Interval(RunEnd(sorted, t), sorted[t].start)
    ensures WellFormed(sorted) ==> forall p, x :: 0 <= p < |res| && Covers(res[p], x) ==>
              sorted[0].start <= x && exists k :: 0 <= k < |sorted| && x < sorted[k].end
  {
    var intervals := Flatten(schedule);
    assert |sorted| == |multiset(sorted)| == |intervals|;
    ghost var from;
    res, from := Scan(sorted);
    Gaps(sorted, res, from);
  }
}
