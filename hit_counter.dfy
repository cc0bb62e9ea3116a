/** The hit counter of problems/Queue/design/design-hit-counter/Solution.java:
    a deque of (timestamp, count) entries, oldest first, and a running total.
    The ghost log `hits` records every timestamp passed to `hit`, and `now`
    the latest timestamp seen; the source assumes timestamps never go back. */
module HitCounterModel {

  datatype Entry = Entry(ts: int, count: int)

  /** The hits of `s` strictly after `boundary`, in order. */
  function Above(s: seq<int>, boundary: int): (r: seq<int>)
    ensures |r| <= |s|
    ensures forall i :: 0 <= i < |r| ==> r[i] > boundary && r[i] in s
  {
    if s == [] then []
    else if s[0] > boundary then [s[0]] + Above(s[1..], boundary)
    else Above(s[1..], boundary)
  }

  /** The hits of `s` in the window (lo, hi]. */
  function InWindow(s: seq<int>, lo: int, hi: int): seq<int>
  {
    if s == [] then []
    else if lo < s[0] <= hi then [s[0]] + InWindow(s[1..], lo, hi)
    else InWindow(s[1..], lo, hi)
  }

  function Repeat(x: int, n: nat): (r: seq<int>)
    ensures |r| == n && forall i :: 0 <= i < n ==> r[i] == x
  {
    if n == 0 then [] else [x] + Repeat(x, n - 1)
  }

  /** The hits the deque stands for: each entry's timestamp, `count` times. */
  function Expand(q: seq<Entry>): seq<int>
  {
    if q == [] then [] else Repeat(q[0].ts, if q[0].count < 0 then 0 else q[0].count) + Expand(q[1..])
  }

  /** The sum of the entries' counts. */
  function Total(q: seq<Entry>): int
  {
    if q == [] then 0 else q[0].count + Total(q[1..])
  }

  /** Timestamps strictly increase from front to back and every entry counts
      at least one hit. */
  ghost predicate Ordered(q: seq<Entry>)
  {
    && (forall i, j :: 0 <= i < j < |q| ==> q[i].ts < q[j].ts)
    && (forall i :: 0 <= i < |q| ==> q[i].count >= 1)
  }

  lemma {:induction false} TotalIsSize(q: seq<Entry>)
    requires Ordered(q)
    ensures Total(q) == |Expand(q)|
  {
    if q != [] {
      assert Ordered(q[1..]);
      TotalIsSize(q[1..]);
    }
  }

  lemma {:induction false} ExpandAppend(q: seq<Entry>, e: Entry)
    ensures Expand(q + [e]) == Expand(q) + Expand([e])
    ensures Total(q + [e]) == Total(q) + e.count
  {
    if q != [] {
      assert (q + [e])[1..] == q[1..] + [e];
      ExpandAppend(q[1..], e);
    }
  }

  /** Every hit the deque stands for is the timestamp of one of its entries. */
  lemma {:induction false} ExpandFrom(q: seq<Entry>, x: int)
    requires x in Expand(q)
    ensures exists i :: 0 <= i < |q| && q[i].ts == x
  {
    if q != [] {
      var n := if q[0].count < 0 then 0 else q[0].count;
      if x !in Repeat(q[0].ts, n) {
        ExpandFrom(q[1..], x);
        var i :| 0 <= i < |q[1..]| && q[1..][i].ts == x;
        assert q[i + 1].ts == x;
      }
    }
  }

  /** Filtering twice keeps the stricter boundary. */
  lemma {:induction false} AboveAbove(s: seq<int>, c: int, d: int)
    requires c <= d
    ensures Above(Above(s, c), d) == Above(s, d)
  {
    if s != [] {
      AboveAbove(s[1..], c, d);
    }
  }

  /** A sequence all of whose elements exceed the boundary is its own filter. */
  lemma {:induction false} AboveAll(s: seq<int>, b: int)
    requires forall i :: 0 <= i < |s| ==> s[i] > b
    ensures Above(s, b) == s
  {
    if s != [] {
      AboveAll(s[1..], b);
    }
  }

  lemma {:induction false} AboveNone(s: seq<int>, b: int)
    requires forall i :: 0 <= i < |s| ==> s[i] <= b
    ensures Above(s, b) == []
  {
    if s != [] {
      AboveNone(s[1..], b);
    }
  }

  lemma {:induction false} AboveConcat(s: seq<int>, t: seq<int>, b: int)
    ensures Above(s + t, b) == Above(s, b) + Above(t, b)
  {
    if s == [] {
      assert s + t == t;
    } else {
      assert (s + t)[0] == s[0];
      assert (s + t)[1..] == s[1..] + t;
      AboveConcat(s[1..], t, b);
    }
  }

  /** Popping the front entry leaves exactly the hits after its timestamp. */
  lemma PopFront(q: seq<Entry>, hits: seq<int>, c: int)
    requires Ordered(q) && q != [] && Expand(q) == Above(hits, c) && q[0].ts in Expand(q)
    ensures Ordered(q[1..]) && Expand(q[1..]) == Above(hits, q[0].ts)
  {
    DropHead(q);
    assert c < q[0].ts;
    AboveAbove(hits, c, q[0].ts);
  }

  /** The entries behind the front stand for the hits after the front's timestamp. */
  lemma DropHead(q: seq<Entry>)
    requires Ordered(q) && q != []
    ensures Ordered(q[1..]) && Expand(q[1..]) == Above(Expand(q), q[0].ts)
  {
    var ts := q[0].ts;
    var head := Repeat(ts, q[0].count);
    var rest := Expand(q[1..]);
    assert Ordered(q[1..]);
    calc {
      Above(Expand(q), ts);
      Above(head + rest, ts);
      { AboveConcat(head, rest, ts); }
      Above(head, ts) + Above(rest, ts);
      { AboveNone(head, ts); TailAbove(q); AboveAll(rest, ts); }
      [] + rest;
    }
    assert [] + rest == rest;
  }

  /** Every hit behind the front entry is after the front's timestamp. */
  lemma TailAbove(q: seq<Entry>)
    requires Ordered(q) && q != []
    ensures forall i :: 0 <= i < |Expand(q[1..])| ==> Expand(q[1..])[i] > q[0].ts
  {
    var rest := Expand(q[1..]);
    forall i | 0 <= i < |rest|
      ensures rest[i] > q[0].ts
    {
      ExpandFrom(q[1..], rest[i]);
    }
  }

  /** Every entry's timestamp is one of the hits the deque stands for. */
  lemma {:induction false} InExpand(q: seq<Entry>, i: nat)
    requires Ordered(q) && i < |q|
    ensures q[i].ts in Expand(q)
  {
    assert Expand(q) == Repeat(q[0].ts, q[0].count) + Expand(q[1..]);
    if i == 0 {
      assert Expand(q)[0] == q[0].ts;
    } else {
      assert Ordered(q[1..]);
      InExpand(q[1..], i - 1);
    }
  }

  /** A new hit at the back's own timestamp bumps the back entry's count. */
  lemma Coalesce(q: seq<Entry>, hits: seq<int>, from: int, t: int)
    requires Ordered(q) && Expand(q) == Above(hits, from) && q != [] && q[|q| - 1].ts == t && t > from
    ensures var last := q[|q| - 1];
            var q' := q[..|q| - 1] + [last.(count := last.count + 1)];
            && Ordered(q') && Expand(q') == Above(hits + [t], from) && Total(q') == Total(q) + 1
  {
    OrderedBump(q);
    ExpandBump(q);
    AboveConcat(hits, [t], from);
  }

  lemma ExpandBump(q: seq<Entry>)
    requires q != [] && q[|q| - 1].count >= 1
    ensures var last := q[|q| - 1];
            var q' := q[..|q| - 1] + [last.(count := last.count + 1)];
            Expand(q') == Expand(q) + [last.ts] && Total(q') == Total(q) + 1
  {
    var last := q[|q| - 1];
    var front := q[..|q| - 1];
    var bumped := last.(count := last.count + 1);
    assert front + [last] == q;
    ExpandAppend(front, last);
    ExpandAppend(front, bumped);
    BumpOne(last);
  }

  lemma BumpOne(e: Entry)
    requires e.count >= 1
    ensures Expand([e.(count := e.count + 1)]) == Expand([e]) + [e.ts]
  {
    var r := Repeat(e.ts, e.count + 1);
    assert r == Repeat(e.ts, e.count) + [e.ts];
    assert Expand([e]) == Repeat(e.ts, e.count) + Expand([]);
    assert Expand([e.(count := e.count + 1)]) == r + Expand([]);
  }

  lemma OrderedBump(q: seq<Entry>)
    requires Ordered(q) && q != []
    ensures var last := q[|q| - 1];
            Ordered(q[..|q| - 1] + [last.(count := last.count + 1)])
  {
  }

  /** A new hit after the back's timestamp becomes a new back entry. */
  lemma AppendNew(q: seq<Entry>, hits: seq<int>, from: int, t: int)
    requires Ordered(q) && Expand(q) == Above(hits, from) && (q == [] || q[|q| - 1].ts < t) && t > from
    ensures var q' := q + [Entry(t, 1)];
            && Ordered(q') && Expand(q') == Above(hits + [t], from) && Total(q') == Total(q) + 1
  {
    ExpandAppend(q, Entry(t, 1));
    AboveConcat(hits, [t], from);
  }

  /** The back entry's timestamp is a recorded hit, so it is not after `now`. */
  lemma BackNotAfter(q: seq<Entry>, hits: seq<int>, from: int, now: int)
    requires Ordered(q) && Expand(q) == Above(hits, from) && q != []
    requires forall i :: 0 <= i < |hits| ==> hits[i] <= now
    ensures q[|q| - 1].ts <= now
  {
    InExpand(q, |q| - 1);
  }

  /** The deque after `hit(t)` records the hit, before eviction. */
  function Record(q: seq<Entry>, t: int): seq<Entry>
  {
    if q != [] && q[|q| - 1].ts == t then q[..|q| - 1] + [q[|q| - 1].(count := q[|q| - 1].count + 1)]
    else q + [Entry(t, 1)]
  }

  /** Recording a hit no earlier than every logged hit keeps the deque
      ordered, adds the hit to the ones it stands for and one to its total. */
  lemma RecordKeeps(q: seq<Entry>, hits: seq<int>, from: int, now: int, t: int)
    requires Ordered(q) && Expand(q) == Above(hits, from)
    requires forall i :: 0 <= i < |hits| ==> hits[i] <= now
    requires now <= t && from < t
    ensures Ordered(Record(q, t)) && Expand(Record(q, t)) == Above(hits + [t], from)
    ensures Total(Record(q, t)) == Total(q) + 1
    ensures forall i :: 0 <= i < |hits + [t]| ==> (hits + [t])[i] <= t
  {
    if q != [] && q[|q| - 1].ts == t {
      Coalesce(q, hits, from, t);
    } else {
      if q != [] {
        BackNotAfter(q, hits, from, now);
      }
      AppendNew(q, hits, from, t);
    }
  }

  /** What `hit(t)` leaves before eviction: the deque records t on top of
      the hits after some boundary `from` at or before t - 300, and a
      coalesced back entry gains one count. */
  lemma Recorded(q: seq<Entry>, hits: seq<int>, now: int, started: bool, t: int) returns (from: int)
    requires Ordered(q) && Expand(q) == Above(hits, now - 300)
    requires forall i :: 0 <= i < |hits| ==> hits[i] <= now
    requires (!started ==> hits == []) && (started ==> t >= now)
    ensures from <= t - 300
    ensures Ordered(Record(q, t)) && Expand(Record(q, t)) == Above(hits + [t], from)
    ensures Total(Record(q, t)) == Total(q) + 1
    ensures forall i :: 0 <= i < |hits + [t]| ==> (hits + [t])[i] <= t
    ensures q != [] && q[|q| - 1].ts == t ==>
              Record(q, t) != [] && Record(q, t)[|Record(q, t)| - 1] == Entry(t, q[|q| - 1].count + 1)
  {
    from := now - 300;
    var now0 := now;
    if !started {
      from := t - 300;
      now0 := t;
      AboveNone([], from);
      AboveNone([], now - 300);
    }
    RecordKeeps(q, hits, from, now0, t);
  }

  /** A new hit adds one to the hits after `t - 300`. */
  lemma HitCount(q: seq<Entry>, hits: seq<int>, t: int)
    requires Ordered(q) && Expand(q) == Above(hits + [t], t - 300)
    ensures Total(q) == |Above(hits, t - 300)| + 1
  {
    TotalIsSize(q);
    AboveConcat(hits, [t], t - 300);
  }

  /** When nothing between the two boundaries survives, they filter alike. */
  lemma StableBoundary(q: seq<Entry>, hits: seq<int>, c: int, b: int)
    requires Ordered(q) && Expand(q) == Above(hits, c) && c <= b
    requires q == [] || q[0].ts > b
    ensures Expand(q) == Above(hits, b)
  {
    forall i | 0 <= i < |Expand(q)|
      ensures Expand(q)[i] > b
    {
      ExpandFrom(q, Expand(q)[i]);
    }
    AboveAll(Expand(q), b);
    AboveAbove(hits, c, b);
  }

  /** Once every hit is at or before `t`, the hits after `t - 300` are
      exactly those in the last 300 seconds, (t - 300, t]. */
  lemma {:induction false} AboveIsWindow(hits: seq<int>, t: int)
    requires forall i :: 0 <= i < |hits| ==> hits[i] <= t
    ensures Above(hits, t - 300) == InWindow(hits, t - 300, t)
  {
    if hits != [] {
      AboveIsWindow(hits[1..], t);
    }
  }

  /** After eviction at `t` the deque's total is the number of hits in the
      last 300 seconds, and every hit is at or before `t`. */
  lemma Report(q: seq<Entry>, hits: seq<int>, now: int, t: int)
    requires Ordered(q) && Expand(q) == Above(hits, t - 300)
    requires forall i :: 0 <= i < |hits| ==> hits[i] <= now
    requires hits == [] || now <= t
    ensures Total(q) == |InWindow(hits, t - 300, t)|
    ensures forall i :: 0 <= i < |hits| ==> hits[i] <= t
  {
    TotalIsSize(q);
    AboveIsWindow(hits, t);
  }

  /** The deque and total stand for exactly the logged hits after
      `now - 300`, and no logged hit is after `now`. */
  ghost predicate Tracks(q: seq<Entry>, total: int, hits: seq<int>, now: int, started: bool)
  {
    && total == Total(q)
    && Ordered(q)
    && Expand(q) == Above(hits, now - 300)
    && (forall i :: 0 <= i < |hits| ==> hits[i] <= now)
    && (!started ==> hits == [])
  }

  /** After eviction at t the state tracks the hits up to t, and the total
      is the number of hits in the last 300 seconds. */
  lemma Reported(q: seq<Entry>, total: int, hits: seq<int>, now: int, started: bool, t: int)
    requires total == Total(q) && Ordered(q) && Expand(q) == Above(hits, t - 300)
    requires forall i :: 0 <= i < |hits| ==> hits[i] <= now
    requires (!started ==> hits == []) && (started ==> t >= now)
    ensures Tracks(q, total, hits, t, started)
    ensures total == |InWindow(hits, t - 300, t)|
  {
    Report(q, hits, now, t);
  }

  /** After a hit at t and eviction, the state tracks the log with t
      appended, and the total is one more than the earlier hits after t - 300. */
  lemma HitTracked(q: seq<Entry>, total: int, hits: seq<int>, t: int)
    requires total == Total(q) && Ordered(q) && Expand(q) == Above(hits + [t], t - 300)
    requires forall i :: 0 <= i < |hits + [t]| ==> (hits + [t])[i] <= t
    ensures Tracks(q, total, hits + [t], t, true)
    ensures total == |Above(hits, t - 300)| + 1
  {
    HitCount(q, hits, t);
  }

  class HitCounter {
    var q: seq<Entry>
    var total: int
    ghost var hits: seq<int>
    ghost var now: int
    ghost var started: bool

    ghost predicate Valid()
      reads this
    {
      Tracks(q, total, hits, now, started)
    }

    constructor ()
      ensures Valid() && q == [] && total == 0 && hits == [] && !started
    {
      q := [];
      total := 0;
      hits := [];
      now := 0;
      started := false;
    }

    /** `hit`: coalesce with the last entry when it has the same timestamp,
        else append a new entry; count it; then evict the stale entries. */
    method Hit(timestamp: int)
      requires Valid() && (started ==> timestamp >= now)
      modifies this
      ensures Valid() && started && now == timestamp
      ensures hits == old(hits) + [timestamp]
      ensures total == |Above(old(hits), timestamp - 300)| + 1
      ensures forall i :: 0 <= i < |q| ==> q[i].ts > timestamp - 300
      ensures old(q) != [] && old(q)[|old(q)| - 1].ts == timestamp ==>
                q != [] && q[|q| - 1] == Entry(timestamp, old(q)[|old(q)| - 1].count + 1)
    {
      ghost var q0, hits0 := q, hits;
      ghost var from := Recorded(q, hits, now, started, timestamp);
      q := Record(q, timestamp);
      total := total + 1;
      hits := hits + [timestamp];
      EvictOld(timestamp, from);
      HitTracked(q, total, hits0, timestamp);
      now := timestamp;
      started := true;
    }

    /** `getHits`: evict the stale entries and report the hits of the last
        300 seconds; no hit is recorded. */
    method GetHits(timestamp: int) returns (r: int)
      requires Valid() && (started ==> timestamp >= now)
      modifies this
      ensures Valid() && hits == old(hits) && now == timestamp && started == old(started)
      ensures r == |InWindow(hits, timestamp - 300, timestamp)|
    {
      ghost var from := now - 300;
      if !started {
        AboveNone([], timestamp - 300);
        AboveNone([], now - 300);
        from := timestamp - 300;
      }
      EvictOld(timestamp, from);
      Reported(q, total, hits, now, started, timestamp);
      now := timestamp;
      r := total;
    }

    /** `evictOld`: pop front entries whose timestamp is at or before
        `timestamp - 300`, taking their counts off the total. */
    method EvictOld(timestamp: int, ghost from: int)
      requires total == Total(q) && Ordered(q) && Expand(q) == Above(hits, from)
      requires from <= timestamp - 300
      modifies this
      ensures total == Total(q) && Ordered(q) && Expand(q) == Above(hits, timestamp - 300)
      ensures forall i :: 0 <= i < |q| ==> q[i].ts > timestamp - 300
      ensures hits == old(hits) && now == old(now) && started == old(started)
      ensures old(q) != [] && old(q)[|old(q)| - 1].ts > timestamp - 300 ==>
                q != [] && q[|q| - 1] == old(q)[|old(q)| - 1]
    {
      var boundary := timestamp - 300;
      ghost var c := from;
      while q != [] && q[0].ts <= boundary
        invariant total == Total(q) && Ordered(q) && Expand(q) == Above(hits, c) && c <= boundary
        invariant hits == old(hits) && now == old(now) && started == old(started)
        invariant |q| <= |old(q)| && q == old(q)[|old(q)| - |q|..]
        invariant old(q) != [] && old(q)[|old(q)| - 1].ts > boundary ==> q != []
        decreases |q|
      {
        InExpand(q, 0);
        PopFront(q, hits, c);
        c := q[0].ts;
        total := total - q[0].count;
        q := q[1..];
      }
      StableBoundary(q, hits, c, boundary);
    }
  }

  /** `getHits` records nothing, so asking twice at the same time answers alike. */
  method GetHitsTwice(counter: HitCounter, timestamp: int) returns (first: int, second: int)
    requires counter.Valid() && (counter.started ==> timestamp >= counter.now)
    modifies counter
    ensures first == second
    ensures counter.hits == old(counter.hits)
  {
    first := counter.GetHits(timestamp);
    second := counter.GetHits(timestamp);
  }
}
