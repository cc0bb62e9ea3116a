/** The sliding-window-log strategy of custom/RateLimiterDemo.java. The clock
    reading becomes the parameter `now` (milliseconds); the request log is the
    queue of accepted timestamps, oldest first. */
module RateLimiter {
  import opened SeqUtil

  datatype Result<T> = Ok(value: T) | Err(message: string)

  /** The log after polling every leading timestamp at or before `now - window`. */
  function Prune(log: seq<int>, now: int, window: int): (r: seq<int>)
    ensures |r| <= |log| && r == log[|log| - |r|..]
    ensures r == [] || r[0] > now - window
    ensures forall i :: 0 <= i < |log| - |r| ==> log[i] <= now - window
  {
    if log == [] || log[0] > now - window then log else Prune(log[1..], now, window)
  }

  lemma SortedSuffix(s: seq<int>, k: nat)
    requires Sorted(s) && k <= |s|
    ensures Sorted(s[k..])
  {
    forall i, j | 0 <= i < j < |s[k..]|
      ensures s[k..][i] <= s[k..][j]
    {
      assert s[k..][i] == s[k + i] && s[k..][j] == s[k + j];
    }
  }

  /** On a log kept in arrival order, pruning leaves only timestamps inside the window. */
  lemma PruneLeavesWindow(log: seq<int>, now: int, window: int)
    requires Sorted(log)
    ensures forall i :: 0 <= i < |Prune(log, now, window)| ==> Prune(log, now, window)[i] > now - window
  {
    var r := Prune(log, now, window);
    SortedSuffix(log, |log| - |r|);
    assert Sorted(r);
  }

  /** The timestamps of the log that lie inside the window ending at `now`,
      in log order: what a sliding-window log is meant to hold. */
  function InWindow(log: seq<int>, now: int, window: int): (r: seq<int>)
    ensures |r| <= |log|
    ensures forall i :: 0 <= i < |r| ==> r[i] > now - window
  {
    if log == [] then []
    else (if log[0] > now - window then [log[0]] else []) + InWindow(log[1..], now, window)
  }

  /** On a log in arrival order, the polling loop keeps exactly the timestamps
      inside the window: none inside it is dropped and none outside it is kept. */
  lemma {:induction false} PruneIsInWindow(log: seq<int>, now: int, window: int)
    requires Sorted(log)
    ensures Prune(log, now, window) == InWindow(log, now, window)
    decreases |log|
  {
    if log != [] {
      SortedSuffix(log, 1);
      if log[0] > now - window {
        AllInWindow(log, now, window);
      } else {
        PruneIsInWindow(log[1..], now, window);
      }
    }
  }

  lemma {:induction false} AllInWindow(log: seq<int>, now: int, window: int)
    requires Sorted(log) && (log == [] || log[0] > now - window)
    ensures InWindow(log, now, window) == log
    decreases |log|
  {
    if log != [] {
      SortedSuffix(log, 1);
      AllInWindow(log[1..], now, window);
    }
  }

  /** Pruning is idempotent: a second poll at the same time drops nothing more. */
  lemma {:induction false} PruneIdempotent(log: seq<int>, now: int, window: int)
    ensures Prune(Prune(log, now, window), now, window) == Prune(log, now, window)
  {
    if log != [] && log[0] <= now - window {
      PruneIdempotent(log[1..], now, window);
    }
  }

  /** The constructor's argument checks, in the order the constructor makes them. */
  function ConstructorError(windowSizeSeconds: int, maxRequests: int): (r: Option<string>)
    ensures r == None <==> windowSizeSeconds > 0 && maxRequests > 0
    ensures windowSizeSeconds <= 0 ==> r == Some("Window size must be positive.")
    ensures windowSizeSeconds > 0 && maxRequests <= 0 ==> r == Some("Max requests must be positive.")
  {
    if windowSizeSeconds <= 0 then Some("Window size must be positive.")
    else if maxRequests <= 0 then Some("Max requests must be positive.")
    else None
  }

  datatype Option<T> = None | Some(value: T)

  class SlidingWindowLogStrategy {
    const windowSizeMillis: int
    const maxRequests: int
    var requestTimestamps: seq<int>

    ghost predicate Valid()
      reads this
    {
      windowSizeMillis > 0 && maxRequests > 0 && |requestTimestamps| <= maxRequests
      && Sorted(requestTimestamps)
    }

    constructor (windowSizeSeconds: int, maxRequests: int)
      requires ConstructorError(windowSizeSeconds, maxRequests) == None
      ensures Valid() && requestTimestamps == []
      ensures windowSizeMillis == windowSizeSeconds * 1000 && this.maxRequests == maxRequests
    {
      windowSizeMillis := windowSizeSeconds * 1000;
      this.maxRequests := maxRequests;
      requestTimestamps := [];
    }

    /** The polling loop shared by `allow` and `getCurrentRequestCount`. */
    method PruneLog(now: int)
      requires Valid()
      modifies this
      ensures Valid()
      ensures requestTimestamps == Prune(old(requestTimestamps), now, windowSizeMillis)
      ensures requestTimestamps == InWindow(old(requestTimestamps), now, windowSizeMillis)
    {
      PruneIsInWindow(requestTimestamps, now, windowSizeMillis);
      SortedSuffix(requestTimestamps, |requestTimestamps| - |Prune(requestTimestamps, now, windowSizeMillis)|);
      while requestTimestamps != [] && requestTimestamps[0] <= now - windowSizeMillis
        invariant Prune(requestTimestamps, now, windowSizeMillis) == Prune(old(requestTimestamps), now, windowSizeMillis)
        decreases |requestTimestamps|
      {
        requestTimestamps := requestTimestamps[1..];
      }
    }

    /** The clock is read once per call and does not run backwards: `now` is
        not before the latest logged request. */
    method Allow(now: int) returns (allowed: bool)
      requires Valid()
      requires requestTimestamps == [] || requestTimestamps[|requestTimestamps| - 1] <= now
      modifies this
      ensures Valid()
      ensures var kept := InWindow(old(requestTimestamps), now, windowSizeMillis);
              && (allowed <==> |kept| < maxRequests)
              && (allowed ==> requestTimestamps == kept + [now])
              && (!allowed ==> requestTimestamps == kept)
      ensures forall i :: 0 <= i < |requestTimestamps| ==> now - windowSizeMillis < requestTimestamps[i] <= now
    {
      ghost var log := requestTimestamps;
      PruneLog(now);
      LastKept(log, now, windowSizeMillis);
      SortedBetween(requestTimestamps, now - windowSizeMillis, now);
      if |requestTimestamps| < maxRequests {
        SortedAppend(requestTimestamps, now);
        AppendBetween(requestTimestamps, now, now - windowSizeMillis, now);
        requestTimestamps := requestTimestamps + [now];
        return true;
      }
      return false;
    }

    method GetCurrentRequestCount(now: int) returns (count: int)
      requires Valid()
      modifies this
      ensures Valid()
      ensures requestTimestamps == InWindow(old(requestTimestamps), now, windowSizeMillis)
      ensures count == |requestTimestamps|
    {
      PruneLog(now);
      count := |requestTimestamps|;
    }
  }

  /** Build a strategy, reporting the first failed argument check as the
      constructor's exception message. */
  method NewSlidingWindowLogStrategy(windowSizeSeconds: int, maxRequests: int)
    returns (r: Result<SlidingWindowLogStrategy>)
    ensures ConstructorError(windowSizeSeconds, maxRequests).Some? ==>
              r == Err(ConstructorError(windowSizeSeconds, maxRequests).value)
    ensures ConstructorError(windowSizeSeconds, maxRequests).None? ==>
              && r.Ok? && fresh(r.value) && r.value.Valid() && r.value.requestTimestamps == []
              && r.value.windowSizeMillis == windowSizeSeconds * 1000 && r.value.maxRequests == maxRequests
  {
    var error := ConstructorError(windowSizeSeconds, maxRequests);
    if error.Some? {
      return Err(error.value);
    }
    var strategy := new SlidingWindowLogStrategy(windowSizeSeconds, maxRequests);
    return Ok(strategy);
  }

  /** With a clock that does not run backwards the log stays in arrival
      order, so an accepted request keeps it sorted. */
  lemma AllowKeepsSorted(log: seq<int>, now: int, window: int)
    requires Sorted(log) && (log == [] || log[|log| - 1] <= now)
    ensures Sorted(Prune(log, now, window) + [now])
  {
    var r := Prune(log, now, window);
    SortedSuffix(log, |log| - |r|);
    if r != [] {
      assert r[|r| - 1] == log[|log| - 1];
    }
    SortedAppend(r, now);
  }

  /** Pruning drops from the front only, so the latest timestamp, when any is
      left, is the log's latest. */
  lemma LastKept(log: seq<int>, now: int, window: int)
    ensures var r := Prune(log, now, window);
            r == [] || r[|r| - 1] == log[|log| - 1]
  {
  }

  /** Every timestamp of s is after lo and at or before hi. */
  ghost predicate Between(s: seq<int>, lo: int, hi: int)
  {
    forall i :: 0 <= i < |s| ==> lo < s[i] <= hi
  }

  lemma SortedBetween(s: seq<int>, lo: int, hi: int)
    requires Sorted(s) && (s == [] || (lo < s[0] && s[|s| - 1] <= hi))
    ensures Between(s, lo, hi)
  {
    forall i | 0 <= i < |s|
      ensures lo < s[i] <= hi
    {
      assert s[0] <= s[i] <= s[|s| - 1];
    }
  }

  lemma AppendBetween(s: seq<int>, x: int, lo: int, hi: int)
    requires Between(s, lo, hi) && lo < x <= hi
    ensures Between(s + [x], lo, hi)
  {
    forall i | 0 <= i < |s + [x]|
      ensures lo < (s + [x])[i] <= hi
    {
      if i < |s| {
        assert (s + [x])[i] == s[i];
      }
    }
  }

  lemma SortedAppend(r: seq<int>, x: int)
    requires Sorted(r) && (r == [] || r[|r| - 1] <= x)
    ensures Sorted(r + [x])
  {
    var t := r + [x];
    forall i, j | 0 <= i < j < |t|
      ensures t[i] <= t[j]
    {
      if j == |r| {
        assert t[i] == r[i] <= r[|r| - 1];
      } else {
        assert t[i] == r[i] && t[j] == r[j];
      }
    }
  }
}
