/** problems/arrays-hashing/top-k-frequent-elements/solution.java: the k
    most frequent values, found by counting into a map, spreading the
    values over buckets indexed by their count and reading the buckets
    from the highest count down. */
module TopKFrequent {

  import opened SeqUtil

  /** The distinct values of s. */
  function Keys(s: seq<int>): set<int>
  {
    set x | x in s
  }

  /** The values occurring at least c times. */
  function Above(s: seq<int>, c: int): set<int>
  {
    set x | x in s && multiset(s)[x] >= c
  }

  /** The values of w in non-increasing order of their count in s. */
  predicate ByCount(s: seq<int>, w: seq<int>)
  {
    forall p, q :: 0 <= p < q < |w| ==> multiset(s)[w[p]] >= multiset(s)[w[q]]
  }

  /** What the source needs so that no bucket overshoots `output`: either
      all distinct values fit, or some count threshold c selects exactly k
      of them (a unique top k). With k = 0 only the empty input fits. */
  ghost predicate TopUnique(s: seq<int>, k: int)
  {
    0 <= k && (|Keys(s)| <= k || (k >= 1 && exists c :: 1 <= c && |Above(s, c)| == k))
  }

  /** Without a unique top k the last loop writes past output: with
      nums = [1, 2] and k = 1 both values sit in bucket 1 together. */
  lemma Overshoot()
    ensures !TopUnique([1, 2], 1)
  {
    var s := [1, 2];
    assert multiset(s)[1] == 1 && multiset(s)[2] == 1;
    assert Keys(s) == {1, 2};
    forall c | 1 <= c ensures |Above(s, c)| != 1 {
      if c == 1 {
        assert Above(s, c) == {1, 2};
      } else {
        assert Above(s, c) == {};
      }
    }
  }

  lemma {:induction false} SubsetCard(a: set<int>, b: set<int>)
    requires a <= b
    ensures |a| <= |b|
    decreases |b|
  {
    Member(a);
    if a != {} {
      var x :| x in a;
      SubsetCard(a - {x}, b - {x});
    }
  }

  /** Fewer values reach a higher count. */
  lemma AboveMonotone(s: seq<int>, c1: int, c2: int)
    requires c1 <= c2
    ensures |Above(s, c2)| <= |Above(s, c1)|
  {
    SubsetCard(Above(s, c2), Above(s, c1));
  }

  lemma KeysAbove(s: seq<int>)
    ensures Above(s, 1) == Keys(s)
  {
  }

  /** The counting loop: hm maps every value to its number of occurrences. */
  method Count(nums: array<int>) returns (hm: map<int, int>)
    ensures hm.Keys == Keys(nums[..])
    ensures forall x :: x in hm ==> hm[x] == multiset(nums[..])[x]
  {
    hm := map[];
    for i := 0 to nums.Length
      invariant hm.Keys == Keys(nums[..i])
      invariant forall x :: x in hm ==> hm[x] == multiset(nums[..i])[x]
    {
      assert nums[..i + 1] == nums[..i] + [nums[i]];
      if nums[i] in hm {
        hm := hm[nums[i] := hm[nums[i]] + 1];
      } else {
        hm := hm[nums[i] := 1];
      }
    }
    assert nums[..nums.Length] == nums[..];
  }

  /** bucket[c] lists each value of count c once, for the values in done. */
  ghost predicate Bucketed(s: seq<int>, bucket: seq<seq<int>>, done: set<int>)
  {
    forall c :: 0 <= c < |bucket| ==>
      Distinct(bucket[c]) && forall y :: y in bucket[c] <==> y in done && multiset(s)[y] == c
  }

  /** The buckets: one list per possible count 0..n, filled from the map in
      its own (unspecified) iteration order. */
  method Buckets(nums: array<int>, hm: map<int, int>) returns (bucket: array<seq<int>>)
    requires hm.Keys == Keys(nums[..])
    requires forall x :: x in hm ==> hm[x] == multiset(nums[..])[x]
    ensures fresh(bucket) && bucket.Length == nums.Length + 1
    ensures Bucketed(nums[..], bucket[..], Keys(nums[..]))
  {
    bucket := new seq<int>[nums.Length + 1](_ => []);
    var rest := hm.Keys;
    while rest != {}
      invariant rest <= hm.Keys
      invariant Bucketed(nums[..], bucket[..], hm.Keys - rest)
      decreases |rest|
    {
      Member(rest);
      var x :| x in rest;
      assert multiset(nums[..])[x] <= |multiset(nums[..])| == nums.Length;
      ghost var b := bucket[..];
      bucket[hm[x]] := bucket[hm[x]] + [x];
      assert bucket[..] == b[hm[x] := b[hm[x]] + [x]];
      rest := rest - {x};
    }
    assert hm.Keys - rest == hm.Keys;
  }

  /** The written prefix holds, once each and by count, exactly the values
      counted more than i times. */
  ghost predicate Collected(s: seq<int>, w: seq<int>, i: int)
  {
    Distinct(w) && ByCount(s, w) && (set x | x in w) == Above(s, i + 1)
    && forall p :: 0 <= p < |w| ==> multiset(s)[w[p]] > i
  }

  /** Appending the bucket of count i keeps the prefix collected. */
  lemma AddBucket(s: seq<int>, w: seq<int>, b: seq<int>, i: int)
    requires i >= 1 && Collected(s, w, i)
    requires Distinct(b) && forall y :: y in b <==> y in Keys(s) && multiset(s)[y] == i
    ensures Collected(s, w + b, i - 1)
    ensures |w| + |b| == |Above(s, i)|
  {
    var v := w + b;
    forall p, q | 0 <= p < q < |v| ensures v[p] != v[q] {
      if q >= |w| && p < |w| {
        assert v[q] in b && v[p] in w;
      } else if p >= |w| {
        assert v[p] == b[p - |w|] && v[q] == b[q - |w|];
      }
    }
    forall p, q | 0 <= p < q < |v| ensures multiset(s)[v[p]] >= multiset(s)[v[q]] {
      if q >= |w| {
        assert v[q] in b;
        if p >= |w| {
          assert v[p] in b;
        }
      }
    }
    forall p | 0 <= p < |v| ensures multiset(s)[v[p]] > i - 1 {
      if p >= |w| {
        assert v[p] == b[p - |w|];
        assert v[p] in b;
      } else {
        assert v[p] == w[p] && multiset(s)[w[p]] > i;
      }
    }
    forall x ensures x in v <==> x in Above(s, i) {
      assert x in v <==> x in w || x in b;
      assert x in w <==> x in (set y | y in w);
      assert x in Keys(s) <==> x in s;
      assert x in Above(s, i + 1) <==> x in s && multiset(s)[x] >= i + 1;
      assert x in Above(s, i) <==> x in s && multiset(s)[x] >= i;
    }
    assert (set x | x in v) == Above(s, i);
    DistinctCard(v);
  }

  /** The inner copy loop: the bucket goes to output[j..j + |b|]. */
  method Copy(output: array<int>, j: int, b: seq<int>) returns (j': int)
    requires 0 <= j && j + |b| <= output.Length
    modifies output
    ensures j' == j + |b|
    ensures output[..] == old(output[..j]) + b + old(output[j + |b|..])
  {
    j' := j;
    for t := 0 to |b|
      invariant j' == j + t
      invariant output[..] == old(output[..j]) + b[..t] + old(output[j + t..])
    {
      ghost var now := output[..];
      CopyStep(old(output[..]), now, j, b, t);
      output[j'] := b[t];
      assert output[..] == now[j + t := b[t]];
      j' := j' + 1;
    }
  }

  /** Writing b[t] into slot j + t extends the copied part by one. */
  lemma CopyStep(before: seq<int>, now: seq<int>, j: int, b: seq<int>, t: int)
    requires 0 <= j && 0 <= t < |b| && j + |b| <= |before|
    requires now == before[..j] + b[..t] + before[j + t..]
    ensures now[j + t := b[t]] == before[..j] + b[..t + 1] + before[j + t + 1..]
  {
    assert b[..t + 1] == b[..t] + [b[t]];
  }

  /** `topKFrequent`. With m = min(k, number of distinct values): the first
      m slots hold distinct input values by non-increasing count, every
      value left out is strictly rarer than every value chosen, and the
      remaining slots keep Java's default 0. */
  method TopK(nums: array<int>, k: int) returns (output: array<int>)
    requires TopUnique(nums[..], k)
    ensures fresh(output) && output.Length == k
    ensures var m := if k <= |Keys(nums[..])| then k else |Keys(nums[..])|;
      && Distinct(output[..m]) && ByCount(nums[..], output[..m])
      && (forall p :: 0 <= p < m ==> output[p] in nums[..])
      && (forall x, p :: x in nums[..] && x !in output[..m] && 0 <= p < m ==>
            multiset(nums[..])[x] < multiset(nums[..])[output[p]])
      && (forall p :: m <= p < k ==> output[p] == 0)
  {
    var hm := Count(nums);
    var bucket := Buckets(nums, hm);
    output := new int[k](_ => 0);
    var j := ReadOut(nums[..], bucket, output, k);
  }

  /** The last loop: buckets from count n down to 1 are copied to output,
      stopping after the first bucket that brings the count to k. */
  method ReadOut(ghost s: seq<int>, bucket: array<seq<int>>, output: array<int>, k: int) returns (j: int)
    requires TopUnique(s, k) && output.Length == k
    requires bucket.Length == |s| + 1 && Bucketed(s, bucket[..], Keys(s))
    requires forall p :: 0 <= p < k ==> output[p] == 0
    modifies output
    ensures j == (if k <= |Keys(s)| then k else |Keys(s)|)
    ensures Distinct(output[..j]) && ByCount(s, output[..j])
    ensures forall p :: 0 <= p < j ==> output[p] in s
    ensures forall x, p :: x in s && x !in output[..j] && 0 <= p < j ==> multiset(s)[x] < multiset(s)[output[p]]
    ensures forall p :: j <= p < k ==> output[p] == 0
  {
    j := 0;
    var i := bucket.Length - 1;
    NoneAboveLength(s);
    assert output[..0] == [];
    ghost var reached := 0;
    while i > 0
      invariant 0 <= i < bucket.Length && 0 <= j <= k
      invariant Collected(s, output[..j], i)
      invariant forall p :: j <= p < k ==> output[p] == 0
      invariant j < k || |Keys(s)| <= j
      invariant j == |Above(s, i + 1)|
      decreases i
    {
      assert bucket[..][i] == bucket[i];
      var b := bucket[i];
      j := NextBucket(s, b, output, j, i, k);
      if |b| > 0 && j >= k {
        reached := i - 1;
        break;
      }
      i := i - 1;
    }
    Finish(s, output[..], j, reached, k);
  }

  /** Where the last loop stops: after the bucket that reached k, or below
      count 1 with every value read out. */
  lemma Finish(s: seq<int>, a: seq<int>, j: int, reached: int, k: int)
    requires 0 <= j <= |a|
    requires reached >= 0 && Collected(s, a[..j], reached) && j == |Above(s, reached + 1)|
    requires j <= k && (reached == 0 || j >= k)
    ensures j == (if k <= |Keys(s)| then k else |Keys(s)|)
    ensures Distinct(a[..j]) && ByCount(s, a[..j])
    ensures forall p :: 0 <= p < j ==> a[p] in s
    ensures forall x, p :: x in s && x !in a[..j] && 0 <= p < j ==> multiset(s)[x] < multiset(s)[a[p]]
  {
    var w := a[..j];
    Done(s, w, reached);
    Stopped(s, w, reached, k);
    forall p | 0 <= p < j ensures a[p] in s {
      assert a[p] == w[p];
    }
    forall x, p | x in s && x !in w && 0 <= p < j ensures multiset(s)[x] < multiset(s)[a[p]] {
      assert a[p] == w[p];
    }
  }

  /** How many values the last loop has read out when it stops. */
  lemma Stopped(s: seq<int>, w: seq<int>, reached: int, k: int)
    requires reached >= 0 && |w| == |Above(s, reached + 1)| && |w| <= |Keys(s)|
    requires |w| <= k && (reached == 0 || |w| >= k)
    ensures |w| == (if k <= |Keys(s)| then k else |Keys(s)|)
  {
    if reached == 0 {
      KeysAbove(s);
    }
  }

  /** No value occurs more often than the input is long. */
  lemma NoneAboveLength(s: seq<int>)
    ensures Above(s, |s| + 1) == {}
  {
    forall x | x in s ensures multiset(s)[x] <= |s| {
      assert multiset(s)[x] <= |multiset(s)|;
    }
  }

  /** The body of the last loop: a non-empty bucket is copied out, an
      empty one adds nothing. */
  method NextBucket(ghost s: seq<int>, b: seq<int>, output: array<int>, j: int, i: int, k: int) returns (j': int)
    requires TopUnique(s, k) && output.Length == k && i >= 1 && 0 <= j <= k
    requires Distinct(b) && forall y :: y in b <==> y in Keys(s) && multiset(s)[y] == i
    requires Collected(s, output[..j], i)
    requires forall p :: j <= p < k ==> output[p] == 0
    requires j < k || |Keys(s)| <= j
    requires j == |Above(s, i + 1)|
    modifies output
    ensures 0 <= j' <= k && j' == |Above(s, i)|
    ensures Collected(s, output[..j'], i - 1)
    ensures forall p :: j' <= p < k ==> output[p] == 0
    ensures |b| == 0 ==> j' == j
  {
    if |b| > 0 {
      j' := ReadBucket(s, b, output, j, i, k);
    } else {
      EmptyBucket(s, i);
      j' := j;
    }
  }

  /** A count with no values adds nothing above it. */
  lemma EmptyBucket(s: seq<int>, i: int)
    requires forall y :: y !in Keys(s) || multiset(s)[y] != i
    ensures Above(s, i) == Above(s, i + 1)
  {
    forall x | x in Above(s, i) ensures x in Above(s, i + 1) {
      assert x in Keys(s);
    }
  }

  /** One bucket of the last loop: copy it to output[j..] and check the
      count reached. */
  method ReadBucket(ghost s: seq<int>, b: seq<int>, output: array<int>, j: int, i: int, k: int) returns (j': int)
    requires TopUnique(s, k) && output.Length == k && i >= 1 && 0 <= j <= k
    requires Distinct(b) && forall y :: y in b <==> y in Keys(s) && multiset(s)[y] == i
    requires Collected(s, output[..j], i)
    requires forall p :: j <= p < k ==> output[p] == 0
    requires j < k || |Keys(s)| <= j
    requires j == |Above(s, i + 1)|
    modifies output
    ensures 0 <= j' <= k && j' == |Above(s, i)|
    ensures Collected(s, output[..j'], i - 1)
    ensures forall p :: j' <= p < k ==> output[p] == 0
  {
    AddBucket(s, output[..j], b, i);
    Fits(s, k, i, j);
    ghost var w := output[..j];
    j' := Copy(output, j, b);
    assert output[..j'] == w + b;
  }

  /** The next bucket still fits in output. */
  lemma Fits(s: seq<int>, k: int, i: int, j: int)
    requires TopUnique(s, k) && i >= 1
    requires j == |Above(s, i + 1)| && j <= k && (j < k || |Keys(s)| <= j)
    ensures |Above(s, i)| <= k
  {
    if |Keys(s)| <= k {
      SubsetCard(Above(s, i), Keys(s));
    } else {
      var c :| 1 <= c && |Above(s, c)| == k;
      if c <= i {
        AboveMonotone(s, c, i);
      } else {
        AboveMonotone(s, i + 1, c);
      }
    }
  }

  /** Reading out the answer from a collected prefix. */
  lemma Done(s: seq<int>, w: seq<int>, i: int)
    requires i >= 0 && Collected(s, w, i)
    ensures forall p :: 0 <= p < |w| ==> w[p] in s
    ensures |w| <= |Keys(s)|
    ensures forall x, p :: x in s && x !in w && 0 <= p < |w| ==> multiset(s)[x] < multiset(s)[w[p]]
  {
    forall p | 0 <= p < |w| ensures w[p] in s {
      assert w[p] in (set x | x in w);
    }
    forall x, p | x in s && x !in w && 0 <= p < |w| ensures multiset(s)[x] < multiset(s)[w[p]] {
      assert x !in (set y | y in w);
      assert x !in Above(s, i + 1);
    }
    DistinctCard(w);
    SubsetCard(Above(s, i + 1), Keys(s));
  }
}
