/** custom/QuickSortDemo.java: quick sort of arr[start..end] (both bounds
    inclusive) around the first element of the range. */
module QuickSortModel {
  import opened SeqUtil

  /** Every element of s is at most x. */
  predicate AtMost(s: seq<int>, x: int)
  {
    forall k :: 0 <= k < |s| ==> s[k] <= x
  }

  /** Every element of s exceeds x. */
  predicate Above(s: seq<int>, x: int)
  {
    forall k :: 0 <= k < |s| ==> s[k] > x
  }

  /** Nothing outside [lo, hi) differs. */
  ghost predicate Outside(before: seq<int>, after: seq<int>, lo: int, hi: int)
  {
    |before| == |after| && forall k :: 0 <= k < |after| && !(lo <= k < hi) ==> after[k] == before[k]
  }

  /** Only arr[lo..hi) may differ, and it holds the same elements. */
  ghost predicate PermutesRange(before: seq<int>, after: seq<int>, lo: int, hi: int)
    requires 0 <= lo <= hi <= |before| == |after|
  {
    Outside(before, after, lo, hi) && multiset(after[lo..hi]) == multiset(before[lo..hi])
  }

  /** `swap`: arr[i] and arr[j] change places, nothing else moves. */
  method Swap(arr: array<int>, i: int, j: int)
    requires 0 <= i < arr.Length && 0 <= j < arr.Length
    modifies arr
    ensures arr[..] == old(arr[..])[i := old(arr[j])][j := old(arr[i])]
  {
    var temp := arr[i];
    arr[i] := arr[j];
    arr[j] := temp;
  }

  /** A swap inside [lo, hi) permutes that range. */
  lemma SwapPermutes(before: seq<int>, lo: int, hi: int, i: int, j: int)
    requires 0 <= lo <= i < hi <= |before| && lo <= j < hi
    ensures PermutesRange(before, before[i := before[j]][j := before[i]], lo, hi)
  {
    var after := before[i := before[j]][j := before[i]];
    assert after[lo..hi] == before[lo..hi][i - lo := before[j]][j - lo := before[i]];
  }

  /** Permutations of a range compose. */
  lemma PermutesTrans(a: seq<int>, b: seq<int>, c: seq<int>, lo: int, hi: int)
    requires 0 <= lo <= hi <= |a| == |b| == |c|
    requires PermutesRange(a, b, lo, hi) && PermutesRange(b, c, lo, hi)
    ensures PermutesRange(a, c, lo, hi)
  {
  }

  /** `findParition`: the pivot arr[start] ends at the returned index j, with
      everything before it in the range at most the pivot and everything
      after it above. */
  method FindPartition(arr: array<int>, start: int, end: int) returns (j: int)
    requires 0 <= start <= end < arr.Length
    modifies arr
    ensures start <= j <= end && arr[j] == old(arr[start])
    ensures AtMost(arr[start..j], arr[j]) && Above(arr[j + 1..end + 1], arr[j])
    ensures PermutesRange(old(arr[..]), arr[..], start, end + 1)
  {
    var pivot := arr[start];
    var i := start;
    j := end;
    ghost var a0 := arr[..];
    while i < j
      invariant Partitioning(arr[..], a0, start, end, i, j, pivot)
      decreases (end - i) + (j - start)
    {
      i, j := Round(arr, pivot, start, end, i, j, a0);
    }
    ghost var a1 := arr[..];
    Swap(arr, start, j);
    Placed(a1, a0, start, end, i, j, pivot, arr[..]);
  }

  /** One pass of the outer loop of `findParition`: both scans, then the
      swap when they have not crossed. */
  method Round(arr: array<int>, pivot: int, start: int, end: int, i0: int, j0: int, ghost a0: seq<int>)
    returns (i: int, j: int)
    requires Partitioning(arr[..], a0, start, end, i0, j0, pivot) && i0 < j0
    modifies arr
    ensures Partitioning(arr[..], a0, start, end, i, j, pivot)
    ensures i > i0 && j <= j0
  {
    i := ScanUp(arr, pivot, start, i0, end);
    j := ScanDown(arr, pivot, start, j0, end);
    Scanned(arr[..], a0, start, end, i0, j0, i, j, pivot);
    if i < j {
      ghost var a1 := arr[..];
      Swap(arr, i, j);
      Swapped(a1, a0, start, end, i, j, pivot, arr[..]);
    }
  }

  /** The state of the outer loop of `findParition`: arr[start] is still the
      pivot, arr[start..i) is at most the pivot, arr(j..end] is above it, and
      only swaps inside the range have happened. */
  ghost predicate Partitioning(s: seq<int>, a0: seq<int>, start: int, end: int, i: int, j: int, pivot: int)
  {
    && 0 <= start <= i <= end < |s| == |a0| && start <= j <= end
    && s[start] == pivot
    && (forall k :: start <= k < i ==> s[k] <= pivot)
    && (forall k :: j < k <= end ==> s[k] > pivot)
    && (i < j ==> s[i] <= pivot)
    && (i >= j ==> s[j] <= pivot)
    && PermutesRange(a0, s, start, end + 1)
  }

  /** After both scans: i has moved, and either the scans crossed (and the
      loop ends in a partitioning state) or arr[i] and arr[j] are out of place. */
  lemma Scanned(s: seq<int>, a0: seq<int>, start: int, end: int, i: int, j: int, i': int, j': int, pivot: int)
    requires Partitioning(s, a0, start, end, i, j, pivot) && i < j
    requires i <= i' <= end && (forall k :: i <= k < i' ==> s[k] <= pivot) && (i' == end || s[i'] > pivot)
    requires start <= j' <= j && (forall k :: j' < k <= j ==> s[k] > pivot) && (j' == start || s[j'] <= pivot)
    ensures i' > i
    ensures i' >= j' ==> Partitioning(s, a0, start, end, i', j', pivot)
    ensures i' < j' ==> Crossing(s, a0, start, end, i', j', pivot)
  {
  }

  /** Just before the swap in the outer loop. */
  ghost predicate Crossing(s: seq<int>, a0: seq<int>, start: int, end: int, i: int, j: int, pivot: int)
  {
    && 0 <= start < i < j <= end < |s| == |a0|
    && s[start] == pivot
    && (forall k :: start <= k < i ==> s[k] <= pivot)
    && (forall k :: j < k <= end ==> s[k] > pivot)
    && s[i] > pivot && s[j] <= pivot
    && PermutesRange(a0, s, start, end + 1)
  }

  /** Swapping the two out-of-place elements restores the loop state. */
  lemma Swapped(s: seq<int>, a0: seq<int>, start: int, end: int, i: int, j: int, pivot: int, t: seq<int>)
    requires Crossing(s, a0, start, end, i, j, pivot)
    requires t == s[i := s[j]][j := s[i]]
    ensures Partitioning(t, a0, start, end, i, j, pivot)
  {
    SwapPermutes(s, start, end + 1, i, j);
    PermutesTrans(a0, s, t, start, end + 1);
    SwappedSides(s, start, end, i, j, pivot, t);
  }

  /** The sides of the loop state after the swap in the outer loop. */
  lemma SwappedSides(s: seq<int>, start: int, end: int, i: int, j: int, pivot: int, t: seq<int>)
    requires 0 <= start < i < j <= end < |s|
    requires s[start] == pivot && s[i] > pivot && s[j] <= pivot
    requires forall k :: start <= k < i ==> s[k] <= pivot
    requires forall k :: j < k <= end ==> s[k] > pivot
    requires t == s[i := s[j]][j := s[i]]
    ensures t[start] == pivot && t[i] <= pivot
    ensures forall k :: start <= k < i ==> t[k] <= pivot
    ensures forall k :: j < k <= end ==> t[k] > pivot
  {
  }

  /** The final swap puts the pivot at j, between the two sides. */
  lemma Placed(s: seq<int>, a0: seq<int>, start: int, end: int, i: int, j: int, pivot: int, t: seq<int>)
    requires Partitioning(s, a0, start, end, i, j, pivot) && i >= j
    requires t == s[start := s[j]][j := s[start]]
    ensures t[j] == pivot
    ensures AtMost(t[start..j], t[j]) && Above(t[j + 1..end + 1], t[j])
    ensures PermutesRange(a0, t, start, end + 1)
  {
    SwapPermutes(s, start, end + 1, start, j);
    PermutesTrans(a0, s, t, start, end + 1);
    PlacedSides(s, start, end, j, pivot, t);
  }

  /** The sides around the pivot after the final swap. */
  lemma PlacedSides(s: seq<int>, start: int, end: int, j: int, pivot: int, t: seq<int>)
    requires 0 <= start <= j <= end < |s|
    requires s[start] == pivot && s[j] <= pivot
    requires forall k :: start <= k < j ==> s[k] <= pivot
    requires forall k :: j < k <= end ==> s[k] > pivot
    requires t == s[start := s[j]][j := s[start]]
    ensures t[j] == pivot
    ensures AtMost(t[start..j], t[j]) && Above(t[j + 1..end + 1], t[j])
  {
  }

  /** The first inner loop of `findParition`: i moves right over elements at
      most the pivot, stopping at end. */
  method ScanUp(arr: array<int>, pivot: int, start: int, i0: int, end: int) returns (i: int)
    requires 0 <= start <= i0 <= end < arr.Length
    ensures i0 <= i <= end
    ensures forall k :: i0 <= k < i ==> arr[k] <= pivot
    ensures i == end || arr[i] > pivot
  {
    i := i0;
    while pivot >= arr[i] && i <= end - 1
      invariant i0 <= i <= end
      invariant forall k :: i0 <= k < i ==> arr[k] <= pivot
      decreases end - i
    {
      i := i + 1;
    }
  }

  /** The second inner loop of `findParition`: j moves left over elements
      above the pivot, stopping at start. */
  method ScanDown(arr: array<int>, pivot: int, start: int, j0: int, end: int) returns (j: int)
    requires 0 <= start <= j0 <= end < arr.Length
    ensures start <= j <= j0
    ensures forall k :: j < k <= j0 ==> arr[k] > pivot
    ensures j == start || arr[j] <= pivot
  {
    j := j0;
    while pivot < arr[j] && j >= start + 1
      invariant start <= j <= j0
      invariant forall k :: j < k <= j0 ==> arr[k] > pivot
      decreases j
    {
      j := j - 1;
    }
  }

  method QuickSort(arr: array<int>, start: int, end: int)
    requires start >= end || (0 <= start && end < arr.Length)
    modifies arr
    ensures start >= end ==> arr[..] == old(arr[..])
    ensures start < end ==> PermutesRange(old(arr[..]), arr[..], start, end + 1) && Sorted(arr[start..end + 1])
    decreases end - start
  {
    if start < end {
      ghost var a0 := arr[..];
      var partitionIndex := FindPartition(arr, start, end);
      ghost var a1 := arr[..];
      QuickSort(arr, start, partitionIndex - 1);
      ghost var a2 := arr[..];
      QuickSort(arr, partitionIndex + 1, end);
      Assemble(a0, a1, a2, arr[..], start, partitionIndex, end);
    }
  }

  /** Outside the changed range two arrays agree on every slice. */
  lemma SameSlice(a: seq<int>, b: seq<int>, lo: int, hi: int, x: int, y: int)
    requires 0 <= lo <= hi <= |a| && 0 <= x <= y <= |a|
    requires Outside(a, b, lo, hi) && (y <= lo || hi <= x)
    ensures a[x..y] == b[x..y]
  {
  }

  /** Sorting both sides of a partition sorts the range. */
  lemma Assemble(a0: seq<int>, a1: seq<int>, a2: seq<int>, a3: seq<int>, start: int, p: int, end: int)
    requires 0 <= start <= p <= end < |a0| == |a1| == |a2| == |a3|
    requires PermutesRange(a0, a1, start, end + 1)
    requires AtMost(a1[start..p], a1[p]) && Above(a1[p + 1..end + 1], a1[p])
    requires start >= p - 1 ==> a2 == a1
    requires start < p - 1 ==> PermutesRange(a1, a2, start, p) && Sorted(a2[start..p])
    requires p + 1 >= end ==> a3 == a2
    requires p + 1 < end ==> PermutesRange(a2, a3, p + 1, end + 1) && Sorted(a3[p + 1..end + 1])
    ensures PermutesRange(a0, a3, start, end + 1) && Sorted(a3[start..end + 1])
  {
    var pivot := a1[p];
    Side(a1, a2, start, p);
    Side(a2, a3, p + 1, end + 1);
    LeftPart(a1, a2, a3, start, p, end);
    RightPart(a1, a2, a3, start, p, end);
    AtMostPerm(a1[start..p], a3[start..p], pivot);
    AbovePerm(a1[p + 1..end + 1], a3[p + 1..end + 1], pivot);
    Around(a3, start, p, end, pivot);
    Glue(a0, a1, a2, a3, start, p, end);
  }

  /** The left side of the pivot holds the elements it held after the
      partition, now sorted, and the right call leaves it alone. */
  lemma LeftPart(a1: seq<int>, a2: seq<int>, a3: seq<int>, start: int, p: int, end: int)
    requires 0 <= start <= p <= end < |a1| == |a2| == |a3|
    requires PermutesRange(a1, a2, start, p) && Sorted(a2[start..p])
    requires PermutesRange(a2, a3, p + 1, end + 1)
    ensures multiset(a3[start..p]) == multiset(a1[start..p]) && Sorted(a3[start..p])
    ensures a3[p] == a1[p]
  {
    SameSlice(a2, a3, p + 1, end + 1, start, p);
  }

  /** The right side likewise. */
  lemma RightPart(a1: seq<int>, a2: seq<int>, a3: seq<int>, start: int, p: int, end: int)
    requires 0 <= start <= p <= end < |a1| == |a2| == |a3|
    requires PermutesRange(a1, a2, start, p)
    requires PermutesRange(a2, a3, p + 1, end + 1) && Sorted(a3[p + 1..end + 1])
    ensures multiset(a3[p + 1..end + 1]) == multiset(a1[p + 1..end + 1])
  {
    SameSlice(a1, a2, start, p, p + 1, end + 1);
  }

  /** A sorted left side at most the pivot, the pivot, and a sorted right
      side above it form a sorted range. */
  lemma Around(a: seq<int>, start: int, p: int, end: int, pivot: int)
    requires 0 <= start <= p <= end < |a| && a[p] == pivot
    requires Sorted(a[start..p]) && Sorted(a[p + 1..end + 1])
    requires AtMost(a[start..p], pivot) && Above(a[p + 1..end + 1], pivot)
    ensures Sorted(a[start..end + 1])
  {
    Join(a[start..p], pivot, a[p + 1..end + 1]);
    assert a[start..end + 1] == a[start..p] + [pivot] + a[p + 1..end + 1];
  }

  /** A recursive call on [lo, hi) permutes and sorts that part, whether or
      not it had two or more elements. */
  lemma Side(a: seq<int>, b: seq<int>, lo: int, hi: int)
    requires 0 <= lo <= hi <= |a| == |b|
    requires lo >= hi - 1 ==> b == a
    requires lo < hi - 1 ==> PermutesRange(a, b, lo, hi) && Sorted(b[lo..hi])
    ensures PermutesRange(a, b, lo, hi) && Sorted(b[lo..hi])
  {
  }

  /** The three pieces give a permutation of the whole range. */
  lemma Glue(a0: seq<int>, a1: seq<int>, a2: seq<int>, a3: seq<int>, start: int, p: int, end: int)
    requires 0 <= start <= p <= end < |a0| == |a1| == |a2| == |a3|
    requires PermutesRange(a0, a1, start, end + 1)
    requires PermutesRange(a1, a2, start, p)
    requires PermutesRange(a2, a3, p + 1, end + 1)
    ensures PermutesRange(a0, a3, start, end + 1)
  {
    Widen(a1, a2, start, p, end + 1);
    Widen(a2, a3, p + 1, start, end + 1);
  }

  /** A permutation of a part of [lo, hi) permutes [lo, hi). */
  lemma Widen(a: seq<int>, b: seq<int>, x: int, y: int, hi: int)
    requires 0 <= x <= |a| == |b| && 0 <= y <= |a| && hi <= |a|
    requires x <= y ==> 0 <= x <= y <= hi
    requires y < x ==> 0 <= y < x <= hi
    requires x <= y ==> PermutesRange(a, b, x, y)
    requires y < x ==> PermutesRange(a, b, x, hi)
    ensures x <= y ==> PermutesRange(a, b, x, hi)
    ensures y < x ==> PermutesRange(a, b, y, hi)
  {
    if x <= y {
      assert a[x..hi] == a[x..y] + a[y..hi];
      assert b[x..hi] == b[x..y] + b[y..hi];
      assert a[y..hi] == b[y..hi];
    } else {
      assert a[y..hi] == a[y..x] + a[x..hi];
      assert b[y..hi] == b[y..x] + b[x..hi];
      assert a[y..x] == b[y..x];
    }
  }

  /** A bound on all elements survives permutation. */
  lemma AtMostPerm(s: seq<int>, t: seq<int>, x: int)
    requires AtMost(s, x) && multiset(s) == multiset(t)
    ensures AtMost(t, x)
  {
    forall k | 0 <= k < |t| ensures t[k] <= x {
      assert t[k] in multiset(s);
    }
  }

  lemma AbovePerm(s: seq<int>, t: seq<int>, x: int)
    requires Above(s, x) && multiset(s) == multiset(t)
    ensures Above(t, x)
  {
    forall k | 0 <= k < |t| ensures t[k] > x {
      assert t[k] in multiset(s);
    }
  }

  /** Sorted parts around a pivot make a sorted whole. */
  lemma Join(l: seq<int>, x: int, r: seq<int>)
    requires Sorted(l) && Sorted(r) && AtMost(l, x) && Above(r, x)
    ensures Sorted(l + [x] + r)
  {
  }

  /** The demo array {3,2,1,4,5,6,2,4,5} sorted in full. */
  method Demo() returns (sorted: seq<int>)
    ensures Sorted(sorted) && multiset(sorted) == multiset([3, 2, 1, 4, 5, 6, 2, 4, 5])
  {
    var arr := new int[9] [3, 2, 1, 4, 5, 6, 2, 4, 5];
    ghost var input := arr[..];
    assert input == [3, 2, 1, 4, 5, 6, 2, 4, 5];
    QuickSort(arr, 0, arr.Length - 1);
    sorted := arr[..];
    WholeArray(input, sorted);
  }

  lemma WholeArray(before: seq<int>, after: seq<int>)
    requires |before| == |after| && |before| >= 2
    requires PermutesRange(before, after, 0, |before|) && Sorted(after[0..|after|])
    ensures Sorted(after) && multiset(after) == multiset(before)
  {
    assert before[0..|before|] == before && after[0..|after|] == after;
  }
}
