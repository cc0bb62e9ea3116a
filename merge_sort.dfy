/** custom/MergeSortDemo.java: top-down merge sort of arr[start..end]
    (both bounds inclusive), merging through a temporary list. */
module MergeSortModel {
  import opened SeqUtil

  /** The run `merge` builds from two runs: the smaller head first, and on a
      tie the head of the right run. */
  function MergeRuns(a: seq<int>, b: seq<int>): seq<int>
    decreases |a| + |b|
  {
    if a == [] then b
    else if b == [] then a
    else if a[0] < b[0] then [a[0]] + MergeRuns(a[1..], b)
    else [b[0]] + MergeRuns(a, b[1..])
  }

  lemma {:induction false} MergeRunsLength(a: seq<int>, b: seq<int>)
    ensures |MergeRuns(a, b)| == |a| + |b|
    decreases |a| + |b|
  {
    if a != [] && b != [] {
      if a[0] < b[0] {
        MergeRunsLength(a[1..], b);
      } else {
        MergeRunsLength(a, b[1..]);
      }
    }
  }

  /** Merging keeps every element: the result is a permutation of both runs. */
  lemma {:induction false} MergeRunsPerm(a: seq<int>, b: seq<int>)
    ensures multiset(MergeRuns(a, b)) == multiset(a) + multiset(b)
    decreases |a| + |b|
  {
    if a != [] && b != [] {
      if a[0] < b[0] {
        MergeRunsPerm(a[1..], b);
        assert a == [a[0]] + a[1..];
      } else {
        MergeRunsPerm(a, b[1..]);
        assert b == [b[0]] + b[1..];
      }
    }
  }

  /** Merging two sorted runs gives a sorted run. */
  lemma {:induction false} MergeRunsSorted(a: seq<int>, b: seq<int>)
    requires Sorted(a) && Sorted(b)
    ensures Sorted(MergeRuns(a, b))
    ensures MergeRuns(a, b) != [] ==> MergeRuns(a, b)[0] == (if a == [] then b[0] else if b == [] then a[0] else if a[0] < b[0] then a[0] else b[0])
    decreases |a| + |b|
  {
    if a != [] && b != [] {
      if a[0] < b[0] {
        MergeRunsSorted(a[1..], b);
        Head(a[0], MergeRuns(a[1..], b));
      } else {
        MergeRunsSorted(a, b[1..]);
        Head(b[0], MergeRuns(a, b[1..]));
      }
    }
  }

  /** A value at most the head of a sorted run extends it. */
  lemma Head(x: int, s: seq<int>)
    requires Sorted(s) && (s != [] ==> x <= s[0])
    ensures Sorted([x] + s)
  {
  }

  /** The array from `old` to `new` has arr[lo..hi) sorted, permuted, and
      nothing outside it changed. */
  ghost predicate SortsRange(before: seq<int>, after: seq<int>, lo: int, hi: int)
    requires 0 <= lo <= hi <= |before| == |after|
  {
    && after[..lo] == before[..lo]
    && after[hi..] == before[hi..]
    && multiset(after[lo..hi]) == multiset(before[lo..hi])
    && Sorted(after[lo..hi])
  }

  method MergeSort(arr: array<int>, start: int, end: int)
    requires start >= end || (0 <= start && end < arr.Length)
    modifies arr
    ensures start >= end ==> arr[..] == old(arr[..])
    ensures start < end ==> SortsRange(old(arr[..]), arr[..], start, end + 1)
    decreases end - start
  {
    if start >= end {
      return;
    }
    var mid := (start + end) / 2;
    ghost var a0 := arr[..];
    MergeSort(arr, start, mid);
    ghost var a1 := arr[..];
    MergeSort(arr, mid + 1, end);
    ghost var a2 := arr[..];
    Halves(a0, a1, a2, start, mid, end);
    Merge(arr, start, mid, end);
    Whole(a0, a2, arr[..], start, mid, end);
  }

  /** After sorting both halves each half is a sorted permutation of itself. */
  lemma Halves(a0: seq<int>, a1: seq<int>, a2: seq<int>, start: int, mid: int, end: int)
    requires 0 <= start <= mid < end < |a0| == |a1| == |a2|
    requires start >= mid ==> a1 == a0
    requires start < mid ==> SortsRange(a0, a1, start, mid + 1)
    requires mid + 1 >= end ==> a2 == a1
    requires mid + 1 < end ==> SortsRange(a1, a2, mid + 1, end + 1)
    ensures Sorted(a2[start..mid + 1]) && Sorted(a2[mid + 1..end + 1])
    ensures a2[..start] == a0[..start] && a2[end + 1..] == a0[end + 1..]
    ensures multiset(a2[start..mid + 1]) == multiset(a0[start..mid + 1])
    ensures multiset(a2[mid + 1..end + 1]) == multiset(a0[mid + 1..end + 1])
  {
    assert a2[start..mid + 1] == a1[start..mid + 1] by {
      assert a2[..mid + 1] == a1[..mid + 1];
      assert a2[start..mid + 1] == a2[..mid + 1][start..];
      assert a1[start..mid + 1] == a1[..mid + 1][start..];
    }
    assert a1[mid + 1..end + 1] == a0[mid + 1..end + 1] by {
      assert a1[mid + 1..] == a0[mid + 1..];
      assert a1[mid + 1..end + 1] == a1[mid + 1..][..end - mid];
      assert a0[mid + 1..end + 1] == a0[mid + 1..][..end - mid];
    }
    assert a2[..start] == a1[..start] by {
      assert a2[..start] == a2[..mid + 1][..start];
      assert a1[..start] == a1[..mid + 1][..start];
    }
    assert a1[end + 1..] == a0[end + 1..] by {
      assert a1[end + 1..] == a1[mid + 1..][end - mid..];
      assert a0[end + 1..] == a0[mid + 1..][end - mid..];
    }
  }

  /** Merging the two sorted halves sorts the whole range. */
  lemma Whole(a0: seq<int>, a2: seq<int>, a3: seq<int>, start: int, mid: int, end: int)
    requires 0 <= start <= mid < end < |a0| == |a2| == |a3|
    requires Sorted(a2[start..mid + 1]) && Sorted(a2[mid + 1..end + 1])
    requires a2[..start] == a0[..start] && a2[end + 1..] == a0[end + 1..]
    requires multiset(a2[start..mid + 1]) == multiset(a0[start..mid + 1])
    requires multiset(a2[mid + 1..end + 1]) == multiset(a0[mid + 1..end + 1])
    requires a3[start..end + 1] == MergeRuns(a2[start..mid + 1], a2[mid + 1..end + 1])
    requires a3[..start] == a2[..start] && a3[end + 1..] == a2[end + 1..]
    ensures SortsRange(a0, a3, start, end + 1)
  {
    MergeRunsSorted(a2[start..mid + 1], a2[mid + 1..end + 1]);
    WholePerm(a0, a2, a3[start..end + 1], start, mid, end);
  }

  /** The merged run holds the elements the two halves held at first. */
  lemma WholePerm(a0: seq<int>, a2: seq<int>, merged: seq<int>, start: int, mid: int, end: int)
    requires 0 <= start <= mid < end < |a0| == |a2|
    requires multiset(a2[start..mid + 1]) == multiset(a0[start..mid + 1])
    requires multiset(a2[mid + 1..end + 1]) == multiset(a0[mid + 1..end + 1])
    requires merged == MergeRuns(a2[start..mid + 1], a2[mid + 1..end + 1])
    ensures multiset(merged) == multiset(a0[start..end + 1])
  {
    MergeRunsPerm(a2[start..mid + 1], a2[mid + 1..end + 1]);
    assert a0[start..end + 1] == a0[start..mid + 1] + a0[mid + 1..end + 1];
  }

  /** `merge`: arr[start..end] becomes the merge of the runs arr[start..mid]
      and arr[mid+1..end], copied back from `temp`. */
  method Merge(arr: array<int>, start: int, mid: int, end: int)
    requires 0 <= start <= mid <= end < arr.Length
    modifies arr
    ensures arr[start..end + 1] == MergeRuns(old(arr[start..mid + 1]), old(arr[mid + 1..end + 1]))
    ensures arr[..start] == old(arr[..start]) && arr[end + 1..] == old(arr[end + 1..])
  {
    ghost var a := arr[..];
    var temp := MergeTemp(arr, start, mid, end);
    for k := start to end + 1
      invariant forall q :: start <= q < k ==> arr[q] == temp[q - start]
      invariant forall q :: 0 <= q < arr.Length && !(start <= q < k) ==> arr[q] == a[q]
    {
      arr[k] := temp[k - start];
    }
    CopiedBack(a, arr[..], temp, start, end);
  }

  /** The loops of `merge` that fill `temp`: it ends as the merge of the two
      runs, with end-start+1 elements. */
  method MergeTemp(arr: array<int>, start: int, mid: int, end: int) returns (temp: seq<int>)
    requires 0 <= start <= mid <= end < arr.Length
    ensures temp == MergeRuns(arr[start..mid + 1], arr[mid + 1..end + 1])
    ensures |temp| == end - start + 1
  {
    MergeRunsLength(arr[start..mid + 1], arr[mid + 1..end + 1]);
    var i, j;
    temp, i, j := MergeHeads(arr, start, mid, end);
    Drained(temp, arr[i..mid + 1], arr[j..end + 1]);
    temp := AppendRun(arr, temp, i, mid);
    temp := AppendRun(arr, temp, j, end);
  }

  /** The first loop of `merge`: the smaller head moves to `temp` until one
      run is used up; what is left of the merge is the merge of the rests. */
  method MergeHeads(arr: array<int>, start: int, mid: int, end: int) returns (temp: seq<int>, i: int, j: int)
    requires 0 <= start <= mid <= end < arr.Length
    ensures start <= i <= mid + 1 && mid + 1 <= j <= end + 1 && (i == mid + 1 || j == end + 1)
    ensures temp + MergeRuns(arr[i..mid + 1], arr[j..end + 1]) == MergeRuns(arr[start..mid + 1], arr[mid + 1..end + 1])
  {
    ghost var whole := MergeRuns(arr[start..mid + 1], arr[mid + 1..end + 1]);
    temp := [];
    i, j := start, mid + 1;
    while i <= mid && j <= end
      invariant start <= i <= mid + 1 && mid + 1 <= j <= end + 1
      invariant temp + MergeRuns(arr[i..mid + 1], arr[j..end + 1]) == whole
    {
      if arr[i] < arr[j] {
        TakeLeft(temp, arr[..], i, mid, j, end, whole);
        temp := temp + [arr[i]];
        i := i + 1;
      } else {
        TakeRight(temp, arr[..], i, mid, j, end, whole);
        temp := temp + [arr[j]];
        j := j + 1;
      }
    }
  }

  /** Once one run is used up, what remains of the merge is the other run. */
  lemma Drained(temp: seq<int>, a: seq<int>, b: seq<int>)
    requires a == [] || b == []
    ensures temp + MergeRuns(a, b) == temp + a + b
  {
  }

  /** The second and third loops of `merge`: append arr[from..to] to `temp`. */
  method AppendRun(arr: array<int>, temp: seq<int>, from: int, to: int) returns (r: seq<int>)
    requires 0 <= from <= to + 1 <= arr.Length
    ensures r == temp + arr[from..to + 1]
  {
    r := temp;
    var i := from;
    while i <= to
      invariant from <= i <= to + 1 && r == temp + arr[from..i]
    {
      assert arr[from..i + 1] == arr[from..i] + [arr[i]];
      r := r + [arr[i]];
      i := i + 1;
    }
  }

  /** Writing `temp` back over arr[start..end] replaces exactly that range. */
  lemma CopiedBack(a: seq<int>, b: seq<int>, temp: seq<int>, start: int, end: int)
    requires 0 <= start <= end < |a| == |b| && |temp| == end - start + 1
    requires forall q :: start <= q <= end ==> b[q] == temp[q - start]
    requires forall q :: 0 <= q < |b| && !(start <= q <= end) ==> b[q] == a[q]
    ensures b[start..end + 1] == temp && b[..start] == a[..start] && b[end + 1..] == a[end + 1..]
  {
  }

  /** One step of the first merge loop: arr[i] moves to `temp`. */
  lemma TakeLeft(temp: seq<int>, a: seq<int>, i: int, mid: int, j: int, end: int, merged: seq<int>)
    requires 0 <= i <= mid < j <= end < |a| && a[i] < a[j]
    requires temp + MergeRuns(a[i..mid + 1], a[j..end + 1]) == merged
    ensures (temp + [a[i]]) + MergeRuns(a[i + 1..mid + 1], a[j..end + 1]) == merged
  {
    assert a[i..mid + 1][1..] == a[i + 1..mid + 1];
  }

  /** One step of the first merge loop: arr[j] moves to `temp`. */
  lemma TakeRight(temp: seq<int>, a: seq<int>, i: int, mid: int, j: int, end: int, merged: seq<int>)
    requires 0 <= i <= mid < j <= end < |a| && !(a[i] < a[j])
    requires temp + MergeRuns(a[i..mid + 1], a[j..end + 1]) == merged
    ensures (temp + [a[j]]) + MergeRuns(a[i..mid + 1], a[j + 1..end + 1]) == merged
  {
    assert a[j..end + 1][1..] == a[j + 1..end + 1];
  }

  /** Sorting the range 0..|before| sorts the whole sequence. */
  lemma WholeArray(before: seq<int>, after: seq<int>)
    requires |before| == |after| && SortsRange(before, after, 0, |before|)
    ensures Sorted(after) && multiset(after) == multiset(before)
  {
    assert before[0..|before|] == before && after[0..|after|] == after;
  }

  /** The demo array {3,2,1,4,5,6,2,4,5} sorted in full. */
  method Demo() returns (sorted: seq<int>)
    ensures Sorted(sorted) && multiset(sorted) == multiset([3, 2, 1, 4, 5, 6, 2, 4, 5])
  {
    var arr := new int[9] [3, 2, 1, 4, 5, 6, 2, 4, 5];
    ghost var input := arr[..];
    assert input == [3, 2, 1, 4, 5, 6, 2, 4, 5];
    MergeSort(arr, 0, arr.Length - 1);
    sorted := arr[..];
    WholeArray(input, sorted);
  }
}
