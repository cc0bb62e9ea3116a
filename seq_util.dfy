/** Sequence facts shared by several models: repeat-free lists (the recency
    lists of the caches, the trie's child rows, the queues), sortedness (the
    sorts and the request log) and picking from a set of integers. */
module SeqUtil {

  /** In non-decreasing order. */
  predicate Sorted(s: seq<int>)
  {
    forall p, q :: 0 <= p < q < |s| ==> s[p] <= s[q]
  }

  /** A set of integers is empty or has a member to pick. */
  lemma Member(s: set<int>)
    ensures s == {} || exists n :: n in s
  {
    if !exists n :: n in s {
      assert s == {};
    }
  }

  /** No element occurs twice: what a doubly-linked list of distinct nodes looks like. */
  predicate Distinct<T(==)>(s: seq<T>)
  {
    forall i, j :: 0 <= i < j < |s| ==> s[i] != s[j]
  }

  /** `s` with every occurrence of `x` unlinked, the rest kept in order. */
  function Without<T(==)>(s: seq<T>, x: T): (r: seq<T>)
    ensures forall i :: 0 <= i < |r| ==> r[i] in s && r[i] != x
    ensures forall i :: 0 <= i < |s| && s[i] != x ==> s[i] in r
    ensures |r| <= |s|
    ensures Distinct(s) ==> Distinct(r)
    ensures x !in s ==> r == s
  {
    if s == [] then []
    else
      var rest := Without(s[1..], x);
      var r := if s[0] == x then rest else [s[0]] + rest;
      WithoutStep(s, s[1..], x, rest, r);
      r
  }

  /** One unfolding of `Without`: its promises for the tail carry over to
      the whole list. */
  lemma WithoutStep<T>(s: seq<T>, t: seq<T>, x: T, rest: seq<T>, r: seq<T>)
    requires s != [] && t == s[1..]
    requires forall i :: 0 <= i < |rest| ==> rest[i] in t && rest[i] != x
    requires forall i :: 0 <= i < |t| && t[i] != x ==> t[i] in rest
    requires |rest| <= |t|
    requires Distinct(t) ==> Distinct(rest)
    requires x !in t ==> rest == t
    requires r == if s[0] == x then rest else [s[0]] + rest
    ensures forall i :: 0 <= i < |r| ==> r[i] in s && r[i] != x
    ensures forall i :: 0 <= i < |s| && s[i] != x ==> s[i] in r
    ensures |r| <= |s|
    ensures Distinct(s) ==> Distinct(r)
    ensures x !in s ==> r == s
  {
    assert forall y :: y in t ==> y in s;
    forall i | 0 <= i < |s| && s[i] != x
      ensures s[i] in r
    {
      if i > 0 {
        assert s[i] == t[i - 1];
      }
    }
    if Distinct(s) {
      assert Distinct(t);
      assert s[0] !in t;
      if s[0] != x {
        forall i, j | 0 <= i < j < |r|
          ensures r[i] != r[j]
        {
          if i == 0 {
            assert r[j] == rest[j - 1];
          }
        }
      }
    }
  }

  /** Unlinking the element at position i of a list without duplicates leaves
      the elements before it and after it in their old order. */
  lemma {:induction false} WithoutAt<T>(s: seq<T>, i: nat)
    requires Distinct(s) && i < |s|
    ensures Without(s, s[i]) == s[..i] + s[i + 1..]
    ensures |Without(s, s[i])| == |s| - 1
  {
    var t := s[1..];
    if i == 0 {
      assert s[0] !in t;
      assert Without(s, s[0]) == Without(t, s[0]) == t;
      assert s[..0] + s[1..] == t;
      assert Without(s, s[i]) == s[..i] + s[i + 1..];
    } else {
      assert Distinct(t);
      assert t[i - 1] == s[i] && s[0] != s[i];
      WithoutAt(t, i - 1);
      assert Without(s, s[i]) == [s[0]] + Without(t, s[i]);
      ConsSlices(s, i);
    }
  }

  /** Putting the head back in front of the tail with its (i-1)-th element
      cut out is cutting out the i-th element of the whole list. */
  lemma ConsSlices<T>(s: seq<T>, i: nat)
    requires 1 <= i < |s|
    ensures [s[0]] + (s[1..][..i - 1] + s[1..][i..]) == s[..i] + s[i + 1..]
  {
    assert s[..i] == [s[0]] + s[1..][..i - 1];
    assert s[i + 1..] == s[1..][i..];
  }

  /** A list without duplicates has exactly as many elements as its set. */
  lemma {:induction false} DistinctCard<T>(s: seq<T>)
    requires Distinct(s)
    ensures |set x | x in s| == |s|
  {
    if s != [] {
      assert Distinct(s[1..]);
      DistinctCard(s[1..]);
      assert (set x | x in s) == (set x | x in s[1..]) + {s[0]};
      assert s[0] !in s[1..];
    }
  }
}
