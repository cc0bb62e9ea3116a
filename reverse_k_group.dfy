/** problems/linked-list/reverse-nodes-in-kgroups/solution.java: reverse a
    singly linked list k nodes at a time, leaving a last group shorter than
    k in its original order.

    The list lives in an arena: nodes are slots 0 .. next.Length - 1 and
    next[x] is the slot after x, or Null. A node's value never changes, so
    the model follows node identities only. The ghost sequence `nodes` is
    the order in which the list visits its slots. */
module ReverseKGroup {

  import opened SeqUtil

  /** The null reference. */
  const Null := -1

  /** The slot at position i of a list, or Null past its end. */
  function At(list: seq<int>, i: int): int
  {
    if 0 <= i < |list| then list[i] else Null
  }

  /** Following next from position t of the list reaches position t + 1,
      and from the last node reaches Null. */
  predicate Chain(next: seq<int>, list: seq<int>)
  {
    Slots(list, |next|) && forall t {:trigger next[list[t]]} :: 0 <= t < |list| ==> next[list[t]] == At(list, t + 1)
  }

  /** Every entry of the list is a slot of the arena. */
  predicate Slots(list: seq<int>, size: int)
  {
    forall t :: 0 <= t < |list| ==> 0 <= list[t] < size
  }

  function Reverse(s: seq<int>): (r: seq<int>)
    ensures |r| == |s|
  {
    if |s| == 0 then [] else Reverse(s[1..]) + [s[0]]
  }

  /** Reverse reads the sequence back to front and keeps its elements. */
  lemma {:induction false} ReverseSpec(s: seq<int>)
    ensures forall i :: 0 <= i < |s| ==> Reverse(s)[i] == s[|s| - 1 - i]
    ensures multiset(Reverse(s)) == multiset(s)
  {
    if |s| > 0 {
      ReverseSpec(s[1..]);
      assert s == [s[0]] + s[1..];
    }
  }

  /** The list the source builds: each full group of k reversed, a shorter
      last group as it was. */
  function KGroups(s: seq<int>, k: int): seq<int>
    requires k >= 1
    decreases |s|
  {
    if |s| < k then s else Reverse(s[..k]) + KGroups(s[k..], k)
  }

  /** No node is lost or duplicated: the regrouped list is a rearrangement
      of the original one. */
  lemma {:induction false} KGroupsPerm(s: seq<int>, k: int)
    requires k >= 1
    ensures |KGroups(s, k)| == |s| && multiset(KGroups(s, k)) == multiset(s)
    decreases |s|
  {
    if |s| >= k {
      KGroupsPerm(s[k..], k);
      ReverseSpec(s[..k]);
      assert s == s[..k] + s[k..];
    }
  }

  /** The last |s| % k nodes, too few for a group, keep their order at the
      end of the list. */
  lemma KGroupsTail(s: seq<int>, k: int)
    requires k >= 1
    ensures |KGroups(s, k)| == |s|
    ensures KGroups(s, k)[|s| - |s| % k..] == s[|s| - |s| % k..]
  {
    KGroupsLast(s, k);
    RemIsMod(|s|, k);
  }

  /** What is left of n after taking away groups of k while a whole group fits. */
  function Rem(n: nat, k: int): (r: nat)
    requires k >= 1
    ensures r <= n && r < k
    decreases n
  {
    if n < k then n else Rem(n - k, k)
  }

  lemma {:induction false} RemIsMod(n: nat, k: int)
    requires k >= 1
    ensures Rem(n, k) == n % k
    decreases n
  {
    if n >= k {
      RemIsMod(n - k, k);
      ModStep(n, k);
    } else {
      DivUnique(n, k, 0, n);
    }
  }

  lemma {:induction false} KGroupsLast(s: seq<int>, k: int)
    requires k >= 1
    ensures |KGroups(s, k)| == |s|
    ensures KGroups(s, k)[|s| - Rem(|s|, k)..] == s[|s| - Rem(|s|, k)..]
    decreases |s|
  {
    KGroupsPerm(s, k);
    if |s| >= k {
      var rest := s[k..];
      var head := s[..k];
      KGroupsLast(rest, k);
      var i := |rest| - Rem(|rest|, k);
      assert |s| - Rem(|s|, k) == k + i;
      assert KGroups(s, k) == Reverse(head) + KGroups(rest, k);
      SplitAt(s, k);
      SameSuffix(Reverse(head), KGroups(rest, k), head, rest, i);
    }
  }

  /** Equal suffixes stay equal behind prefixes of the same length. */
  lemma SameSuffix(x: seq<int>, y: seq<int>, x': seq<int>, y': seq<int>, i: int)
    requires |x| == |x'| && |y| == |y'| && 0 <= i <= |y| && y[i..] == y'[i..]
    ensures (x + y)[|x| + i..] == (x' + y')[|x'| + i..]
  {
    SuffixOfAppend(x, y, i);
    SuffixOfAppend(x', y', i);
  }

  lemma SplitAt(s: seq<int>, k: int)
    requires 0 <= k <= |s|
    ensures s == s[..k] + s[k..]
  {
  }

  lemma SuffixOfAppend(x: seq<int>, y: seq<int>, i: int)
    requires 0 <= i <= |y|
    ensures (x + y)[|x| + i..] == y[i..]
  {
  }

  /** Removing one group keeps the remainder. */
  lemma ModStep(a: int, k: int)
    requires a >= k >= 1
    ensures (a - k) % k == a % k
  {
    var q, r := a / k, a % k;
    DivUnique(a - k, k, q - 1, r);
  }

  /** A slot of a list without repeats is not in a slice that leaves out
      its position. */
  lemma OutsideSlice(list: seq<int>, lo: int, hi: int, i: int)
    requires Distinct(list) && 0 <= lo <= hi <= |list| && 0 <= i < |list| && !(lo <= i < hi)
    ensures list[i] !in list[lo..hi]
  {
  }

  /** A slot not on the list is in none of its slices. */
  lemma NotInSlice(list: seq<int>, lo: int, hi: int, x: int)
    requires 0 <= lo <= hi <= |list| && x !in list
    ensures x !in list[lo..hi]
  {
  }

  /** The list after reversing the k nodes at positions m .. m + k - 1. */
  function Regroup(list: seq<int>, m: int, k: int): (r: seq<int>)
    requires 0 <= m && 1 <= k && m + k <= |list|
    ensures |r| == |list|
  {
    seq(|list|, t requires 0 <= t < |list| => if m <= t < m + k then list[2 * m + k - 1 - t] else list[t])
  }

  /** Regrouping is a reversal of one slice. */
  lemma RegroupIs(list: seq<int>, m: int, k: int)
    requires 0 <= m && 1 <= k && m + k <= |list|
    ensures Regroup(list, m, k) == list[..m] + Reverse(list[m..m + k]) + list[m + k..]
  {
    ReverseSpec(list[m..m + k]);
  }

  /** Regrouping keeps the slots distinct and the multiset of slots. */
  lemma RegroupPerm(list: seq<int>, m: int, k: int)
    requires 0 <= m && 1 <= k && m + k <= |list| && Distinct(list)
    ensures Distinct(Regroup(list, m, k))
    ensures multiset(Regroup(list, m, k)) == multiset(list)
  {
    RegroupIs(list, m, k);
    ReverseSpec(list[m..m + k]);
    assert list == list[..m] + list[m..m + k] + list[m + k..];
  }

  /** One more group of the specification: the done part grows by a
      reversed group and the rest shrinks by k. */
  lemma KGroupsStep(nodes: seq<int>, list: seq<int>, m: int, k: int)
    requires 0 <= m && 1 <= k && m + k <= |list| == |nodes|
    requires list[m..] == nodes[m..]
    requires KGroups(nodes, k) == list[..m] + KGroups(nodes[m..], k)
    ensures Regroup(list, m, k)[m + k..] == nodes[m + k..]
    ensures KGroups(nodes, k) == Regroup(list, m, k)[..m + k] + KGroups(nodes[m + k..], k)
  {
    var r := Regroup(list, m, k);
    var g := Reverse(list[m..m + k]);
    RegroupIs(list, m, k);
    RegroupSlices(list[..m], g, list[m + k..], r);
    var rest := nodes[m..];
    assert list[m + k..] == nodes[m + k..] by {
      assert list[m + k..] == list[m..][k..];
    }
    assert rest[..k] == list[m..m + k] && rest[k..] == nodes[m + k..];
    assert KGroups(rest, k) == g + KGroups(nodes[m + k..], k);
    AppendAssoc(list[..m], g, KGroups(nodes[m + k..], k));
  }

  lemma RegroupSlices(a: seq<int>, g: seq<int>, c: seq<int>, r: seq<int>)
    requires r == a + g + c
    ensures r[..|a| + |g|] == a + g && r[|a| + |g|..] == c
  {
  }

  lemma AppendAssoc(a: seq<int>, b: seq<int>, c: seq<int>)
    ensures a + (b + c) == a + b + c
  {
  }

  /** The state of the inner loop after c of the group's k nodes at
      positions m .. m + k - 1 have been turned around. */
  predicate Turning(next0: seq<int>, next: seq<int>, list: seq<int>, m: int, c: int)
    requires 0 <= m && 0 <= c && m + c <= |list|
  {
    && |next| == |next0|
    && (forall x :: 0 <= x < |next| && x !in list[m..m + c] ==> next[x] == next0[x])
    && (forall u {:trigger next[list[u]]} :: m < u < m + c && 0 <= list[u] < |next| ==> next[list[u]] == list[u - 1])
  }

  /** The inner loop's state: c nodes turned, prev the last of them (Null
      before the first), curr the next one to turn. */
  predicate Reversing(next0: seq<int>, next: seq<int>, list: seq<int>, m: int, c: int, prev: int, curr: int)
  {
    && 0 <= m && 0 <= c && m + c <= |list|
    && Turning(next0, next, list, m, c)
    && prev == (if c == 0 then Null else list[m + c - 1])
    && curr == At(list, m + c)
  }

  /** One turn: the node at position m + c now points back. */
  lemma Turn(next0: seq<int>, next: seq<int>, list: seq<int>, m: int, c: int, prev: int, curr: int)
    requires m + c < |list| && Distinct(list) && Chain(next0, list)
    requires Reversing(next0, next, list, m, c, prev, curr)
    ensures 0 <= curr < |next| && next[curr] == At(list, m + (c + 1))
    ensures Reversing(next0, next[curr := prev], list, m, c + 1, curr, At(list, m + (c + 1)))
  {
    var y := list[m + c];
    OutsideSlice(list, m, m + c, m + c);
    assert next[y] == next0[y];
    TurnKeeps(next0, next, list, m, c, prev);
    TurnBack(next0, next, list, m, c, prev);
  }

  /** Turning the node at position m + c changes no link off the turned part. */
  lemma TurnKeeps(next0: seq<int>, next: seq<int>, list: seq<int>, m: int, c: int, prev: int)
    requires 0 <= m && 0 <= c && m + c < |list| && Slots(list, |next0|)
    requires Turning(next0, next, list, m, c)
    ensures forall x :: 0 <= x < |next| && x !in list[m..m + c + 1] ==> next[list[m + c] := prev][x] == next0[x]
  {
    var y := list[m + c];
    assert list[m..m + c + 1] == list[m..m + c] + [y];
  }

  /** After the turn every turned node but the first points to the one
      before it. */
  lemma TurnBack(next0: seq<int>, next: seq<int>, list: seq<int>, m: int, c: int, prev: int)
    requires 0 <= m && 0 <= c && m + c < |list| && Slots(list, |next0|) && Distinct(list)
    requires Turning(next0, next, list, m, c)
    requires prev == (if c == 0 then Null else list[m + c - 1])
    ensures forall u {:trigger next[list[m + c] := prev][list[u]]} :: m < u < m + c + 1 && 0 <= list[u] < |next| ==>
              next[list[m + c] := prev][list[u]] == list[u - 1]
  {
    var y := list[m + c];
    forall u | m < u < m + c + 1 && 0 <= list[u] < |next|
      ensures next[y := prev][list[u]] == list[u - 1]
    {
      if u < m + c {
        assert list[u] != y;
      }
    }
  }

  /** x.next = y: one link changes, no other. */
  method Link(next: array<int>, x: int, y: int)
    requires 0 <= x < next.Length
    modifies next
    ensures next[..] == old(next[..])[x := y]
  {
    next[x] := y;
  }

  /** The inner while loop of `reverseKGroup`: turn the k nodes from
      position m around; prev ends at the group's last node, curr at the
      node after the group. */
  method ReverseGroup(next: array<int>, start: int, k: int, ghost list: seq<int>, ghost m: int)
    returns (prev: int, curr: int)
    requires 0 <= m && 1 <= k && m + k <= |list| && Distinct(list)
    requires Chain(next[..], list) && start == list[m]
    modifies next
    ensures Turning(old(next[..]), next[..], list, m, k)
    ensures prev == list[m + k - 1] && curr == At(list, m + k)
  {
    ghost var next0 := next[..];
    prev := Null;
    curr := start;
    var count := k;
    ghost var c := 0;
    while count > 0
      invariant 0 <= count <= k && c == k - count
      invariant Reversing(next0, next[..], list, m, c, prev, curr)
    {
      Turn(next0, next[..], list, m, c, prev, curr);
      var following := next[curr];
      Link(next, curr, prev);
      prev := curr;
      curr := following;
      count := count - 1;
      c := c + 1;
    }
  }

  /** The links after the group at m .. m + k - 1 is turned around
      (next1) and linked in (next2): only the group's first node and the
      node before the group change. */
  ghost predicate Relinking(next0: seq<int>, next1: seq<int>, next2: seq<int>, list: seq<int>, m: int, k: int)
  {
    && 0 <= m && 1 <= k && m + k <= |list| && Distinct(list) && Chain(next0, list)
    && Turning(next0, next1, list, m, k)
    && |next2| == |next1|
    && (forall x :: 0 <= x < |next1| && x != list[m] && (m == 0 || x != list[m - 1]) ==> next2[x] == next1[x])
    && next2[list[m]] == At(list, m + k)
    && (m > 0 ==> next2[list[m - 1]] == list[m + k - 1])
  }

  /** After the group is turned and linked in, the list is the regrouped
      one. */
  lemma Relinked(next0: seq<int>, next1: seq<int>, next2: seq<int>, list: seq<int>, m: int, k: int)
    requires Relinking(next0, next1, next2, list, m, k)
    ensures Chain(next2, Regroup(list, m, k))
  {
    var r := Regroup(list, m, k);
    forall t | 0 <= t < |r| ensures 0 <= r[t] < |next2| && next2[r[t]] == At(r, t + 1) {
      if m <= t < m + k {
        RelinkedInside(next0, next1, next2, list, m, k, t);
      } else {
        RelinkedOutside(next0, next1, next2, list, m, k, t);
      }
    }
  }

  /** A node of the turned group points to the one before it; the group's
      first node points past the group. */
  lemma RelinkedInside(next0: seq<int>, next1: seq<int>, next2: seq<int>, list: seq<int>, m: int, k: int, t: int)
    requires Relinking(next0, next1, next2, list, m, k) && m <= t < m + k
    ensures var r := Regroup(list, m, k);
            0 <= r[t] < |next2| && next2[r[t]] == At(r, t + 1)
  {
    var u := 2 * m + k - 1 - t;
    assert Regroup(list, m, k)[t] == list[u];
    if u > m {
      assert list[u] != list[m];
      assert m > 0 ==> list[u] != list[m - 1];
      assert next2[list[u]] == next1[list[u]] == list[u - 1];
    }
  }

  /** A node outside the group keeps its link, except the one before the
      group, which now points to the group's last node. */
  lemma RelinkedOutside(next0: seq<int>, next1: seq<int>, next2: seq<int>, list: seq<int>, m: int, k: int, t: int)
    requires Relinking(next0, next1, next2, list, m, k) && 0 <= t < |list| && !(m <= t < m + k)
    ensures var r := Regroup(list, m, k);
            0 <= r[t] < |next2| && next2[r[t]] == At(r, t + 1)
  {
    var r := Regroup(list, m, k);
    assert r[t] == list[t];
    if t == m - 1 {
      assert r[m] == list[m + k - 1];
    } else {
      assert list[t] != list[m];
      assert m > 0 ==> list[t] != list[m - 1];
      OutsideSlice(list, m, m + k, t);
      assert next2[list[t]] == next1[list[t]] == next0[list[t]];
    }
  }

  /** Slots outside the list keep their links. */
  predicate Untouched(next0: seq<int>, next: seq<int>, nodes: seq<int>)
  {
    |next| == |next0| && forall x :: 0 <= x < |next| && x !in nodes ==> next[x] == next0[x]
  }

  /** The loop state of `reverseKGroup` after the first m nodes have been
      regrouped. */
  predicate Regrouping(next0: seq<int>, next: seq<int>, nodes: seq<int>, list: seq<int>, m: int, k: int)
    requires k >= 1
  {
    && 0 <= m <= |list| == |nodes|
    && Distinct(list) && multiset(list) == multiset(nodes)
    && Chain(next, list) && Untouched(next0, next, nodes)
    && list[m..] == nodes[m..]
    && KGroups(nodes, k) == list[..m] + KGroups(nodes[m..], k)
  }

  /** One group of the outer loop, ghost part: the next state is a
      regrouping state again. */
  lemma Advance(next0: seq<int>, nextG: seq<int>, next1: seq<int>, next2: seq<int>, nodes: seq<int>, list: seq<int>, m: int, k: int)
    requires k >= 1 && Regrouping(next0, nextG, nodes, list, m, k) && m + k <= |list|
    requires Turning(nextG, next1, list, m, k)
    requires |next2| == |next1|
    requires forall x :: 0 <= x < |next1| && x != list[m] && (m == 0 || x != list[m - 1]) ==> next2[x] == next1[x]
    requires next2[list[m]] == At(list, m + k)
    requires m > 0 ==> next2[list[m - 1]] == list[m + k - 1]
    ensures Regrouping(next0, next2, nodes, Regroup(list, m, k), m + k, k)
  {
    Relinked(nextG, next1, next2, list, m, k);
    RegroupPerm(list, m, k);
    KGroupsStep(nodes, list, m, k);
    forall x | 0 <= x < |next2| && x !in nodes ensures next2[x] == next0[x] {
      assert x !in multiset(list);
      assert x != list[m] && (m > 0 ==> x != list[m - 1]);
      NotInSlice(list, m, m + k, x);
    }
  }

  /** The loop of `reverseKGroup` that counts the nodes. */
  method Length(next: array<int>, head: int, ghost nodes: seq<int>) returns (n: int)
    requires Chain(next[..], nodes) && head == At(nodes, 0)
    ensures n == |nodes|
  {
    n := 0;
    var temp := head;
    while temp != Null
      invariant 0 <= n <= |nodes| && temp == At(nodes, n)
      decreases |nodes| - n
    {
      n := n + 1;
      temp := next[temp];
    }
  }

  /** Counting groups down: a positive count leaves a full group, one fewer
      after it; a zero count leaves less than a group. */
  lemma GroupsLeft(a: int, k: int)
    requires a >= 0 && k >= 1
    ensures a / k >= 1 <==> a >= k
    ensures a >= k ==> (a - k) / k == a / k - 1
  {
    if a >= k {
      var q, r := a / k, a % k;
      DivUnique(a - k, k, q - 1, r);
      DivUnique(a - k, k, (a - k) / k, (a - k) % k);
    } else {
      DivUnique(a, k, 0, a);
    }
  }

  lemma {:induction false} MulAtLeast(d: int, k: int)
    requires d >= 1 && k >= 1
    ensures d * k >= k
    decreases d
  {
    if d > 1 {
      MulAtLeast(d - 1, k);
      assert d * k == (d - 1) * k + k;
    }
  }

  /** A count divided by a positive number is not negative. */
  lemma DivNonNeg(a: int, d: int)
    requires a >= 0 && d >= 1
    ensures a / d >= 0
  {
    var q, r := a / d, a % d;
    assert a == q * d + r;
    if q < 0 {
      MulAtLeast(-q, d);
    }
  }

  /** Euclidean division has one quotient. */
  lemma DivUnique(a: int, k: int, q: int, r: int)
    requires k >= 1 && 0 <= r < k && a == q * k + r
    ensures a / k == q
  {
    var q', r' := a / k, a % k;
    assert a == q' * k + r';
    if q > q' {
      MulAtLeast(q - q', k);
    } else if q < q' {
      MulAtLeast(q' - q, k);
    }
  }

  /** When less than a group is left, the regrouped list is the
      specification's. */
  lemma Finish(nodes: seq<int>, list: seq<int>, m: int, k: int)
    requires 1 <= k && 0 <= m <= |list| == |nodes| && |nodes| - m < k
    requires list[m..] == nodes[m..]
    requires KGroups(nodes, k) == list[..m] + KGroups(nodes[m..], k)
    ensures list == KGroups(nodes, k)
  {
    assert list == list[..m] + list[m..];
  }

  /** The outer loop's state: the regrouping state, with the dummy's link
      at the list's head and prevGroup at the last regrouped node (the dummy,
      Null, before the first group). */
  predicate Linked(next0: seq<int>, next: seq<int>, nodes: seq<int>, list: seq<int>, m: int, k: int, dummyNext: int, prevGroup: int)
    requires k >= 1
  {
    && Regrouping(next0, next, nodes, list, m, k)
    && dummyNext == At(list, 0)
    && prevGroup == (if m == 0 then Null else list[m - 1])
  }

  /** One pass of the outer loop of `reverseKGroup`: turn the group at
      positions m .. m + k - 1 around and link it between the previous
      group and the rest. */
  method NextGroup(next: array<int>, dummyNext: int, prevGroup: int, k: int,
                   ghost next0: seq<int>, ghost nodes: seq<int>, ghost list: seq<int>, ghost m: int)
    returns (dummyNext': int, prevGroup': int)
    requires k >= 1 && Linked(next0, next[..], nodes, list, m, k, dummyNext, prevGroup) && m + k <= |list|
    modifies next
    ensures Linked(next0, next[..], nodes, Regroup(list, m, k), m + k, k, dummyNext', prevGroup')
  {
    var start := if prevGroup == Null then dummyNext else next[prevGroup];
    ghost var nextG := next[..];
    var prev, curr := ReverseGroup(next, start, k, list, m);
    ghost var next1 := next[..];
    dummyNext' := dummyNext;
    if prevGroup == Null {
      dummyNext' := prev;
    } else {
      Link(next, prevGroup, prev);
    }
    Link(next, start, curr);
    Advance(next0, nextG, next1, next[..], nodes, list, m, k);
    prevGroup' := start;
  }

  /** `reverseKGroup`: with k >= 1 the list becomes KGroups of itself; a
      negative k leaves it alone, since the number of groups, n / k in
      Java's truncating division, is then not positive. Slots off the list
      keep their links. */
  method ReverseKGroup(next: array<int>, head: int, k: int, ghost nodes: seq<int>) returns (result: int)
    requires k != 0
    requires Distinct(nodes) && Chain(next[..], nodes) && head == At(nodes, 0)
    modifies next
    ensures k >= 1 ==> Chain(next[..], KGroups(nodes, k)) && result == At(KGroups(nodes, k), 0)
    ensures k < 0 || k > |nodes| ==> next[..] == old(next[..]) && result == head
    ensures Untouched(old(next[..]), next[..], nodes)
  {
    var n := Length(next, head, nodes);
    if k > n {
      return head;
    }
    // Java's n / k truncates toward zero.
    var t;
    if k > 0 {
      t := n / k;
      GroupsLeft(n, k);
    } else {
      t := -(n / -k);
      DivNonNeg(n, -k);
    }
    if t <= 0 {
      return head;
    }
    assert k >= 1;
    result := Groups(next, head, k, t, n, nodes);
  }

  /** The outer while loop of `reverseKGroup`: t = n / k groups, each turned
      around and linked in after the previous one. */
  method Groups(next: array<int>, head: int, k: int, t0: int, n: int, ghost nodes: seq<int>) returns (result: int)
    requires k >= 1 && n == |nodes| && t0 == n / k
    requires Distinct(nodes) && Chain(next[..], nodes) && head == At(nodes, 0)
    modifies next
    ensures Chain(next[..], KGroups(nodes, k)) && result == At(KGroups(nodes, k), 0)
    ensures Untouched(old(next[..]), next[..], nodes)
  {
    var t := t0;
    ghost var next0 := next[..];
    ghost var list := nodes;
    ghost var m := 0;
    ghost var left := n;
    var dummyNext := head;
    var prevGroup := Null;
    while t > 0
      invariant Linked(next0, next[..], nodes, list, m, k, dummyNext, prevGroup)
      invariant 0 <= m <= n && left == n - m && t == left / k
    {
      GroupsLeft(left, k);
      dummyNext, prevGroup := NextGroup(next, dummyNext, prevGroup, k, next0, nodes, list, m);
      list := Regroup(list, m, k);
      m := m + k;
      left := left - k;
      t := t - 1;
    }
    GroupsLeft(left, k);
    Finish(nodes, list, m, k);
    return dummyNext;
  }
}
