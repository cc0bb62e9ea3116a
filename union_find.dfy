/** The union-find of custom/UnionFindDemo.java: `parent` and `size` arrays,
    a component `count` and the `time` of the last merge, plus the loop of
    `findTime`. The ghost `level` of a node is strictly below the level of
    its parent and never above `bound`, which makes `findParent`'s
    recursion terminate; it plays no part in what the code computes. */
module UnionFindModel {

  datatype Option<T> = None | Some(value: T)

  /** `parent` links stay in range and climb strictly in level. */
  ghost predicate Forest(p: seq<int>, level: seq<nat>, bound: nat)
  {
    && |level| == |p|
    && (forall i :: 0 <= i < |p| ==> 0 <= p[i] < |p|)
    && (forall i :: 0 <= i < |level| ==> level[i] <= bound)
    && (forall i {:trigger p[i]} :: 0 <= i < |p| && p[i] != i ==> level[i] < level[p[i]])
  }

  /** The root `findParent` reaches from x. */
  ghost function Root(p: seq<int>, level: seq<nat>, bound: nat, x: int): (r: int)
    requires Forest(p, level, bound) && 0 <= x < |p|
    ensures 0 <= r < |p| && p[r] == r
    decreases bound - level[x]
  {
    if p[x] == x then x else Root(p, level, bound, p[x])
  }

  /** The root of every element, in element order. */
  ghost function Roots(p: seq<int>, level: seq<nat>, bound: nat): (r: seq<int>)
    requires Forest(p, level, bound)
    ensures |r| == |p| && forall x {:trigger r[x]} :: 0 <= x < |p| ==> r[x] == Root(p, level, bound, x)
  {
    seq(|p|, x requires 0 <= x < |p| => Root(p, level, bound, x))
  }

  /** The elements that are their own parent. */
  function RootSet(p: seq<int>): set<int>
  {
    set x | 0 <= x < |p| && p[x] == x
  }

  /** Every label that occurs in `comp`. */
  function Labels(comp: seq<int>): set<int>
  {
    set x | x in comp
  }

  /** Every element labelled `from` is relabelled `to`. */
  function Relabel(comp: seq<int>, from: int, to: int): (r: seq<int>)
    ensures |r| == |comp|
    ensures forall i {:trigger r[i]} :: 0 <= i < |comp| ==> r[i] == (if comp[i] == from then to else comp[i])
  {
    seq(|comp|, i requires 0 <= i < |comp| => if comp[i] == from then to else comp[i])
  }

  lemma {:induction false} RootAbove(p: seq<int>, level: seq<nat>, bound: nat, x: int)
    requires Forest(p, level, bound) && 0 <= x < |p| && p[x] != x
    ensures level[x] < level[Root(p, level, bound, x)]
    decreases bound - level[x]
  {
    if p[p[x]] != p[x] {
      RootAbove(p, level, bound, p[x]);
    }
  }

  /** The root reached does not depend on the ghost levels. */
  lemma {:induction false} RootIndependent(p: seq<int>, l1: seq<nat>, b1: nat, l2: seq<nat>, b2: nat, x: int)
    requires Forest(p, l1, b1) && Forest(p, l2, b2) && 0 <= x < |p|
    ensures Root(p, l1, b1, x) == Root(p, l2, b2, x)
    decreases b1 - l1[x]
  {
    if p[x] != x {
      RootIndependent(p, l1, b1, l2, b2, p[x]);
    }
  }

  /** Pointing `a` straight at its root keeps the forest and every element's root. */
  lemma {:induction false} CompressOne(p: seq<int>, level: seq<nat>, bound: nat, a: int, x: int)
    requires Forest(p, level, bound) && 0 <= a < |p| && p[a] != a && 0 <= x < |p|
    requires Forest(p[a := Root(p, level, bound, a)], level, bound)
    ensures Root(p[a := Root(p, level, bound, a)], level, bound, x) == Root(p, level, bound, x)
    decreases bound - level[x]
  {
    var p' := p[a := Root(p, level, bound, a)];
    if x != a && p[x] != x {
      CompressOne(p, level, bound, a, p[x]);
    }
  }

  lemma Compress(p: seq<int>, level: seq<nat>, bound: nat, a: int)
    requires Forest(p, level, bound) && 0 <= a < |p| && p[a] != a
    ensures Forest(p[a := Root(p, level, bound, a)], level, bound)
    ensures Roots(p[a := Root(p, level, bound, a)], level, bound) == Roots(p, level, bound)
    ensures RootSet(p[a := Root(p, level, bound, a)]) == RootSet(p)
  {
    var r := Root(p, level, bound, a);
    var p' := p[a := r];
    RootAbove(p, level, bound, a);
    forall x | 0 <= x < |p|
      ensures Root(p', level, bound, x) == Root(p, level, bound, x)
    {
      CompressOne(p, level, bound, a, x);
    }
  }

  /** Hanging root `loser` under root `winner`, with the winner's level
      raised above the loser's, keeps a forest. */
  lemma LinkForest(p: seq<int>, level: seq<nat>, bound: nat, winner: int, loser: int)
    requires Forest(p, level, bound) && 0 <= winner < |p| && 0 <= loser < |p|
    requires p[winner] == winner && p[loser] == loser && winner != loser
    ensures var l' := level[winner := if level[winner] > level[loser] then level[winner] else level[loser] + 1];
            var b' := if bound >= l'[winner] then bound else l'[winner];
            Forest(p, l', b') && Forest(p[loser := winner], l', b')
  {
  }

  lemma {:induction false} LinkOne(p: seq<int>, level: seq<nat>, bound: nat, winner: int, loser: int, x: int)
    requires 0 <= winner < |p| && 0 <= loser < |p| && 0 <= x < |p|
    requires Forest(p, level, bound) && Forest(p[loser := winner], level, bound)
    requires p[winner] == winner && p[loser] == loser && winner != loser
    ensures Root(p[loser := winner], level, bound, x) ==
              if Root(p, level, bound, x) == loser then winner else Root(p, level, bound, x)
    decreases bound - level[x]
  {
    if p[x] != x {
      LinkOne(p, level, bound, winner, loser, p[x]);
    }
  }

  /** The ghost fields of the class describe the parent array: a forest
      whose roots label the components, `count` of them. */
  ghost predicate Tracks(p: seq<int>, level: seq<nat>, bound: nat, comp: seq<int>, count: int)
  {
    Forest(p, level, bound) && comp == Roots(p, level, bound) && count == |RootSet(p)|
  }

  /** Linking one root under another keeps the description, with the
      loser's component relabelled and one root fewer. */
  lemma LinkTracks(p: seq<int>, level: seq<nat>, bound: nat, comp: seq<int>, count: int,
                   winner: int, loser: int, level': seq<nat>, bound': nat)
    requires Tracks(p, level, bound, comp, count) && 0 <= winner < |p| && 0 <= loser < |p|
    requires p[winner] == winner && p[loser] == loser && winner != loser
    requires level' == level[winner := if level[winner] > level[loser] then level[winner] else level[loser] + 1]
    requires bound' == if bound >= level'[winner] then bound else level'[winner]
    ensures Tracks(p[loser := winner], level', bound', Relabel(comp, loser, winner), count - 1)
  {
    Link(p, level, bound, winner, loser, level', bound');
  }

  lemma Link(p: seq<int>, level: seq<nat>, bound: nat, winner: int, loser: int, level': seq<nat>, bound': nat)
    requires Forest(p, level, bound) && 0 <= winner < |p| && 0 <= loser < |p|
    requires p[winner] == winner && p[loser] == loser && winner != loser
    requires level' == level[winner := if level[winner] > level[loser] then level[winner] else level[loser] + 1]
    requires bound' == if bound >= level'[winner] then bound else level'[winner]
    ensures Forest(p[loser := winner], level', bound')
    ensures Roots(p[loser := winner], level', bound') == Relabel(Roots(p, level, bound), loser, winner)
    ensures RootSet(p[loser := winner]) == RootSet(p) - {loser}
    ensures |RootSet(p[loser := winner])| == |RootSet(p)| - 1
  {
    var p' := p[loser := winner];
    LinkForest(p, level, bound, winner, loser);
    forall x | 0 <= x < |p|
      ensures Root(p', level', bound', x) == if Root(p, level, bound, x) == loser then winner else Root(p, level, bound, x)
    {
      RootIndependent(p, level, bound, level', bound', x);
      LinkOne(p, level', bound', winner, loser, x);
    }
    assert loser in RootSet(p);
  }

  /** The roots are exactly the labels: every root labels itself and every
      label is a root. */
  lemma RootsAreLabels(p: seq<int>, level: seq<nat>, bound: nat)
    requires Forest(p, level, bound)
    ensures Labels(Roots(p, level, bound)) == RootSet(p)
  {
    var comp := Roots(p, level, bound);
    forall x | x in RootSet(p)
      ensures x in Labels(comp)
    {
      assert comp[x] == x;
    }
  }

  /** What the union-find stands for: each element's root, the `size`
      array, `count` and `time`. */
  datatype State = State(comp: seq<int>, size: seq<int>, count: int, time: int)

  ghost predicate WellFormed(st: State)
  {
    |st.size| == |st.comp| && forall i :: 0 <= i < |st.comp| ==> 0 <= st.comp[i] < |st.comp|
  }

  /** Every label is the label of itself: labels are roots. */
  ghost predicate LabelsAreRoots(comp: seq<int>)
  {
    forall i :: 0 <= i < |comp| ==> 0 <= comp[i] < |comp| && comp[comp[i]] == comp[i]
  }

  /** The state the constructor builds: every element its own root, `size[i] == i`. */
  function Init(n: nat): (st: State)
    ensures WellFormed(st) && LabelsAreRoots(st.comp)
  {
    State(seq(n, i => i), seq(n, i => i), n, 0)
  }

  /** The root that survives a merge: the one with the larger `size`, A on a tie. */
  function Winner(size: seq<int>, ra: int, rb: int): (w: int)
    requires 0 <= ra < |size| && 0 <= rb < |size|
    ensures w == ra || w == rb
    ensures size[ra] > size[rb] ==> w == ra
    ensures size[rb] > size[ra] ==> w == rb
    ensures size[ra] == size[rb] ==> w == ra
  {
    if size[ra] > size[rb] then ra else if size[rb] > size[ra] then rb else ra
  }

  /** `union(a, b, t)` on the abstract state. */
  function UnionSpec(st: State, a: int, b: int, t: int): (r: State)
    requires WellFormed(st) && (st.count == 1 || (0 <= a < |st.comp| && 0 <= b < |st.comp|))
    ensures WellFormed(r) && |r.comp| == |st.comp|
    ensures LabelsAreRoots(st.comp) ==> LabelsAreRoots(r.comp)
  {
    if st.count == 1 then st
    else
      var ra := st.comp[a];
      var rb := st.comp[b];
      if ra == rb then st
      else
        var w := Winner(st.size, ra, rb);
        var l := if w == ra then rb else ra;
        var comp' := Relabel(st.comp, l, w);
        assert LabelsAreRoots(st.comp) ==> LabelsAreRoots(comp') by {
          if LabelsAreRoots(st.comp) {
            forall i | 0 <= i < |comp'|
              ensures comp'[comp'[i]] == comp'[i]
            {
              assert st.comp[w] == w && st.comp[l] == l;
            }
          }
        }
        State(comp', st.size[w := st.size[w] + st.size[l]], st.count - 1, t)
  }

  /** Merging two distinct labels loses exactly one label. */
  lemma RelabelLabels(comp: seq<int>, l: int, w: int)
    requires l in comp && w in comp && l != w
    ensures Labels(Relabel(comp, l, w)) == Labels(comp) - {l}
    ensures |Labels(Relabel(comp, l, w))| == |Labels(comp)| - 1
  {
    var r := Relabel(comp, l, w);
    forall x | x in Labels(comp) - {l}
      ensures x in Labels(r)
    {
      var i :| 0 <= i < |comp| && comp[i] == x;
      assert r[i] == x;
    }
  }

  /** `count` is the number of components: a successful union merges two
      and takes one off the count, every other call changes nothing. */
  lemma UnionCountsComponents(st: State, a: int, b: int, t: int)
    requires WellFormed(st) && LabelsAreRoots(st.comp) && 0 <= a < |st.comp| && 0 <= b < |st.comp|
    requires st.count == |Labels(st.comp)|
    ensures var r := UnionSpec(st, a, b, t);
            r.count == |Labels(r.comp)|
  {
    if st.count != 1 && st.comp[a] != st.comp[b] {
      var ra := st.comp[a];
      var rb := st.comp[b];
      assert st.comp[ra] == ra && st.comp[rb] == rb;
      var w := Winner(st.size, ra, rb);
      RelabelLabels(st.comp, if w == ra then rb else ra, w);
    }
  }

  /** A union within one component, or once everything is connected, is a
      no-op; otherwise the count drops by one and `time` becomes t. */
  lemma UnionEffect(st: State, a: int, b: int, t: int)
    requires WellFormed(st) && 0 <= a < |st.comp| && 0 <= b < |st.comp|
    ensures st.count == 1 || st.comp[a] == st.comp[b] ==> UnionSpec(st, a, b, t) == st
    ensures st.count != 1 && st.comp[a] != st.comp[b] ==>
              var r := UnionSpec(st, a, b, t);
              && r.count == st.count - 1 && r.time == t
              && r.comp[a] == r.comp[b]
              && forall x :: 0 <= x < |st.comp| ==> (r.comp[x] == r.comp[a] <==> st.comp[x] == st.comp[a] || st.comp[x] == st.comp[b])
  {
  }

  class UnionFind {
    var parent: array<int>
    var size: array<int>
    var count: int
    var time: int
    ghost var level: seq<nat>
    ghost var bound: nat
    /** The root of every element. */
    ghost var comp: seq<int>

    ghost predicate Valid()
      reads this, parent
    {
      && parent != size && parent.Length == size.Length
      && Tracks(parent[..], level, bound, comp, count)
    }

    ghost function Abs(): State
      reads this, size
    {
      State(comp, size[..], count, time)
    }

    constructor (node: int)
      requires node >= 0
      ensures Valid() && fresh(parent) && fresh(size) && parent.Length == node
      ensures Abs() == Init(node)
    {
      var p := new int[node];
      var sz := new int[node];
      var i := 0;
      while i < node
        invariant 0 <= i <= node
        invariant forall j :: 0 <= j < i ==> p[j] == j && sz[j] == j
      {
        p[i] := i;
        sz[i] := i;
        i := i + 1;
      }
      parent := p;
      size := sz;
      count := node;
      time := 0;
      level := seq(node, i => 0);
      bound := 0;
      comp := seq(node, i => i);
      InitRoots(p[..], seq(node, i => 0), 0);
      assert sz[..] == seq(node, i => i);
    }

    /** `findParent`: the root of a, pointing every node on the way straight at it. */
    method FindParent(a: int) returns (r: int)
      requires Valid() && 0 <= a < parent.Length
      modifies parent
      ensures Valid()
      ensures r == Root(old(parent[..]), level, bound, a)
      ensures Roots(parent[..], level, bound) == Roots(old(parent[..]), level, bound)
      ensures forall x {:trigger parent[x]} :: 0 <= x < parent.Length && level[x] < level[a] ==> parent[x] == old(parent[x])
      decreases bound - level[a]
    {
      if parent[a] == a {
        return a;
      }
      var p := parent[a];
      assert level[a] < level[p];
      r := FindParent(p);
      FindStep(old(parent[..]), parent[..], level, bound, a, r);
      parent[a] := r;
    }

    /** `union`: hang the root with the smaller `size` under the other
        (B under A on a tie), add up the sizes, count one component less and
        record t; nothing happens once everything is connected or when a and
        b already share a root. */
    method Union(a: int, b: int, t: int)
      requires Valid() && (count == 1 || (0 <= a < parent.Length && 0 <= b < parent.Length))
      modifies this, parent, size
      ensures Valid() && parent == old(parent) && size == old(size)
      ensures Abs() == UnionSpec(old(Abs()), a, b, t)
    {
      if count == 1 {
        return;
      }
      ghost var pOld := parent[..];
      var parentA := FindParent(a);
      var parentB := FindParent(b);
      UnionMatches(pOld, parent[..], level, bound, size[..], count, time, a, b, t);
      if parentA == parentB {
        return;
      }
      Merge(parentA, parentB, t);
    }

    /** The two writes of a merge: `loser` now points at `winner`, whose
        size takes in the loser's. */
    method Attach(loser: int, winner: int)
      requires parent != size && parent.Length == size.Length
      requires 0 <= loser < parent.Length && 0 <= winner < parent.Length && loser != winner
      modifies parent, size
      ensures parent[..] == old(parent[..])[loser := winner]
      ensures size[..] == old(size[..])[winner := old(size[winner]) + old(size[loser])]
    {
      parent[loser] := winner;
      size[winner] := size[winner] + size[loser];
    }

    /** The branch of `union` that links two different roots. */
    method Merge(parentA: int, parentB: int, t: int)
      requires Valid() && 0 <= parentA < parent.Length && 0 <= parentB < parent.Length
      requires parent[parentA] == parentA && parent[parentB] == parentB && parentA != parentB
      modifies this, parent, size
      ensures Valid() && parent == old(parent) && size == old(size)
      ensures var w := Winner(old(size[..]), parentA, parentB);
              var l := if w == parentA then parentB else parentA;
              && comp == Relabel(old(comp), l, w)
              && size[..] == old(size[..])[w := old(size[w]) + old(size[l])]
              && count == old(count) - 1 && time == t
    {
      // The three branches of the source pick the surviving root; each
      // then makes the same two writes, which follow the choice here.
      var winner, loser;
      if size[parentA] > size[parentB] {
        winner, loser := parentA, parentB;
      } else if size[parentB] > size[parentA] {
        winner, loser := parentB, parentA;
      } else {
        winner, loser := parentA, parentB;
      }
      ghost var level' := level[winner := if level[winner] > level[loser] then level[winner] else level[loser] + 1];
      ghost var bound' := if bound >= level'[winner] then bound else level'[winner];
      LinkTracks(parent[..], level, bound, comp, count, winner, loser, level', bound');
      Attach(loser, winner);
      level, bound, comp := level', bound', Relabel(comp, loser, winner);
      count := count - 1;
      time := t;
    }
  }

  /** The two root lookups of `union` keep the roots, so `UnionSpec` either
      changes nothing or relabels the loser's component with the winner. `p`
      is the parent array before the lookups, `q` after. */
  lemma UnionMatches(p: seq<int>, q: seq<int>, level: seq<nat>, bound: nat, sz: seq<int>, count: int, time: int, a: int, b: int, t: int)
    requires Forest(p, level, bound) && Forest(q, level, bound) && |sz| == |p| && 0 <= a < |p| && 0 <= b < |p|
    requires Roots(q, level, bound) == Roots(p, level, bound) && count != 1
    ensures var ra := Root(p, level, bound, a);
            var rb := Root(p, level, bound, b);
            var st := State(Roots(p, level, bound), sz, count, time);
            && (ra == rb ==> UnionSpec(st, a, b, t) == State(Roots(q, level, bound), sz, count, time))
            && (ra != rb ==>
                 var w := Winner(sz, ra, rb);
                 var l := if w == ra then rb else ra;
                 UnionSpec(st, a, b, t) == State(Relabel(Roots(q, level, bound), l, w), sz[w := sz[w] + sz[l]], count - 1, t))
  {
    assert Roots(q, level, bound)[a] == Root(p, level, bound, a);
    assert Roots(q, level, bound)[b] == Root(p, level, bound, b);
  }

  /** One step of `findParent`: once the parent's root r is found (and the
      parent chain compressed into `mid`), pointing `a` at r keeps the forest,
      the roots and the root set, and r is a's root. */
  lemma FindStep(p: seq<int>, mid: seq<int>, level: seq<nat>, bound: nat, a: int, r: int)
    requires Forest(p, level, bound) && 0 <= a < |p| && p[a] != a
    requires Forest(mid, level, bound) && |mid| == |p| && mid[a] == p[a]
    requires Roots(mid, level, bound) == Roots(p, level, bound)
    requires r == Root(p, level, bound, p[a])
    ensures r == Root(p, level, bound, a) && r == Root(mid, level, bound, a)
    ensures Forest(mid[a := r], level, bound)
    ensures Roots(mid[a := r], level, bound) == Roots(p, level, bound)
    ensures RootSet(mid[a := r]) == RootSet(mid)
  {
    assert Roots(mid, level, bound)[p[a]] == Roots(p, level, bound)[p[a]];
    Compress(mid, level, bound, a);
  }

  lemma InitRoots(p: seq<int>, level: seq<nat>, bound: nat)
    requires |level| == |p| && forall i :: 0 <= i < |p| ==> p[i] == i && level[i] == 0
    ensures Forest(p, level, bound)
    ensures Roots(p, level, bound) == seq(|p|, i => i)
    ensures |RootSet(p)| == |p|
  {
    SelfParented(p, |p|);
    assert RootSet(p) == SelfParentedBelow(p, |p|);
  }

  /** The self-parented elements below n. */
  function SelfParentedBelow(p: seq<int>, n: int): set<int>
  {
    set x | 0 <= x < n && x < |p| && p[x] == x
  }

  lemma {:induction false} SelfParented(p: seq<int>, n: nat)
    requires n <= |p| && forall i :: 0 <= i < |p| ==> p[i] == i
    ensures |SelfParentedBelow(p, n)| == n
  {
    if n > 0 {
      SelfParented(p, n - 1);
      assert SelfParentedBelow(p, n) == SelfParentedBelow(p, n - 1) + {n - 1};
    }
  }

  /** An edge `{a, b, time}` of `findTime`'s input. */
  datatype Edge = Edge(a: int, b: int, time: int)

  ghost predicate EndpointsBelow(edges: seq<Edge>, n: int)
  {
    forall i :: 0 <= i < |edges| ==> 0 <= edges[i].a < n && 0 <= edges[i].b < n
  }

  ghost predicate SortedByTime(edges: seq<Edge>)
  {
    forall i, j :: 0 <= i < j < |edges| ==> edges[i].time <= edges[j].time
  }

  /** Every union of `edges`, in order. */
  function Final(st: State, edges: seq<Edge>): (r: State)
    requires WellFormed(st) && EndpointsBelow(edges, |st.comp|)
    ensures WellFormed(r) && |r.comp| == |st.comp|
    decreases |edges|
  {
    if edges == [] then st
    else Final(UnionSpec(st, edges[0].a, edges[0].b, edges[0].time), edges[1..])
  }

  /** What the loop of `findTime` reports: before each union it looks
      whether everything is already connected, and stops there with the time
      of the last merge. */
  function Reported(st: State, edges: seq<Edge>): Option<int>
    requires WellFormed(st) && EndpointsBelow(edges, |st.comp|)
    decreases |edges|
  {
    if edges == [] then None
    else if st.count == 1 then Some(st.time)
    else Reported(UnionSpec(st, edges[0].a, edges[0].b, edges[0].time), edges[1..])
  }

  /** What `findTime` evidently means to report: the time of the merge that
      connected everything, also when that merge comes from the last edge. */
  function ReportedFixed(st: State, edges: seq<Edge>): Option<int>
    requires WellFormed(st) && EndpointsBelow(edges, |st.comp|)
    decreases |edges|
  {
    if st.count == 1 then Some(st.time)
    else if edges == [] then None
    else ReportedFixed(UnionSpec(st, edges[0].a, edges[0].b, edges[0].time), edges[1..])
  }

  /** Once everything is connected, further unions change nothing. */
  lemma {:induction false} ConnectedStays(st: State, edges: seq<Edge>)
    requires WellFormed(st) && EndpointsBelow(edges, |st.comp|) && st.count == 1
    ensures Final(st, edges) == st
    decreases |edges|
  {
    if edges != [] {
      ConnectedStays(UnionSpec(st, edges[0].a, edges[0].b, edges[0].time), edges[1..]);
    }
  }

  /** The corrected report is the time of the last merge exactly when all
      the edges together connect everything, and nothing otherwise. */
  lemma {:induction false} ReportedFixedIsFinal(st: State, edges: seq<Edge>)
    requires WellFormed(st) && EndpointsBelow(edges, |st.comp|)
    ensures var f := Final(st, edges);
            ReportedFixed(st, edges) == if f.count == 1 then Some(f.time) else None
    decreases |edges|
  {
    if st.count == 1 {
      ConnectedStays(st, edges);
    } else if edges != [] {
      ReportedFixedIsFinal(UnionSpec(st, edges[0].a, edges[0].b, edges[0].time), edges[1..]);
    }
  }

  /** The loop as written never looks at the state after the last edge: it
      reports what the corrected loop reports on all edges but the last. */
  lemma {:induction false} ReportedIgnoresLastEdge(st: State, edges: seq<Edge>)
    requires WellFormed(st) && EndpointsBelow(edges, |st.comp|) && edges != []
    ensures Reported(st, edges) == ReportedFixed(st, edges[..|edges| - 1])
    decreases |edges|
  {
    if st.count != 1 && |edges| > 1 {
      var st' := UnionSpec(st, edges[0].a, edges[0].b, edges[0].time);
      ReportedIgnoresLastEdge(st', edges[1..]);
      assert edges[1..][..|edges[1..]| - 1] == edges[..|edges| - 1][1..];
    }
  }

  /** Two nodes and the single edge {0, 1, 4}: the edge connects them, the
      corrected loop reports 4, the loop as written reports nothing. */
  lemma LastEdgeUnreported()
    ensures var edges := [Edge(0, 1, 4)];
            && Final(Init(2), edges).count == 1
            && ReportedFixed(Init(2), edges) == Some(4)
            && Reported(Init(2), edges) == None
  {
    var edges := [Edge(0, 1, 4)];
    var st := Init(2);
    assert st.comp == [0, 1] && st.size == [0, 1];
    assert UnionSpec(st, 0, 1, 4).count == 1;
    assert UnionSpec(st, 0, 1, 4).time == 4;
  }

  lemma SortedEndpoints(arr: seq<Edge>, sorted: seq<Edge>, n: int)
    requires EndpointsBelow(arr, n) && multiset(sorted) == multiset(arr)
    ensures EndpointsBelow(sorted, n)
  {
    forall i | 0 <= i < |sorted|
      ensures 0 <= sorted[i].a < n && 0 <= sorted[i].b < n
    {
      assert sorted[i] in multiset(arr);
    }
  }

  /** `findTime` as written: `sorted` is `arr` after the library sort by
      time; the result is what it prints as "Time needed", if anything. */
  method FindTime(n: int, arr: seq<Edge>, sorted: seq<Edge>) returns (reported: Option<int>)
    requires n >= 0 && EndpointsBelow(arr, n)
    requires multiset(sorted) == multiset(arr) && SortedByTime(sorted)
    ensures EndpointsBelow(sorted, n) && reported == Reported(Init(n), sorted)
  {
    SortedEndpoints(arr, sorted, n);
    var unionFind := new UnionFind(n);
    reported := None;
    var i := 0;
    while i < |sorted|
      invariant 0 <= i <= |sorted| && reported == None
      invariant fresh(unionFind.parent) && fresh(unionFind.size)
      invariant unionFind.Valid() && unionFind.parent.Length == n
      invariant WellFormed(unionFind.Abs()) && |unionFind.Abs().comp| == n
      invariant Reported(unionFind.Abs(), sorted[i..]) == Reported(Init(n), sorted)
    {
      var temp := sorted[i];
      if unionFind.count == 1 {
        reported := Some(unionFind.time);
        break;
      }
      assert sorted[i..][1..] == sorted[i + 1..];
      unionFind.Union(temp.a, temp.b, temp.time);
      i := i + 1;
    }
  }

  /** The state of the corrected loop after the first i edges: what is
      still to be reported from here is what the whole run reports. */
  ghost predicate FixedSoFar(st: State, n: int, sorted: seq<Edge>, i: int)
  {
    && 0 <= i <= |sorted| && EndpointsBelow(sorted, n)
    && WellFormed(st) && |st.comp| == n
    && ReportedFixed(st, sorted[i..]) == ReportedFixed(Init(n), sorted)
  }

  /** A union with the next edge, taken while not everything is connected,
      keeps that state. */
  lemma FixedStep(st: State, st': State, n: int, sorted: seq<Edge>, i: int)
    requires FixedSoFar(st, n, sorted, i) && i < |sorted| && st.count != 1
    requires st' == UnionSpec(st, sorted[i].a, sorted[i].b, sorted[i].time)
    ensures FixedSoFar(st', n, sorted, i + 1)
  {
    assert sorted[i..][1..] == sorted[i + 1..];
  }

  /** Before the corrected loop nothing has been merged. */
  lemma FixedStart(n: nat, sorted: seq<Edge>)
    requires EndpointsBelow(sorted, n)
    ensures FixedSoFar(Init(n), n, sorted, 0)
  {
    assert sorted[0..] == sorted;
  }

  /** When the corrected loop stops, the run reports the time of the last
      merge exactly when everything is connected. */
  lemma FixedDone(st: State, n: int, sorted: seq<Edge>, i: int)
    requires FixedSoFar(st, n, sorted, i) && (i == |sorted| || st.count == 1)
    ensures ReportedFixed(Init(n), sorted) == if st.count == 1 then Some(st.time) else None
  {
    assert i == |sorted| ==> sorted[i..] == [];
  }

  /** `findTime` with the connectivity test repeated after the last union. */
  method FindTimeFixed(n: int, arr: seq<Edge>, sorted: seq<Edge>) returns (reported: Option<int>)
    requires n >= 0 && EndpointsBelow(arr, n)
    requires multiset(sorted) == multiset(arr) && SortedByTime(sorted)
    ensures EndpointsBelow(sorted, n) && reported == ReportedFixed(Init(n), sorted)
  {
    SortedEndpoints(arr, sorted, n);
    var unionFind := new UnionFind(n);
    FixedStart(n, sorted);
    var i := 0;
    while i < |sorted| && unionFind.count != 1
      invariant 0 <= i <= |sorted|
      invariant fresh(unionFind.parent) && fresh(unionFind.size)
      invariant unionFind.Valid() && unionFind.parent.Length == n
      invariant FixedSoFar(unionFind.Abs(), n, sorted, i)
    {
      var temp := sorted[i];
      ghost var st := unionFind.Abs();
      unionFind.Union(temp.a, temp.b, temp.time);
      FixedStep(st, unionFind.Abs(), n, sorted, i);
      i := i + 1;
    }
    FixedDone(unionFind.Abs(), n, sorted, i);
    reported := if unionFind.count == 1 then Some(unionFind.time) else None;
  }
}
