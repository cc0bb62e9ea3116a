/** custom/DijkstraDemo.java: single-source distances in an undirected
    weighted graph. Every edge is entered in both directions into
    adjacency lists; a priority queue of (vertex, distance) entries is
    polled smallest distance first, and every neighbour whose distance
    improves is updated and queued again. Stale entries are not skipped,
    they are simply relaxed once more. */
module Dijkstra {

  const IntMax := 0x7fff_ffff

  /** `Node`: a vertex with a distance (in the queue) or a weight (in an
      adjacency list). */
  datatype Node = Node(v: int, d: int)

  /** One row `{u, v, w}` of `edges`. */
  datatype Edge = Edge(u: int, v: int, w: int)

  predicate ValidEdges(V: int, edges: seq<Edge>)
  {
    forall i :: 0 <= i < |edges| ==> 0 <= edges[i].u < V && 0 <= edges[i].v < V
  }

  predicate NonNegative(edges: seq<Edge>)
  {
    forall i :: 0 <= i < |edges| ==> edges[i].w >= 0
  }

  /** Edge e puts n into the adjacency list of x. */
  predicate Joins(e: Edge, x: int, n: Node)
  {
    (e.u == x && n == Node(e.v, e.w)) || (e.v == x && n == Node(e.u, e.w))
  }

  /** The adjacency list of x after all edges are added, in insertion order:
      an edge {u, v, w} appends (v, w) to u's list, then (u, w) to v's. */
  function Neighbours(edges: seq<Edge>, x: int): seq<Node>
  {
    if |edges| == 0 then []
    else
      var e := edges[|edges| - 1];
      Neighbours(edges[..|edges| - 1], x)
        + (if e.u == x then [Node(e.v, e.w)] else [])
        + (if e.v == x then [Node(e.u, e.w)] else [])
  }

  /** An adjacency entry of x comes from an edge at x, and every edge at x
      gives one. */
  lemma {:induction false} NeighboursMember(edges: seq<Edge>, x: int, n: Node)
    ensures n in Neighbours(edges, x) <==> exists i :: 0 <= i < |edges| && Joins(edges[i], x, n)
    decreases |edges|
  {
    if |edges| > 0 {
      var last := |edges| - 1;
      NeighboursMember(edges[..last], x, n);
      if n in Neighbours(edges[..last], x) {
        var i :| 0 <= i < last && Joins(edges[..last][i], x, n);
        assert Joins(edges[i], x, n);
      }
      if exists i :: 0 <= i < |edges| && Joins(edges[i], x, n) {
        var i :| 0 <= i < |edges| && Joins(edges[i], x, n);
        if i < last {
          assert Joins(edges[..last][i], x, n);
        }
      }
    }
  }

  /** Edges go both ways: y is a neighbour of x at weight w exactly when x
      is a neighbour of y at weight w. */
  lemma BothWays(edges: seq<Edge>, x: int, y: int, w: int)
    ensures Node(y, w) in Neighbours(edges, x) <==> Node(x, w) in Neighbours(edges, y)
  {
    NeighboursMember(edges, x, Node(y, w));
    NeighboursMember(edges, y, Node(x, w));
    if Node(y, w) in Neighbours(edges, x) {
      var i :| 0 <= i < |edges| && Joins(edges[i], x, Node(y, w));
      assert Joins(edges[i], y, Node(x, w));
    }
    if Node(x, w) in Neighbours(edges, y) {
      var i :| 0 <= i < |edges| && Joins(edges[i], y, Node(x, w));
      assert Joins(edges[i], x, Node(y, w));
    }
  }

  /** Adjacency entries name vertices of the graph and carry the edge's
      weight. */
  lemma NeighboursInside(V: int, edges: seq<Edge>, x: int, n: Node)
    requires ValidEdges(V, edges) && NonNegative(edges) && n in Neighbours(edges, x)
    ensures 0 <= n.v < V && n.d >= 0
  {
    NeighboursMember(edges, x, n);
  }

  /** The loops building `adj`: one empty list per vertex, then every edge
      appended to the lists of both its ends. */
  method Adjacency(V: int, edges: seq<Edge>) returns (adj: seq<seq<Node>>)
    requires V >= 0 && ValidEdges(V, edges)
    ensures |adj| == V
    ensures forall x :: 0 <= x < V ==> adj[x] == Neighbours(edges, x)
  {
    adj := [];
    for i := 0 to V
      invariant adj == seq(i, _ => [])
    {
      adj := adj + [[]];
    }
    for i := 0 to |edges|
      invariant |adj| == V
      invariant forall x :: 0 <= x < V ==> adj[x] == Neighbours(edges[..i], x)
    {
      assert edges[..i + 1][..i] == edges[..i];
      var e := edges[i];
      adj := adj[e.u := adj[e.u] + [Node(e.v, e.w)]];
      adj := adj[e.v := adj[e.v] + [Node(e.u, e.w)]];
    }
    assert edges[..|edges|] == edges;
  }

  /** The initial distances: `new int[V]`, 0 at the source and
      `Integer.MAX_VALUE` everywhere else. */
  method Distances(V: int, src: int) returns (dist: array<int>)
    requires 0 <= src < V
    ensures fresh(dist) && dist.Length == V
    ensures forall i :: 0 <= i < V ==> dist[i] == if i == src then 0 else IntMax
  {
    dist := new int[V](_ => 0);
    dist[src] := 0;
    for i := 0 to V
      invariant forall k :: 0 <= k < V ==> dist[k] == if k == src || k >= i then 0 else IntMax
    {
      if i != src {
        dist[i] := IntMax;
      }
    }
  }

  /** Where a walk from `from` taking the given steps ends. */
  function End(from: int, steps: seq<Node>): int
  {
    if |steps| == 0 then from else steps[|steps| - 1].v
  }

  /** The total weight of a walk. */
  function Cost(steps: seq<Node>): int
  {
    if |steps| == 0 then 0 else Cost(steps[..|steps| - 1]) + steps[|steps| - 1].d
  }

  /** Each step follows an adjacency entry of the vertex reached so far. */
  predicate Walk(edges: seq<Edge>, from: int, steps: seq<Node>)
  {
    |steps| == 0 ||
    (Walk(edges, from, steps[..|steps| - 1]) && steps[|steps| - 1] in Neighbours(edges, End(from, steps[..|steps| - 1])))
  }

  /** Some walk from src ends at v with total weight d. */
  ghost predicate Reached(edges: seq<Edge>, src: int, v: int, d: int)
  {
    exists steps :: Walk(edges, src, steps) && End(src, steps) == v && Cost(steps) == d
  }

  /** A walk to x of weight d, followed by an edge of x, is a walk. */
  lemma Extend(edges: seq<Edge>, src: int, x: int, d: int, n: Node)
    requires Reached(edges, src, x, d) && n in Neighbours(edges, x)
    ensures Reached(edges, src, n.v, d + n.d)
  {
    var steps :| Walk(edges, src, steps) && End(src, steps) == x && Cost(steps) == d;
    var longer := steps + [n];
    assert longer[..|steps|] == steps;
    assert Walk(edges, src, longer) && End(src, longer) == n.v && Cost(longer) == d + n.d;
  }

  /** Every neighbour v of a vertex at distance du is at distance at most
      du + w. */
  predicate Relaxed(nbrs: seq<Node>, dist: seq<int>, du: int)
  {
    forall j :: 0 <= j < |nbrs| ==> 0 <= nbrs[j].v < |dist| && dist[nbrs[j].v] <= du + nbrs[j].d
  }

  /** Lowering distances keeps a vertex relaxed. */
  lemma RelaxedMono(nbrs: seq<Node>, dist0: seq<int>, dist1: seq<int>, du: int)
    requires Relaxed(nbrs, dist0, du) && |dist1| == |dist0|
    requires forall v :: 0 <= v < |dist0| ==> dist1[v] <= dist0[v]
    ensures Relaxed(nbrs, dist1, du)
  {
  }

  function Sum(s: seq<int>): int
  {
    if |s| == 0 then 0 else Sum(s[..|s| - 1]) + s[|s| - 1]
  }

  lemma {:induction false} SumUpdate(s: seq<int>, i: int, x: int)
    requires 0 <= i < |s|
    ensures Sum(s[i := x]) == Sum(s) - s[i] + x
    decreases |s|
  {
    var last := |s| - 1;
    assert s[i := x][..last] == if i == last then s[..last] else s[..last][i := x];
    if i < last {
      SumUpdate(s[..last], i, x);
    }
  }

  lemma {:induction false} SumNonNeg(s: seq<int>)
    requires forall k :: 0 <= k < |s| ==> s[k] >= 0
    ensures Sum(s) >= 0
    decreases |s|
  {
    if |s| > 0 {
      SumNonNeg(s[..|s| - 1]);
    }
  }

  /** Entry n was queued by relaxing a neighbour from distance d. */
  ghost predicate Relaxes(nbrs: seq<Node>, d: int, n: Node)
  {
    exists j :: 0 <= j < |nbrs| && n == Node(nbrs[j].v, d + nbrs[j].d)
  }

  /** What relaxing the neighbours nbrs from distance d does to the
      distances dist0 and the queue pq0: distances only decrease, each
      decrease is queued at the new distance, the queue only grows and
      every new entry comes from a relaxation, and afterwards every
      neighbour is relaxed. */
  ghost predicate Relaxation(nbrs: seq<Node>, d: int, dist0: seq<int>, pq0: multiset<Node>,
                             dist1: seq<int>, pq1: multiset<Node>)
  {
    && |dist1| == |dist0|
    && (forall v :: 0 <= v < |dist0| ==> dist1[v] <= dist0[v])
    && (forall v :: 0 <= v < |dist0| && dist1[v] < dist0[v] ==> Node(v, dist1[v]) in pq1)
    && pq0 <= pq1
    && (forall n :: n in pq1 ==> n in pq0 || Relaxes(nbrs, d, n))
    && Relaxed(nbrs, dist1, d)
  }

  /** Relaxation after the first j neighbours, together with: when
      anything changed, the total of the distances went down. */
  ghost predicate Partial(nbrs: seq<Node>, j: int, d: int, dist0: seq<int>, pq0: multiset<Node>,
                          dist: seq<int>, pq: multiset<Node>)
  {
    && 0 <= j <= |nbrs| && |dist| == |dist0|
    && (forall v :: 0 <= v < |dist0| ==> dist[v] <= dist0[v])
    && (forall v :: 0 <= v < |dist0| && dist[v] < dist0[v] ==> Node(v, dist[v]) in pq)
    && pq0 <= pq
    && (forall n :: n in pq ==> n in pq0 || Relaxes(nbrs, d, n))
    && Relaxed(nbrs[..j], dist, d)
    && ((pq == pq0 && dist == dist0) || Sum(dist) < Sum(dist0))
  }

  /** One neighbour of the loop over `adj.get(temp.v)`. */
  lemma RelaxStep(nbrs: seq<Node>, j: int, d: int, dist0: seq<int>, pq0: multiset<Node>,
                  dist: seq<int>, pq: multiset<Node>, dist': seq<int>, pq': multiset<Node>)
    requires Partial(nbrs, j, d, dist0, pq0, dist, pq) && j < |nbrs| && 0 <= nbrs[j].v < |dist|
    requires var n := nbrs[j];
      if dist[n.v] > d + n.d then dist' == dist[n.v := d + n.d] && pq' == pq + multiset{Node(n.v, d + n.d)}
      else dist' == dist && pq' == pq
    ensures Partial(nbrs, j + 1, d, dist0, pq0, dist', pq')
  {
    var n := nbrs[j];
    if dist[n.v] > d + n.d {
      Lower(nbrs, j, d, dist0, pq0, dist, pq);
    } else {
      assert nbrs[..j + 1] == nbrs[..j] + [n];
    }
  }

  /** A neighbour whose distance exceeds d + w gets d + w and a queue entry. */
  lemma Lower(nbrs: seq<Node>, j: int, d: int, dist0: seq<int>, pq0: multiset<Node>,
              dist: seq<int>, pq: multiset<Node>)
    requires Partial(nbrs, j, d, dist0, pq0, dist, pq) && j < |nbrs| && 0 <= nbrs[j].v < |dist|
    requires dist[nbrs[j].v] > d + nbrs[j].d
    ensures var n := nbrs[j];
      Partial(nbrs, j + 1, d, dist0, pq0, dist[n.v := d + n.d], pq + multiset{Node(n.v, d + n.d)})
  {
    var n := nbrs[j];
    var dist', pq' := dist[n.v := d + n.d], pq + multiset{Node(n.v, d + n.d)};
    assert nbrs[..j + 1] == nbrs[..j] + [n];
    SumUpdate(dist, n.v, d + n.d);
    assert Relaxes(nbrs, d, Node(n.v, d + n.d));
    assert Relaxed(nbrs[..j + 1], dist', d);
  }

  /** The loop over `adj.get(temp.v)`: every neighbour whose distance
      exceeds d + w gets distance d + w and a queue entry for it. When
      anything changed, the total of the distances went down. */
  method Relax(dist: array<int>, nbrs: seq<Node>, d: int, pq: multiset<Node>) returns (pq': multiset<Node>)
    requires forall j :: 0 <= j < |nbrs| ==> 0 <= nbrs[j].v < dist.Length
    modifies dist
    ensures Relaxation(nbrs, d, old(dist[..]), pq, dist[..], pq')
    ensures (pq' == pq && dist[..] == old(dist[..])) || Sum(dist[..]) < Sum(old(dist[..]))
  {
    ghost var dist0 := dist[..];
    pq' := pq;
    for j := 0 to |nbrs|
      invariant Partial(nbrs, j, d, dist0, pq, dist[..], pq')
    {
      var n := nbrs[j];
      ghost var before, queued := dist[..], pq';
      if dist[n.v] > d + n.d {
        dist[n.v] := d + n.d;
        pq' := pq' + multiset{Node(n.v, d + n.d)};
        assert dist[..] == before[n.v := d + n.d];
      }
      RelaxStep(nbrs, j, d, dist0, pq, before, queued, dist[..], pq');
    }
    assert nbrs[..|nbrs|] == nbrs;
  }

  /** The loop invariant: distances lie in [0, MAX] with 0 at the source;
      every finite distance and every queued entry is the weight of a walk
      from the source; no entry undercuts its vertex's distance; and every
      vertex with a finite distance is queued at that distance or already
      has all its neighbours relaxed. */
  ghost predicate Inv(V: int, edges: seq<Edge>, src: int, dist: seq<int>, pq: multiset<Node>)
  {
    && |dist| == V && 0 <= src < V && dist[src] == 0
    && (forall v :: 0 <= v < V ==> 0 <= dist[v] <= IntMax)
    && (forall v :: 0 <= v < V && dist[v] < IntMax ==> Reached(edges, src, v, dist[v]))
    && (forall n :: n in pq ==> 0 <= n.v < V && dist[n.v] <= n.d && Reached(edges, src, n.v, n.d))
    && (forall u :: 0 <= u < V && dist[u] < IntMax ==>
          Node(u, dist[u]) in pq || Relaxed(Neighbours(edges, u), dist, dist[u]))
  }

  /** The queue after a round: what was left after the poll plus entries
      made by relaxing the polled vertex's neighbours, all walks from the
      source and none below its vertex's new distance. */
  lemma RoundQueue(V: int, edges: seq<Edge>, src: int, dist0: seq<int>, pq0: multiset<Node>, temp: Node,
                   dist1: seq<int>, pq1: multiset<Node>)
    requires ValidEdges(V, edges) && NonNegative(edges) && Inv(V, edges, src, dist0, pq0) && temp in pq0
    requires |dist1| == V && forall v :: 0 <= v < V ==> dist1[v] <= dist0[v]
    requires forall n :: n in pq1 ==> n in pq0 - multiset{temp} || Relaxes(Neighbours(edges, temp.v), temp.d, n)
    requires Relaxed(Neighbours(edges, temp.v), dist1, temp.d)
    ensures forall n :: n in pq1 ==> 0 <= n.v < V && 0 <= n.d && dist1[n.v] <= n.d && Reached(edges, src, n.v, n.d)
  {
    var nbrs := Neighbours(edges, temp.v);
    forall n | n in pq1 ensures 0 <= n.v < V && 0 <= n.d && dist1[n.v] <= n.d && Reached(edges, src, n.v, n.d) {
      if n !in pq0 - multiset{temp} {
        var j :| 0 <= j < |nbrs| && n == Node(nbrs[j].v, temp.d + nbrs[j].d);
        NeighboursInside(V, edges, temp.v, nbrs[j]);
        Extend(edges, src, temp.v, temp.d, nbrs[j]);
      }
    }
  }

  /** The distances after a round: still in [0, MAX], 0 at the source, and
      each finite one the weight of a walk. */
  lemma RoundDist(V: int, edges: seq<Edge>, src: int, dist0: seq<int>, pq0: multiset<Node>,
                  dist1: seq<int>, pq1: multiset<Node>)
    requires Inv(V, edges, src, dist0, pq0)
    requires |dist1| == V && forall v :: 0 <= v < V ==> dist1[v] <= dist0[v]
    requires forall v :: 0 <= v < V && dist1[v] < dist0[v] ==> Node(v, dist1[v]) in pq1
    requires forall n :: n in pq1 ==> 0 <= n.v < V && 0 <= n.d && dist1[n.v] <= n.d && Reached(edges, src, n.v, n.d)
    ensures dist1[src] == 0 && forall v :: 0 <= v < V ==> 0 <= dist1[v] <= IntMax
    ensures forall v :: 0 <= v < V && dist1[v] < IntMax ==> Reached(edges, src, v, dist1[v])
  {
    forall v | 0 <= v < V ensures 0 <= dist1[v] && (dist1[v] < IntMax ==> Reached(edges, src, v, dist1[v])) {
      if dist1[v] < dist0[v] {
        assert Node(v, dist1[v]) in pq1;
      }
    }
  }

  /** After a round every vertex with a finite distance is still queued at
      it or relaxed: the polled vertex because its neighbours were just
      relaxed, a lowered vertex because it was queued, any other because
      its own distance stayed and its neighbours' only fell. */
  lemma RoundRelaxed(V: int, edges: seq<Edge>, src: int, dist0: seq<int>, pq0: multiset<Node>, temp: Node,
                     dist1: seq<int>, pq1: multiset<Node>)
    requires Inv(V, edges, src, dist0, pq0) && temp in pq0
    requires |dist1| == V && forall v :: 0 <= v < V ==> dist1[v] <= dist0[v]
    requires forall v :: 0 <= v < V && dist1[v] < dist0[v] ==> Node(v, dist1[v]) in pq1
    requires pq0 - multiset{temp} <= pq1
    requires Relaxed(Neighbours(edges, temp.v), dist1, temp.d)
    ensures forall u :: 0 <= u < V && dist1[u] < IntMax ==>
      Node(u, dist1[u]) in pq1 || Relaxed(Neighbours(edges, u), dist1, dist1[u])
  {
    forall u | 0 <= u < V && dist1[u] < IntMax
      ensures Node(u, dist1[u]) in pq1 || Relaxed(Neighbours(edges, u), dist1, dist1[u])
    {
      if dist1[u] == dist0[u] {
        if Node(u, dist0[u]) in pq0 {
          if Node(u, dist0[u]) != temp {
            assert Node(u, dist0[u]) in pq0 - multiset{temp};
          }
        } else {
          RelaxedMono(Neighbours(edges, u), dist0, dist1, dist0[u]);
        }
      }
    }
  }

  /** One round (poll, then relax the polled vertex's neighbours) keeps
      the loop invariant. */
  lemma Round(V: int, edges: seq<Edge>, src: int, dist0: seq<int>, pq0: multiset<Node>, temp: Node,
              dist1: seq<int>, pq1: multiset<Node>)
    requires ValidEdges(V, edges) && NonNegative(edges) && Inv(V, edges, src, dist0, pq0) && temp in pq0
    requires Relaxation(Neighbours(edges, temp.v), temp.d, dist0, pq0 - multiset{temp}, dist1, pq1)
    ensures Inv(V, edges, src, dist1, pq1)
  {
    RoundQueue(V, edges, src, dist0, pq0, temp, dist1, pq1);
    RoundDist(V, edges, src, dist0, pq0, dist1, pq1);
    RoundRelaxed(V, edges, src, dist0, pq0, temp, dist1, pq1);
  }

  /** With the queue empty, the invariant gives everything `dijkstra`
      promises. */
  lemma Finished(V: int, edges: seq<Edge>, src: int, dist: seq<int>)
    requires ValidEdges(V, edges) && NonNegative(edges) && Inv(V, edges, src, dist, multiset{})
    ensures forall steps :: Walk(edges, src, steps) ==>
      0 <= End(src, steps) < V && dist[End(src, steps)] <= Cost(steps)
    ensures forall i :: 0 <= i < |edges| && dist[edges[i].u] < IntMax ==>
      dist[edges[i].v] <= dist[edges[i].u] + edges[i].w
    ensures forall i :: 0 <= i < |edges| && dist[edges[i].v] < IntMax ==>
      dist[edges[i].u] <= dist[edges[i].v] + edges[i].w
  {
    forall steps | Walk(edges, src, steps) ensures 0 <= End(src, steps) < V && dist[End(src, steps)] <= Cost(steps) {
      Shortest(edges, src, dist, steps);
    }
    EdgesRelaxed(edges, dist);
  }

  /** With every vertex of finite distance relaxed, no walk from the source
      is lighter than the distance of its end. */
  lemma {:induction false} Shortest(edges: seq<Edge>, src: int, dist: seq<int>, steps: seq<Node>)
    requires 0 <= src < |dist| && ValidEdges(|dist|, edges) && NonNegative(edges)
    requires dist[src] == 0 && forall v :: 0 <= v < |dist| ==> dist[v] <= IntMax
    requires forall u :: 0 <= u < |dist| && dist[u] < IntMax ==> Relaxed(Neighbours(edges, u), dist, dist[u])
    requires Walk(edges, src, steps)
    ensures 0 <= End(src, steps) < |dist| && dist[End(src, steps)] <= Cost(steps)
    decreases |steps|
  {
    if |steps| > 0 {
      var prefix := steps[..|steps| - 1];
      var n := steps[|steps| - 1];
      Shortest(edges, src, dist, prefix);
      var x := End(src, prefix);
      NeighboursInside(|dist|, edges, x, n);
      if dist[x] < IntMax {
        var j :| 0 <= j < |Neighbours(edges, x)| && Neighbours(edges, x)[j] == n;
        assert dist[n.v] <= dist[x] + n.d;
      }
    }
  }

  /** Once every vertex of finite distance is relaxed, so is each of its
      adjacency entries. */
  lemma EntryRelaxed(edges: seq<Edge>, dist: seq<int>, u: int, n: Node)
    requires forall x :: 0 <= x < |dist| && dist[x] < IntMax ==> Relaxed(Neighbours(edges, x), dist, dist[x])
    requires 0 <= u < |dist| && dist[u] < IntMax && n in Neighbours(edges, u)
    ensures 0 <= n.v < |dist| && dist[n.v] <= dist[u] + n.d
  {
    var j :| 0 <= j < |Neighbours(edges, u)| && Neighbours(edges, u)[j] == n;
    assert Relaxed(Neighbours(edges, u), dist, dist[u]);
  }

  /** Every edge is relaxed in both directions once all vertices are. */
  lemma EdgesRelaxed(edges: seq<Edge>, dist: seq<int>)
    requires forall u :: 0 <= u < |dist| && dist[u] < IntMax ==> Relaxed(Neighbours(edges, u), dist, dist[u])
    requires ValidEdges(|dist|, edges)
    ensures forall i :: 0 <= i < |edges| && dist[edges[i].u] < IntMax ==>
      dist[edges[i].v] <= dist[edges[i].u] + edges[i].w
    ensures forall i :: 0 <= i < |edges| && dist[edges[i].v] < IntMax ==>
      dist[edges[i].u] <= dist[edges[i].v] + edges[i].w
  {
    forall i | 0 <= i < |edges|
      ensures dist[edges[i].u] < IntMax ==> dist[edges[i].v] <= dist[edges[i].u] + edges[i].w
      ensures dist[edges[i].v] < IntMax ==> dist[edges[i].u] <= dist[edges[i].v] + edges[i].w
    {
      EdgeRelaxed(edges, dist, edges[i]);
    }
  }

  /** One edge {u, v, w} is relaxed both ways. */
  lemma EdgeRelaxed(edges: seq<Edge>, dist: seq<int>, e: Edge)
    requires forall u :: 0 <= u < |dist| && dist[u] < IntMax ==> Relaxed(Neighbours(edges, u), dist, dist[u])
    requires e in edges && 0 <= e.u < |dist| && 0 <= e.v < |dist|
    ensures dist[e.u] < IntMax ==> dist[e.v] <= dist[e.u] + e.w
    ensures dist[e.v] < IntMax ==> dist[e.u] <= dist[e.v] + e.w
  {
    var i :| 0 <= i < |edges| && edges[i] == e;
    assert Joins(edges[i], e.u, Node(e.v, e.w)) && Joins(edges[i], e.v, Node(e.u, e.w));
    NeighboursMember(edges, e.u, Node(e.v, e.w));
    NeighboursMember(edges, e.v, Node(e.u, e.w));
    if dist[e.u] < IntMax {
      EntryRelaxed(edges, dist, e.u, Node(e.v, e.w));
    }
    if dist[e.v] < IntMax {
      EntryRelaxed(edges, dist, e.v, Node(e.u, e.w));
    }
  }

  lemma {:induction false} HasMin(pq: multiset<Node>)
    requires |pq| > 0
    ensures exists t :: t in pq && forall n :: n in pq ==> t.d <= n.d
    decreases |pq|
  {
    var x :| x in pq;
    var rest := pq - multiset{x};
    assert pq == rest + multiset{x};
    if |rest| > 0 {
      HasMin(rest);
      var t :| t in rest && forall n :: n in rest ==> t.d <= n.d;
      MinOfAdded(rest, x, t, pq);
    } else {
      assert pq == multiset{x};
    }
  }

  /** Adding x to a bag whose smallest entry is t: the smaller of the two
      is the smallest of the result. */
  lemma MinOfAdded(rest: multiset<Node>, x: Node, t: Node, pq: multiset<Node>)
    requires t in rest && (forall n :: n in rest ==> t.d <= n.d)
    requires pq == rest + multiset{x}
    ensures var m := if x.d < t.d then x else t;
      m in pq && forall n :: n in pq ==> m.d <= n.d
  {
    forall n | n in pq ensures n == x || n in rest {
    }
  }

  /** One iteration of the main loop: poll an entry of smallest distance
      and relax the neighbours of its vertex. The invariant is kept, and
      either the total of the distances went down or nothing changed but
      the queue, which lost the polled entry. */
  method Visit(V: int, edges: seq<Edge>, src: int, adj: seq<seq<Node>>, dist: array<int>, pq: multiset<Node>)
    returns (pq': multiset<Node>)
    requires ValidEdges(V, edges) && NonNegative(edges) && Inv(V, edges, src, dist[..], pq) && |pq| > 0
    requires |adj| == V && forall x :: 0 <= x < V ==> adj[x] == Neighbours(edges, x)
    modifies dist
    ensures Inv(V, edges, src, dist[..], pq')
    ensures 0 <= Sum(dist[..]) < Sum(old(dist[..])) || (dist[..] == old(dist[..]) && 0 <= |pq'| < |pq|)
  {
    HasMin(pq);
    var temp :| temp in pq && forall n :: n in pq ==> temp.d <= n.d;
    pq' := pq - multiset{temp};
    var list := adj[temp.v];
    forall j | 0 <= j < |list| ensures 0 <= list[j].v < dist.Length {
      NeighboursInside(V, edges, temp.v, list[j]);
    }
    pq' := Relax(dist, list, temp.d, pq');
    Round(V, edges, src, old(dist[..]), pq, temp, dist[..], pq');
    SumNonNeg(dist[..]);
  }

  /** `dijkstra`. Requires the source and every edge end to be vertices
      and the weights to be non-negative. The result has one entry per
      vertex, 0 at the source; a finite entry is the weight of some walk
      from the source and no walk to that vertex is lighter; a vertex no
      walk reaches keeps MAX; and every edge is relaxed both ways. */
  method Dijkstra(V: int, edges: seq<Edge>, src: int) returns (dist: array<int>)
    requires 0 <= src < V && ValidEdges(V, edges) && NonNegative(edges)
    ensures dist.Length == V && dist[src] == 0
    ensures forall v :: 0 <= v < V ==> 0 <= dist[v] <= IntMax
    ensures forall v :: 0 <= v < V && dist[v] < IntMax ==> Reached(edges, src, v, dist[v])
    ensures forall steps :: Walk(edges, src, steps) ==>
      0 <= End(src, steps) < V && dist[End(src, steps)] <= Cost(steps)
    ensures forall i :: 0 <= i < |edges| && dist[edges[i].u] < IntMax ==>
      dist[edges[i].v] <= dist[edges[i].u] + edges[i].w
    ensures forall i :: 0 <= i < |edges| && dist[edges[i].v] < IntMax ==>
      dist[edges[i].u] <= dist[edges[i].v] + edges[i].w
  {
    var adj := Adjacency(V, edges);
    var pq := multiset{Node(src, 0)};
    dist := Distances(V, src);
    assert Walk(edges, src, []);
    assert Reached(edges, src, src, 0);
    while |pq| > 0
      invariant dist.Length == V
      invariant Inv(V, edges, src, dist[..], pq)
      decreases Sum(dist[..]), |pq|
    {
      pq := Visit(V, edges, src, adj, dist, pq);
    }
    Finished(V, edges, src, dist[..]);
  }
}
