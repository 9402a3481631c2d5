/**
 * The directed, weighted graph: a list of vertices, each holding the
 * value it is found by and the list of its outgoing edges. The list is
 * updated in place by the mutating operations; Dijkstra's search only
 * reads it.
 */
module Graphs {
  import opened Wrappers
  import opened GraphModel
  import opened Walks
  import opened ShortestPaths
  import opened PriorityQueue

  class Graph<T(==)> {
    var vertices: seq<Vertex<T>>

    /** Values are distinct, edges start at their owner and end inside the graph, one edge per target. */
    ghost predicate Valid()
      reads this
    {
      WellFormed(vertices)
    }

    constructor ()
      ensures Valid() && vertices == []
    {
      vertices := [];
    }

    /** The number of vertices. */
    function Count(): (n: nat)
      reads this
      ensures n == |Values(vertices)|
    {
      |vertices|
    }

    /** Every edge of the graph, vertex by vertex, each vertex's edges in insertion order. */
    method Edges() returns (edges: seq<Edge>)
      requires Valid()
      ensures edges == GraphModel.Edges(vertices)
      ensures forall ed :: ed in edges <==> exists i :: 0 <= i < |vertices| && ed in vertices[i].neighbors
    {
      edges := [];
      var i := 0;
      while i < |vertices|
        invariant 0 <= i <= |vertices|
        invariant edges == GraphModel.Edges(vertices[..i])
      {
        var j := 0;
        while j < |vertices[i].neighbors|
          invariant 0 <= j <= |vertices[i].neighbors|
          invariant edges == GraphModel.Edges(vertices[..i]) + vertices[i].neighbors[..j]
        {
          edges := edges + [vertices[i].neighbors[j]];
          j := j + 1;
        }
        assert vertices[..i + 1][..i] == vertices[..i];
        assert vertices[i].neighbors[..j] == vertices[i].neighbors;
        i := i + 1;
      }
      assert vertices[..i] == vertices;
    }

    /**
     * Adds a vertex holding `value` with no edges. The source throws when
     * the value is already present; here that is the `false` result, and
     * the graph is left as it was.
     */
    method AddVertex(value: T) returns (ok: bool)
      requires Valid()
      modifies this
      ensures Valid()
      ensures ok <==> old(Search(vertices, value)).None?
      ensures ok ==> vertices == old(vertices) + [Vertex(value, [])]
      ensures !ok ==> vertices == old(vertices)
    {
      if Search(vertices, value).Some? {
        return false;
      }
      vertices := vertices + [Vertex(value, [])];
      ok := true;
    }

    /**
     * Adds the edge a -> b of weight `distance`, unless either value is
     * missing or that edge already exists.
     */
    method AddEdge(a: T, b: T, distance: int) returns (ok: bool)
      requires Valid()
      modifies this
      ensures Valid()
      ensures ok <==> old(Search(vertices, a)).Some? && old(Search(vertices, b)).Some? &&
                      old(GetEdge(vertices, a, b)).None?
      ensures ok ==> vertices == WithEdge(old(vertices), old(Search(vertices, a)).value, old(Search(vertices, b)).value, distance) &&
                     GetEdge(vertices, a, b) == Some(Edge(old(Search(vertices, a)).value, old(Search(vertices, b)).value, distance))
      ensures !ok ==> vertices == old(vertices)
    {
      var ia, ib := Search(vertices, a), Search(vertices, b);
      if !(GetEdge(vertices, a, b).None? && ia.Some? && ib.Some?) {
        return false;
      }
      AddEdgeFound(vertices, ia.value, ib.value, distance);
      vertices := WithEdge(vertices, ia.value, ib.value, distance);
      ok := true;
    }

    /** Removes the edge a -> b when there is one. */
    method RemoveEdge(a: T, b: T) returns (ok: bool)
      requires Valid()
      modifies this
      ensures Valid()
      ensures ok <==> old(GetEdge(vertices, a, b)).Some?
      ensures ok ==> vertices == WithoutEdge(old(vertices), old(Search(vertices, a)).value, old(Search(vertices, b)).value) &&
                     GetEdge(vertices, a, b).None?
      ensures !ok ==> vertices == old(vertices)
    {
      var edge := GetEdge(vertices, a, b);
      if edge.None? {
        return false;
      }
      var ia, ib := Search(vertices, a).value, Search(vertices, b).value;
      ghost var vs := vertices;
      RemoveEdgeGone(vertices, ia, ib);
      vertices := WithoutEdge(vertices, ia, ib);
      SearchByValues(vs, vertices, a);
      SearchByValues(vs, vertices, b);
      ok := true;
    }

    /**
     * Removes the vertex holding `value` together with every edge ending
     * at it; the vertices after it move down one place, and the edges are
     * renumbered to match.
     */
    method RemoveVertex(value: T) returns (ok: bool)
      requires Valid()
      modifies this
      ensures Valid()
      ensures ok <==> old(Search(vertices, value)).Some?
      ensures ok ==> vertices == WithoutVertex(old(vertices), old(Search(vertices, value)).value)
      ensures !ok ==> vertices == old(vertices)
    {
      var found := Search(vertices, value);
      if found.None? {
        return false;
      }
      var k := found.value;
      RemoveVertexSpec(vertices, k);
      var detached := DetachEach(vertices, k);
      vertices := detached[..k] + detached[k + 1..];
      ok := true;
    }

    /**
     * Dijkstra's search from the vertex holding `start` to the vertex
     * holding `end`. Distances start at Sentinel (the start at 0); the
     * queue pops the closest queued vertex, marks it visited and relaxes
     * each of its edges, queueing a target that is neither queued nor
     * visited; the search stops when the end vertex is popped or the queue
     * runs dry. The result is the founder chain from the end back to the
     * start, as vertex indices from start to end, or None when the end has
     * no founder.
     */
    method Dijkstra(start: T, end: T) returns (path: Option<seq<nat>>)
      requires Valid() && NonNegativeWeights(vertices)
      ensures Search(vertices, start).None? || Search(vertices, end).None? ==> path.None?
      ensures start == end ==> path.None?
      ensures path.Some? ==>
                Search(vertices, start).Some? && Search(vertices, end).Some? &&
                var s := Search(vertices, start).value;
                var e := Search(vertices, end).value;
                IsWalk(vertices, path.value, s, e) && |path.value| >= 2 &&
                Weight(vertices, path.value) < Sentinel &&
                forall p :: IsWalk(vertices, p, s, e) ==> Weight(vertices, path.value) <= Weight(vertices, p)
      ensures path.None? && Search(vertices, start).Some? && Search(vertices, end).Some? ==>
                var s := Search(vertices, start).value;
                var e := Search(vertices, end).value;
                s == e || forall p :: IsWalk(vertices, p, s, e) ==> Weight(vertices, p) >= Sentinel
    {
      var si, ei := Search(vertices, start), Search(vertices, end);
      if si.None? || ei.None? {
        return None;
      }
      var s, e := si.value, ei.value;
      var dist: seq<int>, founder: seq<Option<nat>>, visited: set<int>;
      ghost var stamp: seq<nat>, clock: nat, queued: set<int>;
      dist, founder, visited, stamp, clock, queued := Explore(vertices, s, e);
      var stack := FounderPath(vertices, s, e, dist, founder, stamp, clock);
      if |stack| == 1 {
        path := None;
        if e != s {
          assert dist[e] == Sentinel;
          forall p | IsWalk(vertices, p, s, e)
            ensures Weight(vertices, p) >= Sentinel
          {
            WalkReachesVisited(vertices, s, dist, visited, queued, p, e);
          }
        }
      } else {
        WalkReachesVisited(vertices, s, dist, visited, queued, stack, e);
        path := Some(stack);
      }
    }
  }

  /**
   * The loop of RemoveVertex: every vertex's list loses its edge to vertex
   * k, its indices renumbered for k's removal.
   */
  method DetachEach<T>(vs: seq<Vertex<T>>, k: nat) returns (ws: seq<Vertex<T>>)
    ensures ws == DetachAll(vs, k)
  {
    ghost var d := DetachAll(vs, k);
    ws := vs;
    var i := 0;
    while i < |ws|
      invariant 0 <= i <= |ws| == |vs| == |d|
      invariant forall j :: 0 <= j < i ==> ws[j] == d[j]
      invariant forall j :: i <= j < |vs| ==> ws[j] == vs[j]
    {
      DetachAllAt(vs, k, i);
      ws := ws[i := Vertex(ws[i].value, Detach(ws[i].neighbors, k))];
      i := i + 1;
    }
    assert ws == d;
  }

  /**
   * The search loop: pops the closest queued vertex, visits it and relaxes
   * its edges, until the vertex e has been visited or the queue is empty.
   * On return every walk from s to a visited vertex is at least as heavy
   * as that vertex's distance.
   */
  method Explore<T>(vs: seq<Vertex<T>>, s: nat, e: nat)
    returns (dist: seq<int>, founder: seq<Option<nat>>, visited: set<int>,
             ghost stamp: seq<nat>, ghost clock: nat, ghost queued: set<int>)
    requires WellFormed(vs) && NonNegativeWeights(vs) && s < |vs| && e < |vs|
    ensures Tables(vs, s, dist, founder, stamp, clock)
    ensures Frontier(vs, s, dist, visited, queued)
    ensures Closed(vs, dist, visited, queued)
    ensures Settled(vs, s, dist, visited)
    ensures e in visited || queued == {}
  {
    var n := |vs|;
    dist, founder := InitialLabels(n, s);
    stamp, clock := seq(n, _ => 0), 1;
    visited := {};
    var queue := new PriorityQue();
    queue.Enqueu(s, DistKey(dist));
    queued := {s};
    StartState(vs, s, dist, founder, stamp);

    var finished := false;
    while !finished && !queue.IsEmpty()
      invariant fresh(queue) && fresh(queue.tree) && queue.Valid()
      invariant multiset(queue.Contents()) == multiset(queued)
      invariant Tables(vs, s, dist, founder, stamp, clock)
      invariant Frontier(vs, s, dist, visited, queued)
      invariant Closed(vs, dist, visited, queued)
      invariant Settled(vs, s, dist, visited)
      invariant finished <==> e in visited
      invariant |visited| <= n
      decreases n - |visited|
    {
      var current;
      current, dist, founder, visited, stamp, clock, queued :=
        Visit(vs, s, queue, dist, founder, visited, stamp, clock, queued);
      finished := current == e;
      IndexSetBound(visited, n);
    }
    if !finished {
      assert |multiset(queued)| == |queue.Contents()| == 0;
    }
  }

  /** One round of the search: pops the closest queued vertex, visits it and relaxes its edges. */
  method Visit<T>(vs: seq<Vertex<T>>, s: nat, queue: PriorityQue,
                  dist: seq<int>, founder: seq<Option<nat>>, visited: set<int>,
                  ghost stamp: seq<nat>, ghost clock: nat, ghost queued: set<int>)
    returns (current: nat, dist': seq<int>, founder': seq<Option<nat>>, visited': set<int>,
             ghost stamp': seq<nat>, ghost clock': nat, ghost queued': set<int>)
    requires WellFormed(vs) && NonNegativeWeights(vs)
    requires queue.Valid() && multiset(queue.Contents()) == multiset(queued) && queue.Contents() != []
    requires Tables(vs, s, dist, founder, stamp, clock)
    requires Frontier(vs, s, dist, visited, queued)
    requires Closed(vs, dist, visited, queued)
    requires Settled(vs, s, dist, visited)
    modifies queue, queue.tree
    ensures queue.Valid() && (queue.tree == old(queue.tree) || fresh(queue.tree))
    ensures multiset(queue.Contents()) == multiset(queued')
    ensures Tables(vs, s, dist', founder', stamp', clock')
    ensures Frontier(vs, s, dist', visited', queued')
    ensures Closed(vs, dist', visited', queued')
    ensures Settled(vs, s, dist', visited')
    ensures current !in visited && visited' == visited + {current}
    ensures |visited'| == |visited| + 1
  {
    current, queued' := PopClosest(vs, s, queue, dist, visited, queued);
    visited' := visited + {current};
    dist', founder', visited', stamp', clock', queued' :=
      RelaxEdges(vs, s, queue, current, dist, founder, visited', stamp, clock, queued');
  }

  /** The labels before the search: the start at distance 0, every other vertex at Sentinel, no founders. */
  method InitialLabels(n: nat, s: nat) returns (dist: seq<int>, founder: seq<Option<nat>>)
    requires s < n
    ensures |dist| == n && |founder| == n
    ensures forall v :: 0 <= v < n ==> dist[v] == (if v == s then 0 else Sentinel) && founder[v].None?
  {
    dist, founder := [], [];
    var i := 0;
    while i < n
      invariant 0 <= i <= n && |dist| == i && |founder| == i
      invariant forall v :: 0 <= v < i ==> dist[v] == Sentinel && founder[v].None?
    {
      dist, founder := dist + [Sentinel], founder + [None];
      i := i + 1;
    }
    dist, founder := dist[s := 0], founder[s := None];
  }

  /** Pops the closest queued vertex; the search invariants then hold with it visited. */
  method PopClosest<T>(vs: seq<Vertex<T>>, s: nat, queue: PriorityQue, dist: seq<int>, visited: set<int>, ghost queued: set<int>)
    returns (current: nat, ghost queued': set<int>)
    requires queue.Valid() && multiset(queue.Contents()) == multiset(queued) && queue.Contents() != []
    requires NonNegativeWeights(vs) && s < |vs| && |dist| == |vs| && dist[s] == 0
    requires forall v :: 0 <= v < |vs| ==> dist[v] <= Sentinel
    requires Frontier(vs, s, dist, visited, queued) && Closed(vs, dist, visited, queued) && Settled(vs, s, dist, visited)
    modifies queue, queue.tree
    ensures queue.Valid() && queue.tree == old(queue.tree)
    ensures current in queued && current !in visited && queued' == queued - {current}
    ensures multiset(queue.Contents()) == multiset(queued')
    ensures forall w :: w in queued ==> dist[current] <= dist[w]
    ensures Frontier(vs, s, dist, visited + {current}, queued')
    ensures ClosedExcept(vs, dist, visited + {current}, queued', current, 0)
    ensures Settled(vs, s, dist, visited + {current})
    ensures Farthest(dist, visited + {current}, current)
  {
    ghost var before := multiset(queue.Contents());
    var root := queue.Deqeue(DistKey(dist));
    assert root in multiset(queued);
    current := root;
    queued' := queued - {current};
    assert multiset(queued) == multiset(queued') + multiset{current} by {
      assert queued == queued' + {current};
    }
    assert before == multiset(queue.Contents()) + multiset{current};
    forall y
      ensures multiset(queue.Contents())[y] == multiset(queued')[y]
    {
      assert before[y] == multiset(queue.Contents())[y] + multiset{current}[y];
      assert multiset(queued)[y] == multiset(queued')[y] + multiset{current}[y];
    }
    assert multiset(queue.Contents()) == multiset(queued');
    forall w | w in queued
      ensures dist[current] <= dist[w]
    {
      if w != current {
        assert w in multiset(queue.Contents());
        assert DistKey(dist)(current) <= DistKey(dist)(w);
      }
    }
    PopPreserves(vs, s, dist, visited, queued, current);
  }

  /**
   * Relaxes every edge of the just visited vertex `current` in list order,
   * queueing each target that is neither queued nor visited.
   */
  method RelaxEdges<T>(vs: seq<Vertex<T>>, s: nat, queue: PriorityQue, current: nat,
                       dist: seq<int>, founder: seq<Option<nat>>, visited: set<int>,
                       ghost stamp: seq<nat>, ghost clock: nat, ghost queued: set<int>)
    returns (dist': seq<int>, founder': seq<Option<nat>>, visited': set<int>,
             ghost stamp': seq<nat>, ghost clock': nat, ghost queued': set<int>)
    requires WellFormed(vs) && NonNegativeWeights(vs) && current < |vs|
    requires queue.Valid() && multiset(queue.Contents()) == multiset(queued)
    requires Tables(vs, s, dist, founder, stamp, clock)
    requires Frontier(vs, s, dist, visited, queued)
    requires ClosedExcept(vs, dist, visited, queued, current, 0)
    requires Settled(vs, s, dist, visited)
    requires current in visited && Farthest(dist, visited, current)
    modifies queue, queue.tree
    ensures queue.Valid() && (queue.tree == old(queue.tree) || fresh(queue.tree))
    ensures multiset(queue.Contents()) == multiset(queued')
    ensures Tables(vs, s, dist', founder', stamp', clock')
    ensures Frontier(vs, s, dist', visited', queued')
    ensures Closed(vs, dist', visited', queued')
    ensures Settled(vs, s, dist', visited')
    ensures visited' == visited
    ensures (dist', founder') == RelaxPrefix(dist, founder, current, vs[current].neighbors, |vs[current].neighbors|)
    ensures forall v :: 0 <= v < |vs| ==> dist'[v] <= dist[v]
  {
    dist', founder', visited', stamp', clock', queued' := dist, founder, visited, stamp, clock, queued;
    var es := vs[current].neighbors;
    var j := 0;
    while j < |es|
      invariant 0 <= j <= |es| && es == vs[current].neighbors
      invariant (dist', founder') == RelaxPrefix(dist, founder, current, es, j)
      invariant queue.Valid() && (queue.tree == old(queue.tree) || fresh(queue.tree))
      invariant multiset(queue.Contents()) == multiset(queued')
      invariant Tables(vs, s, dist', founder', stamp', clock')
      invariant Frontier(vs, s, dist', visited', queued')
      invariant ClosedExcept(vs, dist', visited', queued', current, j)
      invariant Settled(vs, s, dist', visited')
      invariant current in visited' && Farthest(dist', visited', current)
      invariant visited' == visited
    {
      dist', founder', visited', stamp', clock', queued' :=
        RelaxEdge(vs, s, queue, current, j, dist', founder', visited', stamp', clock', queued');
      j := j + 1;
    }
    ClosedAfterAll(vs, dist', visited', queued', current);
  }

  /**
   * Relaxes edge j of the just visited vertex `current`: when the walk
   * through `current` is strictly shorter, the target gets that distance
   * and `current` as its founder, and is marked unvisited; the target is
   * then queued unless it is already queued or visited.
   */
  method RelaxEdge<T>(vs: seq<Vertex<T>>, s: nat, queue: PriorityQue, current: nat, j: nat,
                      dist: seq<int>, founder: seq<Option<nat>>, visited: set<int>,
                      ghost stamp: seq<nat>, ghost clock: nat, ghost queued: set<int>)
    returns (dist': seq<int>, founder': seq<Option<nat>>, visited': set<int>,
             ghost stamp': seq<nat>, ghost clock': nat, ghost queued': set<int>)
    requires WellFormed(vs) && NonNegativeWeights(vs) && current < |vs| && j < |vs[current].neighbors|
    requires queue.Valid() && multiset(queue.Contents()) == multiset(queued)
    requires Tables(vs, s, dist, founder, stamp, clock)
    requires Frontier(vs, s, dist, visited, queued)
    requires ClosedExcept(vs, dist, visited, queued, current, j)
    requires Settled(vs, s, dist, visited)
    requires current in visited && Farthest(dist, visited, current)
    modifies queue, queue.tree
    ensures queue.Valid() && (queue.tree == old(queue.tree) || fresh(queue.tree))
    ensures multiset(queue.Contents()) == multiset(queued')
    ensures Tables(vs, s, dist', founder', stamp', clock')
    ensures Frontier(vs, s, dist', visited', queued')
    ensures ClosedExcept(vs, dist', visited', queued', current, j + 1)
    ensures Settled(vs, s, dist', visited')
    ensures Farthest(dist', visited', current)
    ensures visited' == visited
    ensures (dist', founder') == Relax(dist, founder, current, vs[current].neighbors[j])
    ensures var t := vs[current].neighbors[j].to;
      queued' == if t !in queued && t !in visited then queued + {t} else queued
    ensures forall x :: multiset(queue.Contents())[x] <= 1
  {
    var edge := vs[current].neighbors[j];
    var neighbor := edge.to;
    RelaxTables(vs, s, dist, founder, stamp, clock, current, j);
    RelaxFrontier(vs, s, dist, founder, visited, queued, current, j);
    RelaxClosed(vs, dist, founder, visited, queued, current, j);
    RelaxSettled(vs, s, dist, founder, visited, current, j);
    var improved := edge.weight + dist[current] < dist[neighbor];
    if neighbor in visited {
      VisitedNotImproved(vs, dist, visited, current, edge);
    }
    var (d, f) := Relax(dist, founder, current, edge);
    dist', founder', visited', stamp', clock', queued' := d, f, visited, stamp, clock + 1, queued;
    if improved {
      assert visited - {neighbor} == visited;
      visited' := visited - {neighbor};
      stamp' := stamp[neighbor := clock];
    }
    queued' := QueueIfNew(queue, neighbor, DistKey(dist'), visited', queued);
  }

  /** The enqueue step of a relaxation: v is queued unless it is already queued or visited. */
  method QueueIfNew(queue: PriorityQue, v: nat, key: int -> int, visited: set<int>, ghost queued: set<int>)
    returns (ghost queued': set<int>)
    requires queue.Valid() && multiset(queue.Contents()) == multiset(queued)
    modifies queue, queue.tree
    ensures queue.Valid() && (queue.tree == old(queue.tree) || fresh(queue.tree))
    ensures queued' == if v !in queued && v !in visited then queued + {v} else queued
    ensures multiset(queue.Contents()) == multiset(queued')
    ensures forall x :: multiset(queue.Contents())[x] <= 1
  {
    var inQueue := queue.Contains(v);
    assert inQueue <==> v in multiset(queued);
    queued' := queued;
    if !inQueue && v !in visited {
      queue.Enqueu(v, key);
      queued' := queued + {v};
    }
  }

  /**
   * Follows the founders back from e until a vertex without one, and
   * returns the vertices met, from that vertex to e: each vertex's founder
   * is the one before it, and the walk is no heavier than e's distance and
   * starts at s whenever it is longer than [e].
   */
  method FounderPath<T>(vs: seq<Vertex<T>>, s: nat, e: nat, dist: seq<int>, founder: seq<Option<nat>>,
                        ghost stamp: seq<nat>, ghost clock: nat) returns (stack: seq<nat>)
    requires NonNegativeWeights(vs) && Tables(vs, s, dist, founder, stamp, clock) && e < |vs|
    ensures |stack| >= 1 && IsWalk(vs, stack, stack[0], e)
    ensures |stack| == 1 <==> founder[e].None?
    ensures |stack| > 1 ==> stack[0] == s && Weight(vs, stack) <= dist[e] < Sentinel
    ensures founder[stack[0]].None?
    ensures forall i :: 0 <= i < |stack| - 1 ==> founder[stack[i + 1]] == Some(stack[i])
  {
    var x: nat := e;
    stack := [e];
    while founder[x].Some?
      invariant x < |vs| && IsWalk(vs, stack, x, e)
      invariant stack[0] == x && forall i :: 0 <= i < |stack| - 1 ==> founder[stack[i + 1]] == Some(stack[i])
      invariant Weight(vs, stack) + dist[x] <= dist[e]
      invariant |stack| == 1 ==> x == e
      invariant |stack| > 1 ==> founder[e].Some? && dist[e] < Sentinel && dist[x] < Sentinel
      decreases dist[x], stamp[x]
    {
      ghost var y := x;
      assert FounderLink(vs, dist, founder, stamp, y);
      x := founder[x].value;
      EdgeWeightNonNegative(vs, x, y);
      WeightCons(vs, x, stack);
      stack := [x] + stack;
    }
  }
}
