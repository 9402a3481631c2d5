/**
 * The labels Dijkstra's search keeps for every vertex (a distance and a
 * founder, the vertex the best known walk arrives from), the relaxation of
 * one edge, and the invariants of the search together with the lemmas that
 * show each step of the search keeps them.
 *
 * Vertices are indices into the vertex sequence. `visited` is the set of
 * vertices whose IsVisited flag is set; `queued` is the set of vertices in
 * the priority queue. The ghost `stamp` records when each founder was set,
 * which orders founders that lie at the same distance (zero-weight edges).
 */
module ShortestPaths {
  import opened Wrappers
  import opened GraphModel
  import opened Walks

  /** The distance every vertex starts with: int.MaxValue, read as "not reached". */
  const Sentinel: int := 2147483647

  /** The queue's comparer: vertices are ordered by their current distance. */
  function DistKey(dist: seq<int>): (key: int -> int)
    ensures forall v :: 0 <= v < |dist| ==> key(v) == dist[v]
  {
    v => if 0 <= v < |dist| then dist[v] else Sentinel
  }

  /**
   * Relaxes the edge `ed` leaving `current`: when going through `current`
   * is strictly shorter, the target gets that distance and `current` as its
   * founder; nothing else changes.
   */
  function Relax(dist: seq<int>, founder: seq<Option<nat>>, current: nat, ed: Edge): (r: (seq<int>, seq<Option<nat>>))
    requires current < |dist| && ed.to < |dist| && |founder| == |dist|
    ensures |r.0| == |dist| && |r.1| == |founder|
    ensures forall v :: 0 <= v < |dist| ==> r.0[v] <= dist[v]
    ensures forall v :: 0 <= v < |dist| && v != ed.to ==> r.0[v] == dist[v] && r.1[v] == founder[v]
    ensures r.0[ed.to] < dist[ed.to] <==> dist[current] + ed.weight < dist[ed.to]
    ensures r.0[ed.to] < dist[ed.to] ==> r.0[ed.to] == dist[current] + ed.weight && r.1[ed.to] == Some(current)
    ensures r.0[ed.to] == dist[ed.to] ==> r.1[ed.to] == founder[ed.to]
    ensures r.0[ed.to] <= dist[current] + ed.weight
  {
    var tentative := ed.weight + dist[current];
    if tentative < dist[ed.to] then (dist[ed.to := tentative], founder[ed.to := Some(current)])
    else (dist, founder)
  }

  /**
   * The tables after relaxing the first j edges of es, one after the
   * other in list order, each against the tables the previous one left.
   */
  function RelaxPrefix(dist: seq<int>, founder: seq<Option<nat>>, current: nat, es: seq<Edge>, j: nat): (r: (seq<int>, seq<Option<nat>>))
    requires current < |dist| && |founder| == |dist| && j <= |es|
    requires forall i :: 0 <= i < |es| ==> es[i].to < |dist|
    ensures |r.0| == |dist| && |r.1| == |founder|
    ensures forall v :: 0 <= v < |dist| ==> r.0[v] <= dist[v]
    ensures forall v :: 0 <= v < |dist| && (forall i :: 0 <= i < j ==> es[i].to != v) ==>
      r.0[v] == dist[v] && r.1[v] == founder[v]
  {
    if j == 0 then (dist, founder)
    else
      var p := RelaxPrefix(dist, founder, current, es, j - 1);
      Relax(p.0, p.1, current, es[j - 1])
  }

  /**
   * v's founder u has an edge to v, and v's distance is at least u's plus
   * that edge; u is strictly closer, or equally close and labelled earlier.
   */
  ghost predicate FounderLink<T>(vs: seq<Vertex<T>>, dist: seq<int>, founder: seq<Option<nat>>, stamp: seq<nat>, v: nat)
  {
    v < |vs| && |dist| == |vs| && |founder| == |vs| && |stamp| == |vs| && founder[v].Some? &&
    var u := founder[v].value;
    u < |vs| && HasEdge(vs, u, v) && dist[v] < Sentinel &&
    dist[u] + EdgeWeight(vs, u, v) <= dist[v] &&
    (dist[u] < dist[v] || stamp[u] < stamp[v])
  }

  /** The label tables: sizes, bounds, the start's label, and the founder links. */
  ghost predicate Tables<T>(vs: seq<Vertex<T>>, s: nat, dist: seq<int>, founder: seq<Option<nat>>, stamp: seq<nat>, clock: nat)
  {
    |dist| == |vs| && |founder| == |vs| && |stamp| == |vs| && s < |vs| &&
    dist[s] == 0 && founder[s].None? &&
    (forall v :: 0 <= v < |vs| ==> 0 <= dist[v] <= Sentinel && stamp[v] < clock) &&
    (forall v :: 0 <= v < |vs| && founder[v].None? && dist[v] < Sentinel ==> v == s) &&
    (forall v :: 0 <= v < |vs| && founder[v].Some? ==> FounderLink(vs, dist, founder, stamp, v))
  }

  /** Every reached vertex is visited or queued, never both; the start is one of them. */
  ghost predicate Frontier<T>(vs: seq<Vertex<T>>, s: nat, dist: seq<int>, visited: set<int>, queued: set<int>)
  {
    |dist| == |vs| &&
    (forall v :: v in visited ==> 0 <= v < |vs|) &&
    (forall v :: v in queued ==> 0 <= v < |vs|) &&
    visited !! queued && (s in visited || s in queued) &&
    (forall v :: 0 <= v < |vs| && dist[v] < Sentinel ==> v in visited || v in queued)
  }

  /** Edge l of v has been relaxed: its target is visited or queued and no farther than through v. */
  ghost predicate EdgeDone<T>(vs: seq<Vertex<T>>, dist: seq<int>, visited: set<int>, queued: set<int>, v: int, l: int)
  {
    0 <= v < |vs| && 0 <= l < |vs[v].neighbors| && |dist| == |vs| &&
    var ed := vs[v].neighbors[l];
    ed.to < |vs| && (ed.to in visited || ed.to in queued) && dist[ed.to] <= dist[v] + ed.weight
  }

  /** Every edge of every visited vertex is relaxed, except edges j.. of vertex c. */
  ghost predicate ClosedExcept<T>(vs: seq<Vertex<T>>, dist: seq<int>, visited: set<int>, queued: set<int>, c: int, j: int)
  {
    forall v, l :: v in visited && 0 <= v < |vs| && 0 <= l < |vs[v].neighbors| && (v != c || l < j) ==>
      EdgeDone(vs, dist, visited, queued, v, l)
  }

  /** Every edge of every visited vertex is relaxed. */
  ghost predicate Closed<T>(vs: seq<Vertex<T>>, dist: seq<int>, visited: set<int>, queued: set<int>)
  {
    ClosedExcept(vs, dist, visited, queued, -1, 0)
  }

  /**
   * Visited vertices are no farther than unvisited ones, and the distance
   * of a visited vertex is no more than the weight of any walk to it.
   */
  ghost predicate Settled<T>(vs: seq<Vertex<T>>, s: nat, dist: seq<int>, visited: set<int>)
  {
    |dist| == |vs| &&
    (forall v, w :: v in visited && 0 <= v < |vs| && 0 <= w < |vs| && w !in visited ==> dist[v] <= dist[w]) &&
    (forall v, p :: v in visited && 0 <= v < |vs| && IsWalk(vs, p, s, v) ==> dist[v] <= Weight(vs, p))
  }

  /** c is the farthest visited vertex. */
  ghost predicate Farthest(dist: seq<int>, visited: set<int>, c: int)
  {
    0 <= c < |dist| && forall v :: v in visited && 0 <= v < |dist| ==> dist[v] <= dist[c]
  }

  /** The labels before the search: only the start is reached. */
  lemma StartState<T>(vs: seq<Vertex<T>>, s: nat, dist: seq<int>, founder: seq<Option<nat>>, stamp: seq<nat>)
    requires s < |vs| && |dist| == |vs| && |founder| == |vs| && |stamp| == |vs|
    requires forall v :: 0 <= v < |vs| ==> dist[v] == (if v == s then 0 else Sentinel) && founder[v].None? && stamp[v] == 0
    ensures Tables(vs, s, dist, founder, stamp, 1)
    ensures Frontier(vs, s, dist, {}, {s})
    ensures Closed(vs, dist, {}, {s})
    ensures Settled(vs, s, dist, {})
  {
  }

  /**
   * The vertex popped with the least distance among the queued ones is no
   * farther than any walk from the start to an unvisited vertex.
   */
  lemma {:induction false} PopIsShortest<T>(vs: seq<Vertex<T>>, s: nat, dist: seq<int>, visited: set<int>, queued: set<int>, c: int, p: seq<nat>, y: nat)
    requires NonNegativeWeights(vs) && s < |vs| && |dist| == |vs| && dist[s] == 0
    requires Frontier(vs, s, dist, visited, queued) && Closed(vs, dist, visited, queued) && Settled(vs, s, dist, visited)
    requires c in queued && forall w :: w in queued ==> dist[c] <= dist[w]
    requires IsWalk(vs, p, s, y) && y !in visited
    ensures dist[c] <= Weight(vs, p)
    decreases |p|
  {
    if |p| == 1 {
      assert y == s && s in queued;
    } else {
      var init := p[..|p| - 1];
      var x := p[|p| - 2];
      LinkedPrefix(vs, p);
      assert IsWalk(vs, init, s, x);
      EdgeWeightNonNegative(vs, x, y);
      assert Weight(vs, p) == Weight(vs, init) + EdgeWeight(vs, x, y);
      if x !in visited {
        PopIsShortest(vs, s, dist, visited, queued, c, init, x);
      } else {
        var l := FirstEdgeTo(vs[x].neighbors, y).value;
        assert EdgeDone(vs, dist, visited, queued, x, l);
        assert y in queued;
      }
    }
  }

  /** Popping the closest queued vertex c and marking it visited keeps the invariants. */
  lemma PopPreserves<T>(vs: seq<Vertex<T>>, s: nat, dist: seq<int>, visited: set<int>, queued: set<int>, c: int)
    requires NonNegativeWeights(vs) && s < |vs| && |dist| == |vs| && dist[s] == 0
    requires forall v :: 0 <= v < |vs| ==> dist[v] <= Sentinel
    requires Frontier(vs, s, dist, visited, queued) && Closed(vs, dist, visited, queued) && Settled(vs, s, dist, visited)
    requires c in queued && forall w :: w in queued ==> dist[c] <= dist[w]
    ensures Frontier(vs, s, dist, visited + {c}, queued - {c})
    ensures ClosedExcept(vs, dist, visited + {c}, queued - {c}, c, 0)
    ensures Settled(vs, s, dist, visited + {c})
    ensures Farthest(dist, visited + {c}, c)
  {
    var V, Q := visited + {c}, queued - {c};
    forall v, l | v in V && 0 <= v < |vs| && 0 <= l < |vs[v].neighbors| && (v != c || l < 0)
      ensures EdgeDone(vs, dist, V, Q, v, l)
    {
      assert EdgeDone(vs, dist, visited, queued, v, l);
    }
    forall v, w | v in V && 0 <= v < |vs| && 0 <= w < |vs| && w !in V
      ensures dist[v] <= dist[w]
    {
      if v == c && w !in queued {
        assert dist[w] == Sentinel;
      }
    }
    forall v, p | v in V && 0 <= v < |vs| && IsWalk(vs, p, s, v)
      ensures dist[v] <= Weight(vs, p)
    {
      if v == c {
        PopIsShortest(vs, s, dist, visited, queued, c, p, v);
      }
    }
  }

  /** A visited vertex is never improved while the closest-so-far vertex c is relaxed. */
  lemma VisitedNotImproved<T>(vs: seq<Vertex<T>>, dist: seq<int>, visited: set<int>, c: nat, ed: Edge)
    requires c < |vs| && |dist| == |vs| && ed.to < |vs| && ed.weight >= 0
    requires c in visited && Farthest(dist, visited, c)
    requires ed.to in visited
    ensures !(dist[c] + ed.weight < dist[ed.to])
  {
  }

  /** Relaxing edge j of the visited vertex c keeps the label tables consistent. */
  lemma RelaxTables<T>(vs: seq<Vertex<T>>, s: nat, dist: seq<int>, founder: seq<Option<nat>>, stamp: seq<nat>, clock: nat, c: nat, j: nat)
    requires WellFormed(vs) && NonNegativeWeights(vs)
    requires Tables(vs, s, dist, founder, stamp, clock)
    requires c < |vs| && j < |vs[c].neighbors|
    ensures var ed := vs[c].neighbors[j];
            var r := Relax(dist, founder, c, ed);
            var improved := r.0[ed.to] < dist[ed.to];
            Tables(vs, s, r.0, r.1, if improved then stamp[ed.to := clock] else stamp, clock + 1)
  {
    var ed := vs[c].neighbors[j];
    var r := Relax(dist, founder, c, ed);
    if r.0[ed.to] < dist[ed.to] {
      RelaxImproved(vs, s, dist, founder, stamp, clock, c, j);
    } else {
      assert r.0 == dist && r.1 == founder;
      forall v | 0 <= v < |vs| && founder[v].Some?
        ensures FounderLink(vs, dist, founder, stamp, v)
      {
      }
    }
  }

  /** The improving case of RelaxTables: the target is stamped with the current clock. */
  lemma RelaxImproved<T>(vs: seq<Vertex<T>>, s: nat, dist: seq<int>, founder: seq<Option<nat>>, stamp: seq<nat>, clock: nat, c: nat, j: nat)
    requires WellFormed(vs) && NonNegativeWeights(vs)
    requires Tables(vs, s, dist, founder, stamp, clock)
    requires c < |vs| && j < |vs[c].neighbors|
    requires Relax(dist, founder, c, vs[c].neighbors[j]).0[vs[c].neighbors[j].to] < dist[vs[c].neighbors[j].to]
    ensures var ed := vs[c].neighbors[j];
            var r := Relax(dist, founder, c, ed);
            Tables(vs, s, r.0, r.1, stamp[ed.to := clock], clock + 1)
  {
    var ed := vs[c].neighbors[j];
    var r := Relax(dist, founder, c, ed);
    assert ed.to < |vs| && ed.to != s;
    forall v | 0 <= v < |vs| && r.1[v].Some?
      ensures FounderLink(vs, r.0, r.1, stamp[ed.to := clock], v)
    {
      ImprovedLink(vs, s, dist, founder, stamp, clock, c, j, v);
    }
  }

  /** After a strict improvement through c, vertex v's founder link still holds. */
  lemma ImprovedLink<T>(vs: seq<Vertex<T>>, s: nat, dist: seq<int>, founder: seq<Option<nat>>, stamp: seq<nat>, clock: nat, c: nat, j: nat, v: nat)
    requires WellFormed(vs) && NonNegativeWeights(vs)
    requires Tables(vs, s, dist, founder, stamp, clock)
    requires c < |vs| && j < |vs[c].neighbors| && v < |vs|
    requires Relax(dist, founder, c, vs[c].neighbors[j]).0[vs[c].neighbors[j].to] < dist[vs[c].neighbors[j].to]
    requires Relax(dist, founder, c, vs[c].neighbors[j]).1[v].Some?
    ensures var ed := vs[c].neighbors[j];
            var r := Relax(dist, founder, c, ed);
            FounderLink(vs, r.0, r.1, stamp[ed.to := clock], v)
  {
    var ed := vs[c].neighbors[j];
    var r := Relax(dist, founder, c, ed);
    var nb := ed.to;
    assert nb < |vs|;
    assert ed.weight >= 0;
    if v == nb {
      FirstEdgeToUnique(vs[c].neighbors, j);
      assert HasEdge(vs, c, nb) && EdgeWeight(vs, c, nb) == ed.weight;
    } else {
      assert FounderLink(vs, dist, founder, stamp, v);
      var u := founder[v].value;
      if u == nb {
        EdgeWeightNonNegative(vs, u, v);
      }
    }
  }

  /** Relaxing edge j of c, then queueing its target when it is neither queued nor visited, keeps the frontier. */
  lemma RelaxFrontier<T>(vs: seq<Vertex<T>>, s: nat, dist: seq<int>, founder: seq<Option<nat>>, visited: set<int>, queued: set<int>, c: nat, j: nat)
    requires WellFormed(vs) && c < |vs| && j < |vs[c].neighbors| && |founder| == |vs|
    requires Frontier(vs, s, dist, visited, queued)
    ensures var ed := vs[c].neighbors[j];
            var r := Relax(dist, founder, c, ed);
            Frontier(vs, s, r.0, visited, if ed.to !in queued && ed.to !in visited then queued + {ed.to} else queued)
  {
    var ed := vs[c].neighbors[j];
    assert ed.to < |vs|;
  }

  /** Relaxing edge j of the visited vertex c, then queueing its target if needed, marks edge j done. */
  lemma RelaxClosed<T>(vs: seq<Vertex<T>>, dist: seq<int>, founder: seq<Option<nat>>, visited: set<int>, queued: set<int>, c: nat, j: nat)
    requires WellFormed(vs) && NonNegativeWeights(vs) && c < |vs| && j < |vs[c].neighbors|
    requires |dist| == |vs| && |founder| == |vs|
    requires c in visited && Farthest(dist, visited, c)
    requires ClosedExcept(vs, dist, visited, queued, c, j)
    ensures var ed := vs[c].neighbors[j];
            var r := Relax(dist, founder, c, ed);
            ClosedExcept(vs, r.0, visited, if ed.to !in queued && ed.to !in visited then queued + {ed.to} else queued, c, j + 1)
  {
    var ed := vs[c].neighbors[j];
    var r := Relax(dist, founder, c, ed);
    var Q := if ed.to !in queued && ed.to !in visited then queued + {ed.to} else queued;
    assert ed.to < |vs| && ed.weight >= 0;
    if ed.to in visited {
      VisitedNotImproved(vs, dist, visited, c, ed);
    }
    forall v, l | v in visited && 0 <= v < |vs| && 0 <= l < |vs[v].neighbors| && (v != c || l < j + 1)
      ensures EdgeDone(vs, r.0, visited, Q, v, l)
    {
      if v != c || l < j {
        assert EdgeDone(vs, dist, visited, queued, v, l);
        assert r.0[v] == dist[v];
      }
    }
  }

  /** Relaxing edge j of the visited vertex c keeps the visited vertices settled. */
  lemma RelaxSettled<T>(vs: seq<Vertex<T>>, s: nat, dist: seq<int>, founder: seq<Option<nat>>, visited: set<int>, c: nat, j: nat)
    requires WellFormed(vs) && NonNegativeWeights(vs) && c < |vs| && j < |vs[c].neighbors| && |founder| == |vs|
    requires c in visited && Farthest(dist, visited, c)
    requires Settled(vs, s, dist, visited) && dist[c] >= 0
    ensures var ed := vs[c].neighbors[j];
            var r := Relax(dist, founder, c, ed);
            Settled(vs, s, r.0, visited) && Farthest(r.0, visited, c)
  {
    var ed := vs[c].neighbors[j];
    var r := Relax(dist, founder, c, ed);
    assert ed.to < |vs| && ed.weight >= 0;
    if ed.to in visited {
      VisitedNotImproved(vs, dist, visited, c, ed);
    }
    assert forall v :: v in visited && 0 <= v < |dist| ==> r.0[v] == dist[v];
  }

  /** Once the queue is empty, every vertex a walk from the start reaches is visited. */
  lemma {:induction false} NoWalkEscapes<T>(vs: seq<Vertex<T>>, s: nat, dist: seq<int>, visited: set<int>, p: seq<nat>, y: nat)
    requires Frontier(vs, s, dist, visited, {}) && Closed(vs, dist, visited, {})
    requires IsWalk(vs, p, s, y)
    ensures y in visited
    decreases |p|
  {
    if |p| > 1 {
      var init := p[..|p| - 1];
      var x := p[|p| - 2];
      LinkedPrefix(vs, p);
      assert IsWalk(vs, init, s, x);
      NoWalkEscapes(vs, s, dist, visited, init, x);
      var l := FirstEdgeTo(vs[x].neighbors, y).value;
      assert EdgeDone(vs, dist, visited, {}, x, l);
    }
  }

  /** Once the last edge of c is relaxed, every edge of every visited vertex is. */
  lemma ClosedAfterAll<T>(vs: seq<Vertex<T>>, dist: seq<int>, visited: set<int>, queued: set<int>, c: nat)
    requires c < |vs| && ClosedExcept(vs, dist, visited, queued, c, |vs[c].neighbors|)
    ensures Closed(vs, dist, visited, queued)
  {
  }

  /** A walk from the start ends at a visited vertex when it ends at the target or the queue is empty. */
  lemma WalkReachesVisited<T>(vs: seq<Vertex<T>>, s: nat, dist: seq<int>, visited: set<int>, queued: set<int>, p: seq<nat>, y: nat)
    requires Frontier(vs, s, dist, visited, queued) && Closed(vs, dist, visited, queued)
    requires y in visited || queued == {}
    requires IsWalk(vs, p, s, y)
    ensures y in visited
  {
    if queued == {} {
      NoWalkEscapes(vs, s, dist, visited, p, y);
    }
  }

  /** A set of vertex indices below n has at most n elements. */
  lemma {:induction false} IndexSetBound(s: set<int>, n: nat)
    requires forall v :: v in s ==> 0 <= v < n
    ensures |s| <= n
    decreases n
  {
    if n > 0 {
      IndexSetBound(s - {n - 1}, n - 1);
    } else {
      assert forall v :: v !in s;
      assert s == {};
    }
  }
}
