/** Walks through the graph and their weights. */
module Walks {
  import opened Wrappers
  import opened GraphModel

  /** Vertex u has an edge ending at v. */
  ghost predicate HasEdge<T>(vs: seq<Vertex<T>>, u: nat, v: nat)
  {
    u < |vs| && FirstEdgeTo(vs[u].neighbors, v).Some?
  }

  /** The weight of u's edge to v (the first, and in a well-formed graph the only one). */
  ghost function EdgeWeight<T>(vs: seq<Vertex<T>>, u: nat, v: nat): int
    requires HasEdge(vs, u, v)
  {
    vs[u].neighbors[FirstEdgeTo(vs[u].neighbors, v).value].weight
  }

  /** Every weight in the graph is at least 0. */
  ghost predicate NonNegativeWeights<T>(vs: seq<Vertex<T>>)
  {
    forall i, k :: 0 <= i < |vs| && 0 <= k < |vs[i].neighbors| ==> vs[i].neighbors[k].weight >= 0
  }

  /** Consecutive vertices of p are joined by an edge. */
  ghost predicate Linked<T>(vs: seq<Vertex<T>>, p: seq<nat>)
  {
    forall i :: 0 <= i < |p| - 1 ==> HasEdge(vs, p[i], p[i + 1])
  }

  /** p is a walk from a to b: a nonempty sequence of vertices joined by edges. */
  ghost predicate IsWalk<T>(vs: seq<Vertex<T>>, p: seq<nat>, a: nat, b: nat)
  {
    |p| >= 1 && p[0] == a && p[|p| - 1] == b &&
    (forall i :: 0 <= i < |p| ==> p[i] < |vs|) &&
    Linked(vs, p)
  }

  /** The summed weights of the edges along p. */
  ghost function Weight<T>(vs: seq<Vertex<T>>, p: seq<nat>): int
    requires Linked(vs, p)
  {
    if |p| < 2 then 0
    else
      LinkedPrefix(vs, p);
      Weight(vs, p[..|p| - 1]) + EdgeWeight(vs, p[|p| - 2], p[|p| - 1])
  }

  /** Dropping the last vertex of a linked sequence leaves it linked. */
  lemma LinkedPrefix<T>(vs: seq<Vertex<T>>, p: seq<nat>)
    requires |p| >= 1 && Linked(vs, p)
    ensures Linked(vs, p[..|p| - 1])
  {
    var init := p[..|p| - 1];
    forall i | 0 <= i < |init| - 1 ensures HasEdge(vs, init[i], init[i + 1]) {
      assert HasEdge(vs, p[i], p[i + 1]);
    }
  }

  /** The weight of an edge of a graph with nonnegative weights is nonnegative. */
  lemma EdgeWeightNonNegative<T>(vs: seq<Vertex<T>>, u: nat, v: nat)
    requires NonNegativeWeights(vs) && HasEdge(vs, u, v)
    ensures EdgeWeight(vs, u, v) >= 0
  {
    var k := FirstEdgeTo(vs[u].neighbors, v).value;
    assert vs[u].neighbors[k].weight >= 0;
  }

  /** Stepping from u onto the start of a linked p gives a linked sequence. */
  lemma LinkedCons<T>(vs: seq<Vertex<T>>, u: nat, p: seq<nat>)
    requires |p| >= 1 && Linked(vs, p) && HasEdge(vs, u, p[0])
    ensures Linked(vs, [u] + p)
  {
    var q := [u] + p;
    forall i | 0 <= i < |q| - 1 ensures HasEdge(vs, q[i], q[i + 1]) {
      if i > 0 {
        assert q[i] == p[i - 1] && q[i + 1] == p[i];
      }
    }
  }

  /** Stepping from u onto the start of p adds that edge's weight. */
  lemma {:induction false} WeightCons<T>(vs: seq<Vertex<T>>, u: nat, p: seq<nat>)
    requires |p| >= 1 && Linked(vs, p) && HasEdge(vs, u, p[0])
    ensures Linked(vs, [u] + p)
    ensures Weight(vs, [u] + p) == EdgeWeight(vs, u, p[0]) + Weight(vs, p)
    decreases |p|
  {
    var q := [u] + p;
    LinkedCons(vs, u, p);
    if |p| >= 2 {
      var init := p[..|p| - 1];
      LinkedPrefix(vs, p);
      WeightCons(vs, u, init);
      assert q[..|q| - 1] == [u] + init;
      assert q[|q| - 2] == p[|p| - 2] && q[|q| - 1] == p[|p| - 1];
      assert init[0] == p[0];
    }
  }
}
