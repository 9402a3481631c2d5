/**
 * The persistent graph as values: an insertion-ordered sequence of vertices,
 * each owning its ordered list of outgoing edges. A vertex is identified by
 * its index in the sequence; an edge records the index of the vertex owning
 * it, the index of the vertex it ends at and its weight.
 */
module GraphModel {
  import opened Wrappers

  datatype Edge = Edge(from: nat, to: nat, weight: int)

  datatype Vertex<T> = Vertex(value: T, neighbors: seq<Edge>)

  /** No two vertices carry equal values. */
  ghost predicate DistinctValues<T>(vs: seq<Vertex<T>>)
  {
    forall i, j :: 0 <= i < j < |vs| ==> vs[i].value != vs[j].value
  }

  /** Every edge of vertex i starts at i and ends at a vertex of the graph. */
  ghost predicate EdgesInRange<T>(vs: seq<Vertex<T>>)
  {
    forall i, k :: 0 <= i < |vs| && 0 <= k < |vs[i].neighbors| ==>
      vs[i].neighbors[k].from == i && vs[i].neighbors[k].to < |vs|
  }

  /** No two edges of one list end at the same vertex. */
  ghost predicate DistinctTargets(es: seq<Edge>)
  {
    forall k, l :: 0 <= k < l < |es| ==> es[k].to != es[l].to
  }

  /** The invariant the graph's operations keep. */
  ghost predicate WellFormed<T>(vs: seq<Vertex<T>>)
  {
    DistinctValues(vs) && EdgesInRange(vs) &&
    forall i :: 0 <= i < |vs| ==> DistinctTargets(vs[i].neighbors)
  }

  /** The values of the vertices, in order. */
  function Values<T>(vs: seq<Vertex<T>>): (r: seq<T>)
    ensures |r| == |vs| && forall i :: 0 <= i < |vs| ==> r[i] == vs[i].value
  {
    if vs == [] then [] else [vs[0].value] + Values(vs[1..])
  }

  /** The index of the first vertex whose value equals value, or None. */
  function Search<T(==)>(vs: seq<Vertex<T>>, value: T): (r: Option<nat>)
    ensures r.Some? ==> r.value < |vs| && vs[r.value].value == value &&
                        forall j :: 0 <= j < r.value ==> vs[j].value != value
    ensures r.None? <==> forall j :: 0 <= j < |vs| ==> vs[j].value != value
  {
    if vs == [] then None
    else if vs[0].value == value then Some(0)
    else match Search(vs[1..], value)
      case None => None
      case Some(i) => Some(i + 1)
  }

  /** The position of the first edge of es that ends at b, or None. */
  function FirstEdgeTo(es: seq<Edge>, b: nat): (r: Option<nat>)
    ensures r.Some? ==> r.value < |es| && es[r.value].to == b &&
                        forall l :: 0 <= l < r.value ==> es[l].to != b
    ensures r.None? <==> forall l :: 0 <= l < |es| ==> es[l].to != b
  {
    if es == [] then None
    else if es[0].to == b then Some(0)
    else match FirstEdgeTo(es[1..], b)
      case None => None
      case Some(k) => Some(k + 1)
  }

  /** In a list without repeated targets, the first edge to a target is the only one. */
  lemma FirstEdgeToUnique(es: seq<Edge>, k: nat)
    requires DistinctTargets(es) && k < |es|
    ensures FirstEdgeTo(es, es[k].to) == Some(k)
  {
  }

  /**
   * The first edge of a's list that ends at b, or None when there is none
   * or either value is not in the graph.
   */
  function GetEdge<T(==)>(vs: seq<Vertex<T>>, a: T, b: T): (r: Option<Edge>)
    ensures r.Some? <==> Search(vs, a).Some? && Search(vs, b).Some? &&
                         FirstEdgeTo(vs[Search(vs, a).value].neighbors, Search(vs, b).value).Some?
    ensures r.Some? ==> var es := vs[Search(vs, a).value].neighbors;
                        var k := FirstEdgeTo(es, Search(vs, b).value).value;
                        r.value == es[k] && r.value.to == Search(vs, b).value
  {
    match (Search(vs, a), Search(vs, b))
    case (Some(ia), Some(ib)) =>
      (match FirstEdgeTo(vs[ia].neighbors, ib)
       case Some(k) => Some(vs[ia].neighbors[k])
       case None => None)
    case _ => None
  }

  /** Every vertex's neighbour list, concatenated in vertex order. */
  function Edges<T>(vs: seq<Vertex<T>>): (r: seq<Edge>)
    ensures forall e :: e in r <==> exists i :: 0 <= i < |vs| && e in vs[i].neighbors
  {
    if vs == [] then []
    else
      var init := Edges(vs[..|vs| - 1]);
      assert forall i :: 0 <= i < |vs| - 1 ==> vs[i] == vs[..|vs| - 1][i];
      init + vs[|vs| - 1].neighbors
  }

  /** Search depends on the vertex values only. */
  lemma {:induction false} SearchByValues<T>(vs: seq<Vertex<T>>, ws: seq<Vertex<T>>, x: T)
    requires Values(vs) == Values(ws)
    ensures Search(vs, x) == Search(ws, x)
  {
    if vs != [] {
      assert vs[0].value == Values(vs)[0] == Values(ws)[0] == ws[0].value;
      assert Values(vs[1..]) == Values(vs)[1..] == Values(ws)[1..] == Values(ws[1..]);
      SearchByValues(vs[1..], ws[1..], x);
    }
  }

  /** In a graph with distinct values, searching for a vertex's value finds that vertex. */
  lemma SearchFindsIndex<T>(vs: seq<Vertex<T>>, i: nat)
    requires DistinctValues(vs) && i < |vs|
    ensures Search(vs, vs[i].value) == Some(i)
  {
  }

  // ----- Adding and removing an edge -----

  /** vs with an edge ia -> ib of weight w appended to vertex ia's list. */
  function WithEdge<T>(vs: seq<Vertex<T>>, ia: nat, ib: nat, w: int): (r: seq<Vertex<T>>)
    requires ia < |vs|
    ensures Values(r) == Values(vs)
  {
    vs[ia := Vertex(vs[ia].value, vs[ia].neighbors + [Edge(ia, ib, w)])]
  }

  /** es without its first edge ending at b; es itself when there is none. */
  function DropFirstTo(es: seq<Edge>, b: nat): seq<Edge>
  {
    if es == [] then []
    else if es[0].to == b then es[1..]
    else [es[0]] + DropFirstTo(es[1..], b)
  }

  /** DropFirstTo cuts out exactly the edge that FirstEdgeTo finds, and nothing when there is none. */
  lemma {:induction false} DropFirstToCuts(es: seq<Edge>, b: nat)
    ensures FirstEdgeTo(es, b).None? ==> DropFirstTo(es, b) == es
    ensures FirstEdgeTo(es, b).Some? ==>
      DropFirstTo(es, b) == es[..FirstEdgeTo(es, b).value] + es[FirstEdgeTo(es, b).value + 1..]
    decreases |es|
  {
    if es != [] && es[0].to != b {
      var tail := es[1..];
      DropFirstToCuts(tail, b);
      match FirstEdgeTo(tail, b)
      case None =>
        assert [es[0]] + tail == es;
      case Some(j) =>
        assert FirstEdgeTo(es, b) == Some(j + 1);
        ConsCut(es, j);
    }
  }

  /** Cutting position j + 1 out of s is keeping s[0] and cutting position j out of the tail. */
  lemma ConsCut<A>(s: seq<A>, j: nat)
    requires j + 1 < |s|
    ensures s[..j + 1] + s[j + 2..] == [s[0]] + (s[1..][..j] + s[1..][j + 1..])
  {
    assert s[..j + 1] == [s[0]] + s[1..][..j];
    assert s[j + 2..] == s[1..][j + 1..];
  }

  /** vs with the first edge ia -> ib removed from vertex ia's list. */
  function WithoutEdge<T>(vs: seq<Vertex<T>>, ia: nat, ib: nat): (r: seq<Vertex<T>>)
    requires ia < |vs|
    ensures Values(r) == Values(vs)
  {
    vs[ia := Vertex(vs[ia].value, DropFirstTo(vs[ia].neighbors, ib))]
  }

  /** A new last edge to b is the first one when the list had none. */
  lemma {:induction false} FirstEdgeToAppended(es: seq<Edge>, e: Edge)
    requires FirstEdgeTo(es, e.to).None?
    ensures FirstEdgeTo(es + [e], e.to) == Some(|es|)
  {
    if es != [] {
      assert (es + [e])[1..] == es[1..] + [e];
      FirstEdgeToAppended(es[1..], e);
    }
  }

  /**
   * Adding an absent edge keeps the graph well formed, and looking the edge
   * up afterwards by its endpoints' values finds exactly the new edge.
   */
  lemma AddEdgeFound<T>(vs: seq<Vertex<T>>, ia: nat, ib: nat, w: int)
    requires WellFormed(vs) && ia < |vs| && ib < |vs|
    requires FirstEdgeTo(vs[ia].neighbors, ib).None?
    ensures WellFormed(WithEdge(vs, ia, ib, w))
    ensures GetEdge(WithEdge(vs, ia, ib, w), vs[ia].value, vs[ib].value) == Some(Edge(ia, ib, w))
  {
    var ws := WithEdge(vs, ia, ib, w);
    AddEdgeWellFormed(vs, ia, ib, w);
    FirstEdgeToAppended(vs[ia].neighbors, Edge(ia, ib, w));
    SearchByValues(vs, ws, vs[ia].value);
    SearchByValues(vs, ws, vs[ib].value);
    SearchFindsIndex(vs, ia);
    SearchFindsIndex(vs, ib);
    assert ws[ia].neighbors == vs[ia].neighbors + [Edge(ia, ib, w)];
  }

  lemma AddEdgeWellFormed<T>(vs: seq<Vertex<T>>, ia: nat, ib: nat, w: int)
    requires WellFormed(vs) && ia < |vs| && ib < |vs|
    requires FirstEdgeTo(vs[ia].neighbors, ib).None?
    ensures WellFormed(WithEdge(vs, ia, ib, w))
  {
    var ws := WithEdge(vs, ia, ib, w);
    var es := vs[ia].neighbors + [Edge(ia, ib, w)];
    assert ws[ia].neighbors == es;
    assert DistinctValues(ws) by {
      forall i, j | 0 <= i < j < |ws| ensures ws[i].value != ws[j].value {
        assert ws[i].value == vs[i].value && ws[j].value == vs[j].value;
      }
    }
    assert EdgesInRange(ws) by {
      forall i, k | 0 <= i < |ws| && 0 <= k < |ws[i].neighbors|
        ensures ws[i].neighbors[k].from == i && ws[i].neighbors[k].to < |ws|
      {
        if i != ia || k < |vs[ia].neighbors| {
          assert ws[i].neighbors[k] == vs[i].neighbors[k];
        }
      }
    }
    assert DistinctTargets(es);
    forall i | 0 <= i < |ws| ensures DistinctTargets(ws[i].neighbors) {
      if i != ia {
        assert ws[i] == vs[i];
      }
    }
  }

  /** Removing an edge keeps the graph well formed and leaves no edge ia -> ib. */
  lemma RemoveEdgeGone<T>(vs: seq<Vertex<T>>, ia: nat, ib: nat)
    requires WellFormed(vs) && ia < |vs|
    ensures WellFormed(WithoutEdge(vs, ia, ib))
    ensures FirstEdgeTo(WithoutEdge(vs, ia, ib)[ia].neighbors, ib).None?
  {
    var ws := WithoutEdge(vs, ia, ib);
    var es := vs[ia].neighbors;
    var r := DropFirstTo(es, ib);
    assert ws[ia].neighbors == r;
    assert DistinctTargets(es);
    DropFirstToShape(es, ib);
    assert DistinctValues(ws) by {
      forall i, j | 0 <= i < j < |ws| ensures ws[i].value != ws[j].value {
        assert ws[i].value == vs[i].value && ws[j].value == vs[j].value;
      }
    }
    assert EdgesInRange(ws) by {
      forall i, l | 0 <= i < |ws| && 0 <= l < |ws[i].neighbors|
        ensures ws[i].neighbors[l].from == i && ws[i].neighbors[l].to < |ws|
      {
        if i != ia {
          assert ws[i] == vs[i];
        } else {
          assert r[l] in es;
          var m :| 0 <= m < |es| && es[m] == r[l];
        }
      }
    }
    forall i | 0 <= i < |ws| ensures DistinctTargets(ws[i].neighbors) {
      if i != ia {
        assert ws[i] == vs[i];
      }
    }
    assert forall l :: 0 <= l < |es| ==> es[l].to < |vs|;
    DropFirstIsKeep(es, ib);
    KeepNotToTargets(es, ib, |vs|);
  }

  /** Adding an absent edge and then removing it gives back the graph. */
  lemma EdgeRoundTrip<T>(vs: seq<Vertex<T>>, ia: nat, ib: nat, w: int)
    requires ia < |vs| && FirstEdgeTo(vs[ia].neighbors, ib).None?
    ensures WithoutEdge(WithEdge(vs, ia, ib, w), ia, ib) == vs
  {
    var es := vs[ia].neighbors;
    var e := Edge(ia, ib, w);
    var ws := WithEdge(vs, ia, ib, w);
    assert ws[ia].neighbors == es + [e];
    DropAppended(es, e);
    assert WithoutEdge(ws, ia, ib) == vs[ia := Vertex(vs[ia].value, es)];
  }

  /** Removing the first edge to e's target from a list that had none before e was appended removes e. */
  lemma {:induction false} DropAppended(es: seq<Edge>, e: Edge)
    requires FirstEdgeTo(es, e.to).None?
    ensures DropFirstTo(es + [e], e.to) == es
    decreases |es|
  {
    if es == [] {
      assert [e][1..] == [];
    } else {
      assert es[0].to != e.to;
      assert FirstEdgeTo(es[1..], e.to).None? by {
        forall l | 0 <= l < |es[1..]| ensures es[1..][l].to != e.to {
          assert es[1..][l] == es[l + 1];
        }
      }
      DropAppended(es[1..], e);
      assert (es + [e])[1..] == es[1..] + [e];
      assert [es[0]] + es[1..] == es;
    }
  }

  // ----- Removing a vertex -----

  /** The index a vertex above k moves to once vertex k is gone. */
  function Shift(x: nat, k: nat): nat
  {
    if x > k then x - 1 else x
  }

  /** The edges renumbered for the removal of vertex k. */
  function Renumber(es: seq<Edge>, k: nat): (r: seq<Edge>)
    ensures |r| == |es|
    ensures forall l :: 0 <= l < |es| ==>
      r[l] == Edge(Shift(es[l].from, k), Shift(es[l].to, k), es[l].weight)
  {
    if es == [] then [] else [Edge(Shift(es[0].from, k), Shift(es[0].to, k), es[0].weight)] + Renumber(es[1..], k)
  }

  /** A neighbour list with its edge to vertex k removed, renumbered for k's removal. */
  function Detach(es: seq<Edge>, k: nat): seq<Edge>
  {
    Renumber(DropFirstTo(es, k), k)
  }

  /** Every vertex's list detached from vertex k. */
  function DetachAll<T>(vs: seq<Vertex<T>>, k: nat): (r: seq<Vertex<T>>)
    ensures |r| == |vs|
  {
    if vs == [] then []
    else
      var last := vs[|vs| - 1];
      DetachAll(vs[..|vs| - 1], k) + [Vertex(last.value, Detach(last.neighbors, k))]
  }

  /** Vertex i of the detached graph keeps its value and its detached list. */
  lemma {:induction false} DetachAllAt<T>(vs: seq<Vertex<T>>, k: nat, i: nat)
    requires i < |vs|
    ensures DetachAll(vs, k)[i] == Vertex(vs[i].value, Detach(vs[i].neighbors, k))
    decreases |vs|
  {
    if i < |vs| - 1 {
      DetachAllAt(vs[..|vs| - 1], k, i);
    }
  }

  /** The graph after removing vertex k and every edge ending at it. */
  function WithoutVertex<T>(vs: seq<Vertex<T>>, k: nat): (r: seq<Vertex<T>>)
    requires k < |vs|
    ensures |r| == |vs| - 1
  {
    var d := DetachAll(vs, k);
    d[..k] + d[k + 1..]
  }

  /** The edges of es that do not end at k, in order. */
  function KeepNotTo(es: seq<Edge>, k: nat): seq<Edge>
  {
    if es == [] then []
    else (if es[0].to == k then [] else [es[0]]) + KeepNotTo(es[1..], k)
  }

  /** In a list without repeated targets, dropping the first edge to k drops every edge to k. */
  lemma {:induction false} DropFirstIsKeep(es: seq<Edge>, k: nat)
    requires DistinctTargets(es)
    ensures DropFirstTo(es, k) == KeepNotTo(es, k)
    decreases |es|
  {
    if es == [] {
    } else if es[0].to == k {
      KeepAllNotTo(es[1..], k);
    } else {
      var tail := es[1..];
      assert DistinctTargets(tail);
      DropFirstIsKeep(tail, k);
      assert KeepNotTo(es, k) == [es[0]] + KeepNotTo(tail, k);
    }
  }

  /** A list without edges to k is its own KeepNotTo. */
  lemma {:induction false} KeepAllNotTo(es: seq<Edge>, k: nat)
    requires forall l :: 0 <= l < |es| ==> es[l].to != k
    ensures KeepNotTo(es, k) == es
  {
    if es != [] {
      KeepAllNotTo(es[1..], k);
      assert [es[0]] + es[1..] == es;
    }
  }

  /** The kept edges still end below n, and none ends at k. */
  lemma {:induction false} KeepNotToTargets(es: seq<Edge>, k: nat, n: nat)
    requires forall l :: 0 <= l < |es| ==> es[l].to < n
    ensures forall l :: 0 <= l < |KeepNotTo(es, k)| ==>
      KeepNotTo(es, k)[l].to < n && KeepNotTo(es, k)[l].to != k
  {
    if es != [] {
      KeepNotToTargets(es[1..], k, n);
      var rest := KeepNotTo(es[1..], k);
      var head: seq<Edge> := if es[0].to == k then [] else [es[0]];
      assert KeepNotTo(es, k) == head + rest;
      forall l | 0 <= l < |head + rest|
        ensures (head + rest)[l].to < n && (head + rest)[l].to != k
      {
        if l >= |head| {
          assert (head + rest)[l] == rest[l - |head|];
        }
      }
    }
  }

  /** The kept edges still start at o. */
  lemma {:induction false} KeepNotToFrom(es: seq<Edge>, k: nat, o: nat)
    requires forall l :: 0 <= l < |es| ==> es[l].from == o
    ensures forall l :: 0 <= l < |KeepNotTo(es, k)| ==> KeepNotTo(es, k)[l].from == o
  {
    if es != [] {
      KeepNotToFrom(es[1..], k, o);
      var rest := KeepNotTo(es[1..], k);
      var head: seq<Edge> := if es[0].to == k then [] else [es[0]];
      assert KeepNotTo(es, k) == head + rest;
      forall l | 0 <= l < |head + rest|
        ensures (head + rest)[l].from == o
      {
        if l >= |head| {
          assert (head + rest)[l] == rest[l - |head|];
        }
      }
    }
  }

  /** What a vertex's edges look like from outside: owner's value, target's value, weight. */
  datatype Arc<T> = Arc(source: T, target: T, weight: int)

  ghost predicate TargetsIn<T>(vs: seq<Vertex<T>>, es: seq<Edge>)
  {
    forall l :: 0 <= l < |es| ==> es[l].to < |vs|
  }

  /** The edges es of the vertex with value src, seen as arcs between values. */
  function ArcsFrom<T>(vs: seq<Vertex<T>>, src: T, es: seq<Edge>): (r: seq<Arc<T>>)
    requires TargetsIn(vs, es)
    ensures |r| == |es|
  {
    if es == [] then [] else [Arc(src, vs[es[0].to].value, es[0].weight)] + ArcsFrom(vs, src, es[1..])
  }

  /** The arcs of vertex i. */
  function ArcsOf<T>(vs: seq<Vertex<T>>, i: nat): seq<Arc<T>>
    requires i < |vs| && TargetsIn(vs, vs[i].neighbors)
  {
    ArcsFrom(vs, vs[i].value, vs[i].neighbors)
  }

  /** The arcs that do not end at the value x, in order. */
  ghost function DropArcsTo<T>(arcs: seq<Arc<T>>, x: T): seq<Arc<T>>
  {
    if arcs == [] then []
    else (if arcs[0].target == x then [] else [arcs[0]]) + DropArcsTo(arcs[1..], x)
  }

  lemma {:induction false} ArcsOfKept<T>(vs: seq<Vertex<T>>, src: T, es: seq<Edge>, k: nat)
    requires DistinctValues(vs) && TargetsIn(vs, es) && k < |vs|
    ensures TargetsIn(vs, KeepNotTo(es, k))
    ensures ArcsFrom(vs, src, KeepNotTo(es, k)) == DropArcsTo(ArcsFrom(vs, src, es), vs[k].value)
  {
    if es != [] {
      var tail := es[1..];
      ArcsOfKept(vs, src, tail, k);
      var rest := KeepNotTo(tail, k);
      var arcs := ArcsFrom(vs, src, es);
      assert arcs[0].target == vs[es[0].to].value;
      assert arcs[1..] == ArcsFrom(vs, src, tail);
      assert (vs[es[0].to].value == vs[k].value) <==> es[0].to == k;
      if es[0].to == k {
        assert KeepNotTo(es, k) == rest;
      } else {
        assert KeepNotTo(es, k) == [es[0]] + rest;
        assert ([es[0]] + rest)[1..] == rest;
        assert ArcsFrom(vs, src, [es[0]] + rest) == [arcs[0]] + ArcsFrom(vs, src, rest);
      }
    }
  }

  /** ws is vs without vertex k, as far as values go. */
  ghost predicate ValuesWithout<T>(vs: seq<Vertex<T>>, ws: seq<Vertex<T>>, k: nat)
  {
    |ws| + 1 == |vs| && k < |vs| &&
    forall j :: 0 <= j < |ws| ==> ws[j].value == vs[if j < k then j else j + 1].value
  }

  lemma {:induction false} ArcsRenumbered<T>(vs: seq<Vertex<T>>, ws: seq<Vertex<T>>, src: T, es: seq<Edge>, k: nat)
    requires ValuesWithout(vs, ws, k) && TargetsIn(vs, es)
    requires forall l :: 0 <= l < |es| ==> es[l].to != k
    ensures TargetsIn(ws, Renumber(es, k))
    ensures ArcsFrom(ws, src, Renumber(es, k)) == ArcsFrom(vs, src, es)
  {
    if es != [] {
      ArcsRenumbered(vs, ws, src, es[1..], k);
      var t := es[0].to;
      assert ws[Shift(t, k)].value == vs[t].value;
      assert Renumber(es, k)[1..] == Renumber(es[1..], k);
    }
  }

  /** Dropping an edge keeps the remaining edges, their targets still distinct. */
  lemma DropFirstToShape(es: seq<Edge>, b: nat)
    requires DistinctTargets(es)
    ensures DistinctTargets(DropFirstTo(es, b))
    ensures forall l :: 0 <= l < |DropFirstTo(es, b)| ==> DropFirstTo(es, b)[l] in es
  {
    DropFirstToCuts(es, b);
    match FirstEdgeTo(es, b)
    case None =>
    case Some(k) =>
      CutKeepsShape(es, k, es[..k] + es[k + 1..]);
  }

  /** Cutting out position k shifts every later element down by one. */
  lemma CutAt<A>(s: seq<A>, k: nat, r: seq<A>)
    requires k < |s| && r == s[..k] + s[k + 1..]
    ensures |r| == |s| - 1
    ensures forall l :: 0 <= l < |r| ==> r[l] == s[if l < k then l else l + 1]
  {
  }

  /** Cutting one edge out of a list keeps the targets distinct and keeps only edges of the list. */
  lemma CutKeepsShape(es: seq<Edge>, k: nat, r: seq<Edge>)
    requires DistinctTargets(es) && k < |es| && r == es[..k] + es[k + 1..]
    ensures DistinctTargets(r)
    ensures forall l :: 0 <= l < |r| ==> r[l] in es
  {
    CutAt(es, k, r);
    forall l, m | 0 <= l < m < |r| ensures r[l].to != r[m].to {
      assert r[l] == es[if l < k then l else l + 1];
      assert r[m] == es[if m < k then m else m + 1];
    }
    forall l | 0 <= l < |r| ensures r[l] in es {
      assert r[l] == es[if l < k then l else l + 1];
    }
  }

  /** The detached list of vertex oi is well formed at index i of the smaller graph. */
  lemma DetachedShape(n: nat, k: nat, i: nat, oi: nat, es: seq<Edge>)
    requires k < n && i + 1 < n && oi == (if i < k then i else i + 1)
    requires DistinctTargets(es)
    requires forall l :: 0 <= l < |es| ==> es[l].from == oi && es[l].to < n
    ensures var r := Detach(es, k);
      DistinctTargets(r) && forall l :: 0 <= l < |r| ==> r[l].from == i && r[l].to < n - 1
  {
    DropFirstIsKeep(es, k);
    DropFirstToShape(es, k);
    KeepNotToTargets(es, k, n);
    KeepNotToFrom(es, k, oi);
    var kept := KeepNotTo(es, k);
    var r := Renumber(kept, k);
    assert r == Detach(es, k);
    forall l, m | 0 <= l < m < |r| ensures r[l].to != r[m].to {
      assert kept[l].to != kept[m].to;
    }
  }

  /** The detached list of vertex oi has the old arcs minus those ending at k. */
  lemma DetachedArcs<T>(vs: seq<Vertex<T>>, ws: seq<Vertex<T>>, k: nat, src: T, es: seq<Edge>)
    requires DistinctValues(vs) && ValuesWithout(vs, ws, k)
    requires TargetsIn(vs, es) && DistinctTargets(es)
    ensures TargetsIn(ws, Detach(es, k))
    ensures ArcsFrom(ws, src, Detach(es, k)) == DropArcsTo(ArcsFrom(vs, src, es), vs[k].value)
  {
    DropFirstIsKeep(es, k);
    var kept := KeepNotTo(es, k);
    KeepNotToTargets(es, k, |vs|);
    ArcsOfKept(vs, src, es, k);
    ArcsRenumbered(vs, ws, src, kept, k);
  }

  /** Removing vertex k keeps the other values in order and drops k's value. */
  lemma RemoveVertexValues<T>(vs: seq<Vertex<T>>, k: nat)
    requires DistinctValues(vs) && k < |vs|
    ensures ValuesWithout(vs, WithoutVertex(vs, k), k)
    ensures DistinctValues(WithoutVertex(vs, k))
    ensures Search(WithoutVertex(vs, k), vs[k].value).None?
  {
    var ws := WithoutVertex(vs, k);
    assert |ws| == |vs| - 1;
    forall i | 0 <= i < |ws| ensures ws[i].value == vs[if i < k then i else i + 1].value {
      WithoutVertexAt(vs, k, i);
    }
    assert ValuesWithout(vs, ws, k);
    forall i, j | 0 <= i < j < |ws| ensures ws[i].value != ws[j].value {
      assert ws[i].value == vs[if i < k then i else i + 1].value;
      assert ws[j].value == vs[if j < k then j else j + 1].value;
    }
    forall j | 0 <= j < |ws| ensures ws[j].value != vs[k].value {
      assert ws[j].value == vs[if j < k then j else j + 1].value;
    }
  }

  /** The vertex at index i after removing vertex k. */
  lemma WithoutVertexAt<T>(vs: seq<Vertex<T>>, k: nat, i: nat)
    requires k < |vs| && i + 1 < |vs|
    ensures var oi := if i < k then i else i + 1;
      WithoutVertex(vs, k)[i] == Vertex(vs[oi].value, Detach(vs[oi].neighbors, k))
  {
    var d := DetachAll(vs, k);
    DetachAllAt(vs, k, if i < k then i else i + 1);
    assert WithoutVertex(vs, k)[i] == d[if i < k then i else i + 1];
  }

  /**
   * Removing vertex k from a well-formed graph keeps it well formed, keeps
   * the other vertices in order, drops k's value, and leaves every other
   * vertex with exactly its old arcs minus those ending at k, in order.
   */
  lemma RemoveVertexSpec<T>(vs: seq<Vertex<T>>, k: nat)
    requires WellFormed(vs) && k < |vs|
    ensures WellFormed(WithoutVertex(vs, k))
    ensures ValuesWithout(vs, WithoutVertex(vs, k), k)
    ensures Search(WithoutVertex(vs, k), vs[k].value).None?
    ensures forall i :: 0 <= i < |vs| - 1 ==>
      TargetsIn(WithoutVertex(vs, k), WithoutVertex(vs, k)[i].neighbors) &&
      ArcsOf(WithoutVertex(vs, k), i) == DropArcsTo(ArcsOf(vs, if i < k then i else i + 1), vs[k].value)
  {
    var ws := WithoutVertex(vs, k);
    RemoveVertexValues(vs, k);
    forall i | 0 <= i < |ws|
      ensures TargetsIn(ws, ws[i].neighbors) && DistinctTargets(ws[i].neighbors)
      ensures forall l :: 0 <= l < |ws[i].neighbors| ==> ws[i].neighbors[l].from == i && ws[i].neighbors[l].to < |ws|
      ensures ArcsOf(ws, i) == DropArcsTo(ArcsOf(vs, if i < k then i else i + 1), vs[k].value)
    {
      var oi := if i < k then i else i + 1;
      var es := vs[oi].neighbors;
      assert DistinctTargets(es);
      assert forall l :: 0 <= l < |es| ==> es[l].from == oi && es[l].to < |vs|;
      DetachedShape(|vs|, k, i, oi, es);
      DetachedArcs(vs, ws, k, vs[oi].value, es);
      WithoutVertexAt(vs, k, i);
    }
  }
}
