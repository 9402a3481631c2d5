# Weighted directed graphs with Dijkstra's search, in Dafny

This project models the core of a small C# library of weighted, directed
graphs. It covers two classes:

- `PriorityQue<T>` is an array-backed binary min-heap. The array is used
  from index 1 up; slot 0 is never used. The initial capacity is 30 and the
  array doubles when it is full.
- `Graph<T>` is an insertion-ordered list of vertices with distinct values.
  Each vertex owns an ordered list of outgoing weighted edges. The class has
  create/read/update/delete operations and Dijkstra's shortest-path search.

Files and modules:

- `priority_que.dfy` (module `PriorityQueue`): the class `PriorityQue`. It
  holds an `array<int>` `tree` and a `Count` field, and every method states
  its new state. The elements are vertex indices. The source's comparer
  reads the caller's distance table, so every method that compares takes the
  current key of each element as a function `key`.
- `heap_as_written.dfy` (module `HeapAsWritten`): the defective queue code
  as written in the source, with lemmas showing the defects (see Findings).
  `HeapifyDown`, `Sort` and `Deqeue` are modelled on array snapshots, with
  their compares and writes. `HeapifyUp` is modelled only by the sequence
  of indices its recursion visits and its exit test; that is enough to show
  that it never returns.
- `graph_model.dfy` (module `GraphModel`): the graph as a value.
  - A vertex is `Vertex(value, neighbors)`. An edge is
    `Edge(from, to, weight)`, whose ends are vertex indices.
  - The module has the pure read operations: `Search`, `FirstEdgeTo`,
    `GetEdge` and `Edges`.
  - It has the value-level effect of each mutating operation: `WithEdge`,
    `WithoutEdge` and `WithoutVertex`.
  - It has their lemmas: well-formedness (distinct values, edges start at
    their owner and end inside the graph, at most one edge per target) is
    preserved, lookups find what was added, and add-then-remove is the
    identity.
- `walks.dfy` (module `Walks`): walks through the graph and their weights.
  These are the reference against which the search is proved optimal.
- `shortest_paths.dfy` (module `ShortestPaths`): the label tables
  (distance, founder), the relaxation of one edge, the search invariants,
  and the lemmas that each step of the search keeps them.
- `graph.dfy` (module `Graphs`): the class `Graph`.
  - A `vertices` field holds a sequence of `Vertex` values.
  - The mutating operations are methods proved against the `GraphModel`
    functions.
  - `Dijkstra` is a method that changes nothing. Its contract says:
    - the result is a walk from start to end of least weight among all
      walks;
    - or there is none: end has no founder, which happens exactly when
      start == end or no walk of weight below the sentinel exists.
  - The search is split into the source's phases: `InitialLabels`,
    `Explore` (the main loop), `PopClosest`, `RelaxEdges` and `RelaxEdge`
    (the loop over the popped vertex's edges), and `FounderPath` (the walk
    back over founders).
- `wrappers.dfy` (module `Wrappers`): `Option`, which stands for the
  source's null results.

Decisions that shape the model:

- **Vertex identity.** Vertices are identified by their index in the vertex
  list. Removing a vertex renumbers the indices above it (`Shift`,
  `Renumber`). The lemmas state the result in terms of values (`Arc`), so
  the renumbering is not observable there.
- **The visited flag.** The source keeps `IsVisited` on the persistent
  vertex. Here it is a per-query set `visited` of indices. The queue's
  contents are mirrored by a ghost set `queued`.
- **Distances and keys.** Distances are unbounded integers. Unreached
  vertices hold the sentinel `Sentinel == 2147483647`, the source's
  `int.MaxValue`. The queue's key is `DistKey(dist)`, i.e. the current
  distance. `Deqeue` rebuilds the heap under the current key before it pops
  (PriorityQue.cs:52), so a distance lowered while its vertex sits in the
  queue is taken into account on the next pop. The model keeps this
  behaviour.
- **Termination.**
  - The main loop ends because the visited set grows on every pop. A visited
    vertex is never improved again (`VisitedNotImproved`), so the source's
    "mark unvisited on improvement" never removes anything.
  - The founder walk ends because each founder is closer than the vertex
    it leads to, or equally close and labelled earlier. The labelling time
    is a ghost stamp: `FounderLink` and the walk's `decreases dist[x], stamp[x]`.

Behaviour of the code that the model keeps:

- `Dijkstra(start, start)` returns null: the founder walk stops at once on a
  path of one vertex (Graph.cs:221-226). A missing start or end also gives
  null (Graph.cs:168-171).
- Adding a duplicate vertex throws (Graph.cs:53-56). Here it returns `false`
  and leaves the graph unchanged.
- The queue's defects are not kept: the model corrects them, and records
  each under Findings.

## Model

| member | source | states |
|---|---|---|
| PriorityQueue.PriorityQue.constructor | WeightedAndDirectedGraphs/WeightedAndDirectedGraphs/PriorityQue.cs:31-35 | a new queue has a fresh array of 30 default slots and Count 0, so it is empty |
| PriorityQueue.PriorityQue.IsEmpty | WeightedAndDirectedGraphs/WeightedAndDirectedGraphs/PriorityQue.cs:13 | true exactly when the queued contents tree[1..Count] are empty |
| PriorityQueue.PriorityQue.Contains | WeightedAndDirectedGraphs/WeightedAndDirectedGraphs/PriorityQue.cs:16 | scans the whole array; for a non-default item this is exactly membership in the queued contents, because slot 0 and the slots above Count hold default |
| PriorityQueue.PriorityQue.Item | WeightedAndDirectedGraphs/WeightedAndDirectedGraphs/PriorityQue.cs:18-29 | defined exactly for 0 <= i < Count (otherwise the out-of-range error); index 0 yields the unused default slot and index i > 0 the i-th queued element, so tree[Count] is never reachable |
| PriorityQueue.PriorityQue.IncreaseTree | WeightedAndDirectedGraphs/WeightedAndDirectedGraphs/PriorityQue.cs:123-128 | a fresh array of twice the length, every old slot copied to the same index, new slots default, Count unchanged |
| PriorityQueue.PriorityQue.Enqueu | WeightedAndDirectedGraphs/WeightedAndDirectedGraphs/PriorityQue.cs:37-48 | grows the array exactly when Count + 1 reaches its length; Count rises by 1; the queued multiset gains exactly the new value; heap order under the given key is kept; slot 0 and the slots above Count stay default |
| PriorityQueue.PriorityQue.Append | WeightedAndDirectedGraphs/WeightedAndDirectedGraphs/PriorityQue.cs:39-45 | writes the value at slot Count + 1, growing the array first when Count + 1 reaches its length; the queued contents gain exactly the value at the end, and the slots below it are unchanged |
| PriorityQueue.PriorityQue.Swap | WeightedAndDirectedGraphs/WeightedAndDirectedGraphs/PriorityQue.cs:84-86 | exchanges two queued slots and nothing else; the queued multiset is unchanged |
| PriorityQueue.PriorityQue.HeapifyUp | WeightedAndDirectedGraphs/WeightedAndDirectedGraphs/PriorityQue.cs:73-90 | only permutes the queued elements; stops at the root, index 1; restores heap order when the order held everywhere except at the sifted position |
| PriorityQueue.PriorityQue.HeapifyDown | WeightedAndDirectedGraphs/WeightedAndDirectedGraphs/PriorityQue.cs:92-121 | only permutes the queued elements; considers only children at most Count; exchanges the smaller child with the parent when it is smaller; leaves the subheap rooted at lo heap-ordered |
| PriorityQueue.PriorityQue.Sort | WeightedAndDirectedGraphs/WeightedAndDirectedGraphs/PriorityQue.cs:65-71 | only permutes tree[1..Count] and leaves it heap-ordered under the current key, whatever order it had before |
| PriorityQueue.PriorityQue.Deqeue | WeightedAndDirectedGraphs/WeightedAndDirectedGraphs/PriorityQue.cs:50-63 | returns a non-default element whose key is at most that of every element still queued; Count drops by 1; exactly that one occurrence leaves the multiset; the vacated slot is cleared to default; the array is not reallocated |
| PriorityQueue.PriorityQue.TakeRoot | WeightedAndDirectedGraphs/WeightedAndDirectedGraphs/PriorityQue.cs:53-58 | on a heap-ordered queue, returns the root, moves the last element into slot 1 and clears the last slot; the root leaves the multiset, no remaining key is smaller, and the order is broken at most at the root |
| PriorityQueue.PriorityQue.MoveLastToRoot | WeightedAndDirectedGraphs/WeightedAndDirectedGraphs/PriorityQue.cs:53-58 | returns the old root; slot 1 receives the last element (when there are two or more), the last slot is cleared, Count drops by 1, every other slot is unchanged and the queue stays valid |
| PriorityQueue.HeapRootIsMin | WeightedAndDirectedGraphs/WeightedAndDirectedGraphs/PriorityQue.cs:50-53 | in a heap-ordered array, slot 1 holds a key no greater than any queued slot |
| PriorityQueue.RemoveRoot | WeightedAndDirectedGraphs/WeightedAndDirectedGraphs/PriorityQue.cs:53-58 | moving the last element to the root and clearing its slot removes exactly the root from the multiset, the root was no greater than any remaining key, and the heap is broken only at the root |
| PriorityQueue.PoppedSlots | WeightedAndDirectedGraphs/WeightedAndDirectedGraphs/PriorityQue.cs:55-56 | slots that are the old ones except that slot 1 holds the old last element and the last slot is cleared are exactly the two writes of the pop |
| PriorityQueue.HeapGrows | WeightedAndDirectedGraphs/WeightedAndDirectedGraphs/PriorityQue.cs:37-46 | writing a new last element below a heap leaves the order broken only at that element, the state from which the sift-up starts |
| PriorityQueue.SiftUpStep | WeightedAndDirectedGraphs/WeightedAndDirectedGraphs/PriorityQue.cs:77-89 | one sift-up step: exchanging with a greater parent, or not exchanging with a parent no greater, moves the one break in the order up to the parent |
| PriorityQueue.SmallerChild | WeightedAndDirectedGraphs/WeightedAndDirectedGraphs/PriorityQue.cs:94-111 | the chosen child is one of the two children, exists (is at most Count), and has the least key among the existing children |
| PriorityQueue.SiftDownStep | WeightedAndDirectedGraphs/WeightedAndDirectedGraphs/PriorityQue.cs:104-120 | one sift-down step: exchanging the parent with its smaller child, when that child is smaller, moves the one break in the order down to that child |
| PriorityQueue.SiftDownDone | WeightedAndDirectedGraphs/WeightedAndDirectedGraphs/PriorityQue.cs:99-102 | when the sifted position has no child, the subheap is in order |
| PriorityQueue.SwapKeepsMultiset | WeightedAndDirectedGraphs/WeightedAndDirectedGraphs/PriorityQue.cs:84-86 | a sequence that differs from another only by exchanging two positions has the same multiset |
| HeapAsWritten.SiftUpIndex | WeightedAndDirectedGraphs/WeightedAndDirectedGraphs/PriorityQue.cs:75-89 | the index of the nested HeapifyUp call at a given depth never exceeds the starting index |
| HeapAsWritten.SiftUpReturns | WeightedAndDirectedGraphs/WeightedAndDirectedGraphs/PriorityQue.cs:75-80 | the early-exit test as written: the parent index, index / 2, is negative; SiftUpNeverReturns proves it is never true |
| HeapAsWritten.SiftUpNeverReturns | WeightedAndDirectedGraphs/WeightedAndDirectedGraphs/PriorityQue.cs:73-90 | as written, the early return never fires at any depth, and from depth index on the call is HeapifyUp(0) again and again: the recursion never ends |
| HeapAsWritten.SwapAsWritten | WeightedAndDirectedGraphs/WeightedAndDirectedGraphs/PriorityQue.cs:113-118 | as written, the "swap" writes slot swapIndex twice and leaves the array as it was |
| HeapAsWritten.SiftDownAsWritten | WeightedAndDirectedGraphs/WeightedAndDirectedGraphs/PriorityQue.cs:92-121 | HeapifyDown as written on an array snapshot; keeps the array's length |
| HeapAsWritten.SortAsWritten | WeightedAndDirectedGraphs/WeightedAndDirectedGraphs/PriorityQue.cs:65-71 | Sort as written on an array snapshot; keeps the array's length |
| HeapAsWritten.DeqeueAsWritten | WeightedAndDirectedGraphs/WeightedAndDirectedGraphs/PriorityQue.cs:50-63 | Deqeue as written on an array snapshot: Sort, take slot 1, move the last element up, clear its slot, sift down from 1; it returns slot 1 of the (unchanged) array, see DeqeueAsWrittenMissesMinimum |
| HeapAsWritten.SiftDownChangesNothing | WeightedAndDirectedGraphs/WeightedAndDirectedGraphs/PriorityQue.cs:92-121 | HeapifyDown as written returns the array unchanged, from any index |
| HeapAsWritten.SortChangesNothing | WeightedAndDirectedGraphs/WeightedAndDirectedGraphs/PriorityQue.cs:65-71 | Sort as written returns the array unchanged, heap or not |
| HeapAsWritten.DeqeueAsWrittenMissesMinimum | WeightedAndDirectedGraphs/WeightedAndDirectedGraphs/PriorityQue.cs:50-63 | on a queue holding 5 then 1, Deqeue as written returns 5 although 1 has the smaller key |
| GraphModel.Values | WeightedAndDirectedGraphs/WeightedAndDirectedGraphs/Graph.cs:14 | the vertex values, in list order |
| GraphModel.Search | WeightedAndDirectedGraphs/WeightedAndDirectedGraphs/Graph.cs:125-136 | the first index whose value equals the argument, with no earlier match; None exactly when no vertex has that value |
| GraphModel.SearchFindsIndex | WeightedAndDirectedGraphs/WeightedAndDirectedGraphs/Graph.cs:125-136 | with distinct values, searching for vertex i's value finds i |
| GraphModel.SearchByValues | WeightedAndDirectedGraphs/WeightedAndDirectedGraphs/Graph.cs:125-136 | Search depends only on the list of values, so edge changes never change what it finds |
| GraphModel.FirstEdgeTo | WeightedAndDirectedGraphs/WeightedAndDirectedGraphs/Graph.cs:150-158 | the first edge of a list ending at b, with no earlier one; None exactly when no edge ends at b |
| GraphModel.FirstEdgeToUnique | WeightedAndDirectedGraphs/WeightedAndDirectedGraphs/Graph.cs:150-158 | in a list with one edge per target, the first edge ending at an edge's target is that edge |
| GraphModel.FirstEdgeToAppended | WeightedAndDirectedGraphs/WeightedAndDirectedGraphs/Graph.cs:73 | after appending an edge to b to a list without one, the first edge to b is the appended one |
| GraphModel.GetEdge | WeightedAndDirectedGraphs/WeightedAndDirectedGraphs/Graph.cs:138-159 | Some exactly when both values are present and a's list has an edge to b; it is then the first such edge |
| GraphModel.Edges | WeightedAndDirectedGraphs/WeightedAndDirectedGraphs/Graph.cs:16-32 | an edge is listed exactly when it belongs to some vertex's neighbour list |
| GraphModel.WithEdge | WeightedAndDirectedGraphs/WeightedAndDirectedGraphs/Graph.cs:73 | appending an edge to a's list leaves every vertex value in place |
| GraphModel.WithoutEdge | WeightedAndDirectedGraphs/WeightedAndDirectedGraphs/Graph.cs:119 | removing an edge from a's list leaves every vertex value in place |
| GraphModel.DropFirstTo | WeightedAndDirectedGraphs/WeightedAndDirectedGraphs/Graph.cs:119 | `Neighbors.Remove(edge)`: the list without its first edge to b, the list itself when there is none (DropFirstToCuts states the cut) |
| GraphModel.AddEdgeWellFormed | WeightedAndDirectedGraphs/WeightedAndDirectedGraphs/Graph.cs:66-76 | adding a new edge a -> b keeps the graph well formed |
| GraphModel.AddEdgeFound | WeightedAndDirectedGraphs/WeightedAndDirectedGraphs/Graph.cs:66-76 | after adding a -> b with weight w, GetEdge(a, b) is exactly that edge and the graph is well formed |
| GraphModel.RemoveEdgeGone | WeightedAndDirectedGraphs/WeightedAndDirectedGraphs/Graph.cs:110-122 | after removing the edge a -> b the graph is well formed and a has no edge to b |
| GraphModel.EdgeRoundTrip | WeightedAndDirectedGraphs/WeightedAndDirectedGraphs/Graph.cs:66-122 | adding a new edge a -> b and then removing the edge a -> b gives back the original graph |
| GraphModel.DropAppended | WeightedAndDirectedGraphs/WeightedAndDirectedGraphs/Graph.cs:119 | removing the first edge to e's target from a list that had none before e was appended gives back the list |
| GraphModel.Renumber | WeightedAndDirectedGraphs/WeightedAndDirectedGraphs/Graph.cs:101 | every edge index above the removed vertex moves down by one; weights and order are kept |
| GraphModel.Detach | WeightedAndDirectedGraphs/WeightedAndDirectedGraphs/Graph.cs:90-99 | one vertex's list with its edge to the removed vertex dropped and the later indices shifted down (DetachedShape and DetachedArcs state its properties) |
| GraphModel.DetachAll | WeightedAndDirectedGraphs/WeightedAndDirectedGraphs/Graph.cs:90-99 | the loop over every vertex: one detached vertex per old vertex, so the length is kept (DetachAllAt states each entry) |
| GraphModel.WithoutVertex | WeightedAndDirectedGraphs/WeightedAndDirectedGraphs/Graph.cs:83-103 | the effect of RemoveVertex: the detached graph without vertex k, one vertex shorter (RemoveVertexSpec states its properties) |
| GraphModel.DetachAllAt | WeightedAndDirectedGraphs/WeightedAndDirectedGraphs/Graph.cs:90-99 | vertex i of the detached list keeps its value and has exactly its old list with the first edge to the removed vertex dropped and the indices renumbered |
| GraphModel.DropFirstIsKeep | WeightedAndDirectedGraphs/WeightedAndDirectedGraphs/Graph.cs:90-99 | with one edge per target, removing the first edge to k removes every edge to k, so the source's loop (which skips the element after a removal) misses nothing |
| GraphModel.KeepAllNotTo | WeightedAndDirectedGraphs/WeightedAndDirectedGraphs/Graph.cs:90-99 | a list without edges to k is untouched |
| GraphModel.KeepNotToTargets | WeightedAndDirectedGraphs/WeightedAndDirectedGraphs/Graph.cs:90-99 | the kept edges end inside the graph and never at k |
| GraphModel.KeepNotToFrom | WeightedAndDirectedGraphs/WeightedAndDirectedGraphs/Graph.cs:90-99 | the kept edges still start at their owner |
| GraphModel.DropFirstToShape | WeightedAndDirectedGraphs/WeightedAndDirectedGraphs/Graph.cs:110-122 | removing the first edge to b keeps one edge per target and keeps only edges of the old list |
| GraphModel.CutKeepsShape | WeightedAndDirectedGraphs/WeightedAndDirectedGraphs/Graph.cs:119 | cutting one edge out of a list with distinct targets keeps the targets distinct and keeps only edges of the list |
| GraphModel.DropFirstToCuts | WeightedAndDirectedGraphs/WeightedAndDirectedGraphs/Graph.cs:119 | removing the first edge to b cuts out exactly the edge FirstEdgeTo finds, and leaves a list without such an edge unchanged |
| GraphModel.ArcsFrom | WeightedAndDirectedGraphs/WeightedAndDirectedGraphs/Graph.cs:150-156 | one arc (owner value, target value, weight) per edge |
| GraphModel.ArcsOfKept | WeightedAndDirectedGraphs/WeightedAndDirectedGraphs/Graph.cs:90-99 | dropping the edges to k drops exactly the arcs to k's value, keeping the rest in order |
| GraphModel.ArcsRenumbered | WeightedAndDirectedGraphs/WeightedAndDirectedGraphs/Graph.cs:101 | renumbering after removing vertex k changes no arc, as seen through values |
| GraphModel.DetachedShape | WeightedAndDirectedGraphs/WeightedAndDirectedGraphs/Graph.cs:90-101 | a detached, renumbered list keeps one edge per target, starts at the vertex's new index and ends inside the smaller graph |
| GraphModel.DetachedArcs | WeightedAndDirectedGraphs/WeightedAndDirectedGraphs/Graph.cs:90-101 | a detached, renumbered list has exactly the old arcs minus those to the removed value |
| GraphModel.RemoveVertexValues | WeightedAndDirectedGraphs/WeightedAndDirectedGraphs/Graph.cs:101 | the other values stay, in order and distinct, and the removed value is no longer found |
| GraphModel.WithoutVertexAt | WeightedAndDirectedGraphs/WeightedAndDirectedGraphs/Graph.cs:90-101 | vertex i of the smaller graph is old vertex i (below k) or i + 1 (from k on), detached |
| GraphModel.RemoveVertexSpec | WeightedAndDirectedGraphs/WeightedAndDirectedGraphs/Graph.cs:83-103 | removing vertex k keeps the graph well formed and the other vertices in order, makes k's value unfindable, and leaves each other vertex with exactly its old arcs minus those ending at k, in order |
| Walks.LinkedPrefix | WeightedAndDirectedGraphs/WeightedAndDirectedGraphs/Graph.cs:214-235 | a walk without its last vertex is still joined by edges |
| Walks.EdgeWeightNonNegative | WeightedAndDirectedGraphs/WeightedAndDirectedGraphs/Graph.cs:194 | with nonnegative weights every edge weighs at least 0 |
| Walks.LinkedCons | WeightedAndDirectedGraphs/WeightedAndDirectedGraphs/Graph.cs:214-235 | putting a founder with an edge to the walk's first vertex in front keeps the walk joined by edges |
| Walks.WeightCons | WeightedAndDirectedGraphs/WeightedAndDirectedGraphs/Graph.cs:219-231 | pushing a founder in front of a walk gives a walk whose weight grows by exactly that edge's weight |
| ShortestPaths.Relax | WeightedAndDirectedGraphs/WeightedAndDirectedGraphs/Graph.cs:193-200 | relaxation only ever lowers a distance, and only that of the edge's target, strictly and only on strict improvement; an update sets the founder to the current vertex and the distance to current distance + weight; afterwards the target is no farther than through the current vertex |
| ShortestPaths.RelaxPrefix | WeightedAndDirectedGraphs/WeightedAndDirectedGraphs/Graph.cs:191-206 | relaxing the first j edges in list order never raises a distance, and leaves the entries of every vertex none of those edges targets unchanged |
| ShortestPaths.DistKey | WeightedAndDirectedGraphs/WeightedAndDirectedGraphs/Graph.cs:175 | the comparer: the key of vertex v is its current distance dist[v] |
| ShortestPaths.StartState | WeightedAndDirectedGraphs/WeightedAndDirectedGraphs/Graph.cs:177-184 | the table with no founders, the sentinel everywhere and 0 at start, with only start queued, satisfies every search invariant |
| ShortestPaths.PopIsShortest | WeightedAndDirectedGraphs/WeightedAndDirectedGraphs/Graph.cs:186-189 | the closest queued vertex is no farther than the weight of any walk from start to any unvisited vertex |
| ShortestPaths.PopPreserves | WeightedAndDirectedGraphs/WeightedAndDirectedGraphs/Graph.cs:186-189 | moving the closest queued vertex to visited keeps the frontier, the relaxed edges and the settled distances, and it is the farthest visited vertex |
| ShortestPaths.VisitedNotImproved | WeightedAndDirectedGraphs/WeightedAndDirectedGraphs/Graph.cs:196-199 | a visited vertex is never improved by an edge of the farthest visited vertex, so marking it unvisited never happens |
| ShortestPaths.RelaxTables | WeightedAndDirectedGraphs/WeightedAndDirectedGraphs/Graph.cs:193-200 | relaxing an edge keeps distances in [0, Sentinel], the start at 0 without founder, and every founder joined to its vertex by an edge, closer or earlier |
| ShortestPaths.RelaxImproved | WeightedAndDirectedGraphs/WeightedAndDirectedGraphs/Graph.cs:196-200 | when relaxation strictly lowers the target's distance, the updated tables (target stamped with the current clock) keep every table invariant |
| ShortestPaths.ImprovedLink | WeightedAndDirectedGraphs/WeightedAndDirectedGraphs/Graph.cs:196-200 | after a strict improvement through the current vertex, each vertex with a founder still has a founder joined to it by an edge, closer or stamped earlier |
| ShortestPaths.RelaxFrontier | WeightedAndDirectedGraphs/WeightedAndDirectedGraphs/Graph.cs:202-205 | queueing the target when it is neither queued nor visited keeps every reached vertex visited or queued, never both |
| ShortestPaths.RelaxClosed | WeightedAndDirectedGraphs/WeightedAndDirectedGraphs/Graph.cs:191-206 | after relaxing edge j of the visited vertex, edges 0..j of it and every edge of the other visited vertices are relaxed |
| ShortestPaths.RelaxSettled | WeightedAndDirectedGraphs/WeightedAndDirectedGraphs/Graph.cs:191-206 | relaxation keeps visited vertices no farther than unvisited ones and no farther than any walk to them |
| ShortestPaths.ClosedAfterAll | WeightedAndDirectedGraphs/WeightedAndDirectedGraphs/Graph.cs:191-206 | after the last edge of the visited vertex, all edges of all visited vertices are relaxed |
| ShortestPaths.NoWalkEscapes | WeightedAndDirectedGraphs/WeightedAndDirectedGraphs/Graph.cs:186-212 | when the queue is empty every vertex reachable from start is visited |
| ShortestPaths.WalkReachesVisited | WeightedAndDirectedGraphs/WeightedAndDirectedGraphs/Graph.cs:186-212 | when the loop has stopped (end popped or queue empty) a walk from start to end ends at a visited vertex |
| ShortestPaths.IndexSetBound | WeightedAndDirectedGraphs/WeightedAndDirectedGraphs/Graph.cs:186 | the visited set holds at most |V| vertices, which bounds the main loop |
| Graphs.Graph.constructor | WeightedAndDirectedGraphs/WeightedAndDirectedGraphs/Graph.cs:41-44 | a new graph has no vertices and is well formed |
| Graphs.Graph.Count | WeightedAndDirectedGraphs/WeightedAndDirectedGraphs/Graph.cs:12 | the number of vertex values |
| Graphs.Graph.Edges | WeightedAndDirectedGraphs/WeightedAndDirectedGraphs/Graph.cs:16-32 | the concatenation of every vertex's neighbour list in vertex order; an edge is listed exactly when some vertex owns it |
| Graphs.Graph.AddVertex | WeightedAndDirectedGraphs/WeightedAndDirectedGraphs/Graph.cs:46-59 | appends a vertex with no edges exactly when the value is absent (the source's exception otherwise, here false with no change); values stay distinct |
| Graphs.Graph.AddEdge | WeightedAndDirectedGraphs/WeightedAndDirectedGraphs/Graph.cs:61-76 | true exactly when both values are present and there is no a -> b edge; then exactly one edge (a, b, weight) is appended to a's list and GetEdge(a, b) returns it; otherwise nothing changes |
| Graphs.Graph.RemoveEdge | WeightedAndDirectedGraphs/WeightedAndDirectedGraphs/Graph.cs:105-122 | true exactly when GetEdge(a, b) finds an edge; then exactly that edge is removed, other edges keep their order, and GetEdge(a, b) is then None; otherwise nothing changes |
| Graphs.Graph.RemoveVertex | WeightedAndDirectedGraphs/WeightedAndDirectedGraphs/Graph.cs:78-103 | true exactly when the value is present; then the graph is WithoutVertex of the old one (see RemoveVertexSpec) and stays well formed; otherwise nothing changes |
| Graphs.DetachEach | WeightedAndDirectedGraphs/WeightedAndDirectedGraphs/Graph.cs:90-99 | the loop over every vertex drops its edge to the removed vertex and renumbers the rest, giving exactly DetachAll |
| Graphs.Graph.Dijkstra | WeightedAndDirectedGraphs/WeightedAndDirectedGraphs/Graph.cs:161-236 | None when start or end is absent or start == end; a Some path is a walk from start to end of at least two vertices, weighing less than the sentinel and no more than any walk from start to end; None for distinct present vertices means every walk between them weighs at least the sentinel |
| Graphs.InitialLabels | WeightedAndDirectedGraphs/WeightedAndDirectedGraphs/Graph.cs:177-183 | one label per vertex: no founder, the sentinel distance, and 0 for start |
| Graphs.Explore | WeightedAndDirectedGraphs/WeightedAndDirectedGraphs/Graph.cs:184-212 | on exit, end is visited or the queue is empty; every search invariant then holds, so visited distances are shortest |
| Graphs.Visit | WeightedAndDirectedGraphs/WeightedAndDirectedGraphs/Graph.cs:186-206 | one round of the loop: pops an unvisited vertex, adds it to visited (so the visited set grows by exactly one) and relaxes its edges, keeping every search invariant |
| Graphs.PopClosest | WeightedAndDirectedGraphs/WeightedAndDirectedGraphs/Graph.cs:188-189 | pops a queued, unvisited vertex of least distance and keeps the search invariants with it visited |
| Graphs.RelaxEdges | WeightedAndDirectedGraphs/WeightedAndDirectedGraphs/Graph.cs:191-206 | the new tables are exactly those of relaxing the popped vertex's edges one after the other in list order (`RelaxPrefix`), so no distance grows; the search invariants hold and the visited set is unchanged |
| Graphs.RelaxEdge | WeightedAndDirectedGraphs/WeightedAndDirectedGraphs/Graph.cs:193-205 | the new tables are exactly `Relax` of that edge; the target is queued exactly when it was neither queued nor visited, so no vertex is ever queued twice; the search invariants hold |
| Graphs.QueueIfNew | WeightedAndDirectedGraphs/WeightedAndDirectedGraphs/Graph.cs:202-205 | enqueues the target exactly when it is neither queued nor visited, so the queue holds each vertex at most once |
| Graphs.FounderPath | WeightedAndDirectedGraphs/WeightedAndDirectedGraphs/Graph.cs:214-235 | the founder chain from end back to a vertex without founder, read start to end: the first vertex has no founder and every later vertex's founder is the one before it; a walk to end no heavier than end's distance; a single vertex exactly when end has no founder, and otherwise it starts at start |

## Left out

- AStar.cs is not part of this model. Its search is an unfinished stub that
  always returns null, its `Point` overload drops the heuristic argument, and
  its heuristics are floating-point arithmetic.
- Vertex.cs and Edge.cs are folded into the `Vertex` and `Edge`
  datatypes. `Edge.IsVisited` is never read and is not modelled.
- The disabled negative-cycle code (Graph.cs:238-278) is not modelled.
- Distances: the source's `float` table and its rounding are not modelled.
  Weights and distances are unbounded integers, so sums never overflow
  and never round. `Sentinel` stands for `int.MaxValue`.
  - The model never finds a walk of weight at or above the sentinel,
    2147483647. The source's threshold is lower. Its table holds `float`
    values (Graph.cs:180, 194-196), so `int.MaxValue` is stored as 2^31,
    and every sum is rounded to `float`. A walk whose rounded weight
    reaches 2^31 fails the test `tentative < distance`; for a single edge
    that is any weight from about 2^31 - 64 on. The model does not
    reproduce this threshold, and it does not reproduce the rounding of
    longer walks.
- Graphs.Graph.Dijkstra:
  - It requires nonnegative weights, which the search's correctness and
    termination need. Negative weights are not supported.
  - It returns vertex indices rather than vertex objects.
  - It returns None (null) for start == end, as the code does.
- The comparer (`IComparer<T>`, `Comparer<T>.Default`) is replaced by the
  `key` function that each comparing method receives.
  - The `key` is a value. The source's comparer instead reads the live
    distance table at each comparison. Since nothing changes the table
    during a queue operation, the two agree.
- Vertex identity by reference (Graph.cs:145, 152) becomes identity by
  index. So `Contains(start)` for a vertex of another graph is not
  expressible.
- The graph's indexer and the `Vertices` view (Graph.cs:14, 34-39) hand
  out raw vertex objects. Writes through them can break the graph's
  invariants, and they are not modelled.
- The `Vertex` overloads of `AddEdge`, `RemoveVertex`, `RemoveEdge`,
  `GetEdge` and `Dijkstra` are folded into the value overloads. Those call
  them through `Search` (Graph.cs:61-64, 78-81, 105-108, 138-141, 161-164).
- `AddVertex(T)` builds a new vertex without edges and passes it to
  `AddVertex(Vertex<T>)` (Graph.cs:46-49). That public overload
  (Graph.cs:51-59) is not modelled. It accepts a vertex built by the caller,
  whose `Neighbors` may already hold edges to vertices outside the graph,
  edges that do not start at it, or two edges to the same target. The model
  cannot express such a graph, because every operation keeps `WellFormed`.
- `AddEdge`'s default argument `distance = 0` (Graph.cs:61, 66) is not
  modelled. `Graphs.Graph.AddEdge` always takes a weight, which a caller
  passes as 0 to get the default.
- Graphs.Graph.AddVertex: returns `false` with no change where the source
  throws.
- PriorityQueue.PriorityQue.Deqeue:
  - It requires `Count > 0`. The source has no empty check, and on an
    empty queue it drives `Count` to -1.
  - Dijkstra only pops a non-empty queue.
- PriorityQueue.PriorityQue.Enqueu: requires a non-default value. Dijkstra
  only enqueues vertices, never null.
- The source's failures are not reproduced; the model corrects them (see
  Findings):
  - `HeapifyUp` never returns.
  - The first `Enqueu` compares against the null slot 0. Through the
    distance-table comparer this is a lookup of a null key.
  - `HeapifyDown` reads the slot past `Count`.
- Graphs.Graph.RemoveVertex: removes every edge to the vertex by `Detach` on each
  list. This is the same edge the source's `RemoveEdge` calls remove,
  because each list holds at most one edge per target (`DropFirstIsKeep`).
  - The renumbering of later indices (`Renumber`) is a model artifact of
    identifying vertices by index.
- Concurrency and the persistence of `IsVisited` between queries are not
  modelled. The visited set is per query.

## Findings

| source | as written | input that shows it | evidently intended | confidence | as-written member | corrected member |
|---|---|---|---|---|---|---|
| WeightedAndDirectedGraphs/WeightedAndDirectedGraphs/PriorityQue.cs:75-89 | the exit test is `parent < 0` with `parent = index / 2`, which is never negative; HeapifyUp(1) compares slot 1 with the unused slot 0 and calls HeapifyUp(0), which calls HeapifyUp(0) forever (with Dijkstra's comparer the comparison against slot 0 already fails on the null key) | any Enqueu, e.g. the first one: HeapifyUp(1) | stop at index 1, the root, and never compare against slot 0 | high; not executed | HeapAsWritten.SiftUpNeverReturns | PriorityQueue.PriorityQue.HeapifyUp |
| WeightedAndDirectedGraphs/WeightedAndDirectedGraphs/PriorityQue.cs:104-118 | the child chosen by comparing left with right (even past Count) is compared with the left child, not the parent, and the "swap" writes `tree[swapIndex]` twice, so HeapifyDown, Sort and the sift after a pop never move anything | the queue array [default, 5, 1, default] with keys equal to the elements: Deqeue returns 5 while 1 is queued | a bounded sift-down: choose the smaller existing child, exchange it with the parent when it is smaller, continue there | high; not executed | HeapAsWritten.DeqeueAsWrittenMissesMinimum | PriorityQueue.PriorityQue.Deqeue |
