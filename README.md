# GrafosMap routing engine in Dafny

GrafosMap's Dijkstra map page loads an OpenStreetMap (`.osm`) file. It
turns the file's `node` and `way` elements into a road graph and lets the
user click two nodes on a canvas. It then finds the shortest route between
them with Dijkstra's algorithm over a sorted-array priority queue. This
project models the engine of that page, `src/app/dijkstra-map/page.tsx`,
without its React, DOM and canvas layers, and proves what each piece
promises.

The modules follow the page's pieces:

- `PriorityQueues` (`priority_queue.dfy`) is the `PriorityQueue` class. Its
  `items` field is a `seq` that `Enqueue` and `Dequeue` reassign. `Enqueue`
  is proved equal to `Insert`, the stable insertion that `push` followed by
  the stable `sort` produces.
- `OsmParse` (`osm_parse.dfy`) is the extraction loop that runs after the XML
  is parsed. It works over element records (an optional `id`, the
  coordinates, the `nd` refs and the `k`/`v` tags). Each loop is a method
  proved equal to a recursive specification function.
- `GraphBuilder` (`graph_builder.dfy`) is `buildGraphInternal`: a nested loop
  over an array of adjacency lists. It is proved equal to the function
  `Build`, whose edge set is characterised exactly.
- `RoadGraph` (`road_graph.dfy`) holds the records and the notion of a walk
  and its weight.
- `SearchState` (`search_state.dfy`) holds the loop invariant of the search
  as predicates over a state record, and the lemmas showing that each step
  of the loop keeps it.
- `ShortestPath` (`shortest_path.dfy`) is `dijkstraInternal`. It runs over
  the `dist`, `prev` and `visited` arrays, the visit counter and a
  `PriorityQueue` object. A ghost visit order is what makes the walk back
  along `prev` terminate.
- `SpatialLocator` (`spatial_locator.dfy`) is `getClosestNodeIndex`: the
  click taken from canvas to graph coordinates, the nearest-node scan and
  the threshold test.
- `Selection` (`selection.dfy`) is the value-style update of the selected
  nodes in the click handler, and the routing request it makes.

`Infinity` is the `Dist.Infinity` constructor. Distances and weights are
`real`. The edge weight `distancia` is a parameter of the graph builder,
because it is a floating-point square root.

## Model

All sources are in `src/app/dijkstra-map/page.tsx`.

| member | source | states |
|---|---|---|
| PriorityQueues.PriorityQueue.constructor | src/app/dijkstra-map/page.tsx:63-65 | a new queue is empty (and so sorted) |
| PriorityQueues.Insert | src/app/dijkstra-map/page.tsx:66-69 | the items after `push` and the stable sort: the new entry goes behind every entry of lower or equal priority; its properties are the lemmas below |
| PriorityQueues.PriorityQueue.Enqueue | src/app/dijkstra-map/page.tsx:66-69 | the items stay sorted; they become exactly `Insert(old items, entry)`; the multiset grows by exactly the new entry |
| PriorityQueues.InsertSorted | src/app/dijkstra-map/page.tsx:66-69 | inserting into a sorted queue leaves it sorted by priority |
| PriorityQueues.InsertMultiset | src/app/dijkstra-map/page.tsx:66-69 | insertion is a permutation of the old items plus the new entry |
| PriorityQueues.InsertStable | src/app/dijkstra-map/page.tsx:66-69 | at every priority, the entries keep their order from `items + [entry]`, so a new entry goes behind all entries of equal priority |
| PriorityQueues.StableSortUnique | src/app/dijkstra-map/page.tsx:68 | two sorted sequences with the same entries at every priority, in the same order, are equal; so `Insert` is the only possible result of the stable sort |
| PriorityQueues.HeadIsFirstMinimum | src/app/dijkstra-map/page.tsx:70-72 | the head of a sorted queue has the least priority, and among entries of that priority it comes first, i.e. was inserted first |
| PriorityQueues.PriorityQueue.Dequeue | src/app/dijkstra-map/page.tsx:70-72 | an empty queue gives None and stays empty; otherwise the head is returned and the rest stay in order (and sorted) |
| PriorityQueues.PriorityQueue.IsEmpty | src/app/dijkstra-map/page.tsx:73-75 | true iff the queue holds no entry |
| OsmParse.ExtractNodes | src/app/dijkstra-map/page.tsx:154-165 | the node loop yields exactly `IndexNodes(elements)` |
| OsmParse.ToNode | src/app/dijkstra-map/page.tsx:163 | the node keeps the id, which is non-empty; x is the longitude and y the latitude, both also kept as the originals |
| OsmParse.IndexNodesAppend | src/app/dijkstra-map/page.tsx:157-165 | the node list of a concatenation is the concatenation of the node lists, so nodes keep document order |
| OsmParse.IndexNodesOne | src/app/dijkstra-map/page.tsx:158-164 | one element yields its node iff its id is truthy (present and non-empty), otherwise nothing |
| OsmParse.IdTableLastSeen | src/app/dijkstra-map/page.tsx:161-163 | the id table holds exactly the ids of kept nodes; each id maps to a node carrying it, and no later node carries it (last seen wins, while both nodes stay in the list) |
| OsmParse.IdTableInRange | src/app/dijkstra-map/page.tsx:162 | every index in the id table names a node of the list |
| OsmParse.CollectRefs | src/app/dijkstra-map/page.tsx:170-176 | the `nd` loop yields exactly the indices of the truthy refs that the id table knows, in document order |
| OsmParse.ResolvedAppend | src/app/dijkstra-map/page.tsx:171-176 | resolution distributes over concatenation, so refs keep document order |
| OsmParse.ResolvedOne | src/app/dijkstra-map/page.tsx:172-175 | one ref is kept, as its table index, iff it is truthy and known |
| OsmParse.ResolvedBound | src/app/dijkstra-map/page.tsx:173-174 | every resolved index is below any bound on the table's indices |
| OsmParse.IsOneway | src/app/dijkstra-map/page.tsx:178-185 | the flag is true iff some tag has `k` = `oneway` and `v` = `yes` (both directions) |
| OsmParse.ExtractWays | src/app/dijkstra-map/page.tsx:167-189 | the way loop yields exactly `Ways(elements, table)` |
| OsmParse.WaysAppend | src/app/dijkstra-map/page.tsx:168-189 | the ways of a concatenation are the concatenation of the ways, so ways keep document order |
| OsmParse.WaysOne | src/app/dijkstra-map/page.tsx:186-188 | a way element is kept, with its resolved refs and its one-way flag, iff it has at least two resolvable refs |
| OsmParse.WaysWellFormed | src/app/dijkstra-map/page.tsx:173-188 | every kept way has at least two indices, all below the bound |
| OsmParse.Parse | src/app/dijkstra-map/page.tsx:151-189 | nodes and ways are the specification functions of the elements, and every way index names a node |
| GraphBuilder.EmptyLists | src/app/dijkstra-map/page.tsx:101 | one empty list per node |
| GraphBuilder.AddSegment | src/app/dijkstra-map/page.tsx:106-116 | one segment of a way, pushed into the lists: the list count is unchanged |
| GraphBuilder.AddSegmentAppends | src/app/dijkstra-map/page.tsx:112-116 | a segment only appends to the lists of its two ends and leaves every other list alone |
| GraphBuilder.BuildGraph | src/app/dijkstra-map/page.tsx:100-120 | the nested loop over the array of lists yields exactly `Build(nodes, ways, weight)` |
| GraphBuilder.Build | src/app/dijkstra-map/page.tsx:101 | the graph has exactly one list per node |
| GraphBuilder.AddSegmentMembers | src/app/dijkstra-map/page.tsx:106-116 | after one segment, an edge is in a list iff it was there before or the segment contributes it: forward always, reverse unless one-way, nothing when an end is out of range |
| GraphBuilder.AddWayMembers | src/app/dijkstra-map/page.tsx:105-117 | after the first i segments of a way, an edge is in a list iff it was there before or one of those segments contributes it |
| GraphBuilder.BuildMembers | src/app/dijkstra-map/page.tsx:101-118 | an edge is in the list of x iff some in-range segment of some way contributes it to x; no other entries appear |
| GraphBuilder.BidirectionalSymmetric | src/app/dijkstra-map/page.tsx:112-116 | without one-way roads every edge has its reverse, with the same weight |
| GraphBuilder.OnewayForwardOnly | src/app/dijkstra-map/page.tsx:113-116 | with one-way roads only, every edge of x comes from a segment that starts at x |
| GraphBuilder.BuildNonNegative | src/app/dijkstra-map/page.tsx:112 | a non-negative weight function gives a graph with non-negative weights |
| SearchState.Initial | src/app/dijkstra-map/page.tsx:220-227 | after the arrays are filled, `dist[start] = 0` is set and the start is enqueued, the loop invariant holds |
| SearchState.CountTrueMark | src/app/dijkstra-map/page.tsx:235-236 | marking an unvisited node adds one to the number of visited nodes, so the counter equals that number |
| SearchState.PopStale | src/app/dijkstra-map/page.tsx:234 | dropping an entry of an already visited node keeps the invariant |
| SearchState.PopFresh | src/app/dijkstra-map/page.tsx:230-236 | a head whose node is unvisited carries that node's current distance; it is at least every visited distance and at most every queued priority |
| SearchState.MarkVisited | src/app/dijkstra-map/page.tsx:235-236 | marking the fresh head visited keeps the walk-back structure and the count; if it is not the target, relaxation of its edges can start |
| SearchState.QueueAfterVisit | src/app/dijkstra-map/page.tsx:230-235 | the queue invariants hold after the head is removed and its node is visited |
| SearchState.PrevAfterRelax | src/app/dijkstra-map/page.tsx:243-246 | after an improving relaxation, prev is set exactly for reached nodes other than the start, and every prev link still points to a node visited earlier |
| SearchState.QueueSoundAfterRelax | src/app/dijkstra-map/page.tsx:243-246 | every queued entry is still a reached node whose priority is at least its distance |
| SearchState.QueueCompleteAfterRelax | src/app/dijkstra-map/page.tsx:243-246 | every reached, unvisited node still has an entry carrying its current distance |
| SearchState.VisitedBelowAfterRelax | src/app/dijkstra-map/page.tsx:243-246 | visited distances stay at most the head's priority |
| SearchState.DistAfterRelax | src/app/dijkstra-map/page.tsx:242-244 | distances stay finite and non-negative where set, and visited distances never change |
| SearchState.RelaxedAfterRelax | src/app/dijkstra-map/page.tsx:242-245 | every edge that was relaxed stays relaxed, and the current edge becomes relaxed |
| SearchState.RelaxImproves | src/app/dijkstra-map/page.tsx:243-247 | a strictly improving edge updates dist, prev and the queue and keeps the relaxation invariant, with one more edge of u done |
| SearchState.RelaxKeeps | src/app/dijkstra-map/page.tsx:243 | an edge that does not improve, or leads past the node list, changes nothing and is relaxed |
| SearchState.RelaxEdgeKeeps | src/app/dijkstra-map/page.tsx:241-247 | one pass of the inner loop keeps the relaxation invariant, with one more edge done |
| SearchState.RelaxFirstKeeps | src/app/dijkstra-map/page.tsx:241-248 | the state after the first k passes satisfies the relaxation invariant with k edges done |
| SearchState.DoneRelaxing | src/app/dijkstra-map/page.tsx:239-248 | once all edges of u are relaxed, or u has no list, the loop invariant holds again |
| SearchState.VisitStep | src/app/dijkstra-map/page.tsx:235-248 | a visit marks the node, counts at most n visits, and keeps the walk-back structure; if the node is the target its distance is at most every walk's weight; otherwise relaxing its edges restores the invariant |
| SearchState.WalkBound | src/app/dijkstra-map/page.tsx:241-247 | along a walk that is visited except at its end, relaxed edges bound the end's distance by the start's distance plus the walk's weight |
| SearchState.CutEntry | src/app/dijkstra-map/page.tsx:229-238 | a walk from the start to an unvisited node has a queued entry whose priority is at most the walk's weight |
| SearchState.CutBound | src/app/dijkstra-map/page.tsx:229-238 | the head's priority is at most the weight of every walk from the start to an unvisited node |
| SearchState.ReachNeedsQueue | src/app/dijkstra-map/page.tsx:229 | while the target is unvisited, a walk to it means the queue is not empty |
| SearchState.Exhausted | src/app/dijkstra-map/page.tsx:229-253 | when the queue runs dry first, the target's distance is Infinity and no walk reaches it |
| SearchState.PrevChainIsWalk | src/app/dijkstra-map/page.tsx:241-246 | a chain of prev links is a walk of the graph; its weights sum to the end's distance minus the start's |
| ShortestPath.Reverse | src/app/dijkstra-map/page.tsx:259 | the result has the same length, with element i taken from position length - 1 - i |
| ShortestPath.Refused | src/app/dijkstra-map/page.tsx:217 | a query that is not refused has nodes, a non-empty graph, and both endpoints in range |
| ShortestPath.RelaxOne | src/app/dijkstra-map/page.tsx:242-247 | one neighbour pass over the arrays and the queue is the state transition `RelaxEdge` |
| ShortestPath.RelaxEdges | src/app/dijkstra-map/page.tsx:241-248 | the `for` loop over `adj[u]` is the state transition `RelaxFirst` over all edges of u |
| ShortestPath.WalkBack | src/app/dijkstra-map/page.tsx:255-259 | the path runs from start to end through visited nodes, each step a prev link; it is `[end]` when start is end |
| ShortestPath.Start | src/app/dijkstra-map/page.tsx:220-227 | the arrays are filled (Infinity, null, false), dist[start] is 0, the counter is 0, the queue holds just (start, 0), and the loop invariant holds |
| ShortestPath.SearchStep | src/app/dijkstra-map/page.tsx:230-248 | one turn keeps the invariant or reaches the target with its distance settled; the visit count or the queue shrinks the measure |
| ShortestPath.Search | src/app/dijkstra-map/page.tsx:220-249 | the target is reached with a settled distance, `prev[start]` never set and at most n visits, or the loop ends with the target at Infinity and unreachable |
| ShortestPath.Dijkstra | src/app/dijkstra-map/page.tsx:216-261 | an empty node list or graph, or an out-of-range index, gives null; otherwise the result is present iff the target is reachable; it is then a walk from start to end whose weights sum to the distance, no walk is lighter, and 1 <= visited count <= n; start = end gives (0, [start], 1) |
| SpatialLocator.MinScale | src/app/dijkstra-map/page.tsx:436 | the smaller of the two absolute scales: non-negative, one of them, and at most both |
| SpatialLocator.ToGraph | src/app/dijkstra-map/page.tsx:420-421 | the graph coordinate of a click, drawn back with offset + g * scale, is the click itself |
| SpatialLocator.ToGraphDrawn | src/app/dijkstra-map/page.tsx:311-312 | taking the canvas point where a node is drawn back to graph coordinates gives the node's own coordinates |
| SpatialLocator.ThresholdSq | src/app/dijkstra-map/page.tsx:439 | for a positive scale, the radius converted to graph units and squared is positive |
| SpatialLocator.DrawnNodeWithinRadius | src/app/dijkstra-map/page.tsx:435-441 | a click exactly where a node is drawn is within the radius of that node, so with a positive scale the lookup returns a node |
| SpatialLocator.Scan | src/app/dijkstra-map/page.tsx:423-433 | an empty list gives -1; otherwise the index is the first one at the least squared distance, and minSqDist is that distance |
| SpatialLocator.ClosestNodeIndex | src/app/dijkstra-map/page.tsx:417-445 | no node, or a zero scale, gives null; otherwise, with the click taken to graph coordinates, a result is the first closest node, and a node is returned iff some node is strictly within the squared radius |
| Selection.IndexOf | src/app/dijkstra-map/page.tsx:472 | -1 when the index is not selected; otherwise its first position in the selection |
| Selection.Toggle | src/app/dijkstra-map/page.tsx:471-483 | a click grows the selection by at most one, and a selection of at most two distinct indices stays so |
| Selection.ToggleDeselects | src/app/dijkstra-map/page.tsx:474-476 | clicking a selected index removes exactly that entry, keeping the others in order |
| Selection.ToggleSelects | src/app/dijkstra-map/page.tsx:477-482 | clicking a new index pushes it when fewer than two are selected; otherwise the selection becomes the old second entry then the new index |
| Selection.ToggleTwice | src/app/dijkstra-map/page.tsx:474-482 | with fewer than two selected, clicking a new index twice restores the selection |
| Selection.HandleClick | src/app/dijkstra-map/page.tsx:457-496 | a click that hits no node changes nothing and requests nothing; otherwise the selection is toggled, the shown route is cleared iff fewer than two remain, and a route is requested iff exactly two are selected, from the first to the second, which are distinct |

## Left out

- The XML reading (`FileReader`, `DOMParser`, the `parsererror` check) is left out: the parse step starts from element records.
- `parseFloat` of the coordinates and its `'0'` default are left out: the coordinates arrive as numbers.
- The Euclidean weight `distancia` is a floating-point square root. It is a weight-function parameter; `BuildNonNegative` shows that a non-negative weight function gives a non-negative graph.
- `performance.now` and `processingTimeMs` are wall-clock time, so `PathResult` has no timing field.
- The canvas, the drawing, the dash animation, toasts, the result text and the clipboard are presentation and are left out. Of `scalePoint`, only the drawing transform of lines 311-312 is modelled (`Drawn`), not its single-point layout of lines 307-309. Of the scaling parameters, only the scales and offsets are modelled, not how they are computed from the node bounds.
- The guards on the scaling parameters, the canvas and `isLoading` (lines 418, 449, 452) are UI state. The click arrives in canvas coordinates; the subtraction of the canvas position at lines 453-455 is left out.
- ClosestNodeIndex: real arithmetic is exact here, where the page rounds in floating point. At zero scale, the page divides by zero at lines 420-421; its graph coordinates are then infinite or NaN, so no squared distance is below the initial Infinity and the lookup returns null. The model returns None for a zero scale directly, without the non-finite values. The zero-scale branch at line 437 therefore never returns a node.
- The id table is a true dictionary, so ids such as `__proto__` do not hit the object prototype as they would in JavaScript.
- The duplicate-id rule follows the code: a later node with the same id overwrites the table entry (last seen wins), and both nodes stay in the list.
- Selected entries are node indices only. The id and coordinates they also carry in the page are display data.
- The route request of `HandleClick` is an output. The call of `dijkstraInternal` and the handling of its result (line 496 on) are not composed with it.
- Dijkstra: requires non-negative weights. The page only ever builds such graphs, since its weights are Euclidean lengths. Without that, `prev` could form a cycle and the walk back would not end.
- Dijkstra: the page's guard `if (!dequeued) break;` is never taken, because the loop only dequeues from a non-empty queue, so it is not modelled as a branch.
- Dijkstra: an edge to an index at or past the node list is skipped. In JavaScript, `alt < undefined` is false.
- Dijkstra: the relaxation sums `dist[u] + neighbor.weight` (line 242) are exact reals here, where the page adds in floating point, so rounding can make the page's distances and its choice among near-equal routes differ.
- PriorityQueues.PriorityQueue.Enqueue: stability is not stated in `Enqueue`'s own contract. It is stated by `InsertStable` and `StableSortUnique` about `Insert`, which `Enqueue` is proved to equal.
- WalkBack: it reads a snapshot of `prev` and builds the path as a sequence. The `push` then in-place `reverse` of the page becomes an explicit reversal.
- Search, SearchStep: the loop body is split between these methods; `dijkstraInternal` is one function in the page.
