/**
 * dijkstraInternal: Dijkstra's algorithm with a lazily cleaned priority
 * queue over the adjacency list built from the map, stopping as soon as
 * the target is taken off the queue, followed by the walk back along the
 * predecessor array.
 */
module ShortestPath {
  import opened Options
  import opened RoadGraph
  import opened SearchState
  import PQ = PriorityQueues

  /** The routing result: total distance, the node indices from start to end, and how many nodes were visited. */
  datatype PathResult = PathResult(distance: real, path: seq<nat>, visitedNodesCount: nat)

  /** The inputs the routine refuses outright with a null result. */
  predicate Refused(n: nat, adj: Adjacency, start: nat, end: nat)
    ensures !Refused(n, adj, start, end) ==> 0 < n && adj != [] && start < n && end < n
  {
    n == 0 || |adj| == 0 || start >= n || end >= n
  }

  /** path is a walk from start to end of total weight distance, and no walk between them weighs less. */
  ghost predicate ShortestWalk(adj: Adjacency, n: nat, start: nat, end: nat, path: seq<nat>, distance: real) {
    && (exists ws :: IsWalk(adj, n, path, ws) && Sum(ws) == distance)
    && path[0] == start && path[|path| - 1] == end
    && forall p, ws :: IsWalk(adj, n, p, ws) && p[0] == start && p[|p| - 1] == end ==> distance <= Sum(ws)
  }

  /** s reversed. */
  function Reverse(s: seq<nat>): (r: seq<nat>)
    ensures |r| == |s| && forall i :: 0 <= i < |s| ==> r[i] == s[|s| - 1 - i]
  {
    if s == [] then [] else [s[|s| - 1]] + Reverse(s[..|s| - 1])
  }

  /**
   * One pass of the inner `for (const neighbor of adj[u])` loop: an edge
   * that leads to a node of the list and shortens its distance updates dist
   * and prev and queues the node with its new distance.
   */
  method RelaxOne(ghost q: Query, adj: Adjacency, n: nat, dist: array<Dist>, prev: array<Option<nat>>, visited: array<bool>,
                  ghost order: seq<nat>, count: nat, pq: PQ.PriorityQueue, u: nat, k: nat)
    requires q.adj == adj && q.n == n && pq.Valid()
    requires dist.Length == n && prev.Length == n
    requires CanRelax(q, State(dist[..], prev[..], visited[..], order, count, pq.items), u) && k < |adj[u]|
    modifies dist, prev, pq
    ensures pq.Valid()
    ensures State(dist[..], prev[..], visited[..], order, count, pq.items)
         == RelaxEdge(q, old(State(dist[..], prev[..], visited[..], order, count, pq.items)), u, k)
  {
    ghost var sk := State(dist[..], prev[..], visited[..], order, count, pq.items);
    var neighbor := adj[u][k];
    // an index past the node list reads undefined, and alt < undefined is false
    if neighbor.node < n {
      var alt := dist[u].value + neighbor.weight;
      if Less(Finite(alt), dist[neighbor.node]) {
        dist[neighbor.node] := Finite(alt);
        prev[neighbor.node] := Some(u);
        pq.Enqueue(neighbor.node, alt);
        assert dist[..] == sk.dist[neighbor.node := Finite(alt)];
        assert prev[..] == sk.prev[neighbor.node := Some(u)];
        assert visited[..] == sk.visited;
      }
    }
  }

  /** The inner loop: every edge of u in turn. */
  method RelaxEdges(ghost q: Query, adj: Adjacency, n: nat, dist: array<Dist>, prev: array<Option<nat>>, visited: array<bool>,
                    ghost order: seq<nat>, count: nat, pq: PQ.PriorityQueue, u: nat)
    requires q.adj == adj && q.n == n && pq.Valid()
    requires dist.Length == n && prev.Length == n
    requires CanRelax(q, State(dist[..], prev[..], visited[..], order, count, pq.items), u)
    modifies dist, prev, pq
    ensures pq.Valid()
    ensures State(dist[..], prev[..], visited[..], order, count, pq.items)
         == RelaxFirst(q, old(State(dist[..], prev[..], visited[..], order, count, pq.items)), u, |adj[u]|)
  {
    ghost var s0 := State(dist[..], prev[..], visited[..], order, count, pq.items);
    var k := 0;
    while k < |adj[u]|
      invariant k <= |adj[u]| && pq.Valid()
      invariant State(dist[..], prev[..], visited[..], order, count, pq.items) == RelaxFirst(q, s0, u, k)
    {
      RelaxOne(q, adj, n, dist, prev, visited, order, count, pq, u, k);
      k := k + 1;
    }
  }

  /**
   * The `for (at = end; at !== null; at = prev[at]) path.push(at)` loop
   * followed by `path.reverse()`: the chain of predecessors from the
   * target back to the start, in forward order.
   */
  method WalkBack(ghost q: Query, ghost s: State, end: nat, prev: seq<Option<nat>>) returns (path: seq<nat>)
    requires q.end == end && s.prev == prev
    requires Reconstructible(q, s) && s.visited[end]
    ensures |path| >= 1 && path[0] == q.start && path[|path| - 1] == end
    ensures forall i :: 0 <= i < |path| ==> path[i] < q.n && s.visited[path[i]]
    ensures forall i :: 0 <= i < |path| - 1 ==> prev[path[i + 1]] == Some(path[i])
    ensures q.start == end ==> path == [end]
  {
    var rev: seq<nat> := [];
    var at: Option<nat> := Some(end);
    while at.Some?
      invariant forall i :: 0 <= i < |rev| ==> rev[i] < q.n && s.visited[rev[i]]
      invariant forall i :: 0 <= i < |rev| - 1 ==> prev[rev[i]] == Some(rev[i + 1])
      invariant at.Some? ==> at.value < q.n && s.visited[at.value]
      invariant rev == [] ==> at == Some(end)
      invariant rev != [] ==> rev[0] == end && at == prev[rev[|rev| - 1]]
      decreases if at.Some? then s.order[at.value] + 1 else 0
    {
      var x := at.value;
      rev := rev + [x];
      at := prev[x];
      if at.Some? {
        assert PrevLink(q, s.dist, s.prev, s.visited, s.order, x);
      }
    }
    var last := rev[|rev| - 1];
    assert last == q.start by {
      assert prev[last] == None && s.dist[last].Finite?;
    }
    assert |rev| > 1 ==> prev[rev[0]] == Some(rev[1]);
    path := Reverse(rev);
    forall i | 0 <= i < |path| - 1 ensures prev[path[i + 1]] == Some(path[i]) {
      assert path[i + 1] == rev[|rev| - 2 - i] && path[i] == rev[|rev| - 1 - i];
    }
  }

  /**
   * One turn of the search loop: the head u comes off the queue; a stale
   * entry of an already visited node is dropped, otherwise u is marked
   * visited and counted and, unless it is the target, its edges are
   * relaxed. s is the state before the turn, next the state after it, and
   * found says that u was the target.
   */
  method SearchStep(ghost q: Query, adj: Adjacency, n: nat, end: nat, dist: array<Dist>, prev: array<Option<nat>>,
                    visited: array<bool>, ghost order: seq<nat>, count: nat, pq: PQ.PriorityQueue, ghost s: State)
    returns (found: bool, ghost order': seq<nat>, count': nat, ghost next: State)
    requires q.adj == adj && q.n == n && q.end == end && NonNegative(adj) && pq.Valid()
    requires dist.Length == n && prev.Length == n && visited.Length == n && |order| == n
    requires s == State(dist[..], prev[..], visited[..], order, count, pq.items) && Inv(q, s) && s.queue != []
    modifies dist, prev, visited, pq
    ensures pq.Valid() && |order'| == n
    ensures next == State(dist[..], prev[..], visited[..], order', count', pq.items)
    ensures count < count' <= n || (count' == count && |pq.items| < |s.queue|)
    ensures found ==> && Reconstructible(q, next) && next.visited[end] && EndSettled(q, next.dist)
                      && (q.start == end ==> count' == 1)
    ensures !found ==> Inv(q, next) && (next.queue == [] ==> next.dist[end] == Infinity && !Reachable(adj, n, q.start, end))
  {
    // the queue is not empty, so the page's guard against an undefined dequeue never fires
    var d := pq.Dequeue();
    var u := d.value.element;
    assert EntrySound(s.dist, s.queue[0]);
    found, order', count' := false, order, count;
    if visited[u] {
      PopStale(q, s);
      next := s.(queue := s.queue[1..]);
    } else {
      visited[u] := true;
      order' := order[u := count];
      count' := count + 1;
      ghost var s1 := State(dist[..], prev[..], visited[..], order', count', pq.items);
      VisitStep(q, s, s1);
      next := s1;
      if u == end {
        found := true;
      } else if u < |adj| {
        RelaxEdges(q, adj, n, dist, prev, visited, order', count', pq, u);
        next := RelaxFirst(q, s1, u, |adj[u]|);
      }
    }
    if !found && next.queue == [] {
      Exhausted(q, next);
    }
  }

  /**
   * The set-up of dijkstraInternal: every distance Infinity, no
   * predecessors, nothing visited, the counter at zero, then dist[start] = 0
   * and the start queued with priority 0.
   */
  method Start(ghost q: Query, n: nat, start: nat)
    returns (dist: array<Dist>, prev: array<Option<nat>>, visited: array<bool>, ghost order: seq<nat>,
             visitedNodesCount: nat, pq: PQ.PriorityQueue, ghost cur: State)
    requires q.n == n && q.start == start && start < n && q.end < n
    ensures fresh(dist) && fresh(prev) && fresh(visited) && fresh(pq)
    ensures dist.Length == n && prev.Length == n && visited.Length == n && |order| == n && pq.Valid()
    ensures cur == State(dist[..], prev[..], visited[..], order, visitedNodesCount, pq.items) && Inv(q, cur)
    ensures dist[start] == Finite(0.0) && visitedNodesCount == 0 && pq.items == [PQ.Entry(start, 0.0)]
  {
    dist := new Dist[n](_ => Infinity);
    prev := new Option<nat>[n](_ => None);
    visited := new bool[n](_ => false);
    order := seq(n, _ => 0);
    visitedNodesCount := 0;
    dist[start] := Finite(0.0);
    pq := new PQ.PriorityQueue();
    pq.Enqueue(start, 0.0);
    cur := State(dist[..], prev[..], visited[..], order, visitedNodesCount, pq.items);
    Initial(q, cur);
  }

  /**
   * The body of dijkstraInternal up to the walk back: the arrays dist, prev
   * and visited and the counter are the page's, the queue is
   * seeded with the start, and the `while (!pq.isEmpty())` loop runs until
   * the target is taken off the queue or the queue runs dry. order is a
   * ghost record of when each node was visited, which is what makes the
   * walk back along prev terminate; cur is the whole search state as a
   * value, and reachedEnd says which way the loop ended.
   */
  method Search(ghost q: Query, n: nat, adj: Adjacency, start: nat, end: nat)
    returns (dist: array<Dist>, prev: array<Option<nat>>, visitedNodesCount: nat, ghost cur: State, ghost reachedEnd: bool)
    requires q == Query(adj, n, start, end) && !Refused(n, adj, start, end) && NonNegative(adj)
    ensures dist.Length == n && prev.Length == n
    ensures cur.dist == dist[..] && cur.prev == prev[..] && cur.count == visitedNodesCount
    ensures dist[start] == Finite(0.0)
    ensures reachedEnd ==> && Reconstructible(q, cur) && cur.visited[end] && EndSettled(q, cur.dist)
                           && 1 <= visitedNodesCount <= n && (start == end ==> visitedNodesCount == 1)
    ensures !reachedEnd ==> dist[end] == Infinity && !Reachable(adj, n, start, end)
  {
    var visited, pq;
    ghost var order;
    dist, prev, visited, order, visitedNodesCount, pq, cur := Start(q, n, start);
    while !pq.IsEmpty()
      invariant |order| == n
      invariant cur == State(dist[..], prev[..], visited[..], order, visitedNodesCount, pq.items)
      invariant Inv(q, cur)
      invariant cur.queue == [] ==> dist[end] == Infinity && !Reachable(adj, n, start, end)
      decreases n - visitedNodesCount, |pq.items|
    {
      var found;
      found, order, visitedNodesCount, cur := SearchStep(q, adj, n, end, dist, prev, visited, order, visitedNodesCount, pq, cur);
      if found {
        reachedEnd := true;
        return;
      }
    }
    reachedEnd := false;
  }

  /**
   * dijkstraInternal: refuses an empty graph or an out-of-range endpoint,
   * runs the search, and, when the target was reached, walks back along
   * prev to produce the route.
   */
  method Dijkstra(n: nat, adj: Adjacency, start: nat, end: nat) returns (r: Option<PathResult>)
    requires NonNegative(adj)
    ensures Refused(n, adj, start, end) ==> r == None
    ensures !Refused(n, adj, start, end) ==> (r.Some? <==> Reachable(adj, n, start, end))
    ensures r.Some? ==> ShortestWalk(adj, n, start, end, r.value.path, r.value.distance)
    ensures r.Some? ==> 1 <= r.value.visitedNodesCount <= n
    ensures !Refused(n, adj, start, end) && start == end ==> r == Some(PathResult(0.0, [start], 1))
  {
    if n == 0 || |adj| == 0 || start >= n || end >= n {
      return None;
    }
    ghost var q := Query(adj, n, start, end);
    var dist, prev, visitedNodesCount, cur, reachedEnd := Search(q, n, adj, start, end);
    if dist[end] == Infinity {
      return None;
    }
    var path := WalkBack(q, cur, end, prev[..]);
    ghost var ws := PrevChainIsWalk(q, cur.dist, cur.prev, cur.visited, cur.order, path);
    assert IsWalk(adj, n, path, ws) && path[0] == start && path[|path| - 1] == end;
    r := Some(PathResult(dist[end].value, path, visitedNodesCount));
  }
}
