/**
 * The invariants of dijkstraInternal's search loop, stated over a snapshot
 * of its arrays (dist, prev, visited), a ghost visit order, the visited
 * counter and the queue, together with the lemmas that carry them across
 * one step of the loop.
 */
module SearchState {
  import opened Options
  import opened RoadGraph
  import PQ = PriorityQueues

  /** A tentative distance; Infinity is the "unreached" value and exceeds every finite one. */
  datatype Dist = Infinity | Finite(value: real)

  /** a < b, with Infinity greater than every finite distance. */
  predicate Less(a: Dist, b: Dist) {
    a.Finite? && (b.Infinity? || a.value < b.value)
  }

  /** The fixed inputs of one search: the adjacency list, the node count and the two indices. */
  datatype Query = Query(adj: Adjacency, n: nat, start: nat, end: nat)

  /** A snapshot of the search: dist, prev, visited, the (ghost) visit order, the counter and the queue. */
  datatype State = State(dist: seq<Dist>, prev: seq<Option<nat>>, visited: seq<bool>,
                         order: seq<nat>, count: nat, queue: seq<PQ.Entry>)

  /** The number of visited nodes. */
  function CountTrue(s: seq<bool>): (c: nat)
    ensures c <= |s|
  {
    if s == [] then 0 else CountTrue(s[..|s| - 1]) + (if s[|s| - 1] then 1 else 0)
  }

  /** Marking an unvisited node visited adds one to the count. */
  lemma {:induction false} CountTrueMark(s: seq<bool>, u: nat)
    requires u < |s| && !s[u]
    ensures CountTrue(s[u := true]) == CountTrue(s) + 1
  {
    var s' := s[u := true];
    if u < |s| - 1 {
      assert s'[..|s'| - 1] == s[..|s| - 1][u := true];
      CountTrueMark(s[..|s| - 1], u);
    } else {
      assert s'[..|s'| - 1] == s[..|s| - 1];
    }
  }

  ghost predicate Shape(q: Query, s: State) {
    && q.start < q.n && q.end < q.n
    && |s.dist| == q.n && |s.prev| == q.n && |s.visited| == q.n && |s.order| == q.n
  }

  /*
   * Each invariant below reads only the arrays it is about, so that a step
   * that leaves an array alone leaves the invariants over it untouched.
   */

  /** The start keeps distance 0 and never gets a predecessor. */
  ghost predicate StartFixed(q: Query, dist: seq<Dist>, prev: seq<Option<nat>>)
    requires q.start < |dist| == |prev|
  {
    dist[q.start] == Finite(0.0) && prev[q.start] == None
  }

  ghost predicate FiniteNonNegative(dist: seq<Dist>) {
    forall v :: 0 <= v < |dist| && dist[v].Finite? ==> dist[v].value >= 0.0
  }

  /** A node other than the start has a predecessor exactly when it has been reached. */
  ghost predicate PrevIffReached(q: Query, dist: seq<Dist>, prev: seq<Option<nat>>)
    requires |dist| == |prev|
  {
    forall v :: 0 <= v < |dist| ==> (prev[v].Some? <==> dist[v].Finite? && v != q.start)
  }

  /**
   * The predecessor u of v was visited, and v's distance is u's distance plus
   * the weight of an edge u -> v; if v is visited too, u was visited earlier.
   */
  ghost predicate PrevLink(q: Query, dist: seq<Dist>, prev: seq<Option<nat>>, visited: seq<bool>, order: seq<nat>, v: nat)
    requires |dist| == |prev| == |visited| == |order| && v < |dist| && prev[v].Some?
  {
    var u := prev[v].value;
    && u < |dist| && visited[u] && dist[u].Finite? && dist[v].Finite?
    && HasEdge(q.adj, u, v, dist[v].value - dist[u].value)
    && (visited[v] ==> order[u] < order[v])
  }

  ghost predicate PrevLinks(q: Query, dist: seq<Dist>, prev: seq<Option<nat>>, visited: seq<bool>, order: seq<nat>)
    requires |dist| == |prev| == |visited| == |order|
  {
    forall v {:trigger PrevLink(q, dist, prev, visited, order, v)} ::
      0 <= v < |dist| && prev[v].Some? ==> PrevLink(q, dist, prev, visited, order, v)
  }

  /** Visited nodes are reached and were visited before the current count. */
  ghost predicate VisitedReached(dist: seq<Dist>, visited: seq<bool>, order: seq<nat>, count: nat)
    requires |dist| == |visited| == |order|
  {
    forall v :: 0 <= v < |dist| && visited[v] ==> dist[v].Finite? && order[v] < count
  }

  /** What path reconstruction needs from the arrays. */
  ghost predicate Reconstructible(q: Query, s: State) {
    && Shape(q, s)
    && StartFixed(q, s.dist, s.prev)
    && PrevIffReached(q, s.dist, s.prev)
    && PrevLinks(q, s.dist, s.prev, s.visited, s.order)
    && VisitedReached(s.dist, s.visited, s.order, s.count)
  }

  /** The entry names a reached node and is its current distance or a stale, larger one. */
  ghost predicate EntrySound(dist: seq<Dist>, e: PQ.Entry) {
    e.element < |dist| && dist[e.element].Finite? && dist[e.element].value <= e.priority
  }

  ghost predicate QueueSound(dist: seq<Dist>, queue: seq<PQ.Entry>) {
    forall i :: 0 <= i < |queue| ==> EntrySound(dist, queue[i])
  }

  /** Every reached, unvisited node has an entry carrying its current distance. */
  ghost predicate QueueComplete(dist: seq<Dist>, visited: seq<bool>, queue: seq<PQ.Entry>)
    requires |dist| == |visited|
  {
    forall v :: 0 <= v < |dist| && dist[v].Finite? && !visited[v] ==> PQ.Entry(v, dist[v].value) in queue
  }

  /** Visited nodes are never farther than the head of the queue (and so than anything queued). */
  ghost predicate VisitedBelowQueue(dist: seq<Dist>, visited: seq<bool>, queue: seq<PQ.Entry>)
    requires |dist| == |visited|
  {
    queue != [] ==> forall v :: 0 <= v < |dist| && visited[v] ==> dist[v].Finite? && dist[v].value <= queue[0].priority
  }

  /** Until the start is visited, nothing has been visited and the queue is the seed entry. */
  ghost predicate StartFirst(q: Query, visited: seq<bool>, count: nat, queue: seq<PQ.Entry>)
    requires q.start < |visited|
  {
    !visited[q.start] ==> count == 0 && queue == [PQ.Entry(q.start, 0.0)]
  }

  /** The k-th edge of x, if it leads to a node, has been relaxed. */
  ghost predicate EdgeRelaxed(q: Query, dist: seq<Dist>, x: nat, k: nat)
    requires x < |dist|
  {
    x < |q.adj| && k < |q.adj[x]| && q.adj[x][k].node < |dist| ==>
      && dist[x].Finite? && dist[q.adj[x][k].node].Finite?
      && dist[q.adj[x][k].node].value <= dist[x].value + q.adj[x][k].weight
  }

  /** Every edge out of a visited node is relaxed, except the edges of u from the m-th on. */
  ghost predicate RelaxedExcept(q: Query, dist: seq<Dist>, visited: seq<bool>, u: nat, m: nat)
    requires |dist| == |visited|
  {
    forall x: nat, k: nat :: x < |dist| && visited[x] && (x == u ==> k < m) ==> EdgeRelaxed(q, dist, x, k)
  }

  ghost predicate Relaxed(q: Query, dist: seq<Dist>, visited: seq<bool>)
    requires |dist| == |visited|
  {
    forall x: nat, k: nat :: x < |dist| && visited[x] ==> EdgeRelaxed(q, dist, x, k)
  }

  /** The queue-related part of the invariant. */
  ghost predicate QueueInv(q: Query, s: State)
    requires Shape(q, s)
  {
    && QueueSound(s.dist, s.queue)
    && QueueComplete(s.dist, s.visited, s.queue)
    && VisitedBelowQueue(s.dist, s.visited, s.queue)
    && PQ.Sorted(s.queue)
    && StartFirst(q, s.visited, s.count, s.queue)
  }

  ghost predicate Core(q: Query, s: State) {
    && Reconstructible(q, s)
    && FiniteNonNegative(s.dist)
    && s.count == CountTrue(s.visited)
    && QueueInv(q, s)
    && !s.visited[q.end]
  }

  /** The invariant of the search loop. */
  ghost predicate Inv(q: Query, s: State) {
    Core(q, s) && Relaxed(q, s.dist, s.visited)
  }

  /** The invariant while the edges of the just-visited node u are being relaxed; m of them are done. */
  ghost predicate Relaxing(q: Query, s: State, u: nat, m: nat) {
    && Core(q, s)
    && u < q.n && s.visited[u]
    && (forall x :: 0 <= x < q.n && s.visited[x] ==> s.dist[x].value <= s.dist[u].value)
    && RelaxedExcept(q, s.dist, s.visited, u, m)
  }

  /** The state right after dist[start] := 0 and the seeding enqueue. */
  lemma Initial(q: Query, s: State)
    requires Shape(q, s)
    requires forall v :: 0 <= v < q.n ==> s.dist[v] == (if v == q.start then Finite(0.0) else Infinity)
    requires forall v :: 0 <= v < q.n ==> s.prev[v] == None && !s.visited[v]
    requires s.count == 0 && s.queue == [PQ.Entry(q.start, 0.0)]
    ensures Inv(q, s)
  {
    AllFalseCount(s.visited);
  }

  lemma {:induction false} AllFalseCount(t: seq<bool>)
    requires forall i :: 0 <= i < |t| ==> !t[i]
    ensures CountTrue(t) == 0
  {
    if t != [] {
      AllFalseCount(t[..|t| - 1]);
    }
  }

  /** The tail of a sorted queue is sorted and holds only entries of the queue. */
  lemma SortedTail(queue: seq<PQ.Entry>)
    requires PQ.Sorted(queue) && queue != []
    ensures PQ.Sorted(queue[1..])
    ensures forall e :: e in queue[1..] ==> e in queue
    ensures forall e :: e in queue && e != queue[0] ==> e in queue[1..]
  {
    forall i, j | 0 <= i < j < |queue[1..]| ensures queue[1..][i].priority <= queue[1..][j].priority {
      assert queue[1..][i] == queue[i + 1] && queue[1..][j] == queue[j + 1];
    }
    assert queue == [queue[0]] + queue[1..];
  }

  /** No entry of a sorted queue has a smaller priority than the head. */
  lemma HeadLeast(queue: seq<PQ.Entry>, e: PQ.Entry)
    requires PQ.Sorted(queue) && e in queue
    ensures queue[0].priority <= e.priority
  {
    var i :| 0 <= i < |queue| && queue[i] == e;
    assert i == 0 || queue[0].priority <= queue[i].priority;
  }

  lemma SoundMember(dist: seq<Dist>, queue: seq<PQ.Entry>, e: PQ.Entry)
    requires QueueSound(dist, queue) && e in queue
    ensures EntrySound(dist, e)
  {
    var i :| 0 <= i < |queue| && queue[i] == e;
  }

  /** Popping an entry of an already visited node (lazy deletion) keeps the invariant. */
  lemma PopStale(q: Query, s: State)
    requires Inv(q, s) && s.queue != []
    requires s.queue[0].element < q.n && s.visited[s.queue[0].element]
    ensures Inv(q, s.(queue := s.queue[1..]))
  {
    SortedTail(s.queue);
    var s' := s.(queue := s.queue[1..]);
    assert QueueSound(s.dist, s'.queue) by {
      forall i | 0 <= i < |s'.queue| ensures EntrySound(s.dist, s'.queue[i]) {
        assert s'.queue[i] == s.queue[i + 1];
      }
    }
    assert QueueComplete(s.dist, s.visited, s'.queue) by {
      forall v | 0 <= v < q.n && s.dist[v].Finite? && !s.visited[v] ensures PQ.Entry(v, s.dist[v].value) in s'.queue {
        assert PQ.Entry(v, s.dist[v].value) in s.queue;
      }
    }
    if s'.queue != [] {
      assert s'.queue[0] == s.queue[1];
    }
  }

  /**
   * The head of the queue, when its node is unvisited, carries that node's
   * current distance, which no visited node and no queued entry undercuts.
   */
  lemma PopFresh(q: Query, s: State)
    requires Inv(q, s) && s.queue != []
    requires !s.visited[s.queue[0].element]
    ensures var u := s.queue[0].element;
      && u < q.n && s.dist[u].Finite? && s.queue[0].priority == s.dist[u].value
      && (forall x :: 0 <= x < q.n && s.visited[x] ==> s.dist[x].value <= s.dist[u].value)
      && (forall e :: e in s.queue ==> s.dist[u].value <= e.priority)
  {
    var u := s.queue[0].element;
    assert EntrySound(s.dist, s.queue[0]);
    HeadLeast(s.queue, PQ.Entry(u, s.dist[u].value));
    forall e | e in s.queue ensures s.dist[u].value <= e.priority {
      HeadLeast(s.queue, e);
    }
  }

  lemma PrevLinksAfterVisit(q: Query, dist: seq<Dist>, prev: seq<Option<nat>>, visited: seq<bool>, order: seq<nat>, count: nat, u: nat)
    requires |dist| == |prev| == |visited| == |order| && u < |dist| && !visited[u]
    requires PrevLinks(q, dist, prev, visited, order) && VisitedReached(dist, visited, order, count)
    ensures PrevLinks(q, dist, prev, visited[u := true], order[u := count])
    ensures VisitedReached(dist, visited[u := true], order[u := count], count + 1) || !dist[u].Finite?
  {
    forall v | 0 <= v < |dist| && prev[v].Some? ensures PrevLink(q, dist, prev, visited[u := true], order[u := count], v) {
      assert PrevLink(q, dist, prev, visited, order, v);
    }
  }

  lemma QueueAfterVisit(q: Query, s: State, s': State)
    requires Shape(q, s) && QueueInv(q, s) && s.queue != []
    requires s.queue[0].element < q.n && !s.visited[s.queue[0].element]
    requires var u := s.queue[0].element;
      s' == State(s.dist, s.prev, s.visited[u := true], s.order[u := s.count], s.count + 1, s.queue[1..])
    requires s.dist[s.queue[0].element] == Finite(s.queue[0].priority)
    ensures Shape(q, s') && QueueInv(q, s')
  {
    var u := s.queue[0].element;
    SortedTail(s.queue);
    assert QueueSound(s.dist, s'.queue) by {
      forall i | 0 <= i < |s'.queue| ensures EntrySound(s.dist, s'.queue[i]) {
        assert s'.queue[i] == s.queue[i + 1];
      }
    }
    assert QueueComplete(s.dist, s'.visited, s'.queue) by {
      forall v | 0 <= v < q.n && s.dist[v].Finite? && !s'.visited[v] ensures PQ.Entry(v, s.dist[v].value) in s'.queue {
        assert PQ.Entry(v, s.dist[v].value) in s.queue;
      }
    }
    if s'.queue != [] {
      assert s'.queue[0] == s.queue[1];
    }
  }

  /** Marking the fresh head u visited: reconstruction facts hold, and relaxation of u can begin. */
  lemma MarkVisited(q: Query, s: State, s': State)
    requires Inv(q, s) && s.queue != []
    requires !s.visited[s.queue[0].element]
    requires var u := s.queue[0].element;
      s' == State(s.dist, s.prev, s.visited[u := true], s.order[u := s.count], s.count + 1, s.queue[1..])
    ensures Reconstructible(q, s') && s'.count == CountTrue(s'.visited)
    ensures s'.visited[q.start]
    ensures !s.visited[q.start] ==> s'.count == 1
    ensures s.queue[0].element != q.end ==> Relaxing(q, s', s.queue[0].element, 0)
  {
    var u := s.queue[0].element;
    PopFresh(q, s);
    CountTrueMark(s.visited, u);
    PrevLinksAfterVisit(q, s.dist, s.prev, s.visited, s.order, s.count, u);
    if !s.visited[q.start] {
      assert s.queue[0] == PQ.Entry(q.start, 0.0);
    }
    if u != q.end {
      QueueAfterVisit(q, s, s');
      forall x: nat, k: nat | x < q.n && s'.visited[x] && (x == u ==> k < 0) ensures EdgeRelaxed(q, s.dist, x, k) {
        assert EdgeRelaxed(q, s.dist, x, k);
      }
    }
  }

  lemma PrevAfterRelax(q: Query, dist: seq<Dist>, prev: seq<Option<nat>>, visited: seq<bool>, order: seq<nat>,
                       u: nat, k: nat, alt: real)
    requires |dist| == |prev| == |visited| == |order| && q.start < |dist|
    requires PrevIffReached(q, dist, prev) && PrevLinks(q, dist, prev, visited, order)
    requires u < |dist| && visited[u] && dist[u].Finite? && u < |q.adj| && k < |q.adj[u]|
    requires var v := q.adj[u][k].node;
      v < |dist| && v != q.start && !visited[v] && alt == dist[u].value + q.adj[u][k].weight
    ensures var v := q.adj[u][k].node;
      && PrevIffReached(q, dist[v := Finite(alt)], prev[v := Some(u)])
      && PrevLinks(q, dist[v := Finite(alt)], prev[v := Some(u)], visited, order)
  {
    var v := q.adj[u][k].node;
    var dist', prev' := dist[v := Finite(alt)], prev[v := Some(u)];
    forall x | 0 <= x < |dist| && prev'[x].Some? ensures PrevLink(q, dist', prev', visited, order, x) {
      if x == v {
        assert q.adj[u][k] == Edge(v, dist'[v].value - dist'[u].value);
      } else {
        assert PrevLink(q, dist, prev, visited, order, x);
      }
    }
  }

  /** Every entry of the queue after the insertion is an old one or the new one. */
  lemma InsertedMembers(queue: seq<PQ.Entry>, queue': seq<PQ.Entry>, x: PQ.Entry)
    requires multiset(queue') == multiset(queue) + multiset{x}
    ensures x in queue'
    ensures forall e :: e in queue' ==> e in queue || e == x
    ensures forall e :: e in queue ==> e in queue'
  {
    assert x in multiset(queue');
    forall e | e in queue' ensures e in queue || e == x {
      assert e in multiset(queue');
    }
    forall e | e in queue ensures e in queue' {
      assert e in multiset(queue);
      assert e in multiset(queue');
    }
  }

  lemma QueueSoundAfterRelax(dist: seq<Dist>, queue: seq<PQ.Entry>, v: nat, alt: real, queue': seq<PQ.Entry>)
    requires v < |dist| && QueueSound(dist, queue) && Less(Finite(alt), dist[v])
    requires forall e :: e in queue' ==> e in queue || e == PQ.Entry(v, alt)
    ensures QueueSound(dist[v := Finite(alt)], queue')
  {
    forall i | 0 <= i < |queue'| ensures EntrySound(dist[v := Finite(alt)], queue'[i]) {
      assert queue'[i] in queue';
      if queue'[i] != PQ.Entry(v, alt) {
        SoundMember(dist, queue, queue'[i]);
      }
    }
  }

  lemma QueueCompleteAfterRelax(dist: seq<Dist>, visited: seq<bool>, queue: seq<PQ.Entry>, v: nat, alt: real,
                                queue': seq<PQ.Entry>)
    requires |dist| == |visited| && v < |dist| && QueueComplete(dist, visited, queue)
    requires PQ.Entry(v, alt) in queue' && forall e :: e in queue ==> e in queue'
    ensures QueueComplete(dist[v := Finite(alt)], visited, queue')
  {
    forall x | 0 <= x < |dist| && dist[v := Finite(alt)][x].Finite? && !visited[x]
      ensures PQ.Entry(x, dist[v := Finite(alt)][x].value) in queue'
    {
      if x != v {
        assert PQ.Entry(x, dist[x].value) in queue;
      }
    }
  }

  lemma VisitedBelowAfterRelax(dist: seq<Dist>, visited: seq<bool>, queue: seq<PQ.Entry>, v: nat, alt: real,
                               queue': seq<PQ.Entry>)
    requires |dist| == |visited| && v < |dist| && !visited[v]
    requires VisitedBelowQueue(dist, visited, queue) && PQ.Sorted(queue)
    requires forall x :: 0 <= x < |dist| && visited[x] ==> dist[x].Finite? && dist[x].value <= alt
    requires forall e :: e in queue' ==> e in queue || e == PQ.Entry(v, alt)
    ensures VisitedBelowQueue(dist[v := Finite(alt)], visited, queue')
  {
    if queue' != [] {
      assert queue'[0] in queue';
      if queue'[0] != PQ.Entry(v, alt) {
        HeadLeast(queue, queue'[0]);
      }
    }
  }

  /** The parts of the invariant over dist alone survive an improvement of an unvisited node's distance. */
  lemma DistAfterRelax(q: Query, dist: seq<Dist>, visited: seq<bool>, order: seq<nat>, count: nat, u: nat, v: nat, alt: real)
    requires |dist| == |visited| == |order| && u < |dist| && v < |dist| && visited[u] && !visited[v]
    requires dist[u].Finite? && FiniteNonNegative(dist) && VisitedReached(dist, visited, order, count) && alt >= 0.0
    requires forall x :: 0 <= x < |dist| && visited[x] ==> dist[x].value <= dist[u].value
    ensures FiniteNonNegative(dist[v := Finite(alt)])
    ensures VisitedReached(dist[v := Finite(alt)], visited, order, count)
    ensures forall x :: 0 <= x < |dist| && visited[x] ==> dist[v := Finite(alt)][x].value <= dist[v := Finite(alt)][u].value
  {
  }

  /** After improving dist[v] through the k-th edge of u, edges up to and including that one are relaxed. */
  lemma RelaxedAfterRelax(q: Query, dist: seq<Dist>, visited: seq<bool>, u: nat, k: nat, alt: real)
    requires |dist| == |visited| && u < |dist| && visited[u] && dist[u].Finite?
    requires u < |q.adj| && k < |q.adj[u]| && q.adj[u][k].node < |dist| && !visited[q.adj[u][k].node]
    requires alt == dist[u].value + q.adj[u][k].weight && Less(Finite(alt), dist[q.adj[u][k].node])
    requires RelaxedExcept(q, dist, visited, u, k)
    ensures RelaxedExcept(q, dist[q.adj[u][k].node := Finite(alt)], visited, u, k + 1)
  {
    var v := q.adj[u][k].node;
    var dist' := dist[v := Finite(alt)];
    forall x: nat, j: nat | x < |dist| && visited[x] && (x == u ==> j < k + 1) ensures EdgeRelaxed(q, dist', x, j) {
      if !(x == u && j == k) {
        assert EdgeRelaxed(q, dist, x, j);
      }
    }
  }

  /** Relaxing the k-th edge u -> v of u when alt = dist[u] + w improves dist[v]. */
  lemma RelaxImproves(q: Query, s: State, u: nat, k: nat, s': State)
    requires NonNegative(q.adj)
    requires Relaxing(q, s, u, k) && u < |q.adj| && k < |q.adj[u]|
    requires var v, w := q.adj[u][k].node, q.adj[u][k].weight;
      && v < q.n && s.dist[u].Finite?
      && Less(Finite(s.dist[u].value + w), s.dist[v])
      && s' == s.(dist := s.dist[v := Finite(s.dist[u].value + w)], prev := s.prev[v := Some(u)], queue := s'.queue)
      && PQ.Sorted(s'.queue)
      && multiset(s'.queue) == multiset(s.queue) + multiset{PQ.Entry(v, s.dist[u].value + w)}
    ensures Relaxing(q, s', u, k + 1)
  {
    var v, w := q.adj[u][k].node, q.adj[u][k].weight;
    var alt := s.dist[u].value + w;
    assert w >= 0.0 by {
      assert q.adj[u][k] in q.adj[u];
    }
    assert !s.visited[v];
    PrevAfterRelax(q, s.dist, s.prev, s.visited, s.order, u, k, alt);
    InsertedMembers(s.queue, s'.queue, PQ.Entry(v, alt));
    QueueSoundAfterRelax(s.dist, s.queue, v, alt, s'.queue);
    QueueCompleteAfterRelax(s.dist, s.visited, s.queue, v, alt, s'.queue);
    VisitedBelowAfterRelax(s.dist, s.visited, s.queue, v, alt, s'.queue);
    DistAfterRelax(q, s.dist, s.visited, s.order, s.count, u, v, alt);
    RelaxedAfterRelax(q, s.dist, s.visited, u, k, alt);
  }

  /** Relaxing the k-th edge of u when it leads past the node list or does not improve. */
  lemma RelaxKeeps(q: Query, s: State, u: nat, k: nat)
    requires Relaxing(q, s, u, k) && u < |q.adj| && k < |q.adj[u]|
    requires var v, w := q.adj[u][k].node, q.adj[u][k].weight;
      v < q.n ==> s.dist[u].Finite? && !Less(Finite(s.dist[u].value + w), s.dist[v])
    ensures Relaxing(q, s, u, k + 1)
  {
    forall x: nat, j: nat | x < q.n && s.visited[x] && (x == u ==> j < k + 1) ensures EdgeRelaxed(q, s.dist, x, j) {
      if !(x == u && j == k) {
        assert EdgeRelaxed(q, s.dist, x, j);
      }
    }
  }

  /** The arrays a relaxation step may index: what RelaxEdge needs of its state. */
  ghost predicate CanRelax(q: Query, s: State, u: nat) {
    |s.dist| == q.n && |s.prev| == q.n && u < q.n && u < |q.adj| && s.dist[u].Finite?
  }

  /**
   * One pass of the inner loop over the k-th edge of u: if it leads to a
   * node of the list and dist[u] + weight beats the node's distance, that
   * distance and predecessor are updated and the node is queued.
   */
  function RelaxEdge(q: Query, s: State, u: nat, k: nat): (r: State)
    requires CanRelax(q, s, u) && k < |q.adj[u]|
    ensures CanRelax(q, r, u)
    ensures r.visited == s.visited && r.order == s.order && r.count == s.count
  {
    var e := q.adj[u][k];
    var alt := s.dist[u].value + e.weight;
    if e.node < q.n && Less(Finite(alt), s.dist[e.node]) then
      s.(dist := s.dist[e.node := Finite(alt)], prev := s.prev[e.node := Some(u)],
         queue := PQ.Insert(s.queue, PQ.Entry(e.node, alt)))
    else s
  }

  /** The state after the first k passes of the inner loop. */
  function RelaxFirst(q: Query, s: State, u: nat, k: nat): (r: State)
    requires CanRelax(q, s, u) && k <= |q.adj[u]|
    ensures CanRelax(q, r, u)
    ensures r.visited == s.visited && r.order == s.order && r.count == s.count
  {
    if k == 0 then s else RelaxEdge(q, RelaxFirst(q, s, u, k - 1), u, k - 1)
  }

  /** A pass over an improving edge keeps the relaxation invariant, one more edge done. */
  lemma RelaxEdgeImproves(q: Query, s: State, u: nat, k: nat)
    requires NonNegative(q.adj) && Relaxing(q, s, u, k) && CanRelax(q, s, u) && k < |q.adj[u]|
    requires q.adj[u][k].node < q.n && Less(Finite(s.dist[u].value + q.adj[u][k].weight), s.dist[q.adj[u][k].node])
    ensures Relaxing(q, RelaxEdge(q, s, u, k), u, k + 1)
  {
    var e := PQ.Entry(q.adj[u][k].node, s.dist[u].value + q.adj[u][k].weight);
    PQ.InsertSorted(s.queue, e);
    PQ.InsertMultiset(s.queue, e);
    RelaxImproves(q, s, u, k, RelaxEdge(q, s, u, k));
  }

  /** Each pass of the inner loop keeps the relaxation invariant, one more edge done. */
  lemma RelaxEdgeKeeps(q: Query, s: State, u: nat, k: nat)
    requires NonNegative(q.adj) && Relaxing(q, s, u, k) && CanRelax(q, s, u) && k < |q.adj[u]|
    ensures Relaxing(q, RelaxEdge(q, s, u, k), u, k + 1)
  {
    var e := q.adj[u][k];
    if e.node < q.n && Less(Finite(s.dist[u].value + e.weight), s.dist[e.node]) {
      RelaxEdgeImproves(q, s, u, k);
    } else {
      assert RelaxEdge(q, s, u, k) == s;
      RelaxKeeps(q, s, u, k);
    }
  }

  lemma RelaxFirstStep(q: Query, s: State, u: nat, k: nat)
    requires CanRelax(q, s, u) && k < |q.adj[u]|
    ensures RelaxFirst(q, s, u, k + 1) == RelaxEdge(q, RelaxFirst(q, s, u, k), u, k)
  {
  }

  /** The same step, stated over RelaxFirst. */
  lemma RelaxFirstStepKeeps(q: Query, s: State, u: nat, k: nat)
    requires NonNegative(q.adj) && CanRelax(q, s, u) && k < |q.adj[u]|
    requires Relaxing(q, RelaxFirst(q, s, u, k), u, k)
    ensures Relaxing(q, RelaxFirst(q, s, u, k + 1), u, k + 1)
  {
    RelaxFirstStep(q, s, u, k);
    RelaxEdgeKeeps(q, RelaxFirst(q, s, u, k), u, k);
  }

  /** The inner loop keeps the relaxation invariant throughout. */
  lemma {:induction false} RelaxFirstKeeps(q: Query, s: State, u: nat, k: nat)
    requires NonNegative(q.adj) && Relaxing(q, s, u, 0) && CanRelax(q, s, u) && k <= |q.adj[u]|
    ensures Relaxing(q, RelaxFirst(q, s, u, k), u, k)
  {
    if k > 0 {
      RelaxFirstKeeps(q, s, u, k - 1);
      RelaxFirstStepKeeps(q, s, u, k - 1);
    }
  }

  /** Once every edge of u is relaxed (or u has no list at all), the loop invariant holds again. */
  lemma DoneRelaxing(q: Query, s: State, u: nat, m: nat)
    requires Relaxing(q, s, u, m)
    requires u < |q.adj| ==> m >= |q.adj[u]|
    ensures Inv(q, s)
  {
    forall x: nat, k: nat | x < q.n && s.visited[x] ensures EdgeRelaxed(q, s.dist, x, k) {
      if x != u || k < m {
        assert EdgeRelaxed(q, s.dist, x, k);
      }
    }
  }

  /** The distance recorded for the target is at most the weight of every walk from the start to it. */
  ghost predicate EndSettled(q: Query, dist: seq<Dist>)
    requires q.end < |dist|
  {
    && dist[q.end].Finite?
    && forall p, ws :: IsWalk(q.adj, q.n, p, ws) && p[0] == q.start && p[|p| - 1] == q.end ==> dist[q.end].value <= Sum(ws)
  }

  /**
   * One visit of the search loop: the fresh head u is marked visited. If u
   * is the target its distance is already the least over all walks;
   * otherwise relaxing every edge of u restores the loop invariant.
   */
  lemma VisitStep(q: Query, s: State, s1: State)
    requires NonNegative(q.adj) && Inv(q, s) && s.queue != []
    requires !s.visited[s.queue[0].element]
    requires var u := s.queue[0].element;
      s1 == State(s.dist, s.prev, s.visited[u := true], s.order[u := s.count], s.count + 1, s.queue[1..])
    ensures var u := s.queue[0].element;
      && u < q.n && s.dist[u].Finite? && s1.count <= q.n
      && Reconstructible(q, s1) && s1.visited[q.start]
      && (!s.visited[q.start] ==> s1.count == 1)
      && (u == q.end ==> EndSettled(q, s1.dist))
      && (u != q.end && u >= |q.adj| ==> Inv(q, s1))
      && (u != q.end && u < |q.adj| ==> CanRelax(q, s1, u) && Inv(q, RelaxFirst(q, s1, u, |q.adj[u]|)))
  {
    var u := s.queue[0].element;
    PopFresh(q, s);
    MarkVisited(q, s, s1);
    if u == q.end {
      forall p, ws | IsWalk(q.adj, q.n, p, ws) && p[0] == q.start && p[|p| - 1] == q.end
        ensures s1.dist[q.end].value <= Sum(ws)
      {
        CutBound(q, s, p, ws);
      }
    } else if u >= |q.adj| {
      DoneRelaxing(q, s1, u, 0);
    } else {
      RelaxFirstKeeps(q, s1, u, |q.adj[u]|);
      DoneRelaxing(q, RelaxFirst(q, s1, u, |q.adj[u]|), u, |q.adj[u]|);
    }
  }

  /**
   * Along a walk whose nodes other than the last are all visited, relaxed
   * edges bound the distance of the last node by the walk's weight.
   */
  lemma {:induction false} WalkBound(q: Query, dist: seq<Dist>, visited: seq<bool>, p: seq<nat>, ws: seq<real>)
    requires |dist| == |visited| == q.n && Relaxed(q, dist, visited)
    requires IsWalk(q.adj, q.n, p, ws) && dist[p[0]].Finite?
    requires forall i :: 0 <= i < |p| - 1 ==> visited[p[i]]
    ensures dist[p[|p| - 1]].Finite? && dist[p[|p| - 1]].value <= dist[p[0]].value + Sum(ws)
  {
    if |p| > 1 {
      var p', ws' := p[..|p| - 1], ws[..|ws| - 1];
      WalkPrefix(q.adj, q.n, p, ws, |p| - 2);
      assert p[..|p| - 1] == p' && ws[..|p| - 2] == ws';
      WalkBound(q, dist, visited, p', ws');
      var x, y, w := p[|p| - 2], p[|p| - 1], ws[|ws| - 1];
      assert HasEdge(q.adj, x, y, w);
      var k :| 0 <= k < |q.adj[x]| && q.adj[x][k] == Edge(y, w);
      assert EdgeRelaxed(q, dist, x, k);
    }
  }

  /** The first node of p that is not visited. */
  lemma FirstUnvisited(visited: seq<bool>, p: seq<nat>) returns (i: nat)
    requires |p| >= 1 && (forall j :: 0 <= j < |p| ==> p[j] < |visited|) && !visited[p[|p| - 1]]
    ensures i < |p| && !visited[p[i]]
    ensures forall j :: 0 <= j < i ==> visited[p[j]]
  {
    i := 0;
    while visited[p[i]]
      invariant 0 <= i < |p|
      invariant forall j :: 0 <= j < i ==> visited[p[j]]
      decreases |p| - i
    {
      i := i + 1;
    }
  }

  /**
   * The cut argument over the arrays: a walk from the start to an unvisited
   * node leaves the visited set at some reached node, whose distance is at
   * most the walk's weight and which has a queued entry at that distance.
   */
  lemma CutEntry(q: Query, dist: seq<Dist>, visited: seq<bool>, queue: seq<PQ.Entry>, p: seq<nat>, ws: seq<real>)
    returns (e: PQ.Entry)
    requires NonNegative(q.adj) && |dist| == |visited| == q.n
    requires Relaxed(q, dist, visited) && QueueComplete(dist, visited, queue)
    requires IsWalk(q.adj, q.n, p, ws) && dist[p[0]] == Finite(0.0) && !visited[p[|p| - 1]]
    ensures e in queue && e.priority <= Sum(ws)
  {
    var i := FirstUnvisited(visited, p);
    WalkPrefix(q.adj, q.n, p, ws, i);
    WalkBound(q, dist, visited, p[..i + 1], ws[..i]);
    WalkWeightsNonNegative(q.adj, q.n, p, ws);
    SumPrefixAtMost(ws, i);
    e := PQ.Entry(p[i], dist[p[i]].value);
  }

  /**
   * The cut argument: a walk from the start to an unvisited node means the
   * queue is non-empty and its head weighs no more than the walk.
   */
  lemma CutBound(q: Query, s: State, p: seq<nat>, ws: seq<real>)
    requires NonNegative(q.adj) && Inv(q, s)
    requires IsWalk(q.adj, q.n, p, ws) && p[0] == q.start && !s.visited[p[|p| - 1]]
    ensures s.queue != [] && s.queue[0].priority <= Sum(ws)
  {
    var e := CutEntry(q, s.dist, s.visited, s.queue, p, ws);
    HeadLeast(s.queue, e);
  }

  /** While the target is unvisited, a walk to it means the queue still holds an entry. */
  lemma ReachNeedsQueue(q: Query, s: State)
    requires NonNegative(q.adj) && Inv(q, s)
    ensures Reachable(q.adj, q.n, q.start, q.end) ==> s.queue != []
  {
    if Reachable(q.adj, q.n, q.start, q.end) {
      var p, ws :| IsWalk(q.adj, q.n, p, ws) && p[0] == q.start && p[|p| - 1] == q.end;
      CutBound(q, s, p, ws);
    }
  }

  /** When the queue runs dry before the target is visited, the target is unreached and unreachable. */
  lemma Exhausted(q: Query, s: State)
    requires NonNegative(q.adj) && Inv(q, s) && s.queue == []
    ensures s.dist[q.end] == Infinity && !Reachable(q.adj, q.n, q.start, q.end)
  {
    ReachNeedsQueue(q, s);
  }

  /** The differences between consecutive values. */
  function Gaps(vals: seq<real>): (r: seq<real>)
    ensures |r| == if vals == [] then 0 else |vals| - 1
  {
    if |vals| <= 1 then [] else Gaps(vals[..|vals| - 1]) + [vals[|vals| - 1] - vals[|vals| - 2]]
  }

  /** The gaps telescope: they add up to the last value minus the first. */
  lemma {:induction false} GapsSum(vals: seq<real>)
    requires vals != []
    ensures Sum(Gaps(vals)) == vals[|vals| - 1] - vals[0]
  {
    if |vals| > 1 {
      var init := vals[..|vals| - 1];
      var g := Gaps(vals);
      GapsSum(init);
      assert g[..|g| - 1] == Gaps(init);
      assert Sum(g) == Sum(Gaps(init)) + g[|g| - 1];
    }
  }

  lemma {:induction false} GapsAt(vals: seq<real>, i: nat)
    requires i + 1 < |vals|
    ensures Gaps(vals)[i] == vals[i + 1] - vals[i]
  {
    var init := vals[..|vals| - 1];
    if i + 1 < |init| {
      GapsAt(init, i);
    }
  }

  /**
   * A chain of predecessor links between reached nodes is a walk whose
   * weight is the distance gained along it.
   */
  lemma PrevChainIsWalk(q: Query, dist: seq<Dist>, prev: seq<Option<nat>>, visited: seq<bool>, order: seq<nat>, p: seq<nat>)
    returns (ws: seq<real>)
    requires |dist| == |prev| == |visited| == |order| == q.n
    requires PrevLinks(q, dist, prev, visited, order)
    requires |p| >= 1 && forall i :: 0 <= i < |p| ==> p[i] < q.n && dist[p[i]].Finite?
    requires forall i :: 0 <= i < |p| - 1 ==> prev[p[i + 1]] == Some(p[i])
    ensures IsWalk(q.adj, q.n, p, ws)
    ensures Sum(ws) == dist[p[|p| - 1]].value - dist[p[0]].value
  {
    var vals := seq(|p|, i requires 0 <= i < |p| => dist[p[i]].value);
    ws := Gaps(vals);
    GapsSum(vals);
    assert |ws| == |p| - 1;
    forall i | 0 <= i < |ws| ensures HasEdge(q.adj, p[i], p[i + 1], ws[i]) {
      assert prev[p[i + 1]] == Some(p[i]);
      assert PrevLink(q, dist, prev, visited, order, p[i + 1]);
      GapsAt(vals, i);
    }
  }
}
