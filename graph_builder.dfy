/**
 * buildGraphInternal: one adjacency list per node, filled way by way and
 * segment by segment. A segment whose ends are not both node indices is
 * skipped; otherwise the forward edge is added, and the reverse edge with the
 * same weight unless the way is one-way.
 */
module GraphBuilder {
  import opened RoadGraph

  /** The edge weight of a segment; the page uses the Euclidean distance of the planar coordinates. */
  type WeightFn = (Node, Node) -> real

  /** One empty list per node. */
  function EmptyLists(n: nat): (adj: Adjacency)
    ensures |adj| == n && forall u :: 0 <= u < n ==> adj[u] == []
  {
    seq(n, _ => [])
  }

  /** The segments of a way: one between each pair of consecutive indices. */
  function Segments(way: Way): nat {
    if |way.nodes| == 0 then 0 else |way.nodes| - 1
  }

  /** adj after the entries of the segment u -> v have been pushed. */
  function AddSegment(adj: Adjacency, nodes: seq<Node>, u: nat, v: nat, oneway: bool, weight: WeightFn): (r: Adjacency)
    requires |adj| == |nodes|
    ensures |r| == |adj|
  {
    if u < |nodes| && v < |nodes| then
      var w := weight(nodes[u], nodes[v]);
      var a := adj[u := adj[u] + [Edge(v, w)]];
      if oneway then a else a[v := a[v] + [Edge(u, w)]]
    else adj
  }

  /** adj after the first i segments of way have been processed. */
  function AddWay(adj: Adjacency, nodes: seq<Node>, way: Way, i: nat, weight: WeightFn): (r: Adjacency)
    requires |adj| == |nodes| && i <= Segments(way)
    ensures |r| == |adj|
  {
    if i == 0 then adj
    else AddSegment(AddWay(adj, nodes, way, i - 1, weight), nodes, way.nodes[i - 1], way.nodes[i], way.oneway, weight)
  }

  /** The adjacency list built from all of ways. */
  function Build(nodes: seq<Node>, ways: seq<Way>, weight: WeightFn): (adj: Adjacency)
    ensures |adj| == |nodes|
  {
    if ways == [] then EmptyLists(|nodes|)
    else
      var last := ways[|ways| - 1];
      AddWay(Build(nodes, ways[..|ways| - 1], weight), nodes, last, Segments(last), weight)
  }

  /** The graph-building loop of the page. */
  method BuildGraph(nodes: seq<Node>, ways: seq<Way>, weight: WeightFn) returns (adj: Adjacency)
    ensures adj == Build(nodes, ways, weight)
  {
    var newAdj := new seq<Edge>[|nodes|](_ => []);
    assert newAdj[..] == EmptyLists(|nodes|);
    var k := 0;
    while k < |ways|
      invariant 0 <= k <= |ways|
      invariant newAdj.Length == |nodes|
      invariant newAdj[..] == Build(nodes, ways[..k], weight)
    {
      var way := ways[k];
      var ndRefs := way.nodes;
      ghost var before := newAdj[..];
      var i := 0;
      while i < |ndRefs| - 1
        invariant 0 <= i <= Segments(way)
        invariant newAdj.Length == |nodes|
        invariant newAdj[..] == AddWay(before, nodes, way, i, weight)
      {
        var u := ndRefs[i];
        var v := ndRefs[i + 1];
        if u >= |nodes| || v >= |nodes| {
          i := i + 1;
          continue;
        }
        var w := weight(nodes[u], nodes[v]);
        newAdj[u] := newAdj[u] + [Edge(v, w)];
        if !way.oneway {
          newAdj[v] := newAdj[v] + [Edge(u, w)];
        }
        i := i + 1;
      }
      assert ways[..k + 1][..k] == ways[..k];
      k := k + 1;
    }
    assert ways[..k] == ways;
    adj := newAdj[..];
  }

  /** The edge e is pushed onto the list of x by segment i of way. */
  ghost predicate Contributes(nodes: seq<Node>, way: Way, i: nat, x: nat, e: Edge, weight: WeightFn) {
    && i + 1 < |way.nodes|
    && way.nodes[i] < |nodes| && way.nodes[i + 1] < |nodes|
    && var u, v := way.nodes[i], way.nodes[i + 1];
       var w := weight(nodes[u], nodes[v]);
       || (x == u && e == Edge(v, w))
       || (!way.oneway && x == v && e == Edge(u, w))
  }

  /** A segment only appends to the lists of its two ends and leaves every other list alone. */
  lemma AddSegmentAppends(adj: Adjacency, nodes: seq<Node>, u: nat, v: nat, oneway: bool, weight: WeightFn)
    requires |adj| == |nodes|
    ensures var r := AddSegment(adj, nodes, u, v, oneway, weight);
      && (forall x :: 0 <= x < |adj| ==> adj[x] <= r[x])
      && (forall x :: 0 <= x < |adj| && x != u && x != v ==> r[x] == adj[x])
  {
  }

  lemma AddSegmentMembers(adj: Adjacency, nodes: seq<Node>, way: Way, i: nat, weight: WeightFn, x: nat, e: Edge)
    requires |adj| == |nodes| && i + 1 < |way.nodes| && x < |adj|
    ensures e in AddSegment(adj, nodes, way.nodes[i], way.nodes[i + 1], way.oneway, weight)[x]
            <==> e in adj[x] || Contributes(nodes, way, i, x, e, weight)
  {
  }

  lemma {:induction false} AddWayMembers(adj: Adjacency, nodes: seq<Node>, way: Way, i: nat, weight: WeightFn, x: nat, e: Edge)
    requires |adj| == |nodes| && i <= Segments(way) && x < |adj|
    ensures e in AddWay(adj, nodes, way, i, weight)[x]
            <==> e in adj[x] || exists j :: 0 <= j < i && Contributes(nodes, way, j, x, e, weight)
  {
    if i > 0 {
      AddWayMembers(adj, nodes, way, i - 1, weight, x, e);
      AddSegmentMembers(AddWay(adj, nodes, way, i - 1, weight), nodes, way, i - 1, weight, x, e);
    }
  }

  /**
   * The graph holds exactly the edges the segments contribute: e is in the
   * list of x iff some in-range segment u -> v of some way has x == u and
   * e == Edge(v, w), or the way is two-way and x == v and e == Edge(u, w),
   * where w is the weight of nodes u and v.
   */
  lemma {:induction false} BuildMembers(nodes: seq<Node>, ways: seq<Way>, weight: WeightFn, x: nat, e: Edge)
    requires x < |nodes|
    ensures e in Build(nodes, ways, weight)[x]
            <==> exists k, j :: 0 <= k < |ways| && Contributes(nodes, ways[k], j, x, e, weight)
  {
    if ways != [] {
      var init, last := ways[..|ways| - 1], ways[|ways| - 1];
      BuildMembers(nodes, init, weight, x, e);
      AddWayMembers(Build(nodes, init, weight), nodes, last, Segments(last), weight, x, e);
      if exists k, j :: 0 <= k < |ways| && Contributes(nodes, ways[k], j, x, e, weight) {
        var k: nat, j: nat :| 0 <= k < |ways| && Contributes(nodes, ways[k], j, x, e, weight);
        if k < |init| {
          assert init[k] == ways[k];
        } else {
          assert j < Segments(last);
        }
      }
      if exists k, j :: 0 <= k < |init| && Contributes(nodes, init[k], j, x, e, weight) {
        var k: nat, j: nat :| 0 <= k < |init| && Contributes(nodes, init[k], j, x, e, weight);
        assert ways[k] == init[k];
      }
    }
  }

  /**
   * When no way is one-way every edge has its reverse, with the same weight,
   * even if the weight function were not symmetric.
   */
  lemma BidirectionalSymmetric(nodes: seq<Node>, ways: seq<Way>, weight: WeightFn, x: nat, e: Edge)
    requires forall k :: 0 <= k < |ways| ==> !ways[k].oneway
    requires x < |nodes| && e in Build(nodes, ways, weight)[x]
    ensures e.node < |nodes| && Edge(x, e.weight) in Build(nodes, ways, weight)[e.node]
  {
    BuildMembers(nodes, ways, weight, x, e);
    var k: nat, j: nat :| 0 <= k < |ways| && Contributes(nodes, ways[k], j, x, e, weight);
    assert Contributes(nodes, ways[k], j, e.node, Edge(x, e.weight), weight);
    BuildMembers(nodes, ways, weight, e.node, Edge(x, e.weight));
  }

  /**
   * A one-way way adds only its forward edges: when every way is one-way,
   * each edge of x comes from a segment that starts at x.
   */
  lemma OnewayForwardOnly(nodes: seq<Node>, ways: seq<Way>, weight: WeightFn, x: nat, e: Edge)
    requires forall k :: 0 <= k < |ways| ==> ways[k].oneway
    requires x < |nodes| && e in Build(nodes, ways, weight)[x]
    ensures exists k: nat, j: nat :: k < |ways| && j + 1 < |ways[k].nodes| && ways[k].nodes[j] == x && ways[k].nodes[j + 1] == e.node
  {
    BuildMembers(nodes, ways, weight, x, e);
    var k: nat, j: nat :| 0 <= k < |ways| && Contributes(nodes, ways[k], j, x, e, weight);
    assert ways[k].nodes[j] == x && ways[k].nodes[j + 1] == e.node;
  }

  /** A non-negative weight function gives a graph with non-negative weights. */
  lemma BuildNonNegative(nodes: seq<Node>, ways: seq<Way>, weight: WeightFn)
    requires forall a, b :: weight(a, b) >= 0.0
    ensures NonNegative(Build(nodes, ways, weight))
  {
    var adj: seq<seq<Edge>> := Build(nodes, ways, weight);
    forall u: nat, k: nat | u < |adj| && k < |adj[u]| ensures adj[u][k].weight >= 0.0 {
      BuildMembers(nodes, ways, weight, u, adj[u][k]);
    }
  }
}
