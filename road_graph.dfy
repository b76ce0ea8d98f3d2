/**
 * The graph primitives of the routing engine (the `Node`, `Way` and `AdjNode`
 * records of the page) and the walks over an adjacency list that the
 * shortest-path contracts speak about.
 */
module RoadGraph {

  /** A parsed map node: its external id, its planar coordinates (x is the
      longitude, y the latitude) and the geographic pair kept for display. */
  datatype Node = Node(id: string, x: real, y: real, originalLat: real, originalLon: real)

  /** A road: the node indices it passes through, in document order, and whether it is one-way. */
  datatype Way = Way(nodes: seq<nat>, oneway: bool)

  /** One outgoing edge of an adjacency list: the neighbour's index and the edge weight. */
  datatype Edge = Edge(node: nat, weight: real)

  /** For each node index, its outgoing edges in the order they were discovered. */
  type Adjacency = seq<seq<Edge>>

  /** Every edge weight is non-negative (the weights are Euclidean lengths). */
  ghost predicate NonNegative(adj: Adjacency) {
    forall u, k :: 0 <= u < |adj| && 0 <= k < |adj[u]| ==> adj[u][k].weight >= 0.0
  }

  /** The adjacency list of u holds an edge to v of weight w. */
  ghost predicate HasEdge(adj: Adjacency, u: nat, v: nat, w: real) {
    u < |adj| && exists k :: 0 <= k < |adj[u]| && adj[u][k] == Edge(v, w)
  }

  /** p is a walk through nodes below n, and ws[i] is the weight of an edge from p[i] to p[i + 1]. */
  ghost predicate IsWalk(adj: Adjacency, n: nat, p: seq<nat>, ws: seq<real>) {
    && |p| >= 1
    && |ws| == |p| - 1
    && (forall i :: 0 <= i < |p| ==> p[i] < n)
    && (forall i :: 0 <= i < |ws| ==> HasEdge(adj, p[i], p[i + 1], ws[i]))
  }

  /** The total of a sequence of weights. */
  function Sum(ws: seq<real>): real {
    if ws == [] then 0.0 else Sum(ws[..|ws| - 1]) + ws[|ws| - 1]
  }

  /** Some walk leads from s to t. */
  ghost predicate Reachable(adj: Adjacency, n: nat, s: nat, t: nat) {
    exists p, ws :: IsWalk(adj, n, p, ws) && p[0] == s && p[|p| - 1] == t
  }

  /** On a graph with non-negative weights, the weights of a walk are non-negative. */
  lemma WalkWeightsNonNegative(adj: Adjacency, n: nat, p: seq<nat>, ws: seq<real>)
    requires NonNegative(adj) && IsWalk(adj, n, p, ws)
    ensures forall i :: 0 <= i < |ws| ==> ws[i] >= 0.0
  {
    forall i | 0 <= i < |ws| ensures ws[i] >= 0.0 {
      assert HasEdge(adj, p[i], p[i + 1], ws[i]);
    }
  }

  /** With non-negative weights, a prefix never weighs more than the whole sequence. */
  lemma {:induction false} SumPrefixAtMost(ws: seq<real>, i: nat)
    requires i <= |ws|
    requires forall j :: 0 <= j < |ws| ==> ws[j] >= 0.0
    ensures 0.0 <= Sum(ws[..i]) <= Sum(ws)
  {
    if i < |ws| {
      SumPrefixAtMost(ws[..|ws| - 1], i);
      assert ws[..|ws| - 1][..i] == ws[..i];
    } else {
      assert ws[..i] == ws;
      if ws != [] {
        SumPrefixAtMost(ws[..|ws| - 1], |ws| - 1);
        assert ws[..|ws| - 1][..|ws| - 1] == ws[..|ws| - 1];
      }
    }
  }

  /** Cutting a walk after its node i leaves a walk. */
  lemma WalkPrefix(adj: Adjacency, n: nat, p: seq<nat>, ws: seq<real>, i: nat)
    requires IsWalk(adj, n, p, ws) && i < |p|
    ensures IsWalk(adj, n, p[..i + 1], ws[..i])
  {
  }
}
