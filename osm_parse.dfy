/**
 * The extraction step after the XML document has been read: node elements
 * become nodes plus an id-to-index table, way elements become ways over node
 * indices. Elements are records of the attributes the page reads; an absent
 * attribute is None.
 */
module OsmParse {
  import opened Options
  import opened RoadGraph

  /** A `node` element: its `id` attribute and its coordinates as already-parsed numbers. */
  datatype NodeElement = NodeElement(id: Option<string>, lat: real, lon: real)

  /** A `tag` element of a way: its `k` and `v` attributes. */
  datatype TagElement = TagElement(k: Option<string>, v: Option<string>)

  /** A `way` element: the `ref` attributes of its `nd` children and its `tag` children, in document order. */
  datatype WayElement = WayElement(refs: seq<Option<string>>, tags: seq<TagElement>)

  /** The nodes kept so far and the table from an id to the index of its node. */
  datatype NodeIndex = NodeIndex(nodes: seq<Node>, idToIndex: map<string, nat>)

  /** An attribute value is truthy: present and not the empty string. */
  predicate Truthy(a: Option<string>) {
    a.Some? && a.value != ""
  }

  /** The node of an element: planar x is the longitude and y the latitude, both also kept as the originals. */
  function ToNode(e: NodeElement): (r: Node)
    requires Truthy(e.id)
    ensures r.id == e.id.value && r.id != ""
    ensures r.x == r.originalLon == e.lon && r.y == r.originalLat == e.lat
  {
    Node(e.id.value, e.lon, e.lat, e.lat, e.lon)
  }

  /** The node list and id table after the node loop has seen every element of els. */
  function IndexNodes(els: seq<NodeElement>): NodeIndex {
    if els == [] then NodeIndex([], map[])
    else
      var t := IndexNodes(els[..|els| - 1]);
      var e := els[|els| - 1];
      if Truthy(e.id) then NodeIndex(t.nodes + [ToNode(e)], t.idToIndex[e.id.value := |t.nodes|])
      else t
  }

  /** The node loop of the parse step. */
  method ExtractNodes(els: seq<NodeElement>) returns (nodes: seq<Node>, idToIndex: map<string, nat>)
    ensures NodeIndex(nodes, idToIndex) == IndexNodes(els)
  {
    nodes, idToIndex := [], map[];
    var i := 0;
    while i < |els|
      invariant 0 <= i <= |els|
      invariant NodeIndex(nodes, idToIndex) == IndexNodes(els[..i])
    {
      var e := els[i];
      assert els[..i + 1][..i] == els[..i];
      if Truthy(e.id) {
        idToIndex := idToIndex[e.id.value := |nodes|];
        nodes := nodes + [ToNode(e)];
      }
      i := i + 1;
    }
    assert els[..i] == els;
  }

  /** The node list keeps exactly the elements with a truthy id, in document order. */
  lemma {:induction false} IndexNodesAppend(a: seq<NodeElement>, b: seq<NodeElement>)
    ensures IndexNodes(a + b).nodes == IndexNodes(a).nodes + IndexNodes(b).nodes
  {
    if b == [] {
      assert a + b == a;
    } else {
      var b' := b[..|b| - 1];
      IndexNodesAppend(a, b');
      assert (a + b)[..|a + b| - 1] == a + b';
    }
  }

  lemma IndexNodesOne(e: NodeElement)
    ensures IndexNodes([e]).nodes == if Truthy(e.id) then [ToNode(e)] else []
  {
    assert [e][..0] == [];
  }


  /** The id table against the node list: the keys are the ids, each naming the last node with it. */
  ghost predicate LastSeenTable(t: NodeIndex) {
    KeysAreIds(t) && EntriesLastSeen(t)
  }

  /** The ids the table knows are exactly the ids of the node list. */
  ghost predicate KeysAreIds(t: NodeIndex) {
    forall id :: id in t.idToIndex <==> exists i :: 0 <= i < |t.nodes| && t.nodes[i].id == id
  }

  /** Each table entry names the last node carrying its id. */
  ghost predicate EntriesLastSeen(t: NodeIndex) {
    forall id :: id in t.idToIndex ==>
      && t.idToIndex[id] < |t.nodes|
      && t.nodes[t.idToIndex[id]].id == id
      && forall j :: t.idToIndex[id] < j < |t.nodes| ==> t.nodes[j].id != id
  }

  /** One kept node: the push and the table write keep the ids and the table in step. */
  lemma PushKeepsKeys(t: NodeIndex, n: Node)
    requires KeysAreIds(t)
    ensures KeysAreIds(NodeIndex(t.nodes + [n], t.idToIndex[n.id := |t.nodes|]))
  {
    var t' := NodeIndex(t.nodes + [n], t.idToIndex[n.id := |t.nodes|]);
    forall id ensures id in t'.idToIndex <==> exists i :: 0 <= i < |t'.nodes| && t'.nodes[i].id == id {
      if id != n.id {
        if id in t'.idToIndex {
          var i :| 0 <= i < |t.nodes| && t.nodes[i].id == id;
          assert t'.nodes[i] == t.nodes[i];
        }
        if exists i :: 0 <= i < |t'.nodes| && t'.nodes[i].id == id {
          var i :| 0 <= i < |t'.nodes| && t'.nodes[i].id == id;
          assert i < |t.nodes| && t'.nodes[i] == t.nodes[i];
        }
      } else {
        assert t'.nodes[|t.nodes|] == n;
      }
    }
  }

  /** One kept node: its id now maps to it, and every other entry still names the last node with its id. */
  lemma PushKeepsEntries(t: NodeIndex, n: Node)
    requires EntriesLastSeen(t)
    ensures EntriesLastSeen(NodeIndex(t.nodes + [n], t.idToIndex[n.id := |t.nodes|]))
  {
    var t' := NodeIndex(t.nodes + [n], t.idToIndex[n.id := |t.nodes|]);
    forall id | id in t'.idToIndex
      ensures && t'.idToIndex[id] < |t'.nodes|
              && t'.nodes[t'.idToIndex[id]].id == id
              && forall j :: t'.idToIndex[id] < j < |t'.nodes| ==> t'.nodes[j].id != id
    {
      if id != n.id {
        assert id in t.idToIndex && t'.idToIndex[id] == t.idToIndex[id];
        assert t'.nodes[t.idToIndex[id]] == t.nodes[t.idToIndex[id]];
      } else {
        assert t'.nodes[|t.nodes|] == n;
      }
    }
  }

  /**
   * The id table holds exactly the ids of the kept nodes, and each id maps to
   * the LAST node carrying it: a later element with the same id overwrites
   * the entry, while both nodes stay in the list.
   */
  lemma {:induction false} IdTableLastSeen(els: seq<NodeElement>)
    ensures LastSeenTable(IndexNodes(els))
  {
    if els != [] {
      var init := els[..|els| - 1];
      IdTableLastSeen(init);
      var e := els[|els| - 1];
      if Truthy(e.id) {
        var t0 := IndexNodes(init);
        PushKeepsKeys(t0, ToNode(e));
        PushKeepsEntries(t0, ToNode(e));
      }
    }
  }

  /** The id table only holds indices of the node list. */
  lemma IdTableInRange(els: seq<NodeElement>)
    ensures forall id :: id in IndexNodes(els).idToIndex ==> IndexNodes(els).idToIndex[id] < |IndexNodes(els).nodes|
  {
    IdTableLastSeen(els);
  }

  /** An `nd` reference is kept when it is truthy and names a known id. */
  predicate Resolves(r: Option<string>, idToIndex: map<string, nat>) {
    Truthy(r) && r.value in idToIndex
  }

  /** The node indices of the resolvable references, in document order. */
  function Resolved(refs: seq<Option<string>>, idToIndex: map<string, nat>): seq<nat> {
    if refs == [] then []
    else Resolved(refs[..|refs| - 1], idToIndex)
         + (if Resolves(refs[|refs| - 1], idToIndex) then [idToIndex[refs[|refs| - 1].value]] else [])
  }

  /** Some tag says k = "oneway" and v = "yes". */
  predicate HasOnewayTag(tags: seq<TagElement>) {
    exists i :: 0 <= i < |tags| && tags[i].k == Some("oneway") && tags[i].v == Some("yes")
  }

  /** The ways kept from els: those with at least two resolvable references. */
  function Ways(els: seq<WayElement>, idToIndex: map<string, nat>): seq<Way> {
    if els == [] then []
    else
      var w := els[|els| - 1];
      var refs := Resolved(w.refs, idToIndex);
      Ways(els[..|els| - 1], idToIndex) + (if |refs| > 1 then [Way(refs, HasOnewayTag(w.tags))] else [])
  }

  /** The `nd` loop of one way. */
  method CollectRefs(refs: seq<Option<string>>, idToIndex: map<string, nat>) returns (ndRefs: seq<nat>)
    ensures ndRefs == Resolved(refs, idToIndex)
  {
    ndRefs := [];
    var i := 0;
    while i < |refs|
      invariant 0 <= i <= |refs|
      invariant ndRefs == Resolved(refs[..i], idToIndex)
    {
      assert refs[..i + 1][..i] == refs[..i];
      var r := refs[i];
      if Truthy(r) && r.value in idToIndex {
        ndRefs := ndRefs + [idToIndex[r.value]];
      }
      i := i + 1;
    }
    assert refs[..i] == refs;
  }

  /** The `tag` loop of one way, which stops at the first one-way tag. */
  method IsOneway(tags: seq<TagElement>) returns (oneway: bool)
    ensures oneway <==> exists i :: 0 <= i < |tags| && tags[i].k == Some("oneway") && tags[i].v == Some("yes")
  {
    oneway := false;
    var i := 0;
    while i < |tags|
      invariant 0 <= i <= |tags|
      invariant !oneway
      invariant forall j :: 0 <= j < i ==> !(tags[j].k == Some("oneway") && tags[j].v == Some("yes"))
    {
      if tags[i].k == Some("oneway") && tags[i].v == Some("yes") {
        oneway := true;
        break;
      }
      i := i + 1;
    }
  }

  /** The way loop of the parse step. */
  method ExtractWays(els: seq<WayElement>, idToIndex: map<string, nat>) returns (ways: seq<Way>)
    ensures ways == Ways(els, idToIndex)
  {
    ways := [];
    var i := 0;
    while i < |els|
      invariant 0 <= i <= |els|
      invariant ways == Ways(els[..i], idToIndex)
    {
      assert els[..i + 1][..i] == els[..i];
      var ndRefs := CollectRefs(els[i].refs, idToIndex);
      var oneway := IsOneway(els[i].tags);
      if |ndRefs| > 1 {
        ways := ways + [Way(ndRefs, oneway)];
      }
      i := i + 1;
    }
    assert els[..i] == els;
  }

  /** The references kept are exactly the resolvable ones, in document order. */
  lemma {:induction false} ResolvedAppend(a: seq<Option<string>>, b: seq<Option<string>>, idToIndex: map<string, nat>)
    ensures Resolved(a + b, idToIndex) == Resolved(a, idToIndex) + Resolved(b, idToIndex)
  {
    if b == [] {
      assert a + b == a;
    } else {
      var b' := b[..|b| - 1];
      ResolvedAppend(a, b', idToIndex);
      assert (a + b)[..|a + b| - 1] == a + b';
    }
  }

  lemma ResolvedOne(r: Option<string>, idToIndex: map<string, nat>)
    ensures Resolved([r], idToIndex) == if Resolves(r, idToIndex) then [idToIndex[r.value]] else []
  {
    assert [r][..0] == [];
  }

  /** Every resolved reference is an index that the id table holds. */
  lemma {:induction false} ResolvedBound(refs: seq<Option<string>>, idToIndex: map<string, nat>, n: nat)
    requires forall id :: id in idToIndex ==> idToIndex[id] < n
    ensures forall i :: 0 <= i < |Resolved(refs, idToIndex)| ==> Resolved(refs, idToIndex)[i] < n
  {
    if refs != [] {
      ResolvedBound(refs[..|refs| - 1], idToIndex, n);
    }
  }

  /** A way element is kept iff it has two resolvable references, and ways keep document order. */
  lemma {:induction false} WaysAppend(a: seq<WayElement>, b: seq<WayElement>, idToIndex: map<string, nat>)
    ensures Ways(a + b, idToIndex) == Ways(a, idToIndex) + Ways(b, idToIndex)
  {
    if b == [] {
      assert a + b == a;
    } else {
      var b' := b[..|b| - 1];
      WaysAppend(a, b', idToIndex);
      assert (a + b)[..|a + b| - 1] == a + b';
    }
  }

  lemma WaysOne(w: WayElement, idToIndex: map<string, nat>)
    ensures Ways([w], idToIndex) ==
      if |Resolved(w.refs, idToIndex)| > 1 then [Way(Resolved(w.refs, idToIndex), HasOnewayTag(w.tags))] else []
  {
    assert [w][..0] == [];
  }

  /** Every kept way has at least two node indices, all below n. */
  lemma {:induction false} WaysWellFormed(els: seq<WayElement>, idToIndex: map<string, nat>, n: nat)
    requires forall id :: id in idToIndex ==> idToIndex[id] < n
    ensures forall k :: 0 <= k < |Ways(els, idToIndex)| ==>
      |Ways(els, idToIndex)[k].nodes| >= 2 &&
      forall i :: 0 <= i < |Ways(els, idToIndex)[k].nodes| ==> Ways(els, idToIndex)[k].nodes[i] < n
  {
    if els != [] {
      WaysWellFormed(els[..|els| - 1], idToIndex, n);
      ResolvedBound(els[|els| - 1].refs, idToIndex, n);
    }
  }

  /** A parsed graph: every way has at least two indices and every index names a node. */
  ghost predicate WellFormed(nodes: seq<Node>, ways: seq<Way>) {
    forall k :: 0 <= k < |ways| ==>
      |ways[k].nodes| >= 2 && forall i :: 0 <= i < |ways[k].nodes| ==> ways[k].nodes[i] < |nodes|
  }

  /** The whole extraction: nodes first, then the ways resolved through the finished id table. */
  method Parse(nodeEls: seq<NodeElement>, wayEls: seq<WayElement>) returns (nodes: seq<Node>, ways: seq<Way>)
    ensures nodes == IndexNodes(nodeEls).nodes
    ensures ways == Ways(wayEls, IndexNodes(nodeEls).idToIndex)
    ensures WellFormed(nodes, ways)
  {
    var idToIndex;
    nodes, idToIndex := ExtractNodes(nodeEls);
    ways := ExtractWays(wayEls, idToIndex);
    IdTableInRange(nodeEls);
    WaysWellFormed(wayEls, idToIndex, |nodes|);
  }
}
