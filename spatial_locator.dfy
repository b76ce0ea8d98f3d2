/**
 * getClosestNodeIndex: the node nearest to a click, by a linear scan for
 * the least squared distance in graph coordinates, accepted only when it
 * lies strictly within a fixed 15-pixel radius converted to graph units
 * through the smaller of the two display scales.
 */
module SpatialLocator {
  import opened Options
  import opened RoadGraph

  /** The part of the page's scaling parameters that the click lookup reads. */
  datatype Scaling = Scaling(scaleX: real, scaleY: real, offsetX: real, offsetY: real)

  /** The click radius in pixels. */
  const PixelThreshold: real := 15.0

  /** Squared distance from node a to the point (gx, gy). */
  function SqDist(a: Node, gx: real, gy: real): real {
    (gx - a.x) * (gx - a.x) + (gy - a.y) * (gy - a.y)
  }

  /**
   * One canvas coordinate taken back to graph units: the offset removed,
   * then divided by the scale. It undoes the drawing transform.
   */
  function ToGraph(canvas: real, offset: real, scale: real): (g: real)
    requires scale != 0.0
    ensures offset + g * scale == canvas
  {
    (canvas - offset) / scale
  }

  /** Where a node is drawn on the canvas, outside the single-point layout. */
  function Drawn(a: Node, p: Scaling): (real, real) {
    (p.offsetX + a.x * p.scaleX, p.offsetY + a.y * p.scaleY)
  }

  function Abs(x: real): real {
    if x < 0.0 then -x else x
  }

  /** The smaller of the two absolute scales. */
  function MinScale(scaleX: real, scaleY: real): (m: real)
    ensures m >= 0.0 && (m == Abs(scaleX) || m == Abs(scaleY)) && m <= Abs(scaleX) && m <= Abs(scaleY)
  {
    if Abs(scaleX) <= Abs(scaleY) then Abs(scaleX) else Abs(scaleY)
  }

  /** The click radius converted to graph units through the smaller scale, squared. */
  function ThresholdSq(minScale: real): (t: real)
    requires minScale > 0.0
    ensures t > 0.0
  {
    (PixelThreshold / minScale) * (PixelThreshold / minScale)
  }

  /** Going back from where a node is drawn gives the node's own graph coordinates. */
  lemma ToGraphDrawn(a: Node, p: Scaling)
    requires p.scaleX != 0.0 && p.scaleY != 0.0
    ensures ToGraph(Drawn(a, p).0, p.offsetX, p.scaleX) == a.x
    ensures ToGraph(Drawn(a, p).1, p.offsetY, p.scaleY) == a.y
  {
    var gx := ToGraph(Drawn(a, p).0, p.offsetX, p.scaleX);
    var gy := ToGraph(Drawn(a, p).1, p.offsetY, p.scaleY);
    assert (gx - a.x) * p.scaleX == 0.0;
    assert (gy - a.y) * p.scaleY == 0.0;
  }

  /**
   * A click exactly where node i is drawn lies strictly within the radius
   * of node i, so with a positive scale the lookup returns a node.
   */
  lemma DrawnNodeWithinRadius(nodes: seq<Node>, i: nat, p: Scaling)
    requires i < |nodes| && MinScale(p.scaleX, p.scaleY) > 0.0
    ensures var (cx, cy) := Drawn(nodes[i], p);
      exists j :: 0 <= j < |nodes| &&
        SqDist(nodes[j], ToGraph(cx, p.offsetX, p.scaleX), ToGraph(cy, p.offsetY, p.scaleY))
          < ThresholdSq(MinScale(p.scaleX, p.scaleY))
  {
    ToGraphDrawn(nodes[i], p);
    var (cx, cy) := Drawn(nodes[i], p);
    assert SqDist(nodes[i], ToGraph(cx, p.offsetX, p.scaleX), ToGraph(cy, p.offsetY, p.scaleY)) == 0.0;
  }

  /** i is the first index of nodes at the least squared distance from (gx, gy). */
  ghost predicate FirstClosest(nodes: seq<Node>, gx: real, gy: real, i: nat) {
    && i < |nodes|
    && (forall j :: 0 <= j < |nodes| ==> SqDist(nodes[i], gx, gy) <= SqDist(nodes[j], gx, gy))
    && (forall j :: 0 <= j < i ==> SqDist(nodes[i], gx, gy) < SqDist(nodes[j], gx, gy))
  }

  /**
   * The `for` loop with closestIndex = -1 and minSqDist = Infinity. Since
   * every squared distance is below Infinity, the first node is always
   * taken, which is what `closestIndex == -1 ||` stands for here; after that
   * only a strictly smaller distance replaces the candidate.
   */
  method Scan(nodes: seq<Node>, gx: real, gy: real) returns (closestIndex: int, minSqDist: real)
    ensures nodes == [] ==> closestIndex == -1
    ensures nodes != [] ==> 0 <= closestIndex < |nodes| && FirstClosest(nodes, gx, gy, closestIndex)
                            && minSqDist == SqDist(nodes[closestIndex], gx, gy)
  {
    closestIndex, minSqDist := -1, 0.0;
    var i := 0;
    while i < |nodes|
      invariant 0 <= i <= |nodes|
      invariant i == 0 <==> closestIndex == -1
      invariant i > 0 ==> 0 <= closestIndex < i && minSqDist == SqDist(nodes[closestIndex], gx, gy)
      invariant i > 0 ==> forall j :: 0 <= j < i ==> minSqDist <= SqDist(nodes[j], gx, gy)
      invariant i > 0 ==> forall j :: 0 <= j < closestIndex ==> minSqDist < SqDist(nodes[j], gx, gy)
    {
      var sqDist := SqDist(nodes[i], gx, gy);
      if closestIndex == -1 || sqDist < minSqDist {
        minSqDist := sqDist;
        closestIndex := i;
      }
      i := i + 1;
    }
  }

  /**
   * The click, in canvas coordinates, lands on the first closest node when
   * the graph is not empty, the smaller scale is positive and that node is
   * strictly within the radius; otherwise the click selects nothing.
   */
  method ClosestNodeIndex(nodes: seq<Node>, canvasX: real, canvasY: real, p: Scaling) returns (r: Option<nat>)
    ensures nodes == [] ==> r == None
    ensures MinScale(p.scaleX, p.scaleY) == 0.0 ==> r == None
    ensures MinScale(p.scaleX, p.scaleY) > 0.0 ==>
      var gx, gy := ToGraph(canvasX, p.offsetX, p.scaleX), ToGraph(canvasY, p.offsetY, p.scaleY);
      && (r.Some? ==> FirstClosest(nodes, gx, gy, r.value))
      && (r.Some? <==> exists j :: 0 <= j < |nodes| && SqDist(nodes[j], gx, gy) < ThresholdSq(MinScale(p.scaleX, p.scaleY)))
  {
    if |nodes| == 0 {
      return None;
    }
    var minScale := MinScale(p.scaleX, p.scaleY);
    if minScale == 0.0 {
      // A zero scale makes the page's graph coordinates non-finite (a division
      // by zero), so no squared distance is below the initial Infinity, the scan
      // keeps closestIndex at -1 and the lookup yields null.
      return None;
    }
    var graphX := ToGraph(canvasX, p.offsetX, p.scaleX);
    var graphY := ToGraph(canvasY, p.offsetY, p.scaleY);
    var closestIndex, minSqDist := Scan(nodes, graphX, graphY);
    var thresholdInGraphUnitsSq := ThresholdSq(minScale);
    if closestIndex != -1 && minSqDist < thresholdInGraphUnitsSq {
      return Some(closestIndex);
    }
    return None;
  }
}
