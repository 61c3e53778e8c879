/**
 * After the sweep: every edge still traced by a breakpoint gets an end on
 * the box side it runs towards, or `Margin` beyond its start when the
 * start lies less than `Margin` inside that side, and each returned
 * half-edge takes its twin's far end as its start.
 */
module Finish {
  import opened Outcomes
  import opened Geometry
  import opened Beachline

  /** The margin by which an end point is pushed past its start. */
  const Margin: real := 10.0

  /**
   * The end of an open edge: its x is the box side the edge runs towards,
   * or `Margin` past the start when the start lies less than `Margin`
   * inside that side, or outside it. Its y is on the edge's line, or the
   * top or bottom side for the two infinite slopes of a vertical edge. A
   * NaN slope has no line, and the model puts the end
   * at the start's height.
   */
  function ClampEnd(start: Point, direction: Point, slope: Slope, width: real, height: real): (p: Point)
    ensures direction.x > 0.0 ==>
      p.x >= width && p.x >= start.x + Margin && (p.x == width || p.x == start.x + Margin)
    ensures direction.x <= 0.0 ==>
      p.x <= 0.0 && p.x <= start.x - Margin && (p.x == 0.0 || p.x == start.x - Margin)
    ensures slope.Finite? ==> p.y == slope.f * p.x + slope.g
    ensures slope.PlusInfinity? ==> p.y == height
    ensures slope.MinusInfinity? ==> p.y == 0.0
  {
    var mx :=
      if direction.x > 0.0 then
        if width > start.x + Margin then width else start.x + Margin
      else
        if 0.0 < start.x - Margin then 0.0 else start.x - Margin;
    var y :=
      match slope
      case PlusInfinity => height
      case MinusInfinity => 0.0
      case Finite(f, g) => mx * f + g
      case NotANumber => start.y;
    Point(mx, y)
  }

  /** The edge with its end set by `ClampEnd`; nothing else of it changes. */
  function Clamp(e: Edge, width: real, height: real): (r: Edge)
    ensures r.end.Some? && r == e.(end := r.end)
    ensures e.direction.x > 0.0 ==>
      r.end.value.x >= width && r.end.value.x >= e.start.x + Margin
      && (r.end.value.x == width || r.end.value.x == e.start.x + Margin)
    ensures e.direction.x <= 0.0 ==>
      r.end.value.x <= 0.0 && r.end.value.x <= e.start.x - Margin
      && (r.end.value.x == 0.0 || r.end.value.x == e.start.x - Margin)
    ensures e.slope.Finite? ==> r.end.value.y == e.slope.f * r.end.value.x + e.slope.g
    ensures e.slope.PlusInfinity? ==> r.end.value.y == height
    ensures e.slope.MinusInfinity? ==> r.end.value.y == 0.0
  {
    e.(end := Some(ClampEnd(e.start, e.direction, e.slope, width, height)))
  }

  /** Clamping an edge twice gives what clamping once does. */
  lemma ClampIdempotent(e: Edge, width: real, height: real)
    ensures Clamp(Clamp(e, width, height), width, height) == Clamp(e, width, height)
  {
    var c := Clamp(e, width, height);
    assert c.start == e.start && c.direction == e.direction && c.slope == e.slope;
  }

  /**
   * Every edge traced by a breakpoint of `t` is clamped, in the source's
   * order: the node's own edge, then the left subtree, then the right one.
   * Every other edge stays as it is.
   */
  function FinishTree(t: Beach, edges: seq<Edge>, width: real, height: real): (r: seq<Edge>)
    requires forall i :: i in NodeEdges(t) ==> i < |edges|
    ensures |r| == |edges|
    ensures forall i :: 0 <= i < |edges| ==>
      r[i] == if i in NodeEdges(t) then Clamp(edges[i], width, height) else edges[i]
  {
    match t
    case Leaf(_) => edges
    case Node(n, l, rt) =>
      assert n in NodeEdges(t) && NodeEdges(l) <= NodeEdges(t) && NodeEdges(rt) <= NodeEdges(t);
      var e1 := edges[n := Clamp(edges[n], width, height)];
      var e2 := FinishTree(l, e1, width, height);
      var e3 := FinishTree(rt, e2, width, height);
      forall i | 0 <= i < |edges|
        ensures e3[i] == if i in NodeEdges(t) then Clamp(edges[i], width, height) else edges[i]
      {
        ClampIdempotent(edges[i], width, height);
        if i in NodeEdges(l) && i != n {
          ClampIdempotent(Clamp(edges[i], width, height), width, height);
        }
      }
      e3
  }

  /**
   * Each listed half-edge with a twin starts where its twin ends and
   * forgets the twin; every other edge, and every end, stays.
   */
  function JoinNeighbors(edges: seq<Edge>, output: seq<nat>): (r: seq<Edge>)
    requires forall k :: 0 <= k < |output| ==> output[k] < |edges|
    requires forall i :: 0 <= i < |edges| && edges[i].neighbor.Some? ==>
      edges[i].neighbor.value < |edges| && edges[edges[i].neighbor.value].end.Some?
    ensures |r| == |edges|
    // a listed half-edge with a twin starts at the twin's end, and no listed edge keeps a twin
    ensures forall i :: 0 <= i < |edges| && i in output && edges[i].neighbor.Some? ==>
      r[i].start == edges[edges[i].neighbor.value].end.value
    ensures forall i :: 0 <= i < |edges| && i in output ==> r[i].neighbor.None?
    // ends, sites, slopes and directions are untouched everywhere
    ensures forall i :: 0 <= i < |edges| ==>
      && r[i].end == edges[i].end && r[i].left == edges[i].left && r[i].right == edges[i].right
      && r[i].slope == edges[i].slope && r[i].direction == edges[i].direction
    // an unlisted edge, or one without a twin, is untouched
    ensures forall i :: 0 <= i < |edges| && (i !in output || edges[i].neighbor.None?) ==> r[i] == edges[i]
  {
    seq(|edges|, i requires 0 <= i < |edges| =>
      if i in output && edges[i].neighbor.Some?
      then edges[i].(start := edges[edges[i].neighbor.value].end.value, neighbor := None)
      else edges[i])
  }
}
