/**
 * Points, sites, edges and events of the sweep, and the numeric routines
 * the combinatorial engine consults but whose values it never depends on.
 */
module Geometry {
  import opened Outcomes

  /** A coordinate pair. The source works in float64; the model uses exact reals. */
  datatype Point = Point(x: real, y: real)

  /**
   * An input site. `index` is the site's position in the input and stands
   * for the identity of the point object: two sites at equal coordinates
   * are still different sites.
   */
  datatype Site = Site(index: nat, at: Point)

  /**
   * The slope F of an edge's line y = F*x + G together with G. The float64
   * division that computes F yields an infinity or NaN when both sites have
   * the same Y; those outcomes get constructors of their own.
   */
  datatype Slope = Finite(f: real, g: real) | PlusInfinity | MinusInfinity | NotANumber

  /**
   * A bisector edge between the sites at `left` and `right`. `end` is absent
   * until the edge is closed; `neighbor` is the arena index of the twin
   * half-edge created at the same breakpoint birth.
   */
  datatype Edge = Edge(
    start: Point,
    end: Option<Point>,
    direction: Point,
    left: Point,
    right: Point,
    slope: Slope,
    neighbor: Option<nat>)

  /**
   * The bisector of a and b starting at s. With a.Y = b.Y the float64
   * quotient (b.X - a.X) / (a.Y - b.Y) divides by +0: +Inf when b lies to
   * the right of a, -Inf when it lies to the left, NaN when a and b coincide.
   */
  function NewEdge(s: Point, a: Point, b: Point): (e: Edge)
    ensures e.start == s && e.left == a && e.right == b
    ensures e.end == None && e.neighbor == None
  {
    var slope :=
      if a.y != b.y then
        var f := (b.x - a.x) / (a.y - b.y);
        Finite(f, s.y - f * s.x)
      else if b.x > a.x then PlusInfinity
      else if b.x < a.x then MinusInfinity
      else NotANumber;
    var direction :=
      match slope
      case MinusInfinity => Point(1.0, 0.0)
      case PlusInfinity => Point(-1.0, 0.0)
      case _ => Point(b.y - a.y, -(b.x - a.x));
    Edge(s, None, direction, a, b, slope, None)
  }

  /**
   * A new edge lies on the perpendicular bisector direction of its sites:
   * with a finite slope the line runs through the start, perpendicular to
   * a - b, and the direction runs along the line; two sites at the same
   * height give the infinite slopes and a horizontal direction, two equal
   * sites give NaN.
   */
  lemma NewEdgeBisects(s: Point, a: Point, b: Point)
    ensures var e := NewEdge(s, a, b);
      && (a.y != b.y ==> e.slope.Finite?)
      && (e.slope.Finite? ==>
            && e.slope.f * (a.y - b.y) == b.x - a.x
            && s.y == e.slope.f * s.x + e.slope.g
            && e.direction.y == e.slope.f * e.direction.x
            && e.direction.x * (b.x - a.x) + e.direction.y * (b.y - a.y) == 0.0)
      && (e.slope.PlusInfinity? <==> a.y == b.y && b.x > a.x)
      && (e.slope.MinusInfinity? <==> a.y == b.y && b.x < a.x)
      && (e.slope.NotANumber? <==> a == b)
      && (e.slope.PlusInfinity? ==> e.direction == Point(-1.0, 0.0))
      && (e.slope.MinusInfinity? ==> e.direction == Point(1.0, 0.0))
  {
    var e := NewEdge(s, a, b);
    if a.y != b.y {
      var f := (b.x - a.x) / (a.y - b.y);
      assert e.slope == Finite(f, s.y - f * s.x);
      assert f * (a.y - b.y) == b.x - a.x;
      assert e.direction == Point(b.y - a.y, -(b.x - a.x));
      assert e.direction.y * (a.y - b.y) == f * (a.y - b.y) * e.direction.x;
    }
  }

  /**
   * A queued event. `isPlace` marks a site event; `y` is the sweep key;
   * `arch` is the id of the arc a circle event would remove. `id` stands for
   * the identity of the event object; site events are numbered by the
   * position of their site in the input.
   */
  datatype Event = Event(id: nat, point: Point, isPlace: bool, y: real, arch: Option<nat>)

  /** A fresh event keyed by the Y of its point and bound to no arc. */
  function NewEvent(id: nat, p: Point, place: bool): (e: Event)
    ensures e.id == id && e.point == p && e.isPlace == place
    ensures e.y == p.y && e.arch == None
  {
    Event(id, p, place, p.y, None)
  }

  /**
   * The floating-point routines of the engine, left uninterpreted:
   * `breakpointX(l, r, y)` is the X of the breakpoint between the arcs of
   * sites l and r at sweep Y y; `parabolaY(site, x, y)` is the Y of the arc
   * of `site` above x at sweep Y y; `intersect(a, b)` is the crossing of two
   * edge rays, absent when it lies behind either ray; `distance` is the
   * Euclidean distance.
   */
  datatype Numerics = Numerics(
    breakpointX: (Point, Point, real) -> real,
    parabolaY: (Point, real, real) -> real,
    intersect: (Edge, Edge) -> Option<Point>,
    distance: (Point, Point) -> real)
}
