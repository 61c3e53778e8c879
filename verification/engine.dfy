/**
 * The sweep engine's state and the circle-event bookkeeping that both arc
 * insertion and arc removal end with.
 */
module Engine {
  import opened Outcomes
  import opened Geometry
  import opened Beachline
  import opened Navigation
  import EventQueue

  /** The nil dereferences that would stop the source. */
  datatype Fault =
    | ArcNotInBeachline   // a circle event whose arc is no longer a leaf
    | RootArc             // a circle event for the root arc, which has no parent
    | MissingNeighbour    // an arc without a breakpoint on one side
    | EmptyBeachline      // finishing the edges of an empty beachline

  /**
   * The engine state. `del` is the tombstone list, `queue` the event queue.
   * `pending` maps an arc id to the circle event the arc holds, so an arc
   * holds at most one. `edges` is the arena of every edge created; `output`
   * lists, in order, the arena indices of the edges the engine returns.
   * `nextArc` and `nextEvent` hand out fresh identities.
   */
  datatype Sweep = Sweep(
    width: real,
    height: real,
    root: Option<Beach>,
    y: real,
    del: seq<Event>,
    queue: seq<Event>,
    pending: map<nat, Event>,
    edges: seq<Edge>,
    output: seq<nat>,
    nextArc: nat,
    nextEvent: nat)

  /** The arcs of the beachline from left to right; none when it is empty. */
  function Arcs(s: Sweep): seq<Arc> {
    if s.root.None? then [] else Leaves(s.root.value)
  }

  /** The edges being traced by breakpoints. */
  function Traced(s: Sweep): set<nat> {
    if s.root.None? then {} else NodeEdges(s.root.value)
  }

  /**
   * The well-formedness the engine keeps: arena indices are in range, arc
   * ids are below the next fresh one, and every edge is either closed or
   * still traced by a breakpoint.
   */
  predicate Inv(s: Sweep) {
    && (forall i :: i in Traced(s) ==> i < |s.edges|)
    && (forall a :: a in Arcs(s) ==> a.id < s.nextArc)
    && (forall k :: 0 <= k < |s.output| ==> s.output[k] < |s.edges|)
    && (forall i :: 0 <= i < |s.edges| && s.edges[i].neighbor.Some? ==> s.edges[i].neighbor.value < |s.edges|)
    && (forall i :: 0 <= i < |s.edges| ==> s.edges[i].end.Some? || i in Traced(s))
  }

  /**
   * `q2` is `q1` with at most `k` circle events appended, each keyed by
   * the Y of its point.
   */
  predicate Extends(q1: seq<Event>, q2: seq<Event>, k: nat) {
    && |q1| <= |q2| <= |q1| + k
    && q2[..|q1|] == q1
    && forall i :: |q1| <= i < |q2| ==> !q2[i].isPlace && q2[i].y == q2[i].point.y
  }

  /** The state with circle event `e` queued and recorded on arc `arc`. */
  function Armed(s: Sweep, arc: nat, e: Event): (s': Sweep)
    // the event goes to the back of the queue, and the arc holds it
    ensures |s'.queue| == |s.queue| + 1 && s'.queue[..|s.queue|] == s.queue && s'.queue[|s.queue|] == e
    ensures arc in s'.pending && s'.pending[arc] == e
    // every other arc keeps what it held
    ensures forall a :: a != arc ==> (a in s'.pending <==> a in s.pending)
    ensures forall a :: a != arc && a in s.pending ==> s'.pending[a] == s.pending[a]
    // one more event id is used, and nothing else changes
    ensures s'.nextEvent == s.nextEvent + 1
    ensures s'.(queue := s.queue, pending := s.pending, nextEvent := s.nextEvent) == s
  {
    s.(queue := EventQueue.Push(s.queue, e), pending := s.pending[arc := e], nextEvent := s.nextEvent + 1)
  }

  /**
   * The circle event that would make the arc at `b` disappear: its two
   * neighbours' bisectors meet at a point whose circle's lowest point is
   * still ahead of the sweep. The root arc has no parent to climb from,
   * hence |b| > 0.
   */
  function CircleEvent(s: Sweep, b: Path, num: Numerics): (r: Option<Event>)
    requires s.root.Some? && IsLeafPath(s.root.value, b) && |b| > 0
    requires forall i :: i in NodeEdges(s.root.value) ==> i < |s.edges|
    // no event without an arc on each side, or when both sides are the same site
    ensures var t := s.root.value;
      GetLeft(t, b).None? || GetRight(t, b).None? ==> r.None?
    ensures var t := s.root.value;
      var l := GetLeft(t, b);
      var rt := GetRight(t, b);
      l.Some? && rt.Some? && Subtree(t, l.value).arc.site == Subtree(t, rt.value).arc.site ==> r.None?
    // no event when the two bounding bisectors do not meet ahead of both rays
    ensures var t := s.root.value;
      var lp := LeftParent(b);
      var rp := RightParent(b);
      lp.Some? && rp.Some? && IsNodePath(t, lp.value) && IsNodePath(t, rp.value)
      && num.intersect(s.edges[Subtree(t, lp.value).edge], s.edges[Subtree(t, rp.value).edge]).None?
      ==> r.None?
    // an event exactly when the bisectors meet at a point whose circle reaches below the sweep line
    ensures var t := s.root.value;
      var lp := LeftParent(b);
      var rp := RightParent(b);
      lp.Some? && rp.Some? && IsNodePath(t, lp.value) && IsNodePath(t, rp.value) ==>
        var a := Subtree(t, LeftChild(t, lp.value)).arc.site;
        var c := Subtree(t, RightChild(t, rp.value)).arc.site;
        var v := num.intersect(s.edges[Subtree(t, lp.value).edge], s.edges[Subtree(t, rp.value).edge]);
        a != c && v.Some? && v.value.y - num.distance(a.at, v.value) < s.y ==>
          r.Some? && r.value.point == Point(v.value.x, v.value.y - num.distance(a.at, v.value))
    // a created event is a fresh circle event, below the sweep line, bound to the arc
    ensures r.Some? ==>
      && !r.value.isPlace && r.value.y < s.y && r.value.y == r.value.point.y && r.value.id == s.nextEvent
      && r.value.arch == Some(Subtree(s.root.value, b).arc.id)
  {
    var t := s.root.value;
    var lp := LeftParent(b);
    var rp := RightParent(b);
    if lp.None? || rp.None? then None
    else
      PathSplit(t, b, |lp.value|);
      PathSplit(t, b, |rp.value|);
      var a := Subtree(t, LeftChild(t, lp.value)).arc;
      var c := Subtree(t, RightChild(t, rp.value)).arc;
      if a.site == c.site then None
      else
        match num.intersect(s.edges[Subtree(t, lp.value).edge], s.edges[Subtree(t, rp.value).edge])
        case None => None
        case Some(v) =>
          var d := num.distance(a.site.at, v);
          if v.y - d >= s.y then None
          else Some(NewEvent(s.nextEvent, Point(v.x, v.y - d), false).(arch := Some(Subtree(t, b).arc.id)))
  }

  /**
   * Schedules the disappearance of the arc at `b` when there is a circle
   * event for it: the event is queued and the arc holds it.
   */
  function CheckCircle(s: Sweep, b: Path, num: Numerics): (s': Sweep)
    requires s.root.Some? && IsLeafPath(s.root.value, b) && |b| > 0
    requires forall i :: i in NodeEdges(s.root.value) ==> i < |s.edges|
    ensures CircleEvent(s, b, num).None? ==> s' == s
    // otherwise exactly one new circle event, linked both ways with the arc
    ensures CircleEvent(s, b, num).Some? ==>
      && |s'.queue| == |s.queue| + 1
      && var e := s'.queue[|s.queue|];
      && e == CircleEvent(s, b, num).value
      && s' == Armed(s, Subtree(s.root.value, b).arc.id, e)
      && s'.pending[Subtree(s.root.value, b).arc.id] == e
    ensures Extends(s.queue, s'.queue, 1)
    ensures s'.(queue := s.queue, pending := s.pending, nextEvent := s.nextEvent) == s
  {
    match CircleEvent(s, b, num)
    case None => s
    case Some(e) =>
      var s' := Armed(s, Subtree(s.root.value, b).arc.id, e);
      assert s'.queue[|s.queue|] == e;
      s'
  }

  /** The invariant does not look at the queue, the sweep line or the tombstones. */
  lemma SameShapeKeepsInv(s: Sweep, s': Sweep)
    requires Inv(s) && s'.root == s.root && s'.edges == s.edges
    requires s'.output == s.output && s'.nextArc == s.nextArc
    ensures Inv(s')
  {
    assert Traced(s') == Traced(s) && Arcs(s') == Arcs(s);
  }

  /**
   * A state that grows the arena by two twin edges traced by two new
   * breakpoints, and adds only fresh arcs, keeps the invariant.
   */
  lemma GrowKeepsInv(s: Sweep, s': Sweep, n: nat)
    requires Inv(s) && s.root.Some? && s'.root.Some?
    requires n == |s.edges| && |s'.edges| == n + 2 && s'.edges[..n] == s.edges
    requires s'.edges[n].neighbor == Some(n + 1) && s'.edges[n + 1].neighbor.None?
    requires s'.output == s.output + [n]
    requires NodeEdges(s'.root.value) == NodeEdges(s.root.value) + {n, n + 1}
    requires s.nextArc <= s'.nextArc
    requires forall a :: a in Arcs(s') ==> a in Arcs(s) || s.nextArc <= a.id < s'.nextArc
    ensures Inv(s')
  {
    forall i | 0 <= i < |s'.edges| ensures s'.edges[i].end.Some? || i in Traced(s') {
      if i < n {
        assert s'.edges[i] == s.edges[i];
      }
    }
    forall i | 0 <= i < |s'.edges| && s'.edges[i].neighbor.Some?
      ensures s'.edges[i].neighbor.value < |s'.edges|
    {
      if i < n {
        assert s'.edges[i] == s.edges[i];
      }
    }
  }

  /** The three arcs that replace the arc at `q` when `site` splits it, under fresh ids. */
  function NewArcs(s: Sweep, q: Path, site: Site): (r: (Arc, Arc, Arc))
    requires s.root.Some? && IsLeafPath(s.root.value, q)
    // the old site on both sides of the new one
    ensures var old0 := Subtree(s.root.value, q).arc.site;
      r.0.site == old0 && r.1.site == site && r.2.site == old0
    // three distinct ids from the fresh range, none of them already on the beachline
    ensures r.0.id != r.1.id && r.1.id != r.2.id && r.0.id != r.2.id
    ensures forall a :: a in [r.0, r.1, r.2] ==> s.nextArc <= a.id < s.nextArc + 3
    ensures (forall a :: a in Arcs(s) ==> a.id < s.nextArc) ==>
      forall a :: a in Arcs(s) ==> a != r.0 && a != r.1 && a != r.2
  {
    var old0 := Subtree(s.root.value, q).arc.site;
    (Arc(s.nextArc, old0), Arc(s.nextArc + 1, site), Arc(s.nextArc + 2, old0))
  }

  /**
   * The general case of arc insertion before its circle checks: the arc at
   * `q`, the one above the new site, becomes a breakpoint over the old
   * site, the new site and the old site again, tracing two twin edges from
   * one start.
   */
  function SplitLeaf(s: Sweep, q: Path, site: Site, num: Numerics): (s': Sweep)
    requires Inv(s) && s.root.Some? && IsLeafPath(s.root.value, q)
    ensures var (p0, p1, p2) := NewArcs(s, q, site);
      s'.root == Some(SplitAt(s.root.value, q, |s.edges|, p0, p1, p2))
    ensures s'.queue == s.queue && s'.y == s.y && s'.nextEvent == s.nextEvent
    ensures s'.width == s.width && s'.height == s.height && s'.nextArc == s.nextArc + 3
    ensures Inv(s')
  {
    var t := s.root.value;
    var arc0 := Subtree(t, q).arc;
    var (p0, p1, p2) := NewArcs(s, q, site);
    var del := if arc0.id in s.pending then s.del + [s.pending[arc0.id]] else s.del;
    var start := Point(site.at.x, num.parabolaY(arc0.site.at, site.at.x, s.y));
    var n := |s.edges|;
    var el := NewEdge(start, arc0.site.at, site.at).(neighbor := Some(n + 1));
    var er := NewEdge(start, site.at, arc0.site.at);
    var s' := s.(root := Some(SplitAt(t, q, n, p0, p1, p2)), del := del, pending := s.pending - {arc0.id},
                 edges := s.edges + [el, er], output := s.output + [n], nextArc := s.nextArc + 3);
    assert s'.edges[..n] == s.edges;
    GrowKeepsInv(s, s', n);
    s'
  }

  /**
   * The split arc gives way, in place, to the three new arcs, the old site
   * on both sides of the new one; every other arc keeps its position
   * relative to the split.
   */
  lemma SplitLeafArcs(s: Sweep, q: Path, site: Site, num: Numerics)
    requires Inv(s) && s.root.Some? && IsLeafPath(s.root.value, q)
    ensures var k := |Before(s.root.value, q)|;
      var s' := SplitLeaf(s, q, site, num);
      var old0 := Subtree(s.root.value, q).arc.site;
      && k < |Arcs(s)| && Arcs(s)[k] == Subtree(s.root.value, q).arc
      && Arcs(s') == Arcs(s)[..k] + [Arc(s.nextArc, old0), Arc(s.nextArc + 1, site), Arc(s.nextArc + 2, old0)]
                     + Arcs(s)[k + 1..]
  {
    var old0 := Subtree(s.root.value, q).arc.site;
    var p0, p1, p2 := Arc(s.nextArc, old0), Arc(s.nextArc + 1, site), Arc(s.nextArc + 2, old0);
    assert NewArcs(s, q, site) == (p0, p1, p2);
    var t1 := SplitAt(s.root.value, q, |s.edges|, p0, p1, p2);
    assert SplitLeaf(s, q, site, num).root == Some(t1);
  }

  /**
   * After the split, the two outer new arcs, which carry the old site,
   * sit where the circle checks look for them, and there are two more arcs.
   */
  lemma SplitLeafOuter(s: Sweep, q: Path, site: Site, num: Numerics)
    requires Inv(s) && s.root.Some? && IsLeafPath(s.root.value, q)
    ensures var r := SplitLeaf(s, q, site, num).root.value;
      var old0 := Subtree(s.root.value, q).arc.site;
      && IsLeafPath(r, q + [false, false]) && Subtree(r, q + [false, false]) == Leaf(Arc(s.nextArc, old0))
      && IsLeafPath(r, q + [true]) && Subtree(r, q + [true]) == Leaf(Arc(s.nextArc + 2, old0))
      && |Leaves(r)| == |Leaves(s.root.value)| + 2
  {
    var old0 := Subtree(s.root.value, q).arc.site;
    var p0, p1, p2 := Arc(s.nextArc, old0), Arc(s.nextArc + 1, site), Arc(s.nextArc + 2, old0);
    assert NewArcs(s, q, site) == (p0, p1, p2);
    var t1 := SplitAt(s.root.value, q, |s.edges|, p0, p1, p2);
    assert SplitLeaf(s, q, site, num).root == Some(t1);
  }

  /**
   * The split arc's pending circle event goes to the tombstone list and is
   * cleared; two twin edges start at one point between the old site and
   * the new one, and only the first is returned.
   */
  lemma SplitLeafEdges(s: Sweep, q: Path, site: Site, num: Numerics)
    requires Inv(s) && s.root.Some? && IsLeafPath(s.root.value, q)
    ensures var arc0 := Subtree(s.root.value, q).arc;
      var s' := SplitLeaf(s, q, site, num);
      var n := |s.edges|;
      && s'.del == (if arc0.id in s.pending then s.del + [s.pending[arc0.id]] else s.del)
      && arc0.id !in s'.pending && s'.pending == s.pending - {arc0.id}
      && |s'.edges| == n + 2 && s'.edges[..n] == s.edges && s'.output == s.output + [n]
      && s'.edges[n].start == s'.edges[n + 1].start
      && s'.edges[n].neighbor == Some(n + 1) && s'.edges[n + 1].neighbor == None
      && s'.edges[n].left == arc0.site.at && s'.edges[n].right == site.at
      && s'.edges[n + 1].left == site.at && s'.edges[n + 1].right == arc0.site.at
  {
  }

  /** Extensions by circle events compose. */
  lemma ExtendsTrans(q1: seq<Event>, q2: seq<Event>, q3: seq<Event>, j: nat, k: nat)
    requires Extends(q1, q2, j) && Extends(q2, q3, k)
    ensures Extends(q1, q3, j + k)
  {
    assert q3[..|q1|] == q3[..|q2|][..|q1|];
    forall i | |q1| <= i < |q3| ensures !q3[i].isPlace && q3[i].y == q3[i].point.y {
      if i < |q2| {
        assert q3[i] == q3[..|q2|][i];
      }
    }
  }

  /**
   * A circle check queues at most one event, for the checked arc and below
   * the sweep line, and leaves the beachline and the edges alone.
   */
  lemma CheckArms(s: Sweep, b: Path, num: Numerics)
    requires s.root.Some? && IsLeafPath(s.root.value, b) && |b| > 0
    requires forall i :: i in NodeEdges(s.root.value) ==> i < |s.edges|
    ensures var s' := CheckCircle(s, b, num);
      && s'.root == s.root && s'.y == s.y && s'.edges == s.edges
      && Extends(s.queue, s'.queue, 1)
      && forall i :: |s.queue| <= i < |s'.queue| ==>
           s'.queue[i].arch == Some(Subtree(s.root.value, b).arc.id) && s'.queue[i].y < s.y
  {
  }

  /**
   * What a circle check of the arc `id` may do to the queue and the pending
   * events: nothing, or queue one event with the next fresh id that the arc
   * then holds. Every other arc's entry stays.
   */
  ghost predicate ArmsAt(s: Sweep, s': Sweep, id: nat) {
    && (forall a :: a != id ==> (a in s'.pending <==> a in s.pending))
    && (forall a :: a != id && a in s.pending ==> s'.pending[a] == s.pending[a])
    && |s.queue| <= |s'.queue| && s'.queue[..|s.queue|] == s.queue
    && if |s'.queue| == |s.queue| then s'.nextEvent == s.nextEvent && s'.pending == s.pending
       else
         && |s'.queue| == |s.queue| + 1 && s'.nextEvent == s.nextEvent + 1
         && s'.queue[|s.queue|].id == s.nextEvent && s'.queue[|s.queue|].arch == Some(id)
         && id in s'.pending && s'.pending[id] == s'.queue[|s.queue|]
  }

  /** A circle check does to `pending` and the queue only what `ArmsAt` allows. */
  lemma CheckHolds(s: Sweep, b: Path, num: Numerics)
    requires s.root.Some? && IsLeafPath(s.root.value, b) && |b| > 0
    requires forall i :: i in NodeEdges(s.root.value) ==> i < |s.edges|
    ensures ArmsAt(s, CheckCircle(s, b, num), Subtree(s.root.value, b).arc.id)
  {
  }

  /**
   * Two checks of different arcs in a row: each event they queue has a
   * fresh id and is held by its arc; no other arc's entry changes.
   */
  lemma ArmsTwice(s: Sweep, s2: Sweep, s3: Sweep, id1: nat, id2: nat)
    requires ArmsAt(s, s2, id1) && ArmsAt(s2, s3, id2)
    ensures forall a :: a != id1 && a != id2 ==> (a in s3.pending <==> a in s.pending)
    ensures forall a :: a != id1 && a != id2 && a in s.pending ==> s3.pending[a] == s.pending[a]
    ensures s.nextEvent <= s3.nextEvent
    ensures id1 != id2 ==> forall i :: |s.queue| <= i < |s3.queue| ==>
      && s.nextEvent <= s3.queue[i].id < s3.nextEvent
      && s3.queue[i].arch.Some? && s3.queue[i].arch.value in s3.pending
      && s3.pending[s3.queue[i].arch.value] == s3.queue[i]
  {
    if |s2.queue| > |s.queue| {
      assert s3.queue[|s.queue|] == s2.queue[|s.queue|] by {
        assert s3.queue[..|s2.queue|] == s2.queue;
      }
    }
  }

  /**
   * Two steps that each touch only the queue, the pending events and the
   * event counter, as a circle check does, compose into one such step.
   */
  lemma ChecksCompose(s: Sweep, s2: Sweep, s3: Sweep, id1: nat, id2: nat)
    requires s2.(queue := s.queue, pending := s.pending, nextEvent := s.nextEvent) == s
    requires s3.(queue := s2.queue, pending := s2.pending, nextEvent := s2.nextEvent) == s2
    requires Extends(s.queue, s2.queue, 1) && Extends(s2.queue, s3.queue, 1)
    requires ArmsAt(s, s2, id1) && ArmsAt(s2, s3, id2)
    ensures s3.(queue := s.queue, pending := s.pending, nextEvent := s.nextEvent) == s
    ensures Inv(s) ==> Inv(s3)
    ensures Extends(s.queue, s3.queue, 2)
    ensures forall a :: a != id1 && a != id2 ==> (a in s3.pending <==> a in s.pending)
    ensures forall a :: a != id1 && a != id2 && a in s.pending ==> s3.pending[a] == s.pending[a]
  {
    ArmsTwice(s, s2, s3, id1, id2);
    ExtendsTrans(s.queue, s2.queue, s3.queue, 1, 1);
    if Inv(s) {
      SameShapeKeepsInv(s, s3);
    }
  }

  /**
   * Two circle checks in a row, for the arcs at `b1` and `b2`: they change
   * nothing but the queue, the pending events and the event counter, and
   * append at most two circle events.
   */
  function CheckTwo(s: Sweep, b1: Path, b2: Path, num: Numerics): (s': Sweep)
    requires s.root.Some? && |b1| > 0 && |b2| > 0
    requires IsLeafPath(s.root.value, b1) && IsLeafPath(s.root.value, b2)
    requires forall i :: i in NodeEdges(s.root.value) ==> i < |s.edges|
    ensures s'.(queue := s.queue, pending := s.pending, nextEvent := s.nextEvent) == s
    ensures s'.root == s.root && s'.edges == s.edges && s'.output == s.output && s'.y == s.y
    ensures s'.nextArc == s.nextArc && s'.width == s.width && s'.height == s.height
    ensures Inv(s) ==> Inv(s')
    ensures Extends(s.queue, s'.queue, 2)
    // arcs other than the two checked ones keep the events they hold
    ensures var id1, id2 := Subtree(s.root.value, b1).arc.id, Subtree(s.root.value, b2).arc.id;
      forall a :: a != id1 && a != id2 ==> (a in s'.pending <==> a in s.pending)
    ensures var id1, id2 := Subtree(s.root.value, b1).arc.id, Subtree(s.root.value, b2).arc.id;
      forall a :: a != id1 && a != id2 && a in s.pending ==> s'.pending[a] == s.pending[a]
  {
    var s2 := CheckCircle(s, b1, num);
    var s3 := CheckCircle(s2, b2, num);
    CheckHolds(s, b1, num);
    CheckHolds(s2, b2, num);
    ChecksCompose(s, s2, s3, Subtree(s.root.value, b1).arc.id, Subtree(s.root.value, b2).arc.id);
    s3
  }

  /**
   * Two circle checks in a row queue events only for the two checked arcs,
   * and only below the sweep line.
   */
  lemma CheckTwoArms(s: Sweep, b1: Path, b2: Path, num: Numerics)
    requires s.root.Some? && |b1| > 0 && |b2| > 0
    requires IsLeafPath(s.root.value, b1) && IsLeafPath(s.root.value, b2)
    requires forall i :: i in NodeEdges(s.root.value) ==> i < |s.edges|
    ensures var s' := CheckTwo(s, b1, b2, num);
      var t := s.root.value;
      forall i :: |s.queue| <= i < |s'.queue| ==>
        && (s'.queue[i].arch == Some(Subtree(t, b1).arc.id) || s'.queue[i].arch == Some(Subtree(t, b2).arc.id))
        && s'.queue[i].y < s.y
  {
    var s2 := CheckCircle(s, b1, num);
    CheckArms(s, b1, num);
    CheckArms(s2, b2, num);
    var s3 := CheckCircle(s2, b2, num);
    assert CheckTwo(s, b1, b2, num) == s3;
    forall i | |s.queue| <= i < |s2.queue| ensures s3.queue[i] == s2.queue[i] {
      assert s3.queue[i] == s3.queue[..|s2.queue|][i];
    }
  }

  /**
   * Two circle checks of two different arcs: every event they queue has a
   * fresh id and is the one its arc holds afterwards.
   */
  lemma CheckTwoHolds(s: Sweep, b1: Path, b2: Path, num: Numerics)
    requires s.root.Some? && |b1| > 0 && |b2| > 0
    requires IsLeafPath(s.root.value, b1) && IsLeafPath(s.root.value, b2)
    requires forall i :: i in NodeEdges(s.root.value) ==> i < |s.edges|
    requires Subtree(s.root.value, b1).arc.id != Subtree(s.root.value, b2).arc.id
    ensures var s' := CheckTwo(s, b1, b2, num);
      && s.nextEvent <= s'.nextEvent
      && forall i :: |s.queue| <= i < |s'.queue| ==>
           && s.nextEvent <= s'.queue[i].id < s'.nextEvent
           && s'.queue[i].arch.Some? && s'.queue[i].arch.value in s'.pending
           && s'.pending[s'.queue[i].arch.value] == s'.queue[i]
  {
    var s2 := CheckCircle(s, b1, num);
    CheckArms(s, b1, num);
    var s3 := CheckCircle(s2, b2, num);
    assert CheckTwo(s, b1, b2, num) == s3;
    CheckHolds(s, b1, num);
    CheckHolds(s2, b2, num);
    ArmsTwice(s, s2, s3, Subtree(s.root.value, b1).arc.id, Subtree(s.root.value, b2).arc.id);
  }
}
