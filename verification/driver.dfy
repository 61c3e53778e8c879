/**
 * The sweep itself: the queue is seeded with one site event per input
 * point, events are popped highest first and dispatched until the queue
 * is empty, and the open edges are then finished.
 */
module Voronoi {
  import opened Outcomes
  import opened Geometry
  import opened Beachline
  import opened Navigation
  import EventList
  import EventQueue
  import opened Engine
  import opened Insertion
  import opened Removal
  import opened Finish

  /**
   * What an event is worth to the termination argument: a site event can
   * add up to two arcs and two circle events, so it outweighs them.
   */
  function Cost(e: Event): nat {
    if e.isPlace then 7 else 1
  }

  /** The total worth of the queued events. */
  function Weight(q: seq<Event>): nat {
    if |q| == 0 then 0 else Cost(q[0]) + Weight(q[1..])
  }

  /** Weight adds up over concatenation. */
  lemma {:induction false} WeightAppend(a: seq<Event>, b: seq<Event>)
    ensures Weight(a + b) == Weight(a) + Weight(b)
    decreases |a|
  {
    if |a| > 0 {
      assert (a + b)[1..] == a[1..] + b;
      WeightAppend(a[1..], b);
    } else {
      assert a + b == b;
    }
  }

  /** A queue of circle events weighs one per event. */
  lemma {:induction false} WeightOfCircles(q: seq<Event>)
    requires forall i :: 0 <= i < |q| ==> !q[i].isPlace
    ensures Weight(q) == |q|
    decreases |q|
  {
    if |q| > 0 {
      WeightOfCircles(q[1..]);
    }
  }

  /** Appending at most `k` circle events adds at most `k` to the weight. */
  lemma WeightExtends(q1: seq<Event>, q2: seq<Event>, k: nat)
    requires Extends(q1, q2, k)
    ensures Weight(q2) <= Weight(q1) + k
  {
    var tail := q2[|q1|..];
    assert q2 == q1 + tail;
    WeightAppend(q1, tail);
    WeightOfCircles(tail);
  }

  /** A sequence is what comes before position `i`, the element there, and the rest. */
  lemma Around<T>(q: seq<T>, i: nat)
    requires i < |q|
    ensures q == (q[..i] + [q[i]]) + q[i + 1..]
  {
  }

  /** Popping takes exactly the popped event's worth off the queue. */
  lemma WeightPop(q: seq<Event>)
    requires |q| > 0
    ensures Weight(EventQueue.Pop(q).1) + Cost(EventQueue.Pop(q).0) == Weight(q)
  {
    var i := EventQueue.Top(q);
    var a, x, b := q[..i], q[i], q[i + 1..];
    Around(q, i);
    assert Weight([x]) == Cost(x) by {
      assert [x][1..] == [];
    }
    WeightAppend(a + [x], b);
    WeightAppend(a, [x]);
    WeightAppend(a, b);
    assert EventQueue.Pop(q) == (x, a + b);
  }

  /** Decreases with every event handled: queued worth plus two per arc. */
  function Measure(s: Sweep): nat {
    Weight(s.queue) + 2 * |Arcs(s)|
  }

  /**
   * The state before the sweep: one site event per input point, pushed in
   * input order, whose identity is the point's position in the input.
   */
  function Seed(places: seq<Point>, width: real, height: real): (s: Sweep)
    ensures |s.queue| == |places|
    ensures forall i :: 0 <= i < |places| ==>
      s.queue[i].isPlace && s.queue[i].point == places[i] && s.queue[i].id == i && s.queue[i].arch.None?
    ensures s.root.None? && s.del == [] && s.edges == [] && s.output == []
    ensures s.width == width && s.height == height
    ensures Inv(s) && Keyed(s.queue)
  {
    var queue := seq(|places|, i requires 0 <= i < |places| => NewEvent(i, places[i], true));
    Sweep(width, height, None, 0.0, [], queue, map[], [], [], 0, |places|)
  }

  /**
   * What an event that is not tombstoned does to the state with the
   * sweep line already at it: a site event inserts an arc, a circle event
   * removes one.
   */
  function Handle(s: Sweep, e: Event, num: Numerics): (r: Result<Sweep, Fault>)
    requires Inv(s)
    ensures e.isPlace ==> r == Success(InsertParabola(s, Site(e.id, e.point), num))
    ensures !e.isPlace ==> r == RemoveParabola(s, e, num)
    ensures r.Success? ==> Inv(r.value) && Measure(r.value) < Measure(s) + Cost(e)
    ensures r.Success? ==> r.value.width == s.width && r.value.height == s.height
    ensures r.Success? && s.root.Some? ==> r.value.root.Some?
    ensures e.isPlace ==> r.Success? && r.value.root.Some?
    ensures r.Failure? ==> r.error != EmptyBeachline
  {
    if e.isPlace then
      var s' := InsertParabola(s, Site(e.id, e.point), num);
      WeightExtends(s.queue, s'.queue, 2);
      Success(s')
    else
      var r := RemoveParabola(s, e, num);
      if r.Success? then
        WeightExtends(s.queue, r.value.queue, 2);
        r
      else r
  }

  /**
   * One turn of the sweep: the highest event is popped and the sweep line
   * moves to it; a tombstoned event is dropped from the tombstone list and
   * skipped, a site event inserts an arc, and a circle event removes one.
   */
  function Step(s: Sweep, num: Numerics): (r: Result<Sweep, Fault>)
    requires Inv(s) && |s.queue| > 0
    ensures var (e, rest) := EventQueue.Pop(s.queue);
      var s1 := s.(queue := rest, y := e.point.y);
      && (e in s.del ==> r == Success(s1.(del := EventList.Remove(s.del, e).0)))
      && (e !in s.del ==> Inv(s1) && r == Handle(s1, e, num))
    ensures r.Success? ==> Inv(r.value) && Measure(r.value) < Measure(s)
    ensures r.Success? ==> r.value.width == s.width && r.value.height == s.height
    ensures r.Success? && s.root.Some? ==> r.value.root.Some?
    ensures EventQueue.Pop(s.queue).0.isPlace && s.del == [] ==> r.Success? && r.value.root.Some?
    ensures r.Failure? ==> r.error != EmptyBeachline
  {
    var (e, rest) := EventQueue.Pop(s.queue);
    var s1 := s.(queue := rest, y := e.point.y);
    WeightPop(s.queue);
    SameShapeKeepsInv(s, s1);
    assert Measure(s) == Measure(s1) + Cost(e) by {
      assert Arcs(s1) == Arcs(s);
    }
    if EventList.Find(s.del, e) != -1 then
      var skipped := s1.(del := EventList.Remove(s.del, e).0);
      SameShapeKeepsInv(s, skipped);
      assert Measure(skipped) == Measure(s1) by {
        assert Arcs(skipped) == Arcs(s1);
      }
      Success(skipped)
    else
      Handle(s1, e, num)
  }

  /** Steps until the queue is empty or a fault stops the sweep. */
  function Run(s: Sweep, num: Numerics): (r: Result<Sweep, Fault>)
    requires Inv(s)
    ensures r.Success? ==> Inv(r.value) && |r.value.queue| == 0
    ensures r.Success? ==> r.value.width == s.width && r.value.height == s.height
    ensures r.Success? && s.root.Some? ==> r.value.root.Some?
    ensures r.Failure? ==> r.error != EmptyBeachline
    decreases Measure(s)
  {
    if |s.queue| == 0 then Success(s)
    else
      match Step(s, num)
      case Failure(f) => Failure(f)
      case Success(s') => Run(s', num)
  }

  /**
   * The arena after the sweep: every edge still traced by a breakpoint is
   * clamped, so every edge has an end.
   */
  function Finished(s: Sweep): (r: seq<Edge>)
    requires Inv(s) && s.root.Some?
    ensures |r| == |s.edges|
    ensures forall i :: 0 <= i < |r| ==>
      r[i] == if i in Traced(s) then Clamp(s.edges[i], s.width, s.height) else s.edges[i]
    ensures forall i :: 0 <= i < |r| ==> r[i].end.Some?
    ensures forall i :: 0 <= i < |r| ==> r[i].neighbor == s.edges[i].neighbor
  {
    assert Traced(s) == NodeEdges(s.root.value);
    FinishTree(s.root.value, s.edges, s.width, s.height)
  }

  /**
   * The returned edges, in the order they were created: each with an end,
   * and each half-edge that had a twin starting at the twin's end.
   */
  function Output(s: Sweep): (r: seq<Edge>)
    requires Inv(s) && s.root.Some?
    ensures |r| == |s.output|
    ensures forall k :: 0 <= k < |r| ==> r[k].end.Some? && r[k].neighbor.None?
    ensures forall k :: 0 <= k < |r| ==>
      var e := Finished(s)[s.output[k]];
      r[k] == if e.neighbor.Some? then e.(start := Finished(s)[e.neighbor.value].end.value, neighbor := None) else e
  {
    var finished := Finished(s);
    var joined := JoinNeighbors(finished, s.output);
    seq(|s.output|, k requires 0 <= k < |s.output| => joined[s.output[k]])
  }

  /**
   * The edges of the diagram of `places` in the box of the given size:
   * the sweep, then every open edge given an end by `Clamp`, then every
   * returned half-edge started at its twin's far end.
   */
  function GetEdges(places: seq<Point>, width: real, height: real, num: Numerics): (r: Result<seq<Edge>, Fault>)
    ensures |places| == 0 ==> r == Failure(EmptyBeachline)
    ensures r.Success? ==> forall k :: 0 <= k < |r.value| ==> r.value[k].end.Some? && r.value[k].neighbor.None?
  {
    match Run(Seed(places, width, height), num)
    case Failure(f) => Failure(f)
    case Success(s) => if s.root.None? then Failure(EmptyBeachline) else Success(Output(s))
  }

  /** Every queued event is keyed by the Y of its point. */
  predicate Keyed(q: seq<Event>) {
    forall i :: 0 <= i < |q| ==> q[i].y == q[i].point.y
  }

  /** No queued event lies above the sweep line. */
  predicate Behind(s: Sweep) {
    forall i :: 0 <= i < |s.queue| ==> s.queue[i].y <= s.y
  }

  /** Appending keyed events keeps a queue keyed. */
  lemma ExtendsKeyed(q1: seq<Event>, q2: seq<Event>, k: nat)
    requires Keyed(q1) && Extends(q1, q2, k)
    ensures Keyed(q2)
  {
    forall i | 0 <= i < |q2| ensures q2[i].y == q2[i].point.y {
      if i < |q1| {
        assert q2[i] == q2[..|q1|][i];
      }
    }
  }

  /**
   * The queue after a step, the rest of the popped queue plus events
   * below the popped one, holds nothing above the popped event.
   */
  lemma QueueBelow(rest: seq<Event>, q: seq<Event>, k: nat, y: real)
    requires Keyed(rest) && Extends(rest, q, k)
    requires forall j :: 0 <= j < |rest| ==> rest[j].y <= y
    requires forall i :: |rest| <= i < |q| ==> q[i].y < y
    ensures Keyed(q) && forall i :: 0 <= i < |q| ==> q[i].y <= y
  {
    ExtendsKeyed(rest, q, k);
    forall i | 0 <= i < |rest| ensures q[i].y <= y {
      assert q[i] == q[..|rest|][i];
    }
  }

  /**
   * The popped event is keyed by its point's Y, and what stays queued is
   * keyed and no higher.
   */
  lemma PopKeyed(q: seq<Event>)
    requires |q| > 0 && Keyed(q)
    ensures var (e, rest) := EventQueue.Pop(q);
      && e.y == e.point.y && Keyed(rest)
      && forall j :: 0 <= j < |rest| ==> rest[j].y <= e.y
  {
    var (e, rest) := EventQueue.Pop(q);
    var i :| 0 <= i < |q| && q[i] == e;
    forall j | 0 <= j < |rest| ensures rest[j].y <= e.y && rest[j].y == rest[j].point.y {
      assert rest[j] in multiset(q) by {
        assert rest[j] in multiset(rest);
      }
    }
  }

  /** A site event's insertion keeps the queue keyed and behind the sweep line. */
  lemma PlaceBehind(s: Sweep, site: Site, num: Numerics)
    requires Inv(s) && Keyed(s.queue) && Behind(s)
    ensures var s' := InsertParabola(s, site, num);
      Keyed(s'.queue) && Behind(s') && s'.y == s.y
  {
    QueueBelow(s.queue, InsertParabola(s, site, num).queue, 2, s.y);
  }

  /** A circle event's removal keeps the queue keyed and behind the sweep line. */
  lemma CircleBehind(s: Sweep, e: Event, num: Numerics)
    requires Inv(s) && Keyed(s.queue) && Behind(s)
    ensures var r := RemoveParabola(s, e, num);
      r.Success? ==> Keyed(r.value.queue) && Behind(r.value) && r.value.y == s.y
  {
    var r := RemoveParabola(s, e, num);
    if r.Success? {
      QueueBelow(s.queue, r.value.queue, 2, s.y);
    }
  }

  /** Handling an event keeps the queue keyed and behind the sweep line. */
  lemma HandleBehind(s: Sweep, e: Event, num: Numerics)
    requires Inv(s) && Keyed(s.queue) && Behind(s)
    ensures var r := Handle(s, e, num);
      r.Success? ==> Keyed(r.value.queue) && Behind(r.value) && r.value.y == s.y
  {
    if e.isPlace {
      PlaceBehind(s, Site(e.id, e.point), num);
    } else {
      CircleBehind(s, e, num);
    }
  }

  /**
   * After every step nothing queued lies above the sweep line, and when
   * that held before, the sweep line has not moved up: the sweep visits
   * the events from high Y to low Y.
   */
  lemma StepSweepsDown(s: Sweep, num: Numerics)
    requires Inv(s) && |s.queue| > 0 && Keyed(s.queue)
    ensures Step(s, num).Success? ==> Keyed(Step(s, num).value.queue) && Behind(Step(s, num).value)
    ensures Step(s, num).Success? && Behind(s) ==> Step(s, num).value.y <= s.y
  {
    var (e, rest) := EventQueue.Pop(s.queue);
    var s1 := s.(queue := rest, y := e.point.y);
    PopKeyed(s.queue);
    assert Behind(s1) && Keyed(s1.queue);
    if e !in s.del {
      SameShapeKeepsInv(s, s1);
      HandleBehind(s1, e, num);
    }
    if Behind(s) {
      assert e in s.queue;
    }
  }

  /** A non-empty input always leaves a beachline to finish. */
  lemma NonEmptyHasBeachline(places: seq<Point>, width: real, height: real, num: Numerics)
    requires |places| > 0
    ensures GetEdges(places, width, height, num) != Failure(EmptyBeachline)
  {
    var s := Seed(places, width, height);
    assert EventQueue.Pop(s.queue).0.isPlace by {
      var e := EventQueue.Pop(s.queue).0;
      var j :| 0 <= j < |s.queue| && s.queue[j] == e;
    }
    var s' := Step(s, num).value;
    assert s'.root.Some?;
    assert Run(s, num) == Run(s', num);
  }

  /** The sweep of a single site: one arc, no edge, an empty queue. */
  lemma SingleSiteSweep(p: Point, width: real, height: real, num: Numerics)
    ensures var s := Seed([p], width, height);
      && Run(s, num).Success? && Run(s, num).value.root.Some? && Run(s, num).value.output == []
  {
    var s := Seed([p], width, height);
    assert EventQueue.Pop(s.queue) == (s.queue[0], []);
    var s' := Step(s, num).value;
    assert s'.queue == [] && s'.output == [] && s'.root.Some?;
    assert Run(s, num) == Run(s', num);
  }

  /** A single site has no neighbour to share an edge with. */
  lemma SingleSiteHasNoEdges(p: Point, width: real, height: real, num: Numerics)
    ensures GetEdges([p], width, height, num) == Success([])
  {
    SingleSiteSweep(p, width, height, num);
  }
}
