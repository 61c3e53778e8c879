/**
 * Circle events: an arc squeezed to a point leaves the beachline, the two
 * edges beside it end at a Voronoi vertex and a new edge starts there.
 */
module Removal {
  import opened Outcomes
  import opened Geometry
  import opened Beachline
  import opened Navigation
  import opened Pruning
  import opened Engine

  /**
   * An arc with breakpoints on both sides: one of them is its parent, the
   * other lies strictly higher, and they are told apart by their depth.
   */
  lemma {:induction false} ParentsOfArc(p: Path)
    requires |p| > 0 && LeftParent(p).Some? && RightParent(p).Some?
    ensures var xl, xr := LeftParent(p).value, RightParent(p).value;
      && |xl| != |xr|
      && (if |xl| < |xr| then xr else xl) == p[..|p| - 1]
      && (if |xl| < |xr| then |xl| else |xr|) < |p| - 1
  {
    var xl, xr := LeftParent(p).value, RightParent(p).value;
    assert p[|xl|] && !p[|xr|];
    if p[|p| - 1] {
      assert |xl| == |p| - 1;
    } else {
      assert |xr| == |p| - 1;
    }
  }

  /**
   * An arc has a breakpoint on its left exactly when it is not the first
   * arc, and one on its right exactly when it is not the last; the arcs
   * under those breakpoints are its neighbours in the left-to-right order.
   */
  lemma ArcNeighbours(t: Beach, p: Path)
    requires IsLeafPath(t, p) && |p| > 0
    ensures var k := |Before(t, p)|;
      && k < |Leaves(t)| && Leaves(t)[k] == Subtree(t, p).arc
      && (LeftParent(p).None? <==> k == 0)
      && (RightParent(p).None? <==> k == |Leaves(t)| - 1)
    ensures LeftParent(p).Some? ==>
      && IsNodePath(t, LeftParent(p).value)
      && 0 < |Before(t, p)| < |Leaves(t)|
      && Subtree(t, LeftChild(t, LeftParent(p).value)).arc == Leaves(t)[|Before(t, p)| - 1]
    ensures RightParent(p).Some? ==>
      && IsNodePath(t, RightParent(p).value)
      && |Before(t, p)| + 1 < |Leaves(t)|
      && Subtree(t, RightChild(t, RightParent(p).value)).arc == Leaves(t)[|Before(t, p)| + 1]
  {
    var k := |Before(t, p)|;
    LeafPathAtRank(t, p);
    GetLeftIsPredecessor(t, k);
    GetRightIsSuccessor(t, k);
    LeafPathsReachLeaves(t);
    if LeftParent(p).Some? {
      PathSplit(t, p, |LeftParent(p).value|);
    }
    if RightParent(p).Some? {
      PathSplit(t, p, |RightParent(p).value|);
    }
  }

  /** The higher of the two breakpoints beside the arc at `p`. */
  function Higher(p: Path): (h: Path)
    requires |p| > 0 && LeftParent(p).Some? && RightParent(p).Some?
    ensures h == LeftParent(p).value || h == RightParent(p).value
    ensures |h| < |p| - 1 && h == p[..|h|]
  {
    ParentsOfArc(p);
    var xl, xr := LeftParent(p).value, RightParent(p).value;
    if |xl| < |xr| then xl else xr
  }

  /**
   * Giving the higher breakpoint a new edge changes nothing on the way
   * down to the arc: the arc, the arcs before it and its parent's edge.
   */
  lemma RelabelHigher(t: Beach, p: Path, n: nat)
    requires IsLeafPath(t, p) && |p| > 0 && LeftParent(p).Some? && RightParent(p).Some?
    ensures IsNodePath(t, Higher(p)) && IsNodePath(t, p[..|p| - 1])
    ensures var t1 := Relabel(t, Higher(p), n);
      && IsLeafPath(t1, p) && Subtree(t1, p) == Subtree(t, p)
      && Before(t1, p) == Before(t, p)
      && IsNodePath(t1, p[..|p| - 1])
      && Subtree(t1, p[..|p| - 1]).edge == Subtree(t, p[..|p| - 1]).edge
  {
    var h := Higher(p);
    var l := p[..|p| - 1];
    PathSplit(t, p, |h|);
    PathSplit(t, p, |l|);
    var t1 := Relabel(t, h, n);
    assert t1 == ReplaceAt(t, h, Subtree(t, h).(edge := n));
    assert IsLeafPath(t1, p) && Subtree(t1, p) == Subtree(t, p) && Before(t1, p) == Before(t, p) by {
      var q := p[|h|..];
      PrefixThenRest(p, h);
      SetEdgeKeepsBelow(t, h, n, q);
    }
    assert IsNodePath(t1, l) && Subtree(t1, l).edge == Subtree(t, l).edge by {
      var q := l[|h|..];
      assert l[..|h|] == h;
      PrefixThenRest(l, h);
      PathSplit(t, l, |h|);
      SetEdgeKeepsBelow(t, h, n, q);
    }
  }

  /**
   * The beachline after the arc at `p` vanishes: the higher breakpoint
   * beside it traces the new edge `n`, the lower one, its parent, is
   * replaced by its sibling. The arc leaves the left-to-right order, and
   * the two old edges beside it are the only ones no longer traced.
   */
  function RemovalTree(t: Beach, p: Path, n: nat): (r: Beach)
    requires IsLeafPath(t, p) && |p| > 0 && LeftParent(p).Some? && RightParent(p).Some?
    ensures IsNodePath(t, LeftParent(p).value) && IsNodePath(t, RightParent(p).value)
    ensures NodeEdges(t) - {Subtree(t, LeftParent(p).value).edge, Subtree(t, RightParent(p).value).edge}
            <= NodeEdges(r) <= NodeEdges(t) + {n}
    ensures n in NodeEdges(r)
  {
    var h := Higher(p);
    ParentsOfArc(p);
    RelabelHigher(t, p, n);
    var t1 := Relabel(t, h, n);
    PruneKeepsAncestors(t1, p, |h|);
    assert p[..|h|] == h;
    PathSplit(t, p, |LeftParent(p).value|);
    PathSplit(t, p, |RightParent(p).value|);
    Prune(t1, p)
  }

  /** The vanished arc leaves the left-to-right order; nothing else moves. */
  lemma RemovalTreeLeaves(t: Beach, p: Path, n: nat)
    requires IsLeafPath(t, p) && |p| > 0 && LeftParent(p).Some? && RightParent(p).Some?
    ensures var k := |Before(t, p)|;
      && k < |Leaves(t)| && Leaves(t)[k] == Subtree(t, p).arc
      && Leaves(RemovalTree(t, p, n)) == Leaves(t)[..k] + Leaves(t)[k + 1..]
    ensures forall a :: a in Leaves(RemovalTree(t, p, n)) ==> a in Leaves(t)
  {
    RelabelHigher(t, p, n);
    PruneLeaves(Relabel(t, Higher(p), n), p);
    DropKeepsOthers(Leaves(t), |Before(t, p)|);
  }

  /**
   * The arc `arc` gives up its pending circle event: the event goes to the
   * front of the tombstone list and the arc holds none.
   */
  function Bury(s: Sweep, arc: nat): (s': Sweep)
    ensures s'.del == (if arc in s.pending then [s.pending[arc]] else []) + s.del
    ensures arc !in s'.pending && forall a :: a != arc && a in s.pending ==> a in s'.pending && s'.pending[a] == s.pending[a]
    ensures s'.(del := s.del, pending := s.pending) == s
  {
    if arc in s.pending then s.(del := [s.pending[arc]] + s.del, pending := s.pending - {arc}) else s
  }

  /**
   * A state that closes two traced edges, appends one new edge traced by
   * a breakpoint, and keeps only arcs it already had, keeps the invariant.
   */
  lemma CloseKeepsInv(s: Sweep, s': Sweep, el: nat, er: nat)
    requires Inv(s) && s.root.Some? && s'.root.Some?
    requires |s'.edges| == |s.edges| + 1 && s'.output == s.output + [|s.edges|]
    requires forall i :: 0 <= i < |s.edges| ==> s'.edges[i].neighbor == s.edges[i].neighbor
    requires forall i :: 0 <= i < |s.edges| && i != el && i != er ==> s'.edges[i] == s.edges[i]
    requires el < |s.edges| && er < |s.edges| && s'.edges[el].end.Some? && s'.edges[er].end.Some?
    requires s'.edges[|s.edges|].neighbor.None?
    requires NodeEdges(s.root.value) - {el, er} <= NodeEdges(s'.root.value) <= NodeEdges(s.root.value) + {|s.edges|}
    requires |s.edges| in NodeEdges(s'.root.value)
    requires s'.nextArc == s.nextArc && forall a :: a in Arcs(s') ==> a in Arcs(s)
    ensures Inv(s')
  {
    forall i | 0 <= i < |s'.edges| ensures s'.edges[i].end.Some? || i in Traced(s') {
      if i < |s.edges| && i != el && i != er {
        assert s'.edges[i] == s.edges[i];
      }
    }
  }

  /** The edges `el` and `er` end at `v`; every other edge stays. */
  function CloseEdges(edges: seq<Edge>, el: nat, er: nat, v: Point): (r: seq<Edge>)
    requires el < |edges| && er < |edges|
    ensures |r| == |edges|
    ensures forall i :: 0 <= i < |edges| ==>
      r[i] == if i == el || i == er then edges[i].(end := Some(v)) else edges[i]
  {
    var edges1 := edges[el := edges[el].(end := Some(v))];
    edges1[er := edges1[er].(end := Some(v))]
  }

  /**
   * The arc at `p` vanishes at the circle event `e`, before the circle
   * checks: the pending events of its two neighbours go to the front of
   * the tombstone list, the edges of the two breakpoints beside it end at
   * the vertex under the event, and a new edge between the neighbours'
   * sites starts there, traced by the higher breakpoint.
   */
  function Collapse(s: Sweep, p: Path, e: Event, num: Numerics): (s': Sweep)
    requires Inv(s) && s.root.Some? && IsLeafPath(s.root.value, p) && |p| > 0
    requires LeftParent(p).Some? && RightParent(p).Some?
    ensures s'.root == Some(RemovalTree(s.root.value, p, |s.edges|))
    ensures |Arcs(s')| + 1 == |Arcs(s)|
    ensures s'.queue == s.queue && s'.y == s.y && s'.nextArc == s.nextArc && s'.nextEvent == s.nextEvent
    ensures s'.width == s.width && s'.height == s.height
    ensures Inv(s')
  {
    var t := s.root.value;
    var xl, xr := LeftParent(p).value, RightParent(p).value;
    var t' := RemovalTree(t, p, |s.edges|);
    var p0 := Subtree(t, LeftChild(t, xl)).arc;
    var p2 := Subtree(t, RightChild(t, xr)).arc;
    var p1 := Subtree(t, p).arc;
    var s1 := Bury(Bury(s, p0.id), p2.id);
    var v := Point(e.point.x, num.parabolaY(p1.site.at, e.point.x, s.y));
    var el, er := Subtree(t, xl).edge, Subtree(t, xr).edge;
    var s' := s1.(root := Some(t'),
                 edges := CloseEdges(s.edges, el, er, v) + [NewEdge(v, p0.site.at, p2.site.at)],
                 output := s.output + [|s.edges|]);
    RemovalTreeLeaves(t, p, |s.edges|);
    CloseKeepsInv(s, s', el, er);
    s'
  }

  /**
   * The arena and output list a removal leaves, in terms of the tree:
   * the edges of the two breakpoints beside the arc end at the vertex,
   * and the new edge runs between the arcs under them.
   */
  lemma CollapseArena(s: Sweep, p: Path, e: Event, num: Numerics)
    requires Inv(s) && s.root.Some? && IsLeafPath(s.root.value, p) && |p| > 0
    requires LeftParent(p).Some? && RightParent(p).Some?
    requires IsNodePath(s.root.value, LeftParent(p).value) && IsNodePath(s.root.value, RightParent(p).value)
    ensures var t := s.root.value;
      var xl, xr := LeftParent(p).value, RightParent(p).value;
      var v := Point(e.point.x, num.parabolaY(Subtree(t, p).arc.site.at, e.point.x, s.y));
      var el, er := Subtree(t, xl).edge, Subtree(t, xr).edge;
      var s' := Collapse(s, p, e, num);
      var n := |s.edges|;
      && |s'.edges| == n + 1 && s'.output == s.output + [n]
      && el < n && er < n && s'.edges[el].end == Some(v) && s'.edges[er].end == Some(v)
      && (forall i :: 0 <= i < n && i != el && i != er ==> s'.edges[i] == s.edges[i])
      && s'.edges[n] == NewEdge(v, Subtree(t, LeftChild(t, xl)).arc.site.at, Subtree(t, RightChild(t, xr)).arc.site.at)
  {
    var t := s.root.value;
    var xl, xr := LeftParent(p).value, RightParent(p).value;
    SubtreeEdges(t, xl);
    SubtreeEdges(t, xr);
    assert Subtree(t, xl).edge in NodeEdges(t) && Subtree(t, xr).edge in NodeEdges(t);
    var v := Point(e.point.x, num.parabolaY(Subtree(t, p).arc.site.at, e.point.x, s.y));
    var closed := CloseEdges(s.edges, Subtree(t, xl).edge, Subtree(t, xr).edge, v);
    var added := NewEdge(v, Subtree(t, LeftChild(t, xl)).arc.site.at, Subtree(t, RightChild(t, xr)).arc.site.at);
    assert Collapse(s, p, e, num).edges == closed + [added];
  }

  /**
   * After a removal, the arcs now at positions `k - 1` and `k`, the former
   * neighbours of the vanished arc, are checked for a circle event.
   */
  function Recheck(s: Sweep, k: nat, num: Numerics): (s': Sweep)
    requires Inv(s) && s.root.Some? && 0 < k < |Leaves(s.root.value)|
    ensures s'.(queue := s.queue, pending := s.pending, nextEvent := s.nextEvent) == s
    ensures s'.root == s.root && s'.edges == s.edges && s'.output == s.output && s'.y == s.y
    ensures s'.nextArc == s.nextArc && s'.width == s.width && s'.height == s.height && Inv(s')
    ensures Extends(s.queue, s'.queue, 2)
    ensures forall i :: |s.queue| <= i < |s'.queue| ==>
      && (s'.queue[i].arch == Some(Leaves(s.root.value)[k - 1].id) || s'.queue[i].arch == Some(Leaves(s.root.value)[k].id))
      && s'.queue[i].y < s.y
  {
    var t := s.root.value;
    LeafPathAt(t, k - 1);
    LeafPathAt(t, k);
    NodeLeafPathsAreLong(t, k - 1);
    NodeLeafPathsAreLong(t, k);
    CheckTwoArms(s, LeafPaths(t)[k - 1], LeafPaths(t)[k], num);
    CheckTwo(s, LeafPaths(t)[k - 1], LeafPaths(t)[k], num)
  }

  /** The leaf of the arc a circle event belongs to, if it is still in the beachline. */
  function Locate(s: Sweep, e: Event): (r: Option<Path>)
    ensures r.Some? ==> s.root.Some? && IsLeafPath(s.root.value, r.value)
    ensures r.Some? ==> e.arch == Some(Subtree(s.root.value, r.value).arc.id)
    ensures r.None? <==> s.root.None? || e.arch.None? || forall a :: a in Arcs(s) ==> a.id != e.arch.value
  {
    if s.root.None? || e.arch.None? then None
    else
      var r := FindArc(s.root.value, e.arch.value);
      if r.None? then r
      else
        LeavesAround(s.root.value, r.value);
        assert Leaves(Subtree(s.root.value, r.value)) == [Subtree(s.root.value, r.value).arc];
        r
  }

  /** The arc at `p` can vanish: it is not the root and has a breakpoint on each side. */
  predicate Removable(s: Sweep, p: Path) {
    s.root.Some? && IsLeafPath(s.root.value, p) && |p| > 0 && LeftParent(p).Some? && RightParent(p).Some?
  }

  /**
   * The arc at `p` vanishes at circle event `e`, and its two former
   * neighbours, now adjacent, are checked for circle events.
   */
  function Vanish(s: Sweep, p: Path, e: Event, num: Numerics): (s': Sweep)
    requires Inv(s) && Removable(s, p)
    ensures Inv(s') && Extends(s.queue, s'.queue, 2) && |Arcs(s')| + 1 == |Arcs(s)|
    ensures forall i :: |s.queue| <= i < |s'.queue| ==> s'.queue[i].y < s.y
    ensures s'.root.Some?
    ensures s'.y == s.y && s'.width == s.width && s'.height == s.height && s'.nextArc == s.nextArc
  {
    var k := |Before(s.root.value, p)|;
    ArcNeighbours(s.root.value, p);
    var s1 := Collapse(s, p, e, num);
    Recheck(s1, k, num)
  }

  /**
   * A circle event: the arc it belongs to leaves the beachline. The source
   * dereferences nil where the arc is gone, is the root, or lacks a
   * breakpoint on one side; those are the faults.
   */
  function RemoveParabola(s: Sweep, e: Event, num: Numerics): (r: Result<Sweep, Fault>)
    requires Inv(s)
    ensures r == Failure(ArcNotInBeachline) <==> Locate(s, e).None?
    ensures r == Failure(RootArc) <==> Locate(s, e) == Some([])
    ensures r == Failure(MissingNeighbour) <==>
      && Locate(s, e).Some? && Locate(s, e) != Some([])
      && var k := |Before(s.root.value, Locate(s, e).value)|;
         k == 0 || k == |Arcs(s)| - 1
    ensures r.Success? ==> Locate(s, e).Some? && Removable(s, Locate(s, e).value)
    ensures r.Success? ==> r.value == Vanish(s, Locate(s, e).value, e, num)
  {
    match Locate(s, e)
    case None => Failure(ArcNotInBeachline)
    case Some(p) =>
      if |p| == 0 then Failure(RootArc)
      else
        ArcNeighbours(s.root.value, p);
        if LeftParent(p).None? || RightParent(p).None? then Failure(MissingNeighbour)
        else Success(Vanish(s, p, e, num))
  }

  /**
   * The arc that vanishes is the one at `p`, which has neighbours on both
   * sides; exactly it leaves the left-to-right order.
   */
  lemma VanishArcs(s: Sweep, p: Path, e: Event, num: Numerics)
    requires Inv(s) && Removable(s, p)
    ensures var k := |Before(s.root.value, p)|;
      && 0 < k < |Arcs(s)| - 1 && Arcs(s)[k] == Subtree(s.root.value, p).arc
      && Arcs(Vanish(s, p, e, num)) == Arcs(s)[..k] + Arcs(s)[k + 1..]
  {
    var t := s.root.value;
    var k := |Before(t, p)|;
    ArcNeighbours(t, p);
    var s1 := Collapse(s, p, e, num);
    assert Vanish(s, p, e, num).root == s1.root;
    assert Leaves(s1.root.value) == Leaves(t)[..k] + Leaves(t)[k + 1..] by {
      RemovalTreeLeaves(t, p, |s.edges|);
    }
  }

  /**
   * A removal queues circle events only for the two former neighbours of
   * the vanished arc, below the sweep line.
   */
  lemma VanishArms(s: Sweep, p: Path, e: Event, num: Numerics)
    requires Inv(s) && Removable(s, p)
    ensures 0 < |Before(s.root.value, p)| < |Arcs(s)| - 1
    ensures var s' := Vanish(s, p, e, num);
      var k := |Before(s.root.value, p)|;
      forall i :: |s.queue| <= i < |s'.queue| ==>
        && (s'.queue[i].arch == Some(Arcs(s)[k - 1].id) || s'.queue[i].arch == Some(Arcs(s)[k + 1].id))
        && s'.queue[i].y < s.y
  {
    var t := s.root.value;
    var k := |Before(t, p)|;
    ArcNeighbours(t, p);
    var s1 := Collapse(s, p, e, num);
    assert Vanish(s, p, e, num) == Recheck(s1, k, num);
    assert Leaves(s1.root.value)[k - 1] == Leaves(t)[k - 1] && Leaves(s1.root.value)[k] == Leaves(t)[k + 1] by {
      RemovalTreeLeaves(t, p, |s.edges|);
      var rest := Leaves(t)[..k] + Leaves(t)[k + 1..];
      assert rest[k - 1] == Leaves(t)[k - 1] && rest[k] == Leaves(t)[k + 1];
    }
  }

  /**
   * The tombstones of a removal: the left neighbour's pending event is
   * buried first, then the right neighbour's, so the right one ends up in
   * front of the tombstone list.
   */
  lemma CollapseTombstones(s: Sweep, p: Path, e: Event, num: Numerics)
    requires Inv(s) && s.root.Some? && IsLeafPath(s.root.value, p) && |p| > 0
    requires LeftParent(p).Some? && RightParent(p).Some?
    ensures 0 < |Before(s.root.value, p)| < |Leaves(s.root.value)| - 1
    ensures var t := s.root.value;
      var k := |Before(t, p)|;
      var b := Bury(Bury(s, Leaves(t)[k - 1].id), Leaves(t)[k + 1].id);
      Collapse(s, p, e, num).del == b.del && Collapse(s, p, e, num).pending == b.pending
  {
    var t := s.root.value;
    var k := |Before(t, p)|;
    var xl, xr := LeftParent(p).value, RightParent(p).value;
    assert 0 < k < |Leaves(t)| - 1 && IsNodePath(t, xl) && IsNodePath(t, xr)
      && Subtree(t, LeftChild(t, xl)).arc == Leaves(t)[k - 1]
      && Subtree(t, RightChild(t, xr)).arc == Leaves(t)[k + 1]
    by {
      ArcNeighbours(t, p);
    }
  }

  /**
   * The edges of a removal: those of the two breakpoints beside the arc
   * end at the point of the arc above the event's x, and a new edge
   * between the neighbours' sites starts there and is returned; no other
   * edge changes.
   */
  lemma CollapseEdges(s: Sweep, p: Path, e: Event, num: Numerics)
    requires Inv(s) && s.root.Some? && IsLeafPath(s.root.value, p) && |p| > 0
    requires LeftParent(p).Some? && RightParent(p).Some?
    ensures 0 < |Before(s.root.value, p)| < |Leaves(s.root.value)| - 1
    ensures IsNodePath(s.root.value, LeftParent(p).value) && IsNodePath(s.root.value, RightParent(p).value)
    ensures var t := s.root.value;
      var s' := Collapse(s, p, e, num);
      var k := |Before(t, p)|;
      var v := Point(e.point.x, num.parabolaY(Leaves(t)[k].site.at, e.point.x, s.y));
      var el, er := Subtree(t, LeftParent(p).value).edge, Subtree(t, RightParent(p).value).edge;
      var n := |s.edges|;
      && |s'.edges| == n + 1 && s'.output == s.output + [n]
      && el < n && er < n && s'.edges[el].end == Some(v) && s'.edges[er].end == Some(v)
      && (forall i :: 0 <= i < n && i != el && i != er ==> s'.edges[i] == s.edges[i])
      && s'.edges[n].start == v && s'.edges[n].end.None?
      && s'.edges[n].left == Leaves(t)[k - 1].site.at && s'.edges[n].right == Leaves(t)[k + 1].site.at
  {
    ArcNeighbours(s.root.value, p);
    CollapseArena(s, p, e, num);
  }
}
