/**
 * Site events: a new arc enters the beachline under the new site.
 */
module Insertion {
  import opened Outcomes
  import opened Geometry
  import opened Beachline
  import opened Navigation
  import opened Engine

  /**
   * The general case: the arc at `q`, the one above the site, is split in
   * three, then the two outer arcs, which carry the old site, are checked
   * for a circle event. The middle arc, which carries the new site, never
   * is.
   */
  function SplitArc(s: Sweep, q: Path, site: Site, num: Numerics): (s': Sweep)
    requires Inv(s) && s.root.Some? && IsLeafPath(s.root.value, q)
    ensures var s1 := SplitLeaf(s, q, site, num);
      s'.(queue := s1.queue, pending := s1.pending, nextEvent := s1.nextEvent) == s1
    ensures Extends(s.queue, s'.queue, 2)
    // the events it queues belong to the two outer arcs and lie below the sweep line
    ensures forall i :: |s.queue| <= i < |s'.queue| ==>
      && (s'.queue[i].arch == Some(s.nextArc) || s'.queue[i].arch == Some(s.nextArc + 2))
      && s'.queue[i].y < s.y
    ensures s'.root.Some? && s'.y == s.y && s'.width == s.width && s'.height == s.height
    ensures |Arcs(s')| == |Arcs(s)| + 2
    ensures Inv(s')
  {
    var s1 := SplitLeaf(s, q, site, num);
    SplitLeafOuter(s, q, site, num);
    CheckTwoArms(s1, q + [false, false], q + [true], num);
    CheckTwo(s1, q + [false, false], q + [true], num)
  }

  /**
   * A lone root arc whose site lies less than one unit above the new one
   * is replaced by two arcs split by a single edge. The edge starts on the
   * top boundary midway between the sites and has the lower-x site on its
   * left; no circle event is checked.
   */
  function SplitRoot(s: Sweep, site: Site): (s': Sweep)
    requires Inv(s) && s.root.Some? && s.root.value.Leaf?
    ensures var fp := s.root.value.arc.site;
      var n := |s.edges|;
      && s'.root.Some? && s'.root.value.Node? && s'.root.value.edge == n
      && Leaves(s'.root.value) == [Arc(s.nextArc, fp), Arc(s.nextArc + 1, site)]
      && |s'.edges| == n + 1 && s'.edges[..n] == s.edges && s'.output == s.output + [n]
      && s'.edges[n].start == Point((site.at.x + fp.at.x) / 2.0, s.height)
      && s'.edges[n].left.x <= s'.edges[n].right.x
      && {s'.edges[n].left, s'.edges[n].right} == {fp.at, site.at}
      && s'.edges[n].end.None? && s'.edges[n].neighbor.None?
    ensures s'.queue == s.queue && s'.del == s.del && s'.pending == s.pending
    ensures s'.y == s.y && s'.width == s.width && s'.height == s.height
    ensures |Arcs(s')| == |Arcs(s)| + 1
    ensures Inv(s')
  {
    var fp := s.root.value.arc.site;
    var n := |s.edges|;
    var start := Point((site.at.x + fp.at.x) / 2.0, s.height);
    var e := if site.at.x > fp.at.x then NewEdge(start, fp.at, site.at) else NewEdge(start, site.at, fp.at);
    var a0, a1 := Arc(s.nextArc, fp), Arc(s.nextArc + 1, site);
    var r := s.(root := Some(Node(n, Leaf(a0), Leaf(a1))),
                edges := s.edges + [e], output := s.output + [n], nextArc := s.nextArc + 2);
    assert r.edges[..n] == s.edges;
    assert Traced(r) == {n} by {
      assert NodeEdges(Leaf(a0)) == {} && NodeEdges(Leaf(a1)) == {};
    }
    assert Arcs(r) == [a0, a1] by {
      assert Leaves(Leaf(a0)) == [a0] && Leaves(Leaf(a1)) == [a1];
    }
    assert Inv(r) by {
      forall i | 0 <= i < |r.edges| ensures r.edges[i].end.Some? || i in Traced(r) {
        if i < n {
          assert r.edges[i] == s.edges[i];
        }
      }
      forall i | 0 <= i < |r.edges| && r.edges[i].neighbor.Some?
        ensures r.edges[i].neighbor.value < |r.edges|
      {
        assert r.edges[i] == s.edges[i];
      }
    }
    r
  }

  /**
   * A site event: the first arc of an empty beachline, the root split when
   * the beachline is a single arc less than one unit above the site, and
   * the general three-way split otherwise.
   */
  function InsertParabola(s: Sweep, site: Site, num: Numerics): (s': Sweep)
    requires Inv(s)
    ensures s.root.None? ==>
      s' == s.(root := Some(Leaf(Arc(s.nextArc, site))), nextArc := s.nextArc + 1)
    ensures s.root.Some? && s.root.value.Leaf? && s.root.value.arc.site.at.y - site.at.y < 1.0 ==>
      s' == SplitRoot(s, site)
    ensures s.root.Some? && !(s.root.value.Leaf? && s.root.value.arc.site.at.y - site.at.y < 1.0) ==>
      s' == SplitArc(s, ArcAtX(s.root.value, site.at.x, s.y, num), site, num)
    ensures s'.root.Some?
    ensures Extends(s.queue, s'.queue, 2)
    ensures forall i :: |s.queue| <= i < |s'.queue| ==> s'.queue[i].y < s.y
    ensures s'.y == s.y && s'.width == s.width && s'.height == s.height
    ensures |Arcs(s')| <= |Arcs(s)| + 2
    ensures Inv(s')
  {
    if s.root.None? then
      s.(root := Some(Leaf(Arc(s.nextArc, site))), nextArc := s.nextArc + 1)
    else if s.root.value.Leaf? && s.root.value.arc.site.at.y - site.at.y < 1.0 then
      SplitRoot(s, site)
    else
      SplitArc(s, ArcAtX(s.root.value, site.at.x, s.y, num), site, num)
  }
}
