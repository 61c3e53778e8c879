/**
 * Why the sweep never dereferences nil: every circle event still due is
 * the one its arc holds, and that arc is on the beachline with an arc on
 * each side. Insertion buries the event of the arc it splits, removal the
 * events of the two neighbours it merges, so an event whose arc changed is
 * always tombstoned before it is popped. From this, a sweep of a non-empty
 * input runs to the end and returns its edges.
 */
module Liveness {
  import opened Outcomes
  import opened Geometry
  import opened Beachline
  import opened Navigation
  import EventList
  import EventQueue
  import opened Engine
  import opened Insertion
  import opened Removal
  import opened Voronoi

  /** No event is queued twice. */
  ghost predicate Distinct(q: seq<Event>) {
    forall e :: multiset(q)[e] <= 1
  }

  /** No two arcs share an id. */
  predicate UniqueIds(arcs: seq<Arc>) {
    forall i, j :: 0 <= i < j < |arcs| ==> arcs[i].id != arcs[j].id
  }

  /** The arc `id` is present, with an arc on each side of it. */
  ghost predicate Interior(arcs: seq<Arc>, id: nat) {
    exists j :: 0 < j < |arcs| - 1 && arcs[j].id == id
  }

  /** The circle event `e` is the one its arc holds, and that arc can vanish. */
  ghost predicate Held(s: Sweep, e: Event) {
    && e.arch.Some? && e.arch.value in s.pending && s.pending[e.arch.value] == e
    && Interior(Arcs(s), e.arch.value)
  }

  /**
   * The bookkeeping the sweep keeps on top of `Inv`: event and arc
   * identities below the next fresh ones, queued events distinct, arc ids
   * unique, and every queued circle event that is not tombstoned held by
   * an arc that can vanish.
   */
  ghost predicate Live(s: Sweep) {
    && Distinct(s.queue)
    && (forall e :: e in s.queue ==> e.id < s.nextEvent)
    && (forall e :: e in s.del ==> e.id < s.nextEvent)
    && (forall a :: a in s.pending ==> a < s.nextArc && s.pending[a].id < s.nextEvent)
    && UniqueIds(Arcs(s))
    && (forall e :: e in s.queue && !e.isPlace && e !in s.del ==> Held(s, e))
  }

  /**
   * Queuing a fresh circle event for an arc that holds none and can
   * vanish keeps the bookkeeping.
   */
  lemma ArmKeepsLive(s: Sweep, id: nat, e: Event)
    requires Live(s) && id !in s.pending && id < s.nextArc
    requires e.id == s.nextEvent && e.arch == Some(id) && Interior(Arcs(s), id)
    ensures Live(Armed(s, id, e))
  {
    var s' := Armed(s, id, e);
    assert s'.queue == s.queue + [e];
    assert e !in s.queue;
    assert Arcs(s') == Arcs(s);
    forall x | x in s'.queue && !x.isPlace && x !in s'.del ensures Held(s', x) {
      if x != e {
        assert x in s.queue;
      }
    }
  }

  /** A circle event is only ever found for an arc with a neighbour on each side. */
  lemma CircleEventInterior(s: Sweep, b: Path, num: Numerics)
    requires s.root.Some? && IsLeafPath(s.root.value, b) && |b| > 0
    requires forall i :: i in NodeEdges(s.root.value) ==> i < |s.edges|
    requires CircleEvent(s, b, num).Some?
    ensures Interior(Arcs(s), Subtree(s.root.value, b).arc.id)
  {
    var t := s.root.value;
    ArcNeighbours(t, b);
    var k := |Before(t, b)|;
    assert Arcs(s)[k].id == Subtree(t, b).arc.id;
  }

  /**
   * A circle check of an arc that holds no event keeps the bookkeeping,
   * and leaves every other arc's entry as it was.
   */
  lemma CheckKeepsLive(s: Sweep, b: Path, num: Numerics)
    requires Inv(s) && Live(s) && s.root.Some? && IsLeafPath(s.root.value, b) && |b| > 0
    requires Subtree(s.root.value, b).arc.id !in s.pending
    requires forall i :: i in NodeEdges(s.root.value) ==> i < |s.edges|
    ensures Inv(CheckCircle(s, b, num)) && Live(CheckCircle(s, b, num))
  {
    var t := s.root.value;
    var id := Subtree(t, b).arc.id;
    var s' := CheckCircle(s, b, num);
    SameShapeKeepsInv(s, s');
    if CircleEvent(s, b, num).Some? {
      CircleEventInterior(s, b, num);
      assert Leaves(t)[|Before(t, b)|] == Subtree(t, b).arc by {
        LeafPathAtRank(t, b);
        LeafPathAt(t, |Before(t, b)|);
      }
      assert id < s.nextArc;
      ArmKeepsLive(s, id, CircleEvent(s, b, num).value);
    }
  }

  /**
   * Two circle checks of two different arcs, neither holding an event,
   * keep the bookkeeping.
   */
  lemma CheckTwoKeepsLive(s: Sweep, b1: Path, b2: Path, num: Numerics)
    requires Inv(s) && Live(s) && s.root.Some? && |b1| > 0 && |b2| > 0
    requires IsLeafPath(s.root.value, b1) && IsLeafPath(s.root.value, b2)
    requires Subtree(s.root.value, b1).arc.id != Subtree(s.root.value, b2).arc.id
    requires Subtree(s.root.value, b1).arc.id !in s.pending && Subtree(s.root.value, b2).arc.id !in s.pending
    requires forall i :: i in NodeEdges(s.root.value) ==> i < |s.edges|
    ensures Inv(CheckTwo(s, b1, b2, num)) && Live(CheckTwo(s, b1, b2, num))
  {
    var s2 := CheckCircle(s, b1, num);
    CheckKeepsLive(s, b1, num);
    CheckHolds(s, b1, num);
    CheckKeepsLive(s2, b2, num);
    assert CheckTwo(s, b1, b2, num) == CheckCircle(s2, b2, num);
  }

  /** Three fresh ids spliced in place of one arc keep the ids unique. */
  lemma UniqueAfterSplice(xs: seq<Arc>, k: nat, n: nat, a0: Arc, a1: Arc, a2: Arc)
    requires UniqueIds(xs) && k < |xs| && forall x :: x in xs ==> x.id < n
    requires a0.id == n && a1.id == n + 1 && a2.id == n + 2
    ensures UniqueIds(xs[..k] + [a0, a1, a2] + xs[k + 1..])
  {
    var ys := xs[..k] + [a0, a1, a2] + xs[k + 1..];
    forall i, j | 0 <= i < j < |ys| ensures ys[i].id != ys[j].id {
      if j < k {
        assert ys[i] == xs[i] && ys[j] == xs[j];
      } else if j < k + 3 {
        if i >= k {
          assert ys[i].id == n + (i - k) && ys[j].id == n + (j - k);
        } else {
          assert ys[i] == xs[i] && ys[j].id >= n;
        }
      } else {
        assert ys[j] == xs[j - 2];
        if i < k {
          assert ys[i] == xs[i];
        } else if i < k + 3 {
          assert ys[i].id >= n;
        } else {
          assert ys[i] == xs[i - 2];
        }
      }
    }
  }

  /** An arc other than the split one keeps an arc on each side after a splice. */
  lemma InteriorAfterSplice(xs: seq<Arc>, k: nat, a0: Arc, a1: Arc, a2: Arc, id: nat)
    requires k < |xs| && Interior(xs, id) && xs[k].id != id
    ensures Interior(xs[..k] + [a0, a1, a2] + xs[k + 1..], id)
  {
    var ys := xs[..k] + [a0, a1, a2] + xs[k + 1..];
    var j :| 0 < j < |xs| - 1 && xs[j].id == id;
    if j < k {
      assert ys[j] == xs[j];
    } else {
      assert ys[j + 2] == xs[j];
    }
  }

  /**
   * A state that splices three fresh arcs in place of the arc at `k` and
   * buries that arc's event keeps the bookkeeping; the new arcs hold no
   * event.
   */
  lemma SpliceKeepsLive(s: Sweep, s': Sweep, k: nat, a0: Arc, a1: Arc, a2: Arc)
    requires Live(s) && k < |Arcs(s)| && forall x :: x in Arcs(s) ==> x.id < s.nextArc
    requires a0.id == s.nextArc && a1.id == s.nextArc + 1 && a2.id == s.nextArc + 2
    requires Arcs(s') == Arcs(s)[..k] + [a0, a1, a2] + Arcs(s)[k + 1..]
    requires s'.queue == s.queue && s'.nextEvent == s.nextEvent && s'.nextArc == s.nextArc + 3
    requires var id0 := Arcs(s)[k].id;
      && s'.del == (if id0 in s.pending then s.del + [s.pending[id0]] else s.del)
      && s'.pending == s.pending - {id0}
    ensures Live(s') && s.nextArc !in s'.pending && s.nextArc + 2 !in s'.pending
  {
    var A := Arcs(s);
    UniqueAfterSplice(A, k, s.nextArc, a0, a1, a2);
    assert forall e :: e in s.del ==> e in s'.del;
    forall e | e in s'.queue && !e.isPlace && e !in s'.del ensures Held(s', e) {
      assert Held(s, e);
      var a := e.arch.value;
      assert a != A[k].id;
      InteriorAfterSplice(A, k, a0, a1, a2, a);
    }
  }

  /**
   * Splitting an arc keeps the bookkeeping: its event, if any, is buried,
   * and the two outer new arcs hold no event yet.
   */
  lemma SplitLeafKeepsLive(s: Sweep, q: Path, site: Site, num: Numerics)
    requires Inv(s) && Live(s) && s.root.Some? && IsLeafPath(s.root.value, q)
    ensures var s' := SplitLeaf(s, q, site, num);
      Live(s') && s.nextArc !in s'.pending && s.nextArc + 2 !in s'.pending
  {
    var t := s.root.value;
    var k := |Before(t, q)|;
    var old0 := Subtree(t, q).arc.site;
    SplitLeafEdges(s, q, site, num);
    SplitLeafArcs(s, q, site, num);
    SpliceKeepsLive(s, SplitLeaf(s, q, site, num), k,
                    Arc(s.nextArc, old0), Arc(s.nextArc + 1, site), Arc(s.nextArc + 2, old0));
  }

  /** The general insertion keeps the bookkeeping. */
  lemma SplitArcKeepsLive(s: Sweep, q: Path, site: Site, num: Numerics)
    requires Inv(s) && Live(s) && s.root.Some? && IsLeafPath(s.root.value, q)
    ensures Live(SplitArc(s, q, site, num))
  {
    var s1 := SplitLeaf(s, q, site, num);
    SplitLeafKeepsLive(s, q, site, num);
    SplitLeafOuter(s, q, site, num);
    CheckTwoKeepsLive(s1, q + [false, false], q + [true], num);
  }

  /**
   * A site event keeps the bookkeeping. With at most one arc, no circle
   * event can be due, so the first two insertions have nothing to keep.
   */
  lemma InsertKeepsLive(s: Sweep, site: Site, num: Numerics)
    requires Inv(s) && Live(s)
    ensures Live(InsertParabola(s, site, num))
  {
    if s.root.None? {
      FirstArcKeepsLive(s, site);
    } else if s.root.value.Leaf? && s.root.value.arc.site.at.y - site.at.y < 1.0 {
      SplitRootKeepsLive(s, site);
    } else {
      SplitArcKeepsLive(s, ArcAtX(s.root.value, site.at.x, s.y, num), site, num);
    }
  }

  /** The first arc of an empty beachline: nothing is queued that it could hold. */
  lemma FirstArcKeepsLive(s: Sweep, site: Site)
    requires Inv(s) && Live(s) && s.root.None?
    ensures Live(s.(root := Some(Leaf(Arc(s.nextArc, site))), nextArc := s.nextArc + 1))
  {
    NoneHeldUnderThree(s);
  }

  /** Splitting a lone root arc in two: with fewer than three arcs, no event is held. */
  lemma SplitRootKeepsLive(s: Sweep, site: Site)
    requires Inv(s) && Live(s) && s.root.Some? && s.root.value.Leaf?
    ensures Live(SplitRoot(s, site))
  {
    NoneHeldUnderThree(s);
    var s' := SplitRoot(s, site);
    assert Arcs(s')[0].id + 1 == Arcs(s')[1].id;
  }

  /** With fewer than three arcs, every queued circle event is tombstoned. */
  lemma NoneHeldUnderThree(s: Sweep)
    requires Live(s)
    ensures |Arcs(s)| < 3 ==> forall e :: e in s.queue && !e.isPlace ==> e in s.del
  {
    forall e | e in s.queue && !e.isPlace && e !in s.del ensures 3 <= |Arcs(s)| {
      assert Held(s, e);
    }
  }

  /** Burying two different arcs' events: what moves to the tombstones, and what stays. */
  lemma BuryTwo(s: Sweep, l: nat, r: nat)
    requires l != r
    ensures var b := Bury(Bury(s, l), r);
      && (forall x :: x in s.del ==> x in b.del)
      && (forall x :: x in b.del ==> x in s.del || (l in s.pending && x == s.pending[l]) || (r in s.pending && x == s.pending[r]))
      && (l in s.pending ==> s.pending[l] in b.del)
      && (r in s.pending ==> s.pending[r] in b.del)
      && l !in b.pending && r !in b.pending
      && (forall a :: a in b.pending ==> a in s.pending && b.pending[a] == s.pending[a])
  {
  }

  /** Dropping an arc keeps the ids unique. */
  lemma UniqueAfterDrop(xs: seq<Arc>, k: nat)
    requires UniqueIds(xs) && k < |xs|
    ensures UniqueIds(xs[..k] + xs[k + 1..])
  {
    var ys := xs[..k] + xs[k + 1..];
    forall i, j | 0 <= i < j < |ys| ensures ys[i].id != ys[j].id {
      var i', j' := if i < k then i else i + 1, if j < k then j else j + 1;
      assert ys[i] == xs[i'] && ys[j] == xs[j'];
    }
  }

  /**
   * An arc other than the dropped one and its two neighbours keeps an arc
   * on each side after the drop.
   */
  lemma InteriorAfterDrop(xs: seq<Arc>, k: nat, id: nat)
    requires 0 < k < |xs| - 1 && Interior(xs, id)
    requires xs[k - 1].id != id && xs[k].id != id && xs[k + 1].id != id
    ensures Interior(xs[..k] + xs[k + 1..], id)
  {
    var ys := xs[..k] + xs[k + 1..];
    var j :| 0 < j < |xs| - 1 && xs[j].id == id;
    if j < k {
      assert ys[j] == xs[j];
    } else {
      assert ys[j - 1] == xs[j];
    }
  }

  /**
   * A state that drops the arc at `k`, whose due event is `e`, and buries
   * the events of its two neighbours keeps the bookkeeping; the neighbours
   * hold no event afterwards.
   */
  lemma DropKeepsLive(s: Sweep, s': Sweep, k: nat, e: Event)
    requires Live(s) && 0 < k < |Arcs(s)| - 1
    requires Arcs(s') == Arcs(s)[..k] + Arcs(s)[k + 1..]
    requires s'.queue == s.queue && s'.nextEvent == s.nextEvent && s'.nextArc == s.nextArc
    requires var b := Bury(Bury(s, Arcs(s)[k - 1].id), Arcs(s)[k + 1].id);
      s'.del == b.del && s'.pending == b.pending
    requires e.arch == Some(Arcs(s)[k].id) && Arcs(s)[k].id in s.pending
    requires s.pending[Arcs(s)[k].id] == e && e !in s.queue
    ensures Live(s') && Arcs(s)[k - 1].id !in s'.pending && Arcs(s)[k + 1].id !in s'.pending
  {
    var A := Arcs(s);
    assert A[k - 1].id != A[k + 1].id;
    BuryTwo(s, A[k - 1].id, A[k + 1].id);
    UniqueAfterDrop(A, k);
    forall x | x in s'.queue && !x.isPlace && x !in s'.del ensures Held(s', x) {
      assert Held(s, x);
      var a := x.arch.value;
      assert a != A[k].id;
      InteriorAfterDrop(A, k, a);
    }
  }

  /**
   * The arc of a due circle event vanishing keeps the bookkeeping: the
   * events of its two neighbours are buried, and no other due event
   * belonged to it.
   */
  lemma CollapseKeepsLive(s: Sweep, p: Path, e: Event, num: Numerics, k: nat)
    requires Inv(s) && Live(s) && Removable(s, p) && k == |Before(s.root.value, p)|
    requires e.arch == Some(Subtree(s.root.value, p).arc.id) && e.arch.value in s.pending
    requires s.pending[e.arch.value] == e && e !in s.queue
    ensures 0 < k < |Arcs(s)| - 1
    ensures Arcs(Collapse(s, p, e, num)) == Arcs(s)[..k] + Arcs(s)[k + 1..]
    ensures Live(Collapse(s, p, e, num))
    ensures Arcs(s)[k - 1].id !in Collapse(s, p, e, num).pending && Arcs(s)[k + 1].id !in Collapse(s, p, e, num).pending
  {
    var t := s.root.value;
    ArcNeighbours(t, p);
    CollapseTombstones(s, p, e, num);
    RemovalTreeLeaves(t, p, |s.edges|);
    DropKeepsLive(s, Collapse(s, p, e, num), k, e);
  }

  /** Checking two adjacent arcs with different ids that hold no event keeps the bookkeeping. */
  lemma RecheckKeepsLive(s: Sweep, k: nat, num: Numerics)
    requires Inv(s) && Live(s) && s.root.Some? && 0 < k < |Arcs(s)|
    requires Arcs(s)[k - 1].id !in s.pending && Arcs(s)[k].id !in s.pending
    ensures Live(Recheck(s, k, num))
  {
    var t := s.root.value;
    LeafPathAt(t, k - 1);
    LeafPathAt(t, k);
    NodeLeafPathsAreLong(t, k - 1);
    NodeLeafPathsAreLong(t, k);
    var b1, b2 := LeafPaths(t)[k - 1], LeafPaths(t)[k];
    CheckTwoKeepsLive(s, b1, b2, num);
    assert Recheck(s, k, num) == CheckTwo(s, b1, b2, num);
  }

  /**
   * The arc of a due circle event vanishing, and its former neighbours
   * being checked, keeps the bookkeeping.
   */
  lemma VanishKeepsLive(s: Sweep, p: Path, e: Event, num: Numerics)
    requires Inv(s) && Live(s) && Removable(s, p)
    requires e.arch == Some(Subtree(s.root.value, p).arc.id) && e.arch.value in s.pending
    requires s.pending[e.arch.value] == e && e !in s.queue
    ensures Live(Vanish(s, p, e, num))
  {
    var k := |Before(s.root.value, p)|;
    var s1 := Collapse(s, p, e, num);
    CollapseKeepsLive(s, p, e, num, k);
    assert Arcs(s1)[k - 1] == Arcs(s)[k - 1] && Arcs(s1)[k] == Arcs(s)[k + 1];
    RecheckKeepsLive(s1, k, num);
    assert Vanish(s, p, e, num) == Recheck(s1, k, num);
  }

  /** Events with pairwise different ids are distinct. */
  lemma {:induction false} IdsMakeDistinct(q: seq<Event>)
    requires forall i, j :: 0 <= i < j < |q| ==> q[i].id != q[j].id
    ensures Distinct(q)
    decreases |q|
  {
    if |q| > 0 {
      var n := |q| - 1;
      IdsMakeDistinct(q[..n]);
      assert q == q[..n] + [q[n]];
      assert q[n] !in q[..n];
    }
  }

  /** The seed state: site events with ids 0, 1, ... and nothing else. */
  lemma SeedIsLive(places: seq<Point>, width: real, height: real)
    ensures Live(Seed(places, width, height))
  {
    var s := Seed(places, width, height);
    IdsMakeDistinct(s.queue);
  }

  /**
   * Popping a queue of distinct events leaves distinct events, without the
   * popped one.
   */
  lemma PopKeepsDistinct(q: seq<Event>)
    requires Distinct(q) && |q| > 0
    ensures var (e, rest) := EventQueue.Pop(q);
      Distinct(rest) && e !in rest && forall x :: x in rest ==> x in q
  {
    var (e, rest) := EventQueue.Pop(q);
    assert multiset(rest) + multiset{e} == multiset(q);
    forall x ensures multiset(rest)[x] + (if x == e then 1 else 0) == multiset(q)[x] {
      assert (multiset(rest) + multiset{e})[x] == multiset(rest)[x] + multiset{e}[x];
    }
    assert multiset(q)[e] <= 1;
    forall x | x in rest ensures x in q {
      assert multiset(q)[x] > 0;
    }
  }

  /**
   * A due circle event finds its arc with a neighbour on each side, so
   * removing it succeeds, and keeps the bookkeeping.
   */
  lemma RemoveKeepsLive(s: Sweep, e: Event, num: Numerics)
    requires Inv(s) && Live(s) && Held(s, e) && e !in s.queue
    ensures RemoveParabola(s, e, num).Success? && Live(RemoveParabola(s, e, num).value)
  {
    var a := e.arch.value;
    var j :| 0 < j < |Arcs(s)| - 1 && Arcs(s)[j].id == a;
    assert Arcs(s)[j] in Arcs(s);
    var p := Locate(s, e).value;
    var t := s.root.value;
    var k := |Before(t, p)|;
    LeafPathAtRank(t, p);
    LeafPathAt(t, k);
    assert Arcs(s)[k].id == a;
    assert k == j;
    assert |p| > 0;
    ArcNeighbours(t, p);
    assert Removable(s, p);
    VanishKeepsLive(s, p, e, num);
  }

  /**
   * Under the bookkeeping one turn of the sweep never faults, and keeps
   * the bookkeeping.
   */
  lemma StepKeepsLive(s: Sweep, num: Numerics)
    requires Inv(s) && Live(s) && |s.queue| > 0
    ensures Step(s, num).Success? && Live(Step(s, num).value)
  {
    var (e, rest) := EventQueue.Pop(s.queue);
    var s1 := s.(queue := rest, y := e.point.y);
    PopKeepsDistinct(s.queue);
    assert Arcs(s1) == Arcs(s);
    assert Live(s1) by {
      forall x | x in s1.queue && !x.isPlace && x !in s1.del ensures Held(s1, x) {
        assert Held(s, x);
      }
    }
    if e in s.del {
      var skipped := s1.(del := EventList.Remove(s.del, e).0);
      assert Arcs(skipped) == Arcs(s);
      forall x | x in skipped.del ensures x in s.del {
        if x != e {
          EventList.RemoveKeepsOthers(s.del, e, x);
        }
      }
      forall x | x in skipped.queue && !x.isPlace && x !in skipped.del ensures Held(skipped, x) {
        EventList.RemoveKeepsOthers(s.del, e, x);
        assert Held(s, x);
      }
    } else if e.isPlace {
      InsertKeepsLive(s1, Site(e.id, e.point), num);
    } else {
      assert Held(s1, e) by {
        assert Held(s, e);
      }
      RemoveKeepsLive(s1, e, num);
    }
  }

  /** Under the bookkeeping the sweep runs until the queue is empty. */
  lemma {:induction false} RunKeepsLive(s: Sweep, num: Numerics)
    requires Inv(s) && Live(s)
    ensures Run(s, num).Success?
    decreases Measure(s)
  {
    if |s.queue| > 0 {
      StepKeepsLive(s, num);
      RunKeepsLive(Step(s, num).value, num);
    }
  }

  /**
   * The edges of a non-empty input are always returned: the sweep never
   * faults, and the first site leaves a beachline to finish.
   */
  lemma GetEdgesSucceeds(places: seq<Point>, width: real, height: real, num: Numerics)
    requires |places| > 0
    ensures GetEdges(places, width, height, num).Success?
  {
    var s := Seed(places, width, height);
    SeedIsLive(places, width, height);
    StepKeepsLive(s, num);
    assert EventQueue.Pop(s.queue).0.isPlace;
    var s' := Step(s, num).value;
    RunKeepsLive(s', num);
    assert Run(s, num) == Run(s', num);
  }
}
