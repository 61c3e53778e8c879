/**
 * The two tree edits of arc removal: giving a breakpoint a new edge, and
 * replacing a vanished arc's parent by the arc's sibling.
 */
module Pruning {
  import opened Beachline

  /** A subtree traces no edge its tree does not. */
  lemma {:induction false} SubtreeEdges(t: Beach, p: Path)
    requires ValidPath(t, p)
    ensures NodeEdges(Subtree(t, p)) <= NodeEdges(t)
    decreases |p|
  {
    if |p| > 0 {
      SubtreeEdges(Child(t, p[0]), p[1..]);
    }
  }

  /** One more step down from a breakpoint adds the left subtree's arcs when it goes right. */
  lemma {:induction false} BeforeStep(t: Beach, p: Path, b: bool)
    requires IsNodePath(t, p)
    ensures ValidPath(t, p + [b])
    ensures Before(t, p + [b]) == Before(t, p) + (if b then Leaves(Subtree(t, p).left) else [])
    decreases |p|
  {
    if |p| == 0 {
      assert p + [b] == [b];
      assert [b][1..] == [];
    } else {
      BeforeStep(Child(t, p[0]), p[1..], b);
      assert (p + [b])[1..] == p[1..] + [b];
    }
  }

  /**
   * Replacing a node leaves every breakpoint above it in place, with the
   * edge it had.
   */
  lemma {:induction false} ReplaceKeepsAncestors(t: Beach, p: Path, s: Beach, i: nat)
    requires ValidPath(t, p) && i < |p|
    ensures IsNodePath(t, p[..i])
    ensures IsNodePath(ReplaceAt(t, p, s), p[..i])
    ensures Subtree(ReplaceAt(t, p, s), p[..i]).edge == Subtree(t, p[..i]).edge
    decreases |p|
  {
    PathSplit(t, p, i);
    if i > 0 {
      var c := Child(t, p[0]);
      ReplaceKeepsAncestors(c, p[1..], s, i - 1);
      assert p[..i][1..] == p[1..][..i - 1];
    }
  }

  /**
   * The breakpoint at `h` traces edge `n` instead; the arcs and every
   * other breakpoint stay.
   */
  function Relabel(t: Beach, h: Path, n: nat): (r: Beach)
    requires IsNodePath(t, h)
    ensures ValidPath(r, h) && Subtree(r, h) == Subtree(t, h).(edge := n)
    ensures Leaves(r) == Leaves(t)
    ensures NodeEdges(t) - {Subtree(t, h).edge} <= NodeEdges(r) <= NodeEdges(t) + {n}
    ensures n in NodeEdges(r)
  {
    var old0 := Subtree(t, h);
    var s := old0.(edge := n);
    LeavesAround(t, h);
    ReplaceKeepsSurroundings(t, h, s);
    ReplaceNodeEdges(t, h, s);
    SubtreeEdges(t, h);
    assert NodeEdges(s) == {n} + NodeEdges(old0.left) + NodeEdges(old0.right);
    ReplaceAt(t, h, s)
  }

  /**
   * The arc at leaf `p` disappears: its parent breakpoint is replaced by
   * the arc's sibling, and the parent's edge stops being traced.
   */
  function Prune(t: Beach, p: Path): (r: Beach)
    requires IsLeafPath(t, p) && |p| > 0
    ensures IsNodePath(t, p[..|p| - 1])
    ensures NodeEdges(t) - {Subtree(t, p[..|p| - 1]).edge} <= NodeEdges(r) <= NodeEdges(t)
  {
    var l := p[..|p| - 1];
    PathSplit(t, p, |l|);
    var parent := Subtree(t, l);
    var sib := Child(parent, !p[|p| - 1]);
    ReplaceNodeEdges(t, l, sib);
    SubtreeEdges(t, l);
    assert NodeEdges(parent) == {parent.edge} + NodeEdges(parent.left) + NodeEdges(parent.right);
    ReplaceAt(t, l, sib)
  }

  /** Dropping the one element between two parts. */
  lemma DropBetween<T>(xs: seq<T>, ys: seq<T>, before: seq<T>, x: T, after: seq<T>, k: nat)
    requires xs == before + [x] + after && ys == before + after && k == |before|
    ensures k < |xs| && xs[k] == x && ys == xs[..k] + xs[k + 1..]
  {
    assert xs[..k] == before;
    assert xs[k + 1..] == after;
  }

  /**
   * Around a leaf's parent: the arcs before the leaf, the leaf, and the
   * arcs after it, with its sibling's arcs on the side it sits.
   */
  lemma {:induction false} ParentSplit(t: Beach, p: Path)
    requires IsLeafPath(t, p) && |p| > 0
    ensures IsNodePath(t, p[..|p| - 1])
    ensures var l := p[..|p| - 1];
      var parent := Subtree(t, l);
      && Subtree(t, p) == Child(parent, p[|p| - 1])
      && Before(t, p) == Before(t, l) + (if p[|p| - 1] then Leaves(parent.left) else [])
      && Leaves(Child(parent, p[|p| - 1])) == [Subtree(t, p).arc]
      && Leaves(t) == Before(t, l) + Leaves(parent.left) + Leaves(parent.right) + After(t, l)
  {
    var l := p[..|p| - 1];
    var b := p[|p| - 1];
    PathSplit(t, p, |l|);
    assert p[|l|..] == [b];
    assert p == l + [b];
    BeforeStep(t, l, b);
    LeavesAround(t, l);
    assert Leaves(Subtree(t, l)) == Leaves(Subtree(t, l).left) + Leaves(Subtree(t, l).right);
  }

  /** What is left after dropping one element was there before. */
  lemma DropKeepsOthers<T>(xs: seq<T>, k: nat)
    requires k < |xs|
    ensures forall a :: a in xs[..k] + xs[k + 1..] ==> a in xs
  {
    forall a | a in xs[..k] + xs[k + 1..] ensures a in xs {
      if a in xs[..k] {
        assert a in xs[..k] + xs[k..];
      } else {
        assert a in xs[k..];
      }
    }
  }

  /** After pruning, the sibling's arcs sit where the parent's were. */
  lemma PruneSurroundings(t: Beach, p: Path)
    requires IsLeafPath(t, p) && |p| > 0
    ensures IsNodePath(t, p[..|p| - 1])
    ensures var l := p[..|p| - 1];
      Leaves(Prune(t, p)) == Before(t, l) + Leaves(Child(Subtree(t, l), !p[|p| - 1])) + After(t, l)
  {
    var l := p[..|p| - 1];
    PathSplit(t, p, |l|);
    ReplaceKeepsSurroundings(t, l, Child(Subtree(t, l), !p[|p| - 1]));
  }

  /**
   * Putting the sibling's arcs where the parent's were drops exactly the
   * leaf's arc from the left-to-right order.
   */
  lemma DropParentLeaf(t: Beach, p: Path, ys: seq<Arc>)
    requires IsLeafPath(t, p) && |p| > 0
    requires IsNodePath(t, p[..|p| - 1])
    requires var l := p[..|p| - 1];
      ys == Before(t, l) + Leaves(Child(Subtree(t, l), !p[|p| - 1])) + After(t, l)
    ensures var k := |Before(t, p)|;
      k < |Leaves(t)| && Leaves(t)[k] == Subtree(t, p).arc && ys == Leaves(t)[..k] + Leaves(t)[k + 1..]
  {
    var l := p[..|p| - 1];
    ParentSplit(t, p);
    var parent := Subtree(t, l);
    var before, after := Before(t, l), After(t, l);
    var x := Subtree(t, p).arc;
    var k := |Before(t, p)|;
    if p[|p| - 1] {
      DropBetween(Leaves(t), ys, before + Leaves(parent.left), x, after, k);
    } else {
      DropBetween(Leaves(t), ys, before, x, Leaves(parent.right) + after, k);
    }
  }

  /** Pruning removes exactly the arc from the left-to-right order. */
  lemma PruneLeaves(t: Beach, p: Path)
    requires IsLeafPath(t, p) && |p| > 0
    ensures var k := |Before(t, p)|;
      && k < |Leaves(t)| && Leaves(t)[k] == Subtree(t, p).arc
      && Leaves(Prune(t, p)) == Leaves(t)[..k] + Leaves(t)[k + 1..]
  {
    PruneSurroundings(t, p);
    DropParentLeaf(t, p, Leaves(Prune(t, p)));
  }

  /** Every breakpoint above the pruned arc's parent stays, with its edge. */
  lemma PruneKeepsAncestors(t: Beach, p: Path, i: nat)
    requires IsLeafPath(t, p) && |p| > 0 && i < |p| - 1
    ensures IsNodePath(t, p[..i]) && IsNodePath(Prune(t, p), p[..i])
    ensures Subtree(Prune(t, p), p[..i]).edge == Subtree(t, p[..i]).edge
  {
    var l := p[..|p| - 1];
    PathSplit(t, p, |l|);
    var sib := Child(Subtree(t, l), !p[|p| - 1]);
    ReplaceKeepsAncestors(t, l, sib, i);
    assert l[..i] == p[..i];
  }
}
