/**
 * The beachline: a binary tree whose leaves are parabolic arcs and whose
 * inner nodes are the breakpoints between neighbouring arcs. The source
 * links nodes by parent and child pointers; the model addresses a node by
 * its path from the root, so "parent" is "drop the last step".
 */
module Beachline {
  import opened Outcomes
  import opened Geometry

  /** A route from the root: `false` steps to the left child, `true` to the right one. */
  type Path = seq<bool>

  /** An arc of the beachline; `id` stands for the identity of the leaf object. */
  datatype Arc = Arc(id: nat, site: Site)

  /**
   * Leaves are arcs; an inner node is a breakpoint tracing the edge whose
   * arena index is `edge`.
   */
  datatype Beach = Leaf(arc: Arc) | Node(edge: nat, left: Beach, right: Beach)

  function Child(t: Beach, right: bool): Beach
    requires t.Node?
  {
    if right then t.right else t.left
  }

  /** The path leads from the root of `t` to some node of `t`. */
  predicate ValidPath(t: Beach, p: Path)
    decreases |p|
  {
    |p| == 0 || (t.Node? && ValidPath(Child(t, p[0]), p[1..]))
  }

  /** The node at the end of path `p`. */
  function Subtree(t: Beach, p: Path): (r: Beach)
    requires ValidPath(t, p)
    ensures r.Node? ==> r.edge in NodeEdges(t)
    decreases |p|
  {
    if |p| == 0 then t else Subtree(Child(t, p[0]), p[1..])
  }

  predicate IsLeafPath(t: Beach, p: Path) {
    ValidPath(t, p) && Subtree(t, p).Leaf?
  }

  predicate IsNodePath(t: Beach, p: Path) {
    ValidPath(t, p) && Subtree(t, p).Node?
  }

  /** The arcs read from left to right. */
  function Leaves(t: Beach): (r: seq<Arc>)
    ensures |r| > 0
  {
    match t
    case Leaf(a) => [a]
    case Node(_, l, r) => Leaves(l) + Leaves(r)
  }

  /** The number of breakpoints. */
  function InternalCount(t: Beach): nat {
    match t
    case Leaf(_) => 0
    case Node(_, l, r) => 1 + InternalCount(l) + InternalCount(r)
  }

  /** The arena indices of the edges traced by the breakpoints. */
  function NodeEdges(t: Beach): set<nat> {
    match t
    case Leaf(_) => {}
    case Node(e, l, r) => {e} + NodeEdges(l) + NodeEdges(r)
  }

  function Prefixed(b: bool, ps: seq<Path>): (r: seq<Path>)
    ensures |r| == |ps|
    ensures forall i :: 0 <= i < |ps| ==> r[i] == [b] + ps[i]
  {
    seq(|ps|, i requires 0 <= i < |ps| => [b] + ps[i])
  }

  /** The paths of the leaves, from left to right. */
  function LeafPaths(t: Beach): (r: seq<Path>)
    ensures |r| == |Leaves(t)|
  {
    match t
    case Leaf(_) => [[]]
    case Node(_, l, r) => Prefixed(false, LeafPaths(l)) + Prefixed(true, LeafPaths(r))
  }

  /** The k-th leaf path goes through the child holding the k-th arc. */
  lemma LeafPathStep(t: Beach, k: nat)
    requires t.Node? && k < |Leaves(t)|
    ensures var nl := |Leaves(t.left)|;
      var b := k >= nl;
      var j := if b then k - nl else k;
      && j < |Leaves(Child(t, b))|
      && LeafPaths(t)[k] == [b] + LeafPaths(Child(t, b))[j]
  {
    var pl, pr := LeafPaths(t.left), LeafPaths(t.right);
    assert LeafPaths(t) == Prefixed(false, pl) + Prefixed(true, pr);
  }

  /** Every tree has one breakpoint fewer than it has arcs. */
  lemma {:induction false} InternalCountIsLeavesMinusOne(t: Beach)
    ensures InternalCount(t) == |Leaves(t)| - 1
  {
    match t
    case Leaf(_) =>
    case Node(_, l, r) =>
      InternalCountIsLeavesMinusOne(l);
      InternalCountIsLeavesMinusOne(r);
  }

  /** The i-th leaf path leads to the i-th arc. */
  lemma {:induction false} LeafPathsReachLeaves(t: Beach)
    ensures forall i :: 0 <= i < |LeafPaths(t)| ==>
      IsLeafPath(t, LeafPaths(t)[i]) && Subtree(t, LeafPaths(t)[i]) == Leaf(Leaves(t)[i])
  {
    match t
    case Leaf(_) =>
    case Node(_, l, r) =>
      LeafPathsReachLeaves(l);
      LeafPathsReachLeaves(r);
      forall i | 0 <= i < |LeafPaths(t)|
        ensures IsLeafPath(t, LeafPaths(t)[i]) && Subtree(t, LeafPaths(t)[i]) == Leaf(Leaves(t)[i])
      {
        var p := LeafPaths(t)[i];
        var n := |Leaves(l)|;
        if i < n {
          assert p == [false] + LeafPaths(l)[i];
          assert p[1..] == LeafPaths(l)[i];
        } else {
          assert p == [true] + LeafPaths(r)[i - n];
          assert p[1..] == LeafPaths(r)[i - n];
        }
      }
  }

  /** The i-th leaf path leads to the i-th arc, for one i. */
  lemma LeafPathAt(t: Beach, i: nat)
    requires i < |LeafPaths(t)|
    ensures IsLeafPath(t, LeafPaths(t)[i]) && Subtree(t, LeafPaths(t)[i]) == Leaf(Leaves(t)[i])
  {
    LeafPathsReachLeaves(t);
  }

  /** A tree with a breakpoint has no leaf at the root. */
  lemma NodeLeafPathsAreLong(t: Beach, i: nat)
    requires t.Node? && i < |LeafPaths(t)|
    ensures |LeafPaths(t)[i]| > 0
  {
  }

  /** A path is its prefix `h` followed by the rest. */
  lemma PrefixThenRest(p: Path, h: Path)
    requires |h| <= |p| && p[..|h|] == h
    ensures h + p[|h|..] == p
  {
    assert p == p[..|h|] + p[|h|..];
  }

  /** Following a path further from the node a prefix reaches. */
  lemma {:induction false} PathSplit(t: Beach, p: Path, i: nat)
    requires ValidPath(t, p) && i <= |p|
    ensures ValidPath(t, p[..i]) && ValidPath(Subtree(t, p[..i]), p[i..])
    ensures Subtree(Subtree(t, p[..i]), p[i..]) == Subtree(t, p)
    ensures i < |p| ==> IsNodePath(t, p[..i])
    decreases |p|
  {
    if i == 0 {
      assert p[..0] == [] && p[0..] == p;
    } else {
      PathSplit(Child(t, p[0]), p[1..], i - 1);
      assert p[1..][..i - 1] == p[..i][1..];
      assert p[1..][i - 1..] == p[i..];
    }
  }

  /** Descending along `p` and then along `q` is descending along `p + q`. */
  lemma {:induction false} DescendConcat(t: Beach, p: Path, q: Path)
    requires ValidPath(t, p) && ValidPath(Subtree(t, p), q)
    ensures ValidPath(t, p + q) && Subtree(t, p + q) == Subtree(Subtree(t, p), q)
    decreases |p|
  {
    if |p| > 0 {
      DescendConcat(Child(t, p[0]), p[1..], q);
      assert (p + q)[1..] == p[1..] + q;
    } else {
      assert p + q == q;
    }
  }

  /** The tree with the node at path `p` replaced by `s`. */
  function ReplaceAt(t: Beach, p: Path, s: Beach): (r: Beach)
    requires ValidPath(t, p)
    ensures ValidPath(r, p) && Subtree(r, p) == s
    decreases |p|
  {
    if |p| == 0 then s
    else if p[0] then Node(t.edge, t.left, ReplaceAt(t.right, p[1..], s))
    else Node(t.edge, ReplaceAt(t.left, p[1..], s), t.right)
  }

  /** The arcs to the left of the node at path `p`. */
  function Before(t: Beach, p: Path): seq<Arc>
    requires ValidPath(t, p)
    decreases |p|
  {
    if |p| == 0 then []
    else if p[0] then Leaves(t.left) + Before(t.right, p[1..])
    else Before(t.left, p[1..])
  }

  /** The arcs to the right of the node at path `p`. */
  function After(t: Beach, p: Path): seq<Arc>
    requires ValidPath(t, p)
    decreases |p|
  {
    if |p| == 0 then []
    else if p[0] then After(t.right, p[1..])
    else After(t.left, p[1..]) + Leaves(t.right)
  }

  /** The arcs under any node sit between the arcs to its left and to its right. */
  lemma {:induction false} LeavesAround(t: Beach, p: Path)
    requires ValidPath(t, p)
    ensures Leaves(t) == Before(t, p) + Leaves(Subtree(t, p)) + After(t, p)
    decreases |p|
  {
    if |p| > 0 {
      LeavesAround(Child(t, p[0]), p[1..]);
    }
  }

  /**
   * Replacing a node leaves the arcs on either side alone: the leaf sequence
   * changes exactly where the replaced node's arcs were.
   */
  lemma {:induction false} ReplaceKeepsSurroundings(t: Beach, p: Path, s: Beach)
    requires ValidPath(t, p)
    ensures Before(ReplaceAt(t, p, s), p) == Before(t, p)
    ensures After(ReplaceAt(t, p, s), p) == After(t, p)
    ensures Leaves(ReplaceAt(t, p, s)) == Before(t, p) + Leaves(s) + After(t, p)
    decreases |p|
  {
    if |p| > 0 {
      ReplaceKeepsSurroundings(Child(t, p[0]), p[1..], s);
    }
    LeavesAround(ReplaceAt(t, p, s), p);
  }

  /** The node at a path extending `p` is found inside the replacement. */
  lemma {:induction false} ReplaceThenDescend(t: Beach, p: Path, s: Beach, q: Path)
    requires ValidPath(t, p) && ValidPath(s, q)
    ensures ValidPath(ReplaceAt(t, p, s), p + q)
    ensures Subtree(ReplaceAt(t, p, s), p + q) == Subtree(s, q)
    decreases |p|
  {
    if |p| > 0 {
      ReplaceThenDescend(Child(t, p[0]), p[1..], s, q);
      assert (p + q)[1..] == p[1..] + q;
    } else {
      assert p + q == q;
    }
  }

  /**
   * Replacing a node keeps every breakpoint edge outside it and adds those
   * of the replacement.
   */
  lemma {:induction false} ReplaceNodeEdges(t: Beach, p: Path, s: Beach)
    requires ValidPath(t, p)
    ensures NodeEdges(s) <= NodeEdges(ReplaceAt(t, p, s))
    ensures NodeEdges(t) - NodeEdges(Subtree(t, p)) <= NodeEdges(ReplaceAt(t, p, s))
    ensures NodeEdges(ReplaceAt(t, p, s)) <= NodeEdges(t) + NodeEdges(s)
    decreases |p|
  {
    if |p| > 0 {
      ReplaceNodeEdges(Child(t, p[0]), p[1..], s);
    }
  }

  /**
   * The leaf at `q` replaced by a breakpoint tracing `n + 1` over a
   * breakpoint tracing `n` over `p0` and `p1`, and `p2`: the three arcs
   * take the leaf's place in the left-to-right order and the tree gains
   * two breakpoints.
   */
  function SplitAt(t: Beach, q: Path, n: nat, p0: Arc, p1: Arc, p2: Arc): (r: Beach)
    requires IsLeafPath(t, q)
    ensures var k := |Before(t, q)|;
      && k < |Leaves(t)| && Leaves(t)[k] == Subtree(t, q).arc
      && Leaves(r) == Leaves(t)[..k] + [p0, p1, p2] + Leaves(t)[k + 1..]
    ensures IsLeafPath(r, q + [false, false]) && Subtree(r, q + [false, false]) == Leaf(p0)
    ensures IsLeafPath(r, q + [true]) && Subtree(r, q + [true]) == Leaf(p2)
    // the upper new breakpoint traces n + 1, the one below it n
    ensures IsNodePath(r, q) && Subtree(r, q).edge == n + 1
    ensures IsNodePath(r, q + [false]) && Subtree(r, q + [false]).edge == n
    ensures NodeEdges(r) == NodeEdges(t) + {n, n + 1}
    ensures forall a :: a in Leaves(r) ==> a in Leaves(t) || a == p0 || a == p1 || a == p2
  {
    var sub := Node(n + 1, Node(n, Leaf(p0), Leaf(p1)), Leaf(p2));
    SplitShape(t, q, sub);
    SplitLeavesAt(t, q, sub);
    ReplaceNodeEdges(t, q, sub);
    assert Leaves(sub) == [p0, p1, p2] by {
      assert Leaves(sub.left) == [p0, p1];
    }
    assert NodeEdges(sub) == {n, n + 1} by {
      assert NodeEdges(sub.left) == {n};
    }
    ReplaceAt(t, q, sub)
  }

  /** Where the parts of a two-level subtree hung at a leaf end up. */
  lemma SplitShape(t: Beach, q: Path, sub: Beach)
    requires IsLeafPath(t, q) && sub.Node? && sub.left.Node?
    ensures var r := ReplaceAt(t, q, sub);
      && IsNodePath(r, q) && Subtree(r, q) == sub
      && IsNodePath(r, q + [false]) && Subtree(r, q + [false]) == sub.left
      && ValidPath(r, q + [false, false]) && Subtree(r, q + [false, false]) == sub.left.left
      && ValidPath(r, q + [true]) && Subtree(r, q + [true]) == sub.right
  {
    ReplaceThenDescend(t, q, sub, []);
    ReplaceThenDescend(t, q, sub, [false]);
    ReplaceThenDescend(t, q, sub, [false, false]);
    ReplaceThenDescend(t, q, sub, [true]);
    assert q + [] == q;
  }

  /** Hanging a subtree at a leaf puts its arcs at the leaf's position in the arc order. */
  lemma SplitLeavesAt(t: Beach, q: Path, sub: Beach)
    requires IsLeafPath(t, q)
    ensures var k := |Before(t, q)|;
      && k < |Leaves(t)| && Leaves(t)[k] == Subtree(t, q).arc
      && Leaves(ReplaceAt(t, q, sub)) == Leaves(t)[..k] + Leaves(sub) + Leaves(t)[k + 1..]
  {
    var k := |Before(t, q)|;
    LeavesAround(t, q);
    ReplaceKeepsSurroundings(t, q, sub);
    assert Leaves(t)[..k] == Before(t, q) && Leaves(t)[k + 1..] == After(t, q);
  }

  /** A split adds exactly two breakpoints to the tree. */
  lemma SplitAtBreakpoints(t: Beach, q: Path, n: nat, p0: Arc, p1: Arc, p2: Arc)
    requires IsLeafPath(t, q)
    ensures InternalCount(SplitAt(t, q, n, p0, p1, p2)) == InternalCount(t) + 2
  {
    InternalCountIsLeavesMinusOne(t);
    InternalCountIsLeavesMinusOne(SplitAt(t, q, n, p0, p1, p2));
  }

  /**
   * The position of a leaf path in the left-to-right order is the number of
   * arcs to its left.
   */
  lemma {:induction false} LeafPathAtRank(t: Beach, p: Path)
    requires IsLeafPath(t, p)
    ensures |Before(t, p)| < |LeafPaths(t)|
    ensures LeafPaths(t)[|Before(t, p)|] == p
    decreases |p|
  {
    if |p| > 0 {
      var c := Child(t, p[0]);
      LeafPathAtRank(c, p[1..]);
      var k := |Before(c, p[1..])|;
      assert |Before(t, p)| == (if p[0] then |Leaves(t.left)| else 0) + k;
      LeafPathStep(t, |Before(t, p)|);
      assert p == [p[0]] + p[1..];
    }
  }

  /**
   * Changing the edge of the breakpoint at `h` leaves every node strictly
   * below it, and the arcs around that node, as they were.
   */
  lemma {:induction false} SetEdgeKeepsBelow(t: Beach, h: Path, n: nat, q: Path)
    requires IsNodePath(t, h) && |q| > 0 && ValidPath(Subtree(t, h), q)
    ensures var t1 := ReplaceAt(t, h, Subtree(t, h).(edge := n));
      && ValidPath(t, h + q) && ValidPath(t1, h + q)
      && Subtree(t1, h + q) == Subtree(t, h + q)
      && Before(t1, h + q) == Before(t, h + q)
      && After(t1, h + q) == After(t, h + q)
    decreases |h|
  {
    if |h| == 0 {
      assert h + q == q;
    } else {
      var c := Child(t, h[0]);
      SetEdgeKeepsBelow(c, h[1..], n, q);
      assert (h + q)[1..] == h[1..] + q;
      assert (h + q)[0] == h[0];
    }
  }

  /** The path of the first leaf carrying arc id `id`, if there is one. */
  function FindArc(t: Beach, id: nat): (r: Option<Path>)
    ensures r.Some? ==> IsLeafPath(t, r.value) && Subtree(t, r.value).arc.id == id
    ensures r.None? ==> forall a :: a in Leaves(t) ==> a.id != id
  {
    match t
    case Leaf(a) => if a.id == id then Some([]) else None
    case Node(_, l, r) =>
      match FindArc(l, id)
      case Some(p) =>
        assert ([false] + p)[1..] == p;
        Some([false] + p)
      case None =>
        match FindArc(r, id)
        case Some(p) =>
          assert ([true] + p)[1..] == p;
          Some([true] + p)
        case None => None
  }
}
