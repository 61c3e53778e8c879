/**
 * Walking the beachline: the nearest breakpoints above an arc and the
 * arcs just beside it. The source climbs parent pointers in a loop; on
 * paths, climbing is dropping the last step.
 */
module Navigation {
  import opened Outcomes
  import opened Geometry
  import opened Beachline

  /**
   * The nearest ancestor that has the node on its right side: drop steps
   * from the end while they go left. Absent when every step goes left,
   * that is, on the left spine of the tree. The root has no parent, which
   * the source dereferences, hence the precondition.
   */
  function LeftParent(p: Path): (r: Option<Path>)
    requires |p| > 0
    ensures r.Some? ==> && |r.value| < |p| && r.value == p[..|r.value|] && p[|r.value|]
                        && forall i :: |r.value| < i < |p| ==> !p[i]
    ensures r.None? <==> forall i :: 0 <= i < |p| ==> !p[i]
    decreases |p|
  {
    var parent := p[..|p| - 1];
    if p[|p| - 1] then Some(parent)
    else if |parent| == 0 then None
    else
      var r := LeftParent(parent);
      assert forall i :: 0 <= i < |parent| ==> parent[i] == p[i];
      r
  }

  /**
   * The nearest ancestor that has the node on its left side; absent on the
   * right spine.
   */
  function RightParent(p: Path): (r: Option<Path>)
    requires |p| > 0
    ensures r.Some? ==> && |r.value| < |p| && r.value == p[..|r.value|] && !p[|r.value|]
                        && forall i :: |r.value| < i < |p| ==> p[i]
    ensures r.None? <==> forall i :: 0 <= i < |p| ==> p[i]
    decreases |p|
  {
    var parent := p[..|p| - 1];
    if !p[|p| - 1] then Some(parent)
    else if |parent| == 0 then None
    else
      var r := RightParent(parent);
      assert forall i :: 0 <= i < |parent| ==> parent[i] == p[i];
      r
  }

  /** The path to the rightmost leaf: keep stepping right. */
  function RightmostPath(t: Beach): (p: Path)
    ensures IsLeafPath(t, p)
  {
    match t
    case Leaf(_) => []
    case Node(_, _, r) =>
      var q := RightmostPath(r);
      assert ([true] + q)[1..] == q;
      [true] + q
  }

  /** The path to the leftmost leaf: keep stepping left. */
  function LeftmostPath(t: Beach): (p: Path)
    ensures IsLeafPath(t, p)
  {
    match t
    case Leaf(_) => []
    case Node(_, l, _) =>
      var q := LeftmostPath(l);
      assert ([false] + q)[1..] == q;
      [false] + q
  }

  /** The rightmost path is the last leaf path. */
  lemma {:induction false} RightmostIsLast(t: Beach)
    ensures RightmostPath(t) == LeafPaths(t)[|LeafPaths(t)| - 1]
  {
    match t
    case Leaf(_) =>
    case Node(_, l, r) =>
      RightmostIsLast(r);
      var pl, pr := LeafPaths(l), LeafPaths(r);
      assert LeafPaths(t) == Prefixed(false, pl) + Prefixed(true, pr);
      assert LeafPaths(t)[|LeafPaths(t)| - 1] == Prefixed(true, pr)[|pr| - 1];
  }

  /** The leftmost path is the first leaf path. */
  lemma {:induction false} LeftmostIsFirst(t: Beach)
    ensures LeftmostPath(t) == LeafPaths(t)[0]
  {
    match t
    case Leaf(_) =>
    case Node(_, l, r) =>
      LeftmostIsFirst(l);
      var pl, pr := LeafPaths(l), LeafPaths(r);
      assert LeafPaths(t) == Prefixed(false, pl) + Prefixed(true, pr);
      assert LeafPaths(t)[0] == Prefixed(false, pl)[0];
  }

  /** The rightmost leaf of the breakpoint's left subtree. */
  function LeftChild(t: Beach, n: Path): (p: Path)
    requires IsNodePath(t, n)
    ensures IsLeafPath(t, p)
  {
    var q := RightmostPath(Subtree(t, n).left);
    DescendConcat(t, n, [false] + q);
    assert ([false] + q)[1..] == q;
    assert n + ([false] + q) == n + [false] + q;
    n + [false] + q
  }

  /** The leftmost leaf of the breakpoint's right subtree. */
  function RightChild(t: Beach, n: Path): (p: Path)
    requires IsNodePath(t, n)
    ensures IsLeafPath(t, p)
  {
    var q := LeftmostPath(Subtree(t, n).right);
    DescendConcat(t, n, [true] + q);
    assert ([true] + q)[1..] == q;
    assert n + ([true] + q) == n + [true] + q;
    n + [true] + q
  }

  /** The arc left of the arc at `p`: the left child of its left parent. */
  function GetLeft(t: Beach, p: Path): (r: Option<Path>)
    requires IsLeafPath(t, p) && |p| > 0
    ensures r.Some? ==> IsLeafPath(t, r.value)
  {
    match LeftParent(p)
    case None => None
    case Some(n) =>
      PathSplit(t, p, |n|);
      Some(LeftChild(t, n))
  }

  /** The arc right of the arc at `p`: the right child of its right parent. */
  function GetRight(t: Beach, p: Path): (r: Option<Path>)
    requires IsLeafPath(t, p) && |p| > 0
    ensures r.Some? ==> IsLeafPath(t, r.value)
  {
    match RightParent(p)
    case None => None
    case Some(n) =>
      PathSplit(t, p, |n|);
      Some(RightChild(t, n))
  }

  /**
   * The arc above x at sweep Y `sweepY`: descend from the root, going left
   * where the breakpoint lies right of x and right otherwise. The breakpoint
   * between the neighbouring arcs of each node is left to `num`.
   */
  function ArcAtX(t: Beach, x: real, sweepY: real, num: Numerics): (p: Path)
    ensures IsLeafPath(t, p)
  {
    match t
    case Leaf(_) => []
    case Node(_, l, r) =>
      var left := Subtree(l, RightmostPath(l)).arc.site.at;
      var right := Subtree(r, LeftmostPath(r)).arc.site.at;
      if num.breakpointX(left, right, sweepY) > x then
        var q := ArcAtX(l, x, sweepY, num);
        assert ([false] + q)[1..] == q;
        [false] + q
      else
        var q := ArcAtX(r, x, sweepY, num);
        assert ([true] + q)[1..] == q;
        [true] + q
  }

  /** Climbing a path one step longer at the root: the answer moves down by that step. */
  lemma {:induction false} LeftParentPrepend(b: bool, q: Path)
    requires |q| > 0
    ensures LeftParent([b] + q) ==
      match LeftParent(q)
      case Some(n) => Some([b] + n)
      case None => if b then Some([]) else None
    decreases |q|
  {
    var p := [b] + q;
    assert p[..|p| - 1] == [b] + q[..|q| - 1];
    if !q[|q| - 1] && |q| > 1 {
      LeftParentPrepend(b, q[..|q| - 1]);
    }
  }

  lemma {:induction false} RightParentPrepend(b: bool, q: Path)
    requires |q| > 0
    ensures RightParent([b] + q) ==
      match RightParent(q)
      case Some(n) => Some([b] + n)
      case None => if b then None else Some([])
    decreases |q|
  {
    var p := [b] + q;
    assert p[..|p| - 1] == [b] + q[..|q| - 1];
    if q[|q| - 1] && |q| > 1 {
      RightParentPrepend(b, q[..|q| - 1]);
    }
  }

  /** The children of a breakpoint below the root, seen from the root. */
  lemma ChildrenOneLevelDown(t: Beach, b: bool, n: Path)
    requires t.Node? && IsNodePath(Child(t, b), n)
    ensures IsNodePath(t, [b] + n)
    ensures LeftChild(t, [b] + n) == [b] + LeftChild(Child(t, b), n)
    ensures RightChild(t, [b] + n) == [b] + RightChild(Child(t, b), n)
  {
    assert ([b] + n)[1..] == n;
  }

  /** The left child of the root is the last arc of the left subtree. */
  lemma RootLeftChild(t: Beach)
    requires t.Node?
    ensures LeftChild(t, []) == LeafPaths(t)[|Leaves(t.left)| - 1]
  {
    RightmostIsLast(t.left);
    assert LeftChild(t, []) == [false] + RightmostPath(t.left);
    LeafPathStep(t, |Leaves(t.left)| - 1);
  }

  /** The right child of the root is the first arc of the right subtree. */
  lemma RootRightChild(t: Beach)
    requires t.Node?
    ensures RightChild(t, []) == LeafPaths(t)[|Leaves(t.left)|]
  {
    LeftmostIsFirst(t.right);
    assert RightChild(t, []) == [true] + LeftmostPath(t.right);
    LeafPathStep(t, |Leaves(t.left)|);
  }

  /** The children of the root breakpoint are the arcs on either side of its split. */
  lemma RootChildren(t: Beach)
    requires t.Node?
    ensures LeftChild(t, []) == LeafPaths(t)[|Leaves(t.left)| - 1]
    ensures RightChild(t, []) == LeafPaths(t)[|Leaves(t.left)|]
  {
    RootLeftChild(t);
    RootRightChild(t);
  }

  /**
   * The left neighbour of an arc one level down: found inside the child
   * when it is there, otherwise, from the right child, the last arc of the
   * left one.
   */
  lemma GetLeftPrepend(t: Beach, b: bool, q: Path)
    requires t.Node? && IsLeafPath(Child(t, b), q)
    ensures IsLeafPath(t, [b] + q)
    ensures GetLeft(t, [b] + q) ==
      if |q| > 0 && GetLeft(Child(t, b), q).Some? then Some([b] + GetLeft(Child(t, b), q).value)
      else if b then Some(LeftChild(t, []))
      else None
  {
    assert ([b] + q)[1..] == q;
    if |q| == 0 {
      assert [b] + q == [b];
    } else {
      LeftParentPrepend(b, q);
      match LeftParent(q)
      case None =>
      case Some(n) =>
        PathSplit(Child(t, b), q, |n|);
        ChildrenOneLevelDown(t, b, n);
    }
  }

  /**
   * The right neighbour of an arc one level down: found inside the child
   * when it is there, otherwise, from the left child, the first arc of the
   * right one.
   */
  lemma GetRightPrepend(t: Beach, b: bool, q: Path)
    requires t.Node? && IsLeafPath(Child(t, b), q)
    ensures IsLeafPath(t, [b] + q)
    ensures GetRight(t, [b] + q) ==
      if |q| > 0 && GetRight(Child(t, b), q).Some? then Some([b] + GetRight(Child(t, b), q).value)
      else if b then None
      else Some(RightChild(t, []))
  {
    assert ([b] + q)[1..] == q;
    if |q| == 0 {
      assert [b] + q == [b];
    } else {
      RightParentPrepend(b, q);
      match RightParent(q)
      case None =>
      case Some(n) =>
        PathSplit(Child(t, b), q, |n|);
        ChildrenOneLevelDown(t, b, n);
    }
  }

  /**
   * GetLeft finds the in-order predecessor: the arc before the k-th arc is
   * the (k-1)-th, and the first arc has none.
   */
  lemma {:induction false} GetLeftIsPredecessor(t: Beach, k: nat)
    requires t.Node? && k < |Leaves(t)|
    ensures IsLeafPath(t, LeafPaths(t)[k]) && |LeafPaths(t)[k]| > 0
    ensures k == 0 ==> GetLeft(t, LeafPaths(t)[k]) == None
    ensures k > 0 ==> GetLeft(t, LeafPaths(t)[k]) == Some(LeafPaths(t)[k - 1])
  {
    var nl := |Leaves(t.left)|;
    var b := k >= nl;
    var c := Child(t, b);
    var j := if b then k - nl else k;
    LeafPathStep(t, k);
    LeafPathAt(t, k);
    var q := LeafPaths(c)[j];
    var p := LeafPaths(t)[k];
    assert p == [b] + q;
    LeafPathAt(c, j);
    if c.Node? {
      GetLeftIsPredecessor(c, j);
    }
    if j > 0 {
      assert GetLeft(t, p) == Some(LeafPaths(t)[k - 1]) by {
        GetLeftPrepend(t, b, q);
        assert (k - 1 >= nl) == b;
        LeafPathStep(t, k - 1);
      }
    } else if b {
      assert GetLeft(t, p) == Some(LeafPaths(t)[k - 1]) by {
        GetLeftPrepend(t, b, q);
        assert |q| == 0 || GetLeft(c, q).None?;
        RootLeftChild(t);
        assert k - 1 == nl - 1;
      }
    } else {
      assert GetLeft(t, p) == None by {
        GetLeftPrepend(t, b, q);
      }
    }
  }

  /**
   * GetRight finds the in-order successor: the arc after the k-th arc is
   * the (k+1)-th, and the last arc has none.
   */
  lemma {:induction false} GetRightIsSuccessor(t: Beach, k: nat)
    requires t.Node? && k < |Leaves(t)|
    ensures IsLeafPath(t, LeafPaths(t)[k]) && |LeafPaths(t)[k]| > 0
    ensures k == |Leaves(t)| - 1 ==> GetRight(t, LeafPaths(t)[k]) == None
    ensures k < |Leaves(t)| - 1 ==> GetRight(t, LeafPaths(t)[k]) == Some(LeafPaths(t)[k + 1])
  {
    var nl := |Leaves(t.left)|;
    var b := k >= nl;
    var c := Child(t, b);
    var j := if b then k - nl else k;
    LeafPathStep(t, k);
    LeafPathAt(t, k);
    var q := LeafPaths(c)[j];
    var p := LeafPaths(t)[k];
    assert p == [b] + q;
    LeafPathAt(c, j);
    if c.Node? {
      GetRightIsSuccessor(c, j);
    }
    if j < |Leaves(c)| - 1 {
      assert GetRight(t, p) == Some(LeafPaths(t)[k + 1]) by {
        GetRightPrepend(t, b, q);
        assert (k + 1 >= nl) == b;
        LeafPathStep(t, k + 1);
      }
    } else if !b {
      assert GetRight(t, p) == Some(LeafPaths(t)[k + 1]) by {
        GetRightPrepend(t, b, q);
        RootRightChild(t);
      }
    } else {
      assert GetRight(t, p) == None by {
        GetRightPrepend(t, b, q);
      }
    }
  }
}
