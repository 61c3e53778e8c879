# Fortune's sweep for Voronoi edges, modelled in Dafny

This project models the combinatorial core of a Go implementation of
Fortune's sweep-line algorithm for Voronoi diagrams (`voronoi.go`). The
entry point is `GetEdges(places, w, h)`. It pushes one site event per
input point, then pops events from highest Y to lowest. A site event
inserts an arc into the beachline; a circle event removes one. Popped
events that appear on the tombstone list are skipped. At the end, every
edge still traced by a breakpoint gets an end. Its x is the box side the
edge runs towards, or 10 units beyond its start when the start lies less
than 10 units inside that side or outside it. Its y is on the edge's
line, or on the top or bottom side for a vertical edge. Each returned
half-edge then takes its twin's far end as its start.

The model keeps the discrete machinery, up to the differences listed
under "## Left out". It leaves the floating-point geometry as
uninterpreted function values (`Numerics`).
This covers:
- the tombstone list;
- the event queue;
- the beachline tree and its navigation;
- arc insertion and removal;
- circle-event bookkeeping;
- the final passes.

Modules, one per part of the program:

- `Outcomes` — `Option` and `Result`.
- `Geometry` — points, sites (a point with an identity), edges and their
  slopes, events, and the uninterpreted numerics.
- `EventList` — the tombstone list: `Find`, `Last`, `Remove`.
- `EventQueue` — the priority queue, as the sequence of its contents, with
  `Less`, `Push` and `Pop`.
- `Beachline` — the beachline as an algebraic tree
  `Beach = Leaf(Arc) | Node(edge, left, right)`, addressed by paths from
  the root (`false` = left). `Leaves` gives the in-order arc sequence,
  which is the abstraction most properties are stated in.
- `Navigation` — `GetLeftParent`, `GetRightParent`, `GetLeftChild`,
  `GetRightChild`, `GetLeft`, `GetRight` and `getParabolaByX`.
- `Engine` — the sweep state, its invariant, `checkCircle`, and the tree
  split of the general insertion case.
- `Insertion` — `insertParabola`.
- `Pruning` — the two tree edits of removal: relabelling the higher
  breakpoint and splicing out the vanished arc's parent.
- `Removal` — `removeParabola`.
- `Finish` — `finishEdge` and the neighbour-join pass.
- `Voronoi` — seeding, the event loop with its termination measure, and
  `GetEdges`.
- `Liveness` — the event bookkeeping the loop keeps (every circle event
  still due is the one its arc holds, and that arc has a neighbour on each
  side), and from it that the sweep of a non-empty input never faults.

Representation choices:
- Edges live in an arena `edges: seq<Edge>`, indexed by position; `output`
  lists the arena indices of the edges `GetEdges` returns, in order.
- The right twin `er` of a split is kept in the arena but, as in the Go
  code, never returned.
- Each arc's pending circle event is held in a map from arc id to event,
  so an arc holds at most one event by construction.
- Go compares sites, arcs and events by pointer. The model gives each a
  number:
  - a site is numbered by its position in the input;
  - an arc by `nextArc`;
  - a circle event by `nextEvent`.
- Go's nil dereferences become the `Fault` values of a `Result`.

Where the code and its own test disagree, the model
follows the code:
- **Sweep order.** `Less` (voronoi.go:125-128) pops the largest Y first,
  and `checkCircle` and the first-two-sites test in `insertParabola` rely
  on that. `TestEventQueue` (voronoi_test.go:23-47) expects ascending pops
  (1, 3, 5, 7). `EventQueue.QueueTestPopsHighestFirst` proves that the
  test's first pop returns Y = 7, not 1.

On empty input the code calls `finishEdge(nil)`, which dereferences nil.
`Voronoi.GetEdges` returns `Failure(EmptyBeachline)` for it.
`Liveness.GetEdgesSucceeds` shows that every non-empty input returns its
edges.

## Model

| member | source | states |
|---|---|---|
| Geometry.NewEdge | voronoi.go:51-70 | a new edge starts at the given point between the given left and right sites, with no end and no twin |
| Geometry.NewEdgeBisects | voronoi.go:51-70 | for sites at different heights: the slope line runs through the start perpendicular to the two sites, and the direction runs along it. For equal heights: +Inf with direction (-1,0) when the right site lies right, -Inf with direction (1,0) when it lies left, NaN when the sites coincide |
| Geometry.NewEvent | voronoi.go:81-89 | a new event is keyed by its point's Y and bound to no arc |
| EventList.Find | voronoi.go:93-100 | the first index holding the event, and -1 exactly when it is absent |
| EventList.Last | voronoi.go:102-107 | nothing exactly for the empty list, otherwise the final element |
| EventList.Remove | voronoi.go:109-117 | true exactly when the event is present. Absent: the list is unchanged. Present: exactly its first occurrence is cut out and the rest keep their order |
| EventList.LastOfAppend | voronoi.go:93-107 | after appending an event, it is the last one and is found at its first earlier position or at the end |
| EventList.RemoveKeepsOthers | voronoi.go:109-117 | removing one event keeps every other event's membership |
| EventList.TombstoneScenario | voronoi_test.go:49-80 | the list test's finds, lasts and removals give the values the test expects |
| EventQueue.Less | voronoi.go:125-128 | one event goes before another exactly when its Y is strictly greater; events of equal Y are unordered |
| EventQueue.LessIsStrictWeakOrder | voronoi.go:125-128 | the order is irreflexive, asymmetric and transitive, and two events are incomparable exactly when their Ys are equal |
| EventQueue.Push | voronoi.go:134-146 | the queue's contents grow by exactly the pushed event, which goes last |
| EventQueue.Top | voronoi.go:125-128 | no queued event goes before the chosen one under `Less`, and it is the first of maximal Y |
| EventQueue.Pop | voronoi.go:148-154 | the popped event was queued and has maximal Y; the remaining contents are the old ones minus that event |
| EventQueue.PushThenPop | voronoi.go:125-154 | a push followed by a pop keeps the multiset of pushed-minus-popped events, and pops something at least as high as the pushed event and every older one |
| EventQueue.PopsDescend | voronoi.go:125-128 | with no push in between, successive pops never rise in Y |
| EventQueue.PopTakesHighest | voronoi.go:125-154 | an event strictly higher than all others is the one popped, and exactly the others remain |
| EventQueue.QueueTestPopsHighestFirst | voronoi_test.go:23-47 | with pushes of Y 5, 3, 7, 1 the first pop is the Y 7 event, not the Y 1 one the test expects |
| Beachline.Leaves | voronoi.go:156-164 | every beachline has at least one arc |
| Beachline.InternalCountIsLeavesMinusOne | voronoi.go:156-164 | a beachline has one breakpoint fewer than it has arcs |
| Beachline.LeafPathsReachLeaves | voronoi.go:156-164 | the i-th leaf path leads to the i-th arc in left-to-right order |
| Beachline.ReplaceAt | voronoi.go:193-201 | after re-hanging a subtree at a node, that node holds the new subtree |
| Beachline.ReplaceKeepsSurroundings | voronoi.go:193-201 | re-hanging a subtree keeps the arcs before and after it, and splices the new subtree's arcs between them |
| Beachline.SplitAt | voronoi.go:359-370 | in the arc order, the split arc's position holds the three new arcs and the rest is unchanged. The outer new arcs sit at the paths the circle checks use. The breakpoint in the arc's place traces edge n+1 (the right twin) and its left child traces edge n (the left twin) |
| Beachline.SplitAtBreakpoints | voronoi.go:359-370 | a split adds exactly two breakpoints to the tree |
| Beachline.FindArc | voronoi.go:378 | finds a leaf with the given arc id, or nothing exactly when no arc has that id |
| Navigation.LeftParent | voronoi.go:222-233 | the nearest ancestor with the arc in its right subtree; nothing exactly when the path never turns right (the arc is leftmost) |
| Navigation.RightParent | voronoi.go:235-246 | the nearest ancestor with the arc in its left subtree; nothing exactly when the path never turns left (the arc is rightmost) |
| Navigation.LeftChild | voronoi.go:248-257 | the leaf reached by going left once, then right to the bottom, is a leaf of the tree |
| Navigation.RightChild | voronoi.go:259-268 | the leaf reached by going right once, then left to the bottom, is a leaf of the tree |
| Navigation.RightmostIsLast | voronoi.go:248-257 | stepping right to the bottom reaches the last arc in arc order |
| Navigation.LeftmostIsFirst | voronoi.go:259-268 | stepping left to the bottom reaches the first arc in arc order |
| Navigation.RootChildren | voronoi.go:248-268 | at the root, the left child is the last arc of the left subtree and the right child the first arc of the right subtree, in arc order |
| Navigation.ChildrenOneLevelDown | voronoi.go:248-268 | the leftmost/rightmost descent commutes with stepping into a child |
| Navigation.GetLeft | voronoi.go:203-205 | the left neighbour, when there is one, is a leaf |
| Navigation.GetLeftPrepend | voronoi.go:203-205 | one level down, the left neighbour is found inside the child when it is there; otherwise it is the last arc of the left subtree (from the right child) or there is none (from the left child) |
| Navigation.GetRightPrepend | voronoi.go:207-209 | one level down, the right neighbour is found inside the child when it is there; otherwise it is the first arc of the right subtree (from the left child) or there is none (from the right child) |
| Navigation.GetRight | voronoi.go:207-209 | the right neighbour, when there is one, is a leaf |
| Navigation.GetLeftIsPredecessor | voronoi.go:203-205 | the left neighbour of the k-th arc is the (k-1)-th arc, and nothing for the first |
| Navigation.GetRightIsSuccessor | voronoi.go:207-209 | the right neighbour of the k-th arc is the (k+1)-th arc, and nothing for the last |
| Navigation.ArcAtX | voronoi.go:500-512 | the descent by breakpoint x always ends at a leaf |
| Engine.CircleEvent | voronoi.go:471-496 | no event when a neighbour is missing, when both neighbours share a site, or when the bisectors do not meet. When the neighbours' sites differ and the bisectors meet at v with v.y minus the radius below the sweep line, there is an event at (v.x, v.y minus the radius). Any event is a circle event with a fresh id, keyed by its point's Y, below the sweep line, and bound to the checked arc |
| Engine.Armed | voronoi.go:495-497 | the event goes to the back of the queue and the arc holds it; every other arc keeps its entry, the event counter advances, and nothing else changes |
| Engine.CheckCircle | voronoi.go:494-498 | without a circle event nothing changes. Otherwise exactly that event is queued last and the arc holds it, so the event and the arc point to each other; nothing else changes |
| Engine.SplitLeaf | voronoi.go:345-370 | the beachline becomes the split of the located arc; the queue and sweep line stay, three fresh arc ids are used, and the state invariant holds |
| Engine.NewArcs | voronoi.go:362-364 | the three new arcs carry the old site, the new site and the old site again. Their ids are pairwise distinct, in the fresh range, and equal to no arc already on the beachline |
| Engine.SplitLeafArcs | voronoi.go:359-370 | in arc order, the split arc is replaced in place by the old site, the new site and the old site again, under the next three ids; every other arc keeps its place |
| Engine.SplitLeafOuter | voronoi.go:362-373 | after the split, the arcs the two circle checks look at are the outer new arcs, which carry the old site, and there are two more arcs |
| Engine.SplitLeafEdges | voronoi.go:345-357 | the split arc's pending event is appended to the tombstone list and cleared. The two new edges share a start and have mirrored sites; the first has the second as its twin and is the only one returned |
| Engine.GrowKeepsInv | voronoi.go:353-357 | adding a twin pair of traced edges and only fresh arcs keeps the invariant |
| Engine.ExtendsTrans | voronoi.go:497 | appending circle events in two rounds appends at most their sum |
| Engine.CheckArms | voronoi.go:471-498 | a circle check queues at most one event, for the checked arc and below the sweep line, and leaves the beachline and edges alone |
| Engine.CheckHolds | voronoi.go:494-497 | a circle check either leaves the pending events and the counter alone, or queues one event with the next id that the checked arc holds; other arcs keep their entries and the old queue is a prefix |
| Engine.CheckTwo | voronoi.go:372-373 | two circle checks in a row change only the queue, the pending events and the event counter; they append at most two circle events and keep the invariant. Every arc other than the two checked ones keeps its pending event |
| Engine.CheckTwoHolds | voronoi.go:372-373 | for two different arcs, every event the checks queue has a fresh id and is the one its arc holds afterwards |
| Engine.CheckTwoArms | voronoi.go:372-373 | two circle checks in a row queue events only for the two checked arcs, below the sweep line |
| Insertion.SplitRoot | voronoi.go:328-342 | a lone root arc becomes arcs [old site, new site] under one breakpoint. Its edge starts midway between the sites on the top side, with the lower-x site on its left, and is returned; no circle event |
| Insertion.SplitArc | voronoi.go:345-373 | the general insertion adds two arcs and at most two circle events, which belong to the two outer new arcs and lie below the sweep line, and keeps the invariant |
| Insertion.InsertParabola | voronoi.go:323-374 | into an empty beachline the site becomes the only arc; a root arc less than one unit above splits by SplitRoot; otherwise SplitArc. Afterwards there is a beachline, at most two more arcs, at most two new circle events, and the invariant holds |
| Pruning.Relabel | voronoi.go:413 | the breakpoint traces the new edge; the arcs are unchanged and only the old edge can stop being traced |
| Pruning.Prune | voronoi.go:416-433 | the arc's parent is replaced by its sibling, and only the parent's edge can stop being traced |
| Pruning.PruneLeaves | voronoi.go:416-433 | pruning removes exactly the arc from the arc order |
| Pruning.PruneKeepsAncestors | voronoi.go:416-433 | every breakpoint above the spliced parent keeps its place and edge |
| Removal.ParentsOfArc | voronoi.go:399-411 | of the two breakpoints beside an inner arc, the deeper is its parent and the other lies strictly higher |
| Removal.ArcNeighbours | voronoi.go:377-382 | the k-th arc has a left breakpoint exactly when k > 0 and a right one exactly when it is not last; their outer children are the (k-1)-th and (k+1)-th arcs |
| Removal.Higher | voronoi.go:399-411 | the chosen breakpoint is one of the two beside the arc and a strict ancestor of its parent |
| Removal.RelabelHigher | voronoi.go:399-416 | relabelling the higher breakpoint leaves the arc, the arcs before it and its parent untouched |
| Removal.RemovalTree | voronoi.go:399-433 | after the removal edits, only the two bounding edges can stop being traced, and the new edge is traced |
| Removal.RemovalTreeLeaves | voronoi.go:399-433 | the removal edits delete exactly the arc from the arc order |
| Removal.Bury | voronoi.go:384-391 | an arc's pending event, if any, goes to the front of the tombstone list and the arc holds none; other arcs keep theirs |
| Removal.CloseEdges | voronoi.go:396-397 | the two bounding edges end at the vertex; every other edge stays |
| Removal.Collapse | voronoi.go:376-433 | the removal before its circle checks: one arc fewer, new edge returned, queue unchanged, invariant kept |
| Removal.CollapseTombstones | voronoi.go:384-391 | the left neighbour's event is buried first, then the right neighbour's |
| Removal.CollapseEdges | voronoi.go:393-414 | both bounding edges get the same end, the arc's point above the event's x. A new edge between the neighbours' sites starts there and is returned; no other edge changes |
| Removal.Recheck | voronoi.go:435-436 | the former neighbours, now adjacent, are the only arcs that get circle events, below the sweep line |
| Removal.Locate | voronoi.go:378 | the event's arc is found in the beachline, or nothing exactly when no arc has its id |
| Removal.Vanish | voronoi.go:376-437 | a removal drops one arc, adds at most two circle events and keeps the invariant |
| Removal.RemoveParabola | voronoi.go:376-437 | for an arc that is still a leaf, the faults arise exactly when their nil dereference would: the arc at the root, or the arc first or last. An event whose arc is no longer a leaf is the ArcNotInBeachline fault. Otherwise the removal succeeds |
| Removal.VanishArcs | voronoi.go:376-437 | an inner arc vanishes and exactly it leaves the arc order |
| Removal.VanishArms | voronoi.go:435-436 | new circle events belong to the vanished arc's former neighbours |
| Finish.ClampEnd | voronoi.go:526-545 | the end point's x and y, as for Finish.Clamp |
| Finish.Clamp | voronoi.go:524-548 | the end x is max(width, start.x+10) when the edge runs right and min(0, start.x-10) otherwise. The end y is on the slope line, the top side for +Inf or the bottom for -Inf. Nothing else of the edge changes |
| Finish.ClampIdempotent | voronoi.go:524-548 | clamping twice is clamping once |
| Finish.FinishTree | voronoi.go:524-554 | exactly the edges traced by breakpoints are clamped, and no other edge changes |
| Finish.JoinNeighbors | voronoi.go:314-319 | each listed edge with a twin takes the twin's end as its start, and every listed edge ends with no twin. End, sites, slope and direction never change, and an edge that is unlisted or has no twin stays as it was |
| Voronoi.WeightPop | voronoi.go:148-154 | a pop removes exactly the popped event's share of the queue's weight |
| Voronoi.WeightExtends | voronoi.go:497 | appended circle events add one unit of weight each |
| Voronoi.Seed | voronoi.go:283-294 | one site event per input point, in input order, numbered by position. Empty beachline, no edges, no tombstones, the invariant holds |
| Voronoi.Handle | voronoi.go:305-309 | a site event inserts an arc and always leaves a beachline; a circle event removes one or faults, never with the empty-beachline fault. On success the invariant holds, and the termination measure grows by less than the popped event's worth, so the step as a whole lowers it |
| Voronoi.Step | voronoi.go:297-310 | the highest event is popped and the sweep line moves to it. A tombstoned event is removed from the list and skipped; a site event inserts; a circle event removes. The invariant holds and the termination measure drops |
| Voronoi.Run | voronoi.go:296-311 | the loop ends with an empty queue and the invariant, or with a removal fault; the box size is unchanged |
| Voronoi.Finished | voronoi.go:312 | after finishing, every arena edge has an end |
| Voronoi.Output | voronoi.go:312-320 | every returned edge has an end and no twin; a former twin-holder starts at its twin's end |
| Voronoi.GetEdges | voronoi.go:283-321 | empty input is the empty-beachline fault; otherwise every returned edge has an end and no twin |
| Voronoi.PopKeyed | voronoi.go:148-154 | the popped event is keyed by its point's Y and no remaining event is higher |
| Voronoi.HandleBehind | voronoi.go:305-309 | handling an event queues nothing above the sweep line and keeps every event keyed by its point's Y |
| Voronoi.StepSweepsDown | voronoi.go:297-310 | after each step no queued event lies above the sweep line, so the line never moves up |
| Voronoi.NonEmptyHasBeachline | voronoi.go:283-321 | a non-empty input never ends in the empty-beachline fault |
| Voronoi.SingleSiteSweep | voronoi.go:323-327 | one site gives a one-arc beachline and no edge |
| Voronoi.SingleSiteHasNoEdges | voronoi.go:283-321 | one site yields an empty edge list |
| Liveness.ArmKeepsLive | voronoi.go:494-497 | queuing a fresh event for an arc that holds none and has a neighbour on each side keeps the bookkeeping |
| Liveness.CircleEventInterior | voronoi.go:471-481 | a circle event is only found for an arc with a neighbour on each side |
| Liveness.CheckKeepsLive | voronoi.go:471-498 | a circle check of an arc that holds no event keeps the invariant and the bookkeeping |
| Liveness.CheckTwoKeepsLive | voronoi.go:372-373 | two circle checks of two different arcs that hold no event keep the invariant and the bookkeeping |
| Liveness.SplitLeafKeepsLive | voronoi.go:345-370 | the split arc's event is tombstoned, the arc ids stay unique, and the two outer new arcs hold no event |
| Liveness.SplitArcKeepsLive | voronoi.go:345-373 | the general insertion keeps the bookkeeping |
| Liveness.FirstArcKeepsLive | voronoi.go:324-327 | the first arc of an empty beachline keeps the bookkeeping |
| Liveness.SplitRootKeepsLive | voronoi.go:328-342 | splitting a lone root arc keeps the bookkeeping |
| Liveness.InsertKeepsLive | voronoi.go:323-374 | every site event keeps the bookkeeping |
| Liveness.CollapseKeepsLive | voronoi.go:376-433 | the arc of a held event is neither first nor last; it alone leaves the arc order, its neighbours' events are tombstoned, and the bookkeeping is kept |
| Liveness.RecheckKeepsLive | voronoi.go:435-436 | checking two adjacent arcs that hold no event keeps the bookkeeping |
| Liveness.VanishKeepsLive | voronoi.go:376-437 | the vanishing of a held event's arc, with its former neighbours checked, keeps the bookkeeping |
| Liveness.SeedIsLive | voronoi.go:291-294 | the seeded queue of site events satisfies the bookkeeping |
| Liveness.PopKeepsDistinct | voronoi.go:148-154 | popping from a queue of distinct events leaves distinct events that do not include the popped one |
| Liveness.RemoveKeepsLive | voronoi.go:376-437 | removing the arc of a held event never faults and keeps the bookkeeping |
| Liveness.StepKeepsLive | voronoi.go:298-310 | under the bookkeeping one turn of the loop never faults and keeps the bookkeeping |
| Liveness.RunKeepsLive | voronoi.go:298-310 | under the bookkeeping the loop runs to an empty queue without a fault |
| Liveness.GetEdgesSucceeds | voronoi.go:283-321 | every non-empty input returns its edges |

## Left out

- Floating-point geometry. `getXOfEdge` (voronoi.go:556-594), `getY`
  (voronoi.go:514-522), `getEdgeIntersection` (voronoi.go:439-469) and the
  square-root radius in `checkCircle` are the fields `breakpointX`,
  `parabolaY`, `intersect` and `distance` of the `Numerics` parameter.
  Nothing is assumed about them.
- Geometry.NewEdge: coordinates are real numbers, not float64. The IEEE
  division by a signed zero is written out as the three cases +Inf, -Inf
  and NaN; signed zero and rounding are not modelled.
- Finish.Clamp: for an edge with a NaN slope (two coinciding sites) the
  code computes a NaN end y. Reals have no NaN, so the model puts the end
  at the start's height. Nothing is proved about that case.
- EventQueue.Pop: `container/heap` picks among events of equal Y by heap
  position. The model picks the earliest pushed one. Only "some event of
  maximal Y" is stated, so no property depends on the tie-break.
- The `v.points` list is write-only bookkeeping that is never returned,
  so it is not modelled.
- The first `v.Y` is never read before the first pop overwrites it, so the
  seed state uses 0.
- `Print` (voronoi.go:211-220) is debug output and is not modelled.
- `Ed` and `Pt` are constructors, and `Len`/`Swap` are `container/heap`
  plumbing.
- `TestGetEdges` (voronoi_test.go:82-113) only prints and then fails
  unconditionally, so it states nothing.
- `examples/basic.go` is random input generation and SVG output, and is
  not part of this model.
- Removal.RemoveParabola: for an arbitrary state, a circle event whose
  arc is no longer a leaf is reported as `ArcNotInBeachline`. In the code,
  an arc that already vanished has a nil parent (voronoi.go:433), so
  `GetLeftParent` dereferences nil and the fault matches. An arc that was
  split stays in the tree as the breakpoint that replaced it
  (voronoi.go:359-360). The code would run the removal from that
  breakpoint, and would panic only if the breakpoint's parent were the
  root. The model does not follow that path. `Liveness.StepKeepsLive`
  shows that a sweep never dispatches either kind of event. The vanished arc's own entry in the pending
  map is not cleared, as in the code; arc ids are never reused, so nothing
  reads it again.
- Site identity. In the code a site is the input `*Point` itself
  (voronoi.go:34, 292-293), and `checkCircle` compares sites by pointer
  (voronoi.go:478). The model numbers sites by input position. So the
  same pointer passed twice is one site in the code but two sites in the
  model, and a circle check the code skips for that pair can queue an
  event in the model. Distinct pointers to equal coordinates are two
  sites in both.
- Voronoi.GetEdges: states that the returned edges are closed and
  twin-free. It does not state that they form the Voronoi diagram, which
  depends on the geometry left uninterpreted above.
