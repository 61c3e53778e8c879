/**
 * The tombstone list: circle events that became stale before their turn
 * and must be skipped when they are popped. Events are compared by
 * identity, which the model carries in the event's `id`.
 */
module EventList {
  import opened Outcomes
  import opened Geometry

  /** The first index holding `e`, or -1 when `e` is not in the list. */
  function Find(l: seq<Event>, e: Event): (i: int)
    ensures -1 <= i < |l|
    ensures i == -1 <==> e !in l
    ensures i >= 0 ==> l[i] == e && e !in l[..i]
  {
    if |l| == 0 then -1
    else if l[0] == e then 0
    else
      var j := Find(l[1..], e);
      assert l[1..][..j + 1] == l[1..j + 2] by {
        assert l[1..j + 2] == l[1..][..j + 1];
      }
      if j == -1 then -1 else j + 1
  }

  /** The final element, or nothing for an empty list. */
  function Last(l: seq<Event>): (r: Option<Event>)
    ensures r.None? <==> |l| == 0
    ensures r.Some? ==> r.value == l[|l| - 1]
  {
    if |l| == 0 then None else Some(l[|l| - 1])
  }

  /**
   * Deletes the first occurrence of `e` and reports whether there was one;
   * an absent event leaves the list as it was.
   */
  function Remove(l: seq<Event>, e: Event): (r: (seq<Event>, bool))
    ensures r.1 <==> e in l
    ensures !r.1 ==> r.0 == l
    ensures r.1 ==> exists i :: 0 <= i < |l| && l[i] == e && e !in l[..i] && r.0 == l[..i] + l[i + 1..]
    ensures r.1 ==> |r.0| == |l| - 1 && multiset(r.0) + multiset{e} == multiset(l)
  {
    var i := Find(l, e);
    if i == -1 then (l, false)
    else
      assert l == l[..i] + [l[i]] + l[i + 1..];
      (l[..i] + l[i + 1..], true)
  }

  /** Appending an event makes it the last one. */
  lemma LastOfAppend(l: seq<Event>, e: Event)
    ensures Last(l + [e]) == Some(e)
    ensures Find(l + [e], e) == if e in l then Find(l, e) else |l|
  {
    if e in l {
      var i := Find(l, e);
      assert (l + [e])[..i] == l[..i];
    } else {
      assert (l + [e])[..|l|] == l;
    }
  }

  /**
   * Removing the entry that Find reports leaves the others in order, and
   * every other event keeps its membership.
   */
  lemma RemoveKeepsOthers(l: seq<Event>, e: Event, x: Event)
    requires x != e
    ensures x in Remove(l, e).0 <==> x in l
  {
    var i := Find(l, e);
    if i != -1 {
      assert l == l[..i] + [e] + l[i + 1..];
    }
  }

  /** The scenario of the event-list test: two events, a stranger, then removals. */
  lemma TombstoneScenario(e1: Event, e2: Event, e3: Event)
    requires e1 != e2 && e2 != e3 && e1 != e3
    ensures Find([e1, e2], e3) == -1
    ensures Find([e1, e2], e2) == 1
    ensures Last([e1, e2]) == Some(e2)
    ensures Remove([e1, e2], e3) == ([e1, e2], false)
    ensures Remove([e1, e2], e2) == ([e1], true)
    ensures Last([e1]) == Some(e1)
    ensures Remove([e1], e1) == ([], true) && Last([]) == None
  {
    assert [e1, e2][1..] == [e2];
    assert [e1, e2][..1] == [e1];
    assert [e1, e2][2..] == [];
    assert Find([e1, e2], e2) == 1;
    var l := [e1, e2];
    assert Remove(l, e2).0 == l[..1] + l[2..] == [e1];
    assert Remove(l, e2).1;
  }
}
