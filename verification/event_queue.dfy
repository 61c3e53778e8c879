/**
 * The event queue: a priority queue ordered by `Less`, which puts the
 * LARGER Y first, so the sweep runs from high Y to low Y. The queue is kept
 * as the sequence of its contents; `Pop` takes an event of maximal Y.
 * Which of several events of equal Y the binary heap would return is not
 * modelled: this model returns the earliest pushed one.
 */
module EventQueue {
  import opened Geometry

  /** Event i goes before event j: a larger Y is popped first. */
  predicate Less(q: seq<Event>, i: nat, j: nat): (b: bool)
    requires i < |q| && j < |q|
    // no event goes before itself, nor before one of the same Y
    ensures b ==> i != j && q[i].y != q[j].y
    // of two events of different Y, the higher goes first
    ensures q[i].y != q[j].y ==> (b <==> q[j].y < q[i].y)
  {
    q[i].y > q[j].y
  }

  /**
   * `Less` is a strict weak order, as the heap needs: never both ways,
   * transitive, and events are unordered exactly when they share a Y.
   */
  lemma LessIsStrictWeakOrder(q: seq<Event>, i: nat, j: nat, k: nat)
    requires i < |q| && j < |q| && k < |q|
    ensures Less(q, i, j) ==> !Less(q, j, i)
    ensures Less(q, i, j) && Less(q, j, k) ==> Less(q, i, k)
    ensures !Less(q, i, j) && !Less(q, j, i) <==> q[i].y == q[j].y
  {
  }

  /** Adds an event to the queue. */
  function Push(q: seq<Event>, e: Event): (r: seq<Event>)
    ensures |r| == |q| + 1
    ensures multiset(r) == multiset(q) + multiset{e}
    ensures r[..|q|] == q && r[|q|] == e
  {
    q + [e]
  }

  /** The position of an event that no other event goes before under `Less`. */
  function Top(q: seq<Event>): (i: nat)
    requires |q| > 0
    ensures i < |q|
    ensures forall j :: 0 <= j < |q| ==> !Less(q, j, i)
    ensures forall j :: 0 <= j < i ==> Less(q, i, j)
  {
    if |q| == 1 then 0
    else
      var n := |q| - 1;
      var k := Top(q[..n]);
      assert forall j :: 0 <= j < n ==> q[j].y <= q[k].y by {
        forall j | 0 <= j < n ensures q[j].y <= q[k].y {
          assert !Less(q[..n], j, k);
        }
      }
      assert forall j :: 0 <= j < k ==> q[j].y < q[k].y by {
        forall j | 0 <= j < k ensures q[j].y < q[k].y {
          assert Less(q[..n], k, j);
        }
      }
      if q[n].y > q[k].y then n else k
  }

  /**
   * Removes and returns an event of maximal Y. Popping an empty queue is a
   * contract violation in the source, hence the precondition.
   */
  function Pop(q: seq<Event>): (r: (Event, seq<Event>))
    requires |q| > 0
    ensures r.0 in q
    ensures forall e :: e in q ==> e.y <= r.0.y
    ensures multiset(r.1) + multiset{r.0} == multiset(q)
    ensures |r.1| == |q| - 1
  {
    var i := Top(q);
    assert q == q[..i] + [q[i]] + q[i + 1..];
    assert forall e :: e in q ==> e.y <= q[i].y by {
      forall e | e in q ensures e.y <= q[i].y {
        var j :| 0 <= j < |q| && q[j] == e;
        assert !Less(q, j, i);
      }
    }
    (q[i], q[..i] + q[i + 1..])
  }

  /**
   * The queue holds exactly what was pushed minus what was popped: pushing
   * an event and popping the queue again removes an event of maximal Y from
   * the combined contents.
   */
  lemma PushThenPop(q: seq<Event>, e: Event)
    ensures var r := Pop(Push(q, e));
      && multiset(r.1) + multiset{r.0} == multiset(q) + multiset{e}
      && r.0.y >= e.y
      && forall x :: x in q ==> x.y <= r.0.y
  {
    var r := Pop(Push(q, e));
    assert e in Push(q, e);
    forall x | x in q ensures x.y <= r.0.y {
      assert x in Push(q, e);
    }
  }

  /**
   * With no pushes in between, successive pops never go up in Y: the
   * sweep visits the queued events from high Y to low Y.
   */
  lemma PopsDescend(q: seq<Event>)
    requires |q| >= 2
    ensures Pop(Pop(q).1).0.y <= Pop(q).0.y
  {
    var r := Pop(q);
    var x := Pop(r.1).0;
    assert x in multiset(q) by {
      assert x in multiset(r.1);
    }
  }

  /**
   * The pushes of the queue test (Y = 5, 3, 7, 1) come back highest first
   * under this `Less`: the first pop is the event of Y 7, whereas the test
   * expects the event of Y 1.
   */
  lemma QueueTestPopsHighestFirst(a: Event, b: Event, c: Event, d: Event)
    requires a.y == 5.0 && b.y == 3.0 && c.y == 7.0 && d.y == 1.0
    ensures Pop([a, b, c, d]).0 == c && Pop([a, b, c, d]).0 != d
    ensures multiset(Pop([a, b, c, d]).1) == multiset{a, b, d}
  {
    PopTakesHighest([a, b, c, d], c, multiset{a, b, d});
  }

  /** An event strictly higher than every other queued event is the one popped. */
  lemma PopTakesHighest(q: seq<Event>, e: Event, others: multiset<Event>)
    requires multiset(q) == others + multiset{e}
    requires forall x :: x in others ==> x.y < e.y
    ensures Pop(q).0 == e
    ensures multiset(Pop(q).1) == others
  {
    var r := Pop(q);
    assert e in q by { assert e in multiset(q); }
    assert r.0 in multiset(q);
    assert e.y <= r.0.y;
    assert r.0 !in others;
    assert multiset(r.1) + multiset{e} == others + multiset{e};
    assert multiset(r.1) == multiset(r.1) + multiset{e} - multiset{e};
  }
}
