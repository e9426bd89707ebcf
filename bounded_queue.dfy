/**
 * The bounded max-priority queue of `SearchExact` (Experiments/HNSW/HNSW.cs)
 * and of `Tree.Group` and `Tree.NearestNeighbors`
 * (Experiments/BallTree/Program.cs): a `PriorityQueue` whose comparer puts
 * the largest priority first, filled up to a capacity and then updated by
 * replacing its top with a strictly smaller priority. The queue is held as
 * a sequence of entries in ascending priority, so its top is the last
 * entry. A new item goes before the items of equal priority, so among
 * equal priorities the earliest enqueued is nearest the top.
 * Items are numbers `x`; `p[x]` is the priority of item `x`.
 */
module BoundedQueues {
  import opened NodeDistanceSets

  /**
   * `q` holds the items of least priority among those offered, `xs`: at most
   * `cap` of them, all of them while there is room, none twice, and every
   * item left out has a priority no smaller than the top's.
   */
  ghost predicate Holds(p: seq<real>, cap: int, xs: seq<nat>, q: seq<Entry>) {
    (forall x :: x in xs ==> x < |p|) && Ascending(q) && Distinct(q) &&
    |q| == (if 0 <= cap < |xs| then cap else |xs|) &&
    (forall e :: e in q ==> e.node in xs && e.dist == p[e.node]) &&
    ((cap < 0 || |xs| <= cap) ==> forall x :: x in xs ==> x in NodesOf(q)) &&
    (q != [] ==> forall x :: x in xs && x !in NodesOf(q) ==> q[|q| - 1].dist <= p[x])
  }

  /** Nothing offered yet, nothing held. */
  lemma HoldsEmpty(p: seq<real>, cap: int)
    ensures Holds(p, cap, [], [])
  {
  }

  /** An item not yet offered is not in the queue. */
  lemma NotHeld(p: seq<real>, cap: int, xs: seq<nat>, q: seq<Entry>, x: nat)
    requires Holds(p, cap, xs, q) && x !in xs
    ensures x !in NodesOf(q)
  {
    forall i | 0 <= i < |q| ensures NodesOf(q)[i] != x {
      assert q[i] in q;
    }
  }

  /** An item no smaller than the top of a full queue leaves it as it is. */
  lemma SkipKeeps(p: seq<real>, cap: int, xs: seq<nat>, q: seq<Entry>, x: nat)
    requires Holds(p, cap, xs, q) && x < |p| && x !in NodesOf(q)
    requires |q| == cap > 0 && p[x] >= q[|q| - 1].dist
    ensures Holds(p, cap, xs + [x], q)
  {
    assert forall y :: y in xs + [x] <==> y in xs || y == x;
  }

  /**
   * `DequeueEnqueue`: an item smaller than the top of a full queue takes its
   * place (`r` is the queue without its top, with `e` inserted in order);
   * the new top is no larger than the old, which is no larger than anything
   * left out, the dropped item included.
   */
  lemma ReplaceKeeps(p: seq<real>, cap: int, xs: seq<nat>, q: seq<Entry>, e: Entry, r: seq<Entry>)
    requires Holds(p, cap, xs, q) && e.node < |p| && e.node !in xs && e.node !in NodesOf(q)
    requires |q| == cap > 0 && e.dist == p[e.node] && e.dist < q[|q| - 1].dist
    requires multiset(r) == multiset(q[..|q| - 1]) + multiset{e} && Ascending(r)
    ensures Holds(p, cap, xs + [e.node], r)
  {
    var last := q[|q| - 1];
    var rest := q[..|q| - 1];
    var xs' := xs + [e.node];
    assert forall y :: y in xs' <==> y in xs || y == e.node;
    assert |xs'| > cap && forall y :: y in xs' ==> y < |p|;
    DroppedLast(q);
    DroppedLastNode(q);
    InsertedEntries(e, rest, r);
    InsertedNodes(e, rest, r);
    assert r[|r| - 1] in r;
    forall y | y in xs' && y !in NodesOf(r) ensures r[|r| - 1].dist <= p[y] {
      if y != last.node {
        assert y in xs && y !in NodesOf(q);
      }
    }
  }

  /** `Enqueue` into a queue with room (`r` is `q` with `e` inserted in order); there was room only while every item offered was held. */
  lemma InsertKeeps(p: seq<real>, cap: int, xs: seq<nat>, q: seq<Entry>, e: Entry, r: seq<Entry>)
    requires Holds(p, cap, xs, q) && e.node < |p| && e.node !in xs && e.node !in NodesOf(q)
    requires (cap < 0 || |q| < cap) && e.dist == p[e.node]
    requires multiset(r) == multiset(q) + multiset{e} && Ascending(r)
    ensures Holds(p, cap, xs + [e.node], r)
  {
    var xs' := xs + [e.node];
    assert forall y :: y in xs' <==> y in xs || y == e.node;
    assert |q| == |xs| && (cap < 0 || |xs| < cap);
    InsertedEntries(e, q, r);
    InsertedNodes(e, q, r);
  }

  /**
   * One offer of item `x` as `Group` and `NearestNeighbors` make it:
   * `Enqueue` while `Count < cap`, otherwise `DequeueEnqueue` when the
   * queue has a top (`TryPeek`) of larger priority.
   */
  function Offered(p: seq<real>, cap: int, q: seq<Entry>, x: nat): seq<Entry>
    requires x < |p|
  {
    if |q| < cap then InsertByDistance(Entry(x, p[x]), q)
    else if |q| > 0 && p[x] < q[|q| - 1].dist then InsertByDistance(Entry(x, p[x]), q[..|q| - 1])
    else q
  }

  /** An offer keeps the queue's invariant; once full it stays full and its top never grows. */
  lemma OfferedKeeps(p: seq<real>, cap: int, xs: seq<nat>, q: seq<Entry>, x: nat)
    requires Holds(p, cap, xs, q) && x < |p| && x !in xs && cap >= 0
    ensures Holds(p, cap, xs + [x], Offered(p, cap, q, x))
    ensures |q| == cap > 0 ==> |Offered(p, cap, q, x)| == cap
    ensures |q| == cap > 0 ==> Offered(p, cap, q, x)[cap - 1].dist <= q[cap - 1].dist
  {
    NotHeld(p, cap, xs, q, x);
    if |q| < cap {
      InsertKeeps(p, cap, xs, q, Entry(x, p[x]), Offered(p, cap, q, x));
    } else if |q| > 0 && p[x] < q[|q| - 1].dist {
      OfferReplaces(p, cap, xs, q, x);
    } else if |q| > 0 {
      SkipKeeps(p, cap, xs, q, x);
    } else {
      assert cap == 0;
      assert forall y :: y in xs + [x] <==> y in xs || y == x;
    }
  }

  /** The `DequeueEnqueue` case of an offer. */
  lemma OfferReplaces(p: seq<real>, cap: int, xs: seq<nat>, q: seq<Entry>, x: nat)
    requires Holds(p, cap, xs, q) && x < |p| && x !in xs && x !in NodesOf(q)
    requires |q| == cap > 0 && p[x] < q[|q| - 1].dist
    ensures Holds(p, cap, xs + [x], Offered(p, cap, q, x))
    ensures |Offered(p, cap, q, x)| == cap
    ensures Offered(p, cap, q, x)[cap - 1].dist <= q[cap - 1].dist
  {
    var e := Entry(x, p[x]);
    var q' := Offered(p, cap, q, x);
    ReplaceKeeps(p, cap, xs, q, e, q');
    DroppedLast(q);
    InsertedEntries(e, q[..|q| - 1], q');
    assert q'[|q'| - 1] in q';
  }

  /**
   * When every item of `all` was offered, the queue answers a `cap`-least
   * query: `min(cap, |all|)` distinct items, least first, and none left out
   * smaller than any held.
   */
  lemma HoldsLeast(p: seq<real>, cap: int, all: seq<nat>, q: seq<Entry>)
    requires Holds(p, cap, all, q) && cap >= 0
    ensures |q| == (if cap < |all| then cap else |all|)
    ensures forall i :: 0 <= i < |q| ==> q[i].node in all && q[i].dist == p[q[i].node]
    ensures forall i, j :: 0 <= i < j < |q| ==> q[i].node != q[j].node && q[i].dist <= q[j].dist
    ensures forall x, e :: x in all && x !in NodesOf(q) && e in q ==> e.dist <= p[x]
  {
    assert forall i :: 0 <= i < |q| ==> q[i] in q;
    forall x, e | x in all && x !in NodesOf(q) && e in q ensures e.dist <= p[x] {
      var t :| 0 <= t < |q| && q[t] == e;
    }
  }
}
