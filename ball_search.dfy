/**
 * `Tree.NearestNeighbors` of Experiments/BallTree/Program.cs: a depth-first
 * walk of the ball tree with an explicit stack, keeping the `count` nearest
 * vectors met so far in a bounded max-priority queue and skipping every
 * ball that lies wholly beyond the queue's current furthest entry.
 *
 * A vector is named by its position in `vs`; `p[x]` is its distance from
 * the query. The stack is a sequence whose last element is its top.
 */
module BallSearch {
  import opened Wrappers
  import opened Distance
  import opened NodeDistanceSets
  import opened BoundedQueues
  import opened BallTrees

  /** Every position named is a position of a vector. */
  predicate InRange(xs: seq<nat>, n: nat) {
    forall i :: 0 <= i < |xs| ==> xs[i] < n
  }

  lemma InRangeSplit(a: seq<nat>, b: seq<nat>, n: nat)
    requires InRange(a + b, n)
    ensures InRange(a, n) && InRange(b, n)
  {
    forall i | 0 <= i < |a| ensures a[i] < n {
      assert a[i] == (a + b)[i];
    }
    forall i | 0 <= i < |b| ensures b[i] < n {
      assert b[i] == (a + b)[|a| + i];
    }
  }

  /** No position occurs twice. */
  ghost predicate Unique(xs: seq<nat>) {
    forall x :: multiset(xs)[x] <= 1
  }

  /** The distance of every vector from the query. */
  function Distances(vs: seq<Vector>, query: Vector, dist: (Vector, Vector) -> real): (p: seq<real>)
    ensures |p| == |vs| && forall i :: 0 <= i < |vs| ==> p[i] == dist(query, vs[i])
  {
    seq(|vs|, i requires 0 <= i < |vs| => dist(query, vs[i]))
  }

  /**
   * The skip test for a ball whose nearest possible point is `bound` away:
   * the queue has a top (`TryPeek`) nearer than that. The corrected test
   * (`fullOnly`) also asks that the queue already hold `count` entries.
   */
  predicate Prunes(q: seq<Entry>, count: int, bound: real, fullOnly: bool) {
    q != [] && (fullOnly ==> |q| == count) && bound > q[|q| - 1].dist
  }

  /** The offers a leaf makes, its vectors in order. */
  function OfferAll(p: seq<real>, count: int, q: seq<Entry>, xs: seq<nat>): seq<Entry>
    requires InRange(xs, |p|)
    decreases |xs|
  {
    if xs == [] then q
    else
      var last := |xs| - 1;
      Offered(p, count, OfferAll(p, count, q, xs[..last]), xs[last])
  }

  /** Children in order of falling distance of their centres, so that the nearest is pushed last. */
  predicate FarthestFirst(query: Vector, dist: (Vector, Vector) -> real, s: seq<Ball>) {
    forall i :: 0 < i < |s| ==> NoNearer(query, dist, s, i)
  }

  /** The ball at `i` is no farther than the one before it. */
  predicate NoNearer(query: Vector, dist: (Vector, Vector) -> real, s: seq<Ball>, i: int)
    requires 0 < i < |s|
  {
    dist(query, s[i - 1].center) >= dist(query, s[i].center)
  }

  function InsertFarthestFirst(query: Vector, dist: (Vector, Vector) -> real, c: Ball, s: seq<Ball>): (r: seq<Ball>)
    requires FarthestFirst(query, dist, s)
    ensures multiset(r) == multiset(s) + multiset{c}
    ensures FarthestFirst(query, dist, r)
    ensures r[0] == c || (s != [] && r[0] == s[0])
  {
    if s == [] || dist(query, c.center) >= dist(query, s[0].center) then
      ConsFarthest(query, dist, c, s);
      [c] + s
    else
      assert s == [s[0]] + s[1..];
      assert FarthestFirst(query, dist, s[1..]) by {
        forall i | 0 < i < |s| - 1 ensures NoNearer(query, dist, s[1..], i) {
          assert NoNearer(query, dist, s, i + 1);
        }
      }
      var t := InsertFarthestFirst(query, dist, c, s[1..]);
      assert |s| > 1 ==> NoNearer(query, dist, s, 1);
      ConsFarthest(query, dist, s[0], t);
      [s[0]] + t
  }

  /** A ball no nearer than the first of a farthest-first sequence can go in front of it. */
  lemma ConsFarthest(query: Vector, dist: (Vector, Vector) -> real, c: Ball, s: seq<Ball>)
    requires FarthestFirst(query, dist, s)
    requires s == [] || dist(query, c.center) >= dist(query, s[0].center)
    ensures FarthestFirst(query, dist, [c] + s)
  {
    var r := [c] + s;
    forall i | 0 < i < |r| ensures NoNearer(query, dist, r, i) {
      if i > 1 {
        assert NoNearer(query, dist, s, i - 1);
      }
    }
  }

  /** `Array.Sort(childrenWithDistances, (x, y) => y.distance.CompareTo(x.distance))`. */
  function SortFarthestFirst(query: Vector, dist: (Vector, Vector) -> real, cs: seq<Ball>): (r: seq<Ball>)
    ensures multiset(r) == multiset(cs)
    ensures FarthestFirst(query, dist, r)
  {
    if cs == [] then []
    else
      assert cs == [cs[0]] + cs[1..];
      InsertFarthestFirst(query, dist, cs[0], SortFarthestFirst(query, dist, cs[1..]))
  }

  /** Popping the top of the stack. */
  lemma Pop(stack: seq<Ball>)
    requires stack != []
    ensures var last := |stack| - 1;
      ItemsOf(stack) == ItemsOf(stack[..last]) + Items(stack[last]) &&
      SizeOf(stack) == SizeOf(stack[..last]) + Size(stack[last])
  {
    var last := |stack| - 1;
    assert stack == stack[..last] + [stack[last]];
    ItemsOfAppend(stack[..last], [stack[last]]);
    ItemsOfOne(stack[last]);
  }

  /** Pushing a ball's children keeps its vectors on the stack and shrinks the stack's size. */
  lemma Push(rest: seq<Ball>, b: Ball, kids: seq<Ball>)
    requires b.Inner? && multiset(kids) == multiset(b.children)
    ensures multiset(ItemsOf(rest + kids)) == multiset(ItemsOf(rest)) + multiset(Items(b))
    ensures SizeOf(rest + kids) < SizeOf(rest) + Size(b)
  {
    ItemsOfPermutation(kids, b.children);
    ItemsOfAppend(rest, kids);
  }

  /**
   * What is left of the walk: the final queue, the vectors measured (leaf
   * by leaf, in order) and the vectors under the balls skipped.
   */
  datatype Outcome = Outcome(heap: seq<Entry>, seen: seq<nat>, skipped: seq<nat>)

  /** The walk from a stack and a queue to the empty stack. */
  function Walk(p: seq<real>, query: Vector, dist: (Vector, Vector) -> real, count: int, fullOnly: bool,
                stack: seq<Ball>, q: seq<Entry>): Outcome
    requires InRange(ItemsOf(stack), |p|)
    decreases SizeOf(stack)
  {
    if stack == [] then Outcome(q, [], [])
    else
      var b := stack[|stack| - 1];
      var rest := stack[..|stack| - 1];
      Pop(stack);
      InRangeSplit(ItemsOf(rest), Items(b), |p|);
      if Prunes(q, count, dist(query, b.center) - b.radius, fullOnly) then
        var w := Walk(p, query, dist, count, fullOnly, rest, q);
        Outcome(w.heap, w.seen, Items(b) + w.skipped)
      else match b
        case Leaf(vs, _, _) =>
          var w := Walk(p, query, dist, count, fullOnly, rest, OfferAll(p, count, q, vs));
          Outcome(w.heap, vs + w.seen, w.skipped)
        case Inner(cs, _, _) =>
          var kids := SortFarthestFirst(query, dist, cs);
          Push(rest, b, kids);
          forall i | 0 <= i < |ItemsOf(rest + kids)| ensures ItemsOf(rest + kids)[i] < |p| {
            var x := ItemsOf(rest + kids)[i];
            assert x in multiset(ItemsOf(stack));
          }
          Walk(p, query, dist, count, fullOnly, rest + kids, q)
  }

  /** The entries `Array.Sort` orders for a leaf root: each vector with its distance. */
  function Candidates(p: seq<real>, items: seq<nat>): (r: seq<Entry>)
    requires InRange(items, |p|)
    ensures |r| == |items| && forall i :: 0 <= i < |items| ==> r[i] == Entry(items[i], p[items[i]])
  {
    seq(|items|, i requires 0 <= i < |items| => Entry(items[i], p[items[i]]))
  }

  /**
   * What `NearestNeighbors` answers, and the `childrenVisited` it reports: a
   * leaf root sorts its vectors and takes `count`; otherwise a negative
   * `count` is out of range for the queue's capacity, and any other walks
   * the tree and lists the queue nearest first.
   */
  function Answer(vs: seq<Vector>, root: Ball, query: Vector, count: int, dist: (Vector, Vector) -> real,
                  fullOnly: bool): (Result<seq<nat>>, nat)
    requires InRange(Items(root), |vs|)
  {
    var p := Distances(vs, query, dist);
    if root.Leaf? then (Ok(NodesOf(SelectNeighborsSimple(Candidates(p, root.vectors), count))), 0)
    else if count < 0 then (Err(ArgumentOutOfRange), 0)
    else
      ItemsOfOne(root);
      var w := Walk(p, query, dist, count, fullOnly, [root], []);
      (Ok(NodesOf(w.heap)), |w.seen|)
  }

  /** The leaf's loop: every vector measured, counted and offered. */
  method ScanLeaf(vs: seq<Vector>, query: Vector, dist: (Vector, Vector) -> real, count: int,
                  q0: seq<Entry>, items: seq<nat>, visited0: nat)
    returns (q: seq<Entry>, visited: nat)
    requires InRange(items, |vs|)
    ensures q == OfferAll(Distances(vs, query, dist), count, q0, items)
    ensures visited == visited0 + |items|
  {
    ghost var p := Distances(vs, query, dist);
    q, visited := q0, visited0;
    var k := 0;
    while k < |items|
      invariant 0 <= k <= |items| && visited == visited0 + k
      invariant InRange(items[..k], |p|)
      invariant q == OfferAll(p, count, q0, items[..k])
    {
      var neighbor := items[k];
      var distance := dist(query, vs[neighbor]);
      OfferNext(p, count, q0, items, k);
      q := Offer(p, count, q, neighbor, distance);
      visited := visited + 1;
      k := k + 1;
    }
    assert items[..k] == items;
  }

  /**
   * One vector offered to the result heap: `Enqueue` while it has room,
   * otherwise `DequeueEnqueue` when the vector is nearer than its top.
   */
  method Offer(ghost p: seq<real>, count: int, q0: seq<Entry>, neighbor: nat, distance: real) returns (q: seq<Entry>)
    requires neighbor < |p| && distance == p[neighbor]
    ensures q == Offered(p, count, q0, neighbor)
  {
    q := q0;
    if |q| < count {
      q := InsertByDistance(Entry(neighbor, distance), q);
    } else if |q| > 0 {
      if distance < q[|q| - 1].dist {
        q := InsertByDistance(Entry(neighbor, distance), q[..|q| - 1]);
      }
    }
  }

  /** The offers of the first `k + 1` vectors: those of the first `k`, then one more. */
  lemma OfferNext(p: seq<real>, count: int, q0: seq<Entry>, items: seq<nat>, k: nat)
    requires k < |items| && InRange(items, |p|)
    ensures InRange(items[..k], |p|) && InRange(items[..k + 1], |p|)
    ensures OfferAll(p, count, q0, items[..k + 1]) == Offered(p, count, OfferAll(p, count, q0, items[..k]), items[k])
  {
    assert items[..k + 1][..k] == items[..k];
  }

  /** The children pushed farthest first, so that the nearest is popped next. */
  method PushChildren(stack0: seq<Ball>, query: Vector, dist: (Vector, Vector) -> real, children: seq<Ball>)
    returns (stack: seq<Ball>)
    ensures stack == stack0 + SortFarthestFirst(query, dist, children)
  {
    var sorted := SortFarthestFirst(query, dist, children);
    stack := stack0;
    var i := 0;
    while i < |sorted|
      invariant 0 <= i <= |sorted| && stack == stack0 + sorted[..i]
    {
      stack := stack + [sorted[i]];
      assert sorted[..i + 1] == sorted[..i] + [sorted[i]];
      i := i + 1;
    }
    assert sorted[..i] == sorted;
  }

  /** One turn of the stack loop: the popped ball is skipped, scanned or expanded. */
  method Visit(vs: seq<Vector>, query: Vector, dist: (Vector, Vector) -> real, count: int, fullOnly: bool,
               stack0: seq<Ball>, q0: seq<Entry>, visited0: nat)
    returns (stack: seq<Ball>, q: seq<Entry>, visited: nat)
    requires stack0 != [] && InRange(ItemsOf(stack0), |vs|)
    ensures InRange(ItemsOf(stack), |vs|) && SizeOf(stack) < SizeOf(stack0)
    ensures var p := Distances(vs, query, dist);
      Walk(p, query, dist, count, fullOnly, stack, q).heap == Walk(p, query, dist, count, fullOnly, stack0, q0).heap
    ensures var p := Distances(vs, query, dist);
      visited + |Walk(p, query, dist, count, fullOnly, stack, q).seen| ==
      visited0 + |Walk(p, query, dist, count, fullOnly, stack0, q0).seen|
  {
    ghost var p := Distances(vs, query, dist);
    var currentNode := stack0[|stack0| - 1];
    stack := stack0[..|stack0| - 1];
    Pop(stack0);
    InRangeSplit(ItemsOf(stack), Items(currentNode), |p|);
    q, visited := q0, visited0;
    if q != [] && (fullOnly ==> |q| == count) && dist(query, currentNode.center) - currentNode.radius > q[|q| - 1].dist {
      return;
    }
    match currentNode {
      case Leaf(items, _, _) =>
        q, visited := ScanLeaf(vs, query, dist, count, q, items, visited);
      case Inner(children, _, _) =>
        ghost var rest := stack;
        stack := PushChildren(stack, query, dist, children);
        Push(rest, currentNode, SortFarthestFirst(query, dist, children));
        forall i | 0 <= i < |ItemsOf(stack)| ensures ItemsOf(stack)[i] < |p| {
          assert ItemsOf(stack)[i] in multiset(ItemsOf(stack0));
        }
    }
  }

  /** The walk itself: the stack loop from the root. */
  method Walked(vs: seq<Vector>, root: Ball, query: Vector, count: int, dist: (Vector, Vector) -> real, fullOnly: bool)
    returns (q: seq<Entry>, visited: nat)
    requires InRange(Items(root), |vs|)
    ensures ItemsOf([root]) == Items(root)
    ensures var w := Walk(Distances(vs, query, dist), query, dist, count, fullOnly, [root], []);
      q == w.heap && visited == |w.seen|
  {
    ghost var p := Distances(vs, query, dist);
    ItemsOfOne(root);
    ghost var goal := Walk(p, query, dist, count, fullOnly, [root], []);
    var stack := [root];
    q, visited := [], 0;
    while |stack| > 0
      invariant InRange(ItemsOf(stack), |p|)
      invariant Walk(p, query, dist, count, fullOnly, stack, q).heap == goal.heap
      invariant visited + |Walk(p, query, dist, count, fullOnly, stack, q).seen| == |goal.seen|
      decreases SizeOf(stack)
    {
      stack, q, visited := Visit(vs, query, dist, count, fullOnly, stack, q, visited);
    }
  }

  /** The drain: `TryDequeue` yields the furthest first, written from the back of the array. */
  method Drain(q: seq<Entry>) returns (r: seq<nat>)
    ensures r == NodesOf(q)
  {
    var resultArray := new nat[|q|];
    var rest := q;
    var index := |q| - 1;
    while |rest| > 0
      invariant |rest| == index + 1 && rest == q[..|rest|]
      invariant forall t :: |rest| <= t < |q| ==> resultArray[t] == q[t].node
    {
      var top := rest[|rest| - 1];
      rest := rest[..|rest| - 1];
      resultArray[index] := top.node;
      index := index - 1;
    }
    r := resultArray[..];
  }

  /** `NearestNeighbors`, with the skip test as written (`fullOnly == false`) or corrected. */
  method Search(vs: seq<Vector>, root: Ball, query: Vector, count: int, dist: (Vector, Vector) -> real, fullOnly: bool)
    returns (r: Result<seq<nat>>, childrenVisited: nat)
    requires InRange(Items(root), |vs|)
    ensures (r, childrenVisited) == Answer(vs, root, query, count, dist, fullOnly)
  {
    childrenVisited := 0;
    if root.Leaf? {
      var res := SelectNeighborsSimple(Candidates(Distances(vs, query, dist), root.vectors), count);
      return Ok(NodesOf(res)), 0;
    }
    if count < 0 {
      return Err(ArgumentOutOfRange), 0;
    }
    var q;
    q, childrenVisited := Walked(vs, root, query, count, dist, fullOnly);
    var nodes := Drain(q);
    r := Ok(nodes);
  }

  /** The `count` nearest of `all`, nearest first: the answer `NearestNeighbors` is meant to give. */
  ghost predicate IsNearest(p: seq<real>, count: int, all: seq<nat>, r: seq<nat>) {
    InRange(all, |p|) && InRange(r, |p|) &&
    |r| == (if count <= 0 then 0 else if count < |all| then count else |all|) &&
    (forall i :: 0 <= i < |r| ==> r[i] in all) &&
    (forall i, j :: 0 <= i < j < |r| ==> r[i] != r[j] && p[r[i]] <= p[r[j]]) &&
    (forall j, i :: 0 <= j < |all| && all[j] !in r && 0 <= i < |r| ==> p[r[i]] <= p[all[j]])
  }

  /** A balls-eye guarantee: no vector under a ball is nearer than its centre's distance less its radius. */
  ghost predicate Encloses(p: seq<real>, query: Vector, dist: (Vector, Vector) -> real, b: Ball) {
    InRange(Items(b), |p|) &&
    (forall i :: 0 <= i < |Items(b)| ==> dist(query, b.center) - b.radius <= p[Items(b)[i]]) &&
    (b.Inner? ==> forall c :: c in b.children ==> Encloses(p, query, dist, c))
  }

  ghost predicate EnclosesAll(p: seq<real>, query: Vector, dist: (Vector, Vector) -> real, stack: seq<Ball>) {
    forall b :: b in stack ==> Encloses(p, query, dist, b)
  }

  lemma UniqueSub(a: seq<nat>, b: seq<nat>)
    requires multiset(a) <= multiset(b) && Unique(b)
    ensures Unique(a)
  {
    forall x ensures multiset(a)[x] <= 1 {
      assert multiset(a)[x] <= multiset(b)[x];
    }
  }

  /** A unique sequence has no repeated element. */
  lemma UniqueDistinct(s: seq<nat>)
    requires Unique(s)
    ensures forall i, j :: 0 <= i < j < |s| ==> s[i] != s[j]
  {
    forall i, j | 0 <= i < j < |s| ensures s[i] != s[j] {
      assert s == s[..j] + s[j..];
      assert s[..j][i] == s[i] && s[j..][0] == s[j];
      assert multiset(s)[s[i]] == multiset(s[..j])[s[i]] + multiset(s[j..])[s[i]];
    }
  }

  /** The queue's invariant depends on the items offered, not on the order they came in. */
  lemma HoldsReorder(p: seq<real>, cap: int, xs: seq<nat>, ys: seq<nat>, q: seq<Entry>)
    requires Holds(p, cap, xs, q) && multiset(xs) == multiset(ys)
    ensures Holds(p, cap, ys, q)
  {
    assert |xs| == |multiset(xs)| == |ys|;
    assert forall x :: x in xs <==> x in ys by {
      forall x ensures x in xs <==> x in ys {
        assert x in xs <==> x in multiset(xs);
        assert x in ys <==> x in multiset(ys);
      }
    }
  }

  /** Items no nearer than the top of a full queue may count as offered and left out. */
  lemma HoldsFar(p: seq<real>, cap: int, xs: seq<nat>, q: seq<Entry>, ys: seq<nat>)
    requires Holds(p, cap, xs, q) && |q| == cap > 0 && InRange(ys, |p|)
    requires forall i :: 0 <= i < |ys| ==> ys[i] !in NodesOf(q) && q[cap - 1].dist <= p[ys[i]]
    ensures Holds(p, cap, xs + ys, q)
  {
    var all := xs + ys;
    assert |xs| >= cap;
    forall x | x in all ensures x in xs || exists i :: 0 <= i < |ys| && ys[i] == x {
    }
    if |all| <= cap {
      assert ys == [] && all == xs;
    }
  }

  /** A leaf's offers keep the invariant; a full queue stays full and its top never grows. */
  lemma {:induction false} OfferAllKeeps(p: seq<real>, cap: int, xs: seq<nat>, q: seq<Entry>, vs: seq<nat>)
    requires Holds(p, cap, xs, q) && cap >= 0 && InRange(vs, |p|) && Unique(xs + vs)
    ensures Holds(p, cap, xs + vs, OfferAll(p, cap, q, vs))
    ensures |q| == cap > 0 ==> |OfferAll(p, cap, q, vs)| == cap
    ensures |q| == cap > 0 ==> OfferAll(p, cap, q, vs)[cap - 1].dist <= q[cap - 1].dist
    decreases |vs|
  {
    if vs == [] {
      assert xs + vs == xs;
    } else {
      var last := |vs| - 1;
      var before, x := xs + vs[..last], vs[last];
      UniqueLast(xs, vs);
      OfferAllKeeps(p, cap, xs, q, vs[..last]);
      var q' := OfferAll(p, cap, q, vs[..last]);
      assert OfferAll(p, cap, q, vs) == Offered(p, cap, q', x);
      OfferedKeeps(p, cap, before, q', x);
    }
  }

  /** The last of a unique sequence's vectors is new, and the ones before it are unique. */
  lemma UniqueLast(xs: seq<nat>, vs: seq<nat>)
    requires Unique(xs + vs) && vs != []
    ensures var last := |vs| - 1;
      xs + vs == (xs + vs[..last]) + [vs[last]] && Unique(xs + vs[..last]) && vs[last] !in xs + vs[..last]
  {
    var last := |vs| - 1;
    var before, x := xs + vs[..last], vs[last];
    assert xs + vs == before + [x];
    UniqueSub(before, xs + vs);
    assert multiset(before)[x] == 0 by {
      assert multiset(xs + vs)[x] == multiset(before)[x] + 1;
    }
  }

  /** Every vector under the children of a popped ball is a vector of the stack it came from. */
  lemma PushInRange(stack: seq<Ball>, kids: seq<Ball>, n: nat)
    requires stack != [] && stack[|stack| - 1].Inner? && InRange(ItemsOf(stack), n)
    requires multiset(kids) == multiset(stack[|stack| - 1].children)
    ensures var rest := stack[..|stack| - 1];
      InRange(ItemsOf(rest + kids), n) &&
      multiset(ItemsOf(rest + kids)) == multiset(ItemsOf(stack)) &&
      SizeOf(rest + kids) < SizeOf(stack)
  {
    var rest := stack[..|stack| - 1];
    Pop(stack);
    Push(rest, stack[|stack| - 1], kids);
    forall i | 0 <= i < |ItemsOf(rest + kids)| ensures ItemsOf(rest + kids)[i] < n {
      assert ItemsOf(rest + kids)[i] in multiset(ItemsOf(stack));
    }
  }

  /** Every vector below the stack is measured or skipped: the walk loses and invents none. */
  lemma {:induction false} WalkCovers(p: seq<real>, query: Vector, dist: (Vector, Vector) -> real, count: int,
                                      fullOnly: bool, stack: seq<Ball>, q: seq<Entry>)
    requires InRange(ItemsOf(stack), |p|)
    ensures var w := Walk(p, query, dist, count, fullOnly, stack, q);
      multiset(w.seen) + multiset(w.skipped) == multiset(ItemsOf(stack))
    decreases SizeOf(stack)
  {
    if stack != [] {
      var w := Walk(p, query, dist, count, fullOnly, stack, q);
      var b := stack[|stack| - 1];
      var rest := stack[..|stack| - 1];
      Pop(stack);
      InRangeSplit(ItemsOf(rest), Items(b), |p|);
      if Prunes(q, count, dist(query, b.center) - b.radius, fullOnly) {
        WalkCovers(p, query, dist, count, fullOnly, rest, q);
        var w' := Walk(p, query, dist, count, fullOnly, rest, q);
        assert w == Outcome(w'.heap, w'.seen, Items(b) + w'.skipped);
      } else if b.Leaf? {
        var q' := OfferAll(p, count, q, b.vectors);
        WalkCovers(p, query, dist, count, fullOnly, rest, q');
        var w' := Walk(p, query, dist, count, fullOnly, rest, q');
        assert w == Outcome(w'.heap, b.vectors + w'.seen, w'.skipped);
      } else {
        var kids := SortFarthestFirst(query, dist, b.children);
        PushInRange(stack, kids, |p|);
        WalkCovers(p, query, dist, count, fullOnly, rest + kids, q);
        assert w == Walk(p, query, dist, count, fullOnly, rest + kids, q);
      }
    }
  }

  /**
   * The walk keeps the queue's invariant over the vectors it measures; a
   * full queue stays full and its top never grows.
   */
  lemma {:induction false} WalkKeeps(p: seq<real>, query: Vector, dist: (Vector, Vector) -> real, count: int,
                                     fullOnly: bool, stack: seq<Ball>, q: seq<Entry>, xs: seq<nat>)
    requires InRange(ItemsOf(stack), |p|) && count >= 0
    requires Holds(p, count, xs, q) && Unique(xs + ItemsOf(stack))
    ensures var w := Walk(p, query, dist, count, fullOnly, stack, q);
      Holds(p, count, xs + w.seen, w.heap)
    ensures var w := Walk(p, query, dist, count, fullOnly, stack, q);
      |q| == count > 0 ==> |w.heap| == count && w.heap[count - 1].dist <= q[count - 1].dist
    decreases SizeOf(stack), 1
  {
    if stack == [] {
      assert xs + [] == xs;
    } else {
      var b := stack[|stack| - 1];
      if Prunes(q, count, dist(query, b.center) - b.radius, fullOnly) {
        KeepsSkipping(p, query, dist, count, fullOnly, stack, q, xs);
      } else if b.Leaf? {
        KeepsScanning(p, query, dist, count, fullOnly, stack, q, xs);
      } else {
        KeepsExpanding(p, query, dist, count, fullOnly, stack, q, xs);
      }
    }
  }

  /** `WalkKeeps` when the ball on top is skipped. */
  lemma {:induction false} KeepsSkipping(p: seq<real>, query: Vector, dist: (Vector, Vector) -> real, count: int,
                                         fullOnly: bool, stack: seq<Ball>, q: seq<Entry>, xs: seq<nat>)
    requires InRange(ItemsOf(stack), |p|) && count >= 0
    requires Holds(p, count, xs, q) && Unique(xs + ItemsOf(stack))
    requires stack != [] && var b := stack[|stack| - 1]; Prunes(q, count, dist(query, b.center) - b.radius, fullOnly)
    ensures var w := Walk(p, query, dist, count, fullOnly, stack, q);
      Holds(p, count, xs + w.seen, w.heap)
    ensures var w := Walk(p, query, dist, count, fullOnly, stack, q);
      |q| == count > 0 ==> |w.heap| == count && w.heap[count - 1].dist <= q[count - 1].dist
    decreases SizeOf(stack), 0
  {
    var b := stack[|stack| - 1];
    var rest := stack[..|stack| - 1];
    Pop(stack);
    InRangeSplit(ItemsOf(rest), Items(b), |p|);
    UniqueSub(xs + ItemsOf(rest), xs + ItemsOf(stack));
    WalkKeeps(p, query, dist, count, fullOnly, rest, q, xs);
    var w' := Walk(p, query, dist, count, fullOnly, rest, q);
    assert Walk(p, query, dist, count, fullOnly, stack, q) == Outcome(w'.heap, w'.seen, Items(b) + w'.skipped);
  }

  /** `WalkKeeps` when the leaf on top is scanned. */
  lemma {:induction false} KeepsScanning(p: seq<real>, query: Vector, dist: (Vector, Vector) -> real, count: int,
                                         fullOnly: bool, stack: seq<Ball>, q: seq<Entry>, xs: seq<nat>)
    requires InRange(ItemsOf(stack), |p|) && count >= 0
    requires Holds(p, count, xs, q) && Unique(xs + ItemsOf(stack))
    requires stack != [] && var b := stack[|stack| - 1];
      b.Leaf? && !Prunes(q, count, dist(query, b.center) - b.radius, fullOnly)
    ensures var w := Walk(p, query, dist, count, fullOnly, stack, q);
      Holds(p, count, xs + w.seen, w.heap)
    ensures var w := Walk(p, query, dist, count, fullOnly, stack, q);
      |q| == count > 0 ==> |w.heap| == count && w.heap[count - 1].dist <= q[count - 1].dist
    decreases SizeOf(stack), 0
  {
    var b := stack[|stack| - 1];
    var rest := stack[..|stack| - 1];
    var vs := b.vectors;
    Pop(stack);
    ScanPrepares(p, count, stack, q, xs);
    var q' := OfferAll(p, count, q, vs);
    WalkKeeps(p, query, dist, count, fullOnly, rest, q', xs + vs);
    var w' := Walk(p, query, dist, count, fullOnly, rest, q');
    WalkScans(p, query, dist, count, fullOnly, stack, q);
    Reassociate(p, count, xs, vs, w'.seen, w'.heap);
  }

  lemma Reassociate(p: seq<real>, count: int, xs: seq<nat>, vs: seq<nat>, seen: seq<nat>, heap: seq<Entry>)
    requires Holds(p, count, (xs + vs) + seen, heap)
    ensures Holds(p, count, xs + (vs + seen), heap)
  {
    assert (xs + vs) + seen == xs + (vs + seen);
  }

  /** Scanning the leaf on top keeps the invariant for the rest of the walk. */
  lemma ScanPrepares(p: seq<real>, count: int, stack: seq<Ball>, q: seq<Entry>, xs: seq<nat>)
    requires InRange(ItemsOf(stack), |p|) && count >= 0
    requires Holds(p, count, xs, q) && Unique(xs + ItemsOf(stack))
    requires stack != [] && stack[|stack| - 1].Leaf?
    ensures var vs := stack[|stack| - 1].vectors; var rest := stack[..|stack| - 1];
      InRange(vs, |p|) && InRange(ItemsOf(rest), |p|) &&
      Holds(p, count, xs + vs, OfferAll(p, count, q, vs)) && Unique(xs + vs + ItemsOf(rest))
    ensures var vs := stack[|stack| - 1].vectors;
      InRange(vs, |p|) && (|q| == count > 0 ==> |OfferAll(p, count, q, vs)| == count)
    ensures var vs := stack[|stack| - 1].vectors;
      InRange(vs, |p|) && (|q| == count > 0 ==> OfferAll(p, count, q, vs)[count - 1].dist <= q[count - 1].dist)
  {
    var b := stack[|stack| - 1];
    var rest := stack[..|stack| - 1];
    var vs := b.vectors;
    Pop(stack);
    InRangeSplit(ItemsOf(rest), Items(b), |p|);
    UniqueSub(xs + vs, xs + ItemsOf(stack));
    OfferAllKeeps(p, count, xs, q, vs);
    UniqueSub(xs + vs + ItemsOf(rest), xs + ItemsOf(stack));
  }

  /** The walk past a leaf that is not skipped. */
  lemma WalkScans(p: seq<real>, query: Vector, dist: (Vector, Vector) -> real, count: int,
                  fullOnly: bool, stack: seq<Ball>, q: seq<Entry>)
    requires InRange(ItemsOf(stack), |p|)
    requires stack != [] && var b := stack[|stack| - 1];
      b.Leaf? && !Prunes(q, count, dist(query, b.center) - b.radius, fullOnly)
    ensures var b := stack[|stack| - 1]; var rest := stack[..|stack| - 1];
      InRange(b.vectors, |p|) && InRange(ItemsOf(rest), |p|) &&
      var w' := Walk(p, query, dist, count, fullOnly, rest, OfferAll(p, count, q, b.vectors));
      Walk(p, query, dist, count, fullOnly, stack, q) == Outcome(w'.heap, b.vectors + w'.seen, w'.skipped)
  {
    var b := stack[|stack| - 1];
    Pop(stack);
    InRangeSplit(ItemsOf(stack[..|stack| - 1]), Items(b), |p|);
  }

  /** `WalkKeeps` when the ball on top is replaced by its children. */
  lemma {:induction false} KeepsExpanding(p: seq<real>, query: Vector, dist: (Vector, Vector) -> real, count: int,
                                          fullOnly: bool, stack: seq<Ball>, q: seq<Entry>, xs: seq<nat>)
    requires InRange(ItemsOf(stack), |p|) && count >= 0
    requires Holds(p, count, xs, q) && Unique(xs + ItemsOf(stack))
    requires stack != [] && var b := stack[|stack| - 1];
      b.Inner? && !Prunes(q, count, dist(query, b.center) - b.radius, fullOnly)
    ensures var w := Walk(p, query, dist, count, fullOnly, stack, q);
      Holds(p, count, xs + w.seen, w.heap)
    ensures var w := Walk(p, query, dist, count, fullOnly, stack, q);
      |q| == count > 0 ==> |w.heap| == count && w.heap[count - 1].dist <= q[count - 1].dist
    decreases SizeOf(stack), 0
  {
    var b := stack[|stack| - 1];
    var rest := stack[..|stack| - 1];
    var kids := SortFarthestFirst(query, dist, b.children);
    PushInRange(stack, kids, |p|);
    UniqueSub(xs + ItemsOf(rest + kids), xs + ItemsOf(stack));
    WalkKeeps(p, query, dist, count, fullOnly, rest + kids, q, xs);
    assert Walk(p, query, dist, count, fullOnly, stack, q) == Walk(p, query, dist, count, fullOnly, rest + kids, q);
  }

  lemma EnclosesSub(p: seq<real>, query: Vector, dist: (Vector, Vector) -> real, stack: seq<Ball>)
    requires stack != [] && EnclosesAll(p, query, dist, stack)
    ensures EnclosesAll(p, query, dist, stack[..|stack| - 1]) && Encloses(p, query, dist, stack[|stack| - 1])
  {
    assert forall b :: b in stack[..|stack| - 1] ==> b in stack;
  }

  lemma EnclosesPush(p: seq<real>, query: Vector, dist: (Vector, Vector) -> real, stack: seq<Ball>, kids: seq<Ball>)
    requires stack != [] && EnclosesAll(p, query, dist, stack) && stack[|stack| - 1].Inner?
    requires multiset(kids) == multiset(stack[|stack| - 1].children)
    ensures EnclosesAll(p, query, dist, stack[..|stack| - 1] + kids)
  {
    EnclosesSub(p, query, dist, stack);
    forall b | b in stack[..|stack| - 1] + kids ensures Encloses(p, query, dist, b) {
      if b in kids {
        assert b in multiset(stack[|stack| - 1].children);
      }
    }
  }

  /**
   * The vectors under a skipped ball lie beyond the top of the final, full
   * queue, so none of them was held.
   */
  lemma SkippedFar(p: seq<real>, cap: int, xs: seq<nat>, seen: seq<nat>, rest: seq<nat>, items: seq<nat>,
                   heap: seq<Entry>, bound: real)
    requires Holds(p, cap, xs + seen, heap) && |heap| == cap > 0 && heap[cap - 1].dist < bound
    requires multiset(seen) <= multiset(rest) && Unique(xs + rest + items) && InRange(items, |p|)
    requires forall i :: 0 <= i < |items| ==> bound <= p[items[i]]
    ensures forall i :: 0 <= i < |items| ==> items[i] !in NodesOf(heap) && heap[cap - 1].dist <= p[items[i]]
  {
    forall i | 0 <= i < |items| ensures items[i] !in NodesOf(heap) {
      var y := items[i];
      assert multiset(xs + rest + items)[y] == multiset(xs)[y] + multiset(rest)[y] + multiset(items)[y];
      assert y in multiset(items);
      assert y !in xs + seen by {
        assert multiset(xs + seen)[y] == multiset(xs)[y] + multiset(seen)[y];
      }
      forall t | 0 <= t < |heap| ensures NodesOf(heap)[t] != y {
        assert heap[t] in heap;
      }
    }
  }

  /** The skipped ball's vectors join the items offered without disturbing the final queue. */
  lemma SkipsFar(p: seq<real>, cap: int, xs: seq<nat>, seen: seq<nat>, skipped: seq<nat>, rest: seq<nat>,
                 items: seq<nat>, heap: seq<Entry>, top: real, bound: real)
    requires Holds(p, cap, xs + seen + skipped, heap) && Holds(p, cap, xs + seen, heap)
    requires |heap| == cap > 0 && heap[cap - 1].dist <= top < bound
    requires multiset(seen) + multiset(skipped) == multiset(rest)
    requires Unique(xs + rest + items) && InRange(items, |p|)
    requires forall i :: 0 <= i < |items| ==> bound <= p[items[i]]
    ensures Holds(p, cap, xs + seen + (items + skipped), heap)
  {
    SkippedFar(p, cap, xs, seen, rest, items, heap, bound);
    HoldsFar(p, cap, xs + seen + skipped, heap, items);
    HoldsReorder(p, cap, xs + seen + skipped + items, xs + seen + (items + skipped), heap);
  }

  lemma Reassociate3(p: seq<real>, count: int, xs: seq<nat>, vs: seq<nat>, seen: seq<nat>, skipped: seq<nat>,
                     heap: seq<Entry>)
    requires Holds(p, count, (xs + vs) + seen + skipped, heap)
    ensures Holds(p, count, xs + (vs + seen) + skipped, heap)
  {
    assert (xs + vs) + seen + skipped == xs + (vs + seen) + skipped;
  }

  /**
   * With the corrected skip test and balls that enclose their vectors, the
   * final queue holds the nearest of everything offered, measured or skipped.
   */
  lemma {:induction false} WalkFinds(p: seq<real>, query: Vector, dist: (Vector, Vector) -> real, count: int,
                                     stack: seq<Ball>, q: seq<Entry>, xs: seq<nat>)
    requires InRange(ItemsOf(stack), |p|) && count >= 0
    requires Holds(p, count, xs, q) && Unique(xs + ItemsOf(stack)) && EnclosesAll(p, query, dist, stack)
    ensures var w := Walk(p, query, dist, count, true, stack, q);
      Holds(p, count, xs + w.seen + w.skipped, w.heap)
    decreases SizeOf(stack), 1
  {
    if stack == [] {
      assert xs + [] + [] == xs;
    } else {
      var b := stack[|stack| - 1];
      if Prunes(q, count, dist(query, b.center) - b.radius, true) {
        FindsSkipping(p, query, dist, count, stack, q, xs);
      } else if b.Leaf? {
        FindsScanning(p, query, dist, count, stack, q, xs);
      } else {
        FindsExpanding(p, query, dist, count, stack, q, xs);
      }
    }
  }

  /** `WalkFinds` when the ball on top is skipped. */
  lemma {:induction false} FindsSkipping(p: seq<real>, query: Vector, dist: (Vector, Vector) -> real, count: int,
                                         stack: seq<Ball>, q: seq<Entry>, xs: seq<nat>)
    requires InRange(ItemsOf(stack), |p|) && count >= 0
    requires Holds(p, count, xs, q) && Unique(xs + ItemsOf(stack)) && EnclosesAll(p, query, dist, stack)
    requires stack != [] && var b := stack[|stack| - 1]; Prunes(q, count, dist(query, b.center) - b.radius, true)
    ensures var w := Walk(p, query, dist, count, true, stack, q);
      Holds(p, count, xs + w.seen + w.skipped, w.heap)
    decreases SizeOf(stack), 0
  {
    var b := stack[|stack| - 1];
    var rest := stack[..|stack| - 1];
    WalkSkips(p, query, dist, count, true, stack, q);
    SkipPrepares(p, query, dist, stack, xs);
    WalkFinds(p, query, dist, count, rest, q, xs);
    WalkKeeps(p, query, dist, count, true, rest, q, xs);
    WalkCovers(p, query, dist, count, true, rest, q);
    var w' := Walk(p, query, dist, count, true, rest, q);
    SkipsFar(p, count, xs, w'.seen, w'.skipped, ItemsOf(rest), Items(b), w'.heap, q[count - 1].dist,
             dist(query, b.center) - b.radius);
  }

  /** The walk past a skipped ball. */
  lemma WalkSkips(p: seq<real>, query: Vector, dist: (Vector, Vector) -> real, count: int,
                  fullOnly: bool, stack: seq<Ball>, q: seq<Entry>)
    requires InRange(ItemsOf(stack), |p|)
    requires stack != [] && var b := stack[|stack| - 1]; Prunes(q, count, dist(query, b.center) - b.radius, fullOnly)
    ensures var rest := stack[..|stack| - 1];
      InRange(ItemsOf(rest), |p|) && SizeOf(rest) < SizeOf(stack) &&
      var w' := Walk(p, query, dist, count, fullOnly, rest, q);
      Walk(p, query, dist, count, fullOnly, stack, q) == Outcome(w'.heap, w'.seen, Items(stack[|stack| - 1]) + w'.skipped)
  {
    var b := stack[|stack| - 1];
    Pop(stack);
    InRangeSplit(ItemsOf(stack[..|stack| - 1]), Items(b), |p|);
  }

  /** What skipping the ball on top leaves for the rest of the walk, and what it says of the ball. */
  lemma SkipPrepares(p: seq<real>, query: Vector, dist: (Vector, Vector) -> real, stack: seq<Ball>, xs: seq<nat>)
    requires InRange(ItemsOf(stack), |p|) && stack != []
    requires Unique(xs + ItemsOf(stack)) && EnclosesAll(p, query, dist, stack)
    ensures var b := stack[|stack| - 1]; var rest := stack[..|stack| - 1];
      Unique(xs + ItemsOf(rest)) && Unique(xs + ItemsOf(rest) + Items(b)) &&
      EnclosesAll(p, query, dist, rest) && InRange(Items(b), |p|) &&
      forall i :: 0 <= i < |Items(b)| ==> dist(query, b.center) - b.radius <= p[Items(b)[i]]
  {
    var b := stack[|stack| - 1];
    var rest := stack[..|stack| - 1];
    Pop(stack);
    InRangeSplit(ItemsOf(rest), Items(b), |p|);
    EnclosesSub(p, query, dist, stack);
    assert xs + ItemsOf(stack) == xs + ItemsOf(rest) + Items(b);
    UniqueSub(xs + ItemsOf(rest), xs + ItemsOf(stack));
  }

  /** `WalkFinds` when the leaf on top is scanned. */
  lemma {:induction false} FindsScanning(p: seq<real>, query: Vector, dist: (Vector, Vector) -> real, count: int,
                                         stack: seq<Ball>, q: seq<Entry>, xs: seq<nat>)
    requires InRange(ItemsOf(stack), |p|) && count >= 0
    requires Holds(p, count, xs, q) && Unique(xs + ItemsOf(stack)) && EnclosesAll(p, query, dist, stack)
    requires stack != [] && var b := stack[|stack| - 1];
      b.Leaf? && !Prunes(q, count, dist(query, b.center) - b.radius, true)
    ensures var w := Walk(p, query, dist, count, true, stack, q);
      Holds(p, count, xs + w.seen + w.skipped, w.heap)
    decreases SizeOf(stack), 0
  {
    var b := stack[|stack| - 1];
    var rest := stack[..|stack| - 1];
    var vs := b.vectors;
    Pop(stack);
    EnclosesSub(p, query, dist, stack);
    ScanPrepares(p, count, stack, q, xs);
    var q' := OfferAll(p, count, q, vs);
    WalkFinds(p, query, dist, count, rest, q', xs + vs);
    var w' := Walk(p, query, dist, count, true, rest, q');
    WalkScans(p, query, dist, count, true, stack, q);
    Reassociate3(p, count, xs, vs, w'.seen, w'.skipped, w'.heap);
  }

  /** `WalkFinds` when the ball on top is replaced by its children. */
  lemma {:induction false} FindsExpanding(p: seq<real>, query: Vector, dist: (Vector, Vector) -> real, count: int,
                                          stack: seq<Ball>, q: seq<Entry>, xs: seq<nat>)
    requires InRange(ItemsOf(stack), |p|) && count >= 0
    requires Holds(p, count, xs, q) && Unique(xs + ItemsOf(stack)) && EnclosesAll(p, query, dist, stack)
    requires stack != [] && var b := stack[|stack| - 1];
      b.Inner? && !Prunes(q, count, dist(query, b.center) - b.radius, true)
    ensures var w := Walk(p, query, dist, count, true, stack, q);
      Holds(p, count, xs + w.seen + w.skipped, w.heap)
    decreases SizeOf(stack), 0
  {
    var b := stack[|stack| - 1];
    var rest := stack[..|stack| - 1];
    var kids := SortFarthestFirst(query, dist, b.children);
    PushInRange(stack, kids, |p|);
    EnclosesPush(p, query, dist, stack, kids);
    UniqueSub(xs + ItemsOf(rest + kids), xs + ItemsOf(stack));
    WalkFinds(p, query, dist, count, rest + kids, q, xs);
    assert Walk(p, query, dist, count, true, stack, q) == Walk(p, query, dist, count, true, rest + kids, q);
  }

  /** Entries that name the nearest of `all`, with their distances, answer the query by their nodes. */
  lemma EntriesNearest(p: seq<real>, count: int, all: seq<nat>, sel: seq<Entry>)
    requires InRange(all, |p|)
    requires |sel| == (if count <= 0 then 0 else if count < |all| then count else |all|)
    requires forall i :: 0 <= i < |sel| ==> sel[i].node in all && sel[i].node < |p| && sel[i].dist == p[sel[i].node]
    requires forall i, j :: 0 <= i < j < |sel| ==> sel[i].node != sel[j].node && sel[i].dist <= sel[j].dist
    requires forall j, i :: 0 <= j < |all| && all[j] !in NodesOf(sel) && 0 <= i < |sel| ==> sel[i].dist <= p[all[j]]
    ensures IsNearest(p, count, all, NodesOf(sel))
  {
    var r := NodesOf(sel);
    NodesIn(p, all, sel, r);
    NodesOrdered(p, sel, r);
    NodesLeast(p, all, sel, r);
  }

  lemma NodesIn(p: seq<real>, all: seq<nat>, sel: seq<Entry>, r: seq<nat>)
    requires r == NodesOf(sel)
    requires forall i :: 0 <= i < |sel| ==> sel[i].node in all && sel[i].node < |p|
    ensures InRange(r, |p|) && forall i :: 0 <= i < |r| ==> r[i] in all
  {
    forall i | 0 <= i < |r| ensures r[i] < |p| && r[i] in all {
      assert r[i] == sel[i].node;
    }
  }

  lemma NodesOrdered(p: seq<real>, sel: seq<Entry>, r: seq<nat>)
    requires r == NodesOf(sel)
    requires forall i :: 0 <= i < |sel| ==> sel[i].node < |p| && sel[i].dist == p[sel[i].node]
    requires forall i, j :: 0 <= i < j < |sel| ==> sel[i].node != sel[j].node && sel[i].dist <= sel[j].dist
    ensures InRange(r, |p|)
    ensures forall i, j :: 0 <= i < j < |r| ==> r[i] != r[j] && p[r[i]] <= p[r[j]]
  {
    forall i | 0 <= i < |r| ensures r[i] < |p| {
      assert r[i] == sel[i].node;
    }
    forall i, j | 0 <= i < j < |r| ensures r[i] != r[j] && p[r[i]] <= p[r[j]] {
      assert r[i] == sel[i].node && r[j] == sel[j].node;
    }
  }

  lemma NodesLeast(p: seq<real>, all: seq<nat>, sel: seq<Entry>, r: seq<nat>)
    requires r == NodesOf(sel) && InRange(all, |p|)
    requires forall i :: 0 <= i < |sel| ==> sel[i].node < |p| && sel[i].dist == p[sel[i].node]
    requires forall j, i :: 0 <= j < |all| && all[j] !in NodesOf(sel) && 0 <= i < |sel| ==> sel[i].dist <= p[all[j]]
    ensures InRange(r, |p|)
    ensures forall j, i :: 0 <= j < |all| && all[j] !in r && 0 <= i < |r| ==> p[r[i]] <= p[all[j]]
  {
    forall i | 0 <= i < |r| ensures r[i] < |p| {
      assert r[i] == sel[i].node;
    }
    forall j, i | 0 <= j < |all| && all[j] !in r && 0 <= i < |r| ensures p[r[i]] <= p[all[j]] {
      assert r[i] == sel[i].node;
    }
  }

  /** A queue that holds its invariant over `all` answers the `count`-nearest query over `all`. */
  lemma HeldNearest(p: seq<real>, cap: int, all: seq<nat>, q: seq<Entry>)
    requires Holds(p, cap, all, q) && cap >= 0
    ensures IsNearest(p, cap, all, NodesOf(q))
  {
    HoldsLeast(p, cap, all, q);
    assert forall j :: 0 <= j < |all| ==> all[j] in all;
    assert forall i :: 0 <= i < |q| ==> q[i] in q;
    EntriesNearest(p, cap, all, q);
  }

  /** The entries chosen for a leaf root are its vectors with their distances. */
  lemma LeafChosen(p: seq<real>, count: int, items: seq<nat>)
    requires InRange(items, |p|)
    ensures var sel := SelectNeighborsSimple(Candidates(p, items), count);
      forall i :: 0 <= i < |sel| ==> sel[i].node in items && sel[i].node < |p| && sel[i].dist == p[sel[i].node]
  {
    var c := Candidates(p, items);
    var sel := SelectNeighborsSimple(c, count);
    forall i | 0 <= i < |sel| ensures sel[i].node in items && sel[i].node < |p| && sel[i].dist == p[sel[i].node] {
      assert sel[i] in c;
      var k :| 0 <= k < |c| && c[k] == sel[i];
    }
  }

  /** No vector of a leaf root left out is nearer than one chosen. */
  lemma LeafLeftOut(p: seq<real>, count: int, items: seq<nat>)
    requires InRange(items, |p|)
    ensures var sel := SelectNeighborsSimple(Candidates(p, items), count);
      forall j, i :: 0 <= j < |items| && items[j] !in NodesOf(sel) && 0 <= i < |sel| ==> sel[i].dist <= p[items[j]]
  {
    var c := Candidates(p, items);
    var sel := SelectNeighborsSimple(c, count);
    var r := NodesOf(sel);
    forall j, i | 0 <= j < |items| && items[j] !in r && 0 <= i < |sel| ensures sel[i].dist <= p[items[j]] {
      assert c[j] in c;
      assert c[j] !in sel by {
        forall k | 0 <= k < |sel| ensures sel[k] != c[j] {
          assert r[k] == sel[k].node;
        }
      }
      assert sel[i] in sel;
    }
  }

  /** Sorting a leaf's vectors and taking `count` answers the query over the leaf. */
  lemma LeafNearest(p: seq<real>, count: int, items: seq<nat>)
    requires InRange(items, |p|) && Unique(items)
    ensures IsNearest(p, count, items, NodesOf(SelectNeighborsSimple(Candidates(p, items), count)))
  {
    var c := Candidates(p, items);
    UniqueDistinct(items);
    assert Distinct(c);
    LeafChosen(p, count, items);
    LeafLeftOut(p, count, items);
    EntriesNearest(p, count, items, SelectNeighborsSimple(c, count));
  }

  /** The vectors measured: a leaf root's own, otherwise those of the leaves the walk scans. */
  function Measured(vs: seq<Vector>, root: Ball, query: Vector, count: int, dist: (Vector, Vector) -> real,
                    fullOnly: bool): seq<nat>
    requires InRange(Items(root), |vs|)
  {
    if root.Leaf? then root.vectors
    else
      ItemsOfOne(root);
      Walk(Distances(vs, query, dist), query, dist, count, fullOnly, [root], []).seen
  }

  /**
   * Whatever the skip test, the answer is the `count` nearest of the vectors
   * measured, and `childrenVisited` counts the vectors a walk measures.
   */
  lemma {:induction false} MeasuredNearest(vs: seq<Vector>, root: Ball, query: Vector, count: int,
                                           dist: (Vector, Vector) -> real, fullOnly: bool)
    requires InRange(Items(root), |vs|) && Unique(Items(root))
    ensures var a := Answer(vs, root, query, count, dist, fullOnly);
      a.0.Ok? ==> IsNearest(Distances(vs, query, dist), count, Measured(vs, root, query, count, dist, fullOnly), a.0.value)
    ensures root.Inner? && count >= 0 ==>
      Answer(vs, root, query, count, dist, fullOnly).1 == |Measured(vs, root, query, count, dist, fullOnly)|
  {
    var p := Distances(vs, query, dist);
    if root.Leaf? {
      LeafNearest(p, count, root.vectors);
    } else if count >= 0 {
      WalkNearest(p, query, dist, count, fullOnly, root);
    }
  }

  /** A walk from the root answers the query over the vectors it measures. */
  lemma WalkNearest(p: seq<real>, query: Vector, dist: (Vector, Vector) -> real, count: int, fullOnly: bool, root: Ball)
    requires InRange(Items(root), |p|) && Unique(Items(root)) && count >= 0
    ensures ItemsOf([root]) == Items(root)
    ensures var w := Walk(p, query, dist, count, fullOnly, [root], []);
      IsNearest(p, count, w.seen, NodesOf(w.heap))
  {
    ItemsOfOne(root);
    HoldsEmpty(p, count);
    assert [] + ItemsOf([root]) == Items(root);
    WalkKeeps(p, query, dist, count, fullOnly, [root], [], []);
    var w := Walk(p, query, dist, count, fullOnly, [root], []);
    assert [] + w.seen == w.seen;
    HeldNearest(p, count, w.seen, w.heap);
  }

  /**
   * With the corrected skip test, and balls that enclose their vectors, the
   * answer is the `count` nearest of all the vectors in the tree.
   */
  lemma {:induction false} CorrectedNearest(vs: seq<Vector>, root: Ball, query: Vector, count: int,
                                            dist: (Vector, Vector) -> real)
    requires InRange(Items(root), |vs|) && Unique(Items(root))
    requires Encloses(Distances(vs, query, dist), query, dist, root)
    ensures var a := Answer(vs, root, query, count, dist, true);
      a.0.Ok? ==> IsNearest(Distances(vs, query, dist), count, Items(root), a.0.value)
  {
    var p := Distances(vs, query, dist);
    if root.Leaf? {
      LeafNearest(p, count, root.vectors);
    } else if count >= 0 {
      WalkFindsNearest(p, query, dist, count, root);
    }
  }

  /** The corrected walk from the root answers the query over the whole tree. */
  lemma WalkFindsNearest(p: seq<real>, query: Vector, dist: (Vector, Vector) -> real, count: int, root: Ball)
    requires InRange(Items(root), |p|) && Unique(Items(root)) && count >= 0 && Encloses(p, query, dist, root)
    ensures ItemsOf([root]) == Items(root)
    ensures IsNearest(p, count, Items(root), NodesOf(Walk(p, query, dist, count, true, [root], []).heap))
  {
    ItemsOfOne(root);
    HoldsEmpty(p, count);
    assert [] + ItemsOf([root]) == Items(root);
    WalkFinds(p, query, dist, count, [root], [], []);
    WalkCovers(p, query, dist, count, true, [root], []);
    var w := Walk(p, query, dist, count, true, [root], []);
    HoldsReorder(p, count, [] + w.seen + w.skipped, Items(root), w.heap);
    HeldNearest(p, count, Items(root), w.heap);
  }

  /**
   * `NearestNeighbors` as written: a negative `count` is out of range only
   * when the root is not a leaf; otherwise the answer is the `count`
   * nearest of the vectors it measured, nearest first.
   */
  method NearestNeighbors(vs: seq<Vector>, root: Ball, query: Vector, count: int, dist: (Vector, Vector) -> real)
    returns (r: Result<seq<nat>>, childrenVisited: nat)
    requires InRange(Items(root), |vs|)
    ensures (r, childrenVisited) == Answer(vs, root, query, count, dist, false)
    ensures r.Err? <==> root.Inner? && count < 0
    ensures r.Err? ==> r.error == ArgumentOutOfRange
    ensures r.Ok? && Unique(Items(root)) ==>
      IsNearest(Distances(vs, query, dist), count, Measured(vs, root, query, count, dist, false), r.value)
    ensures root.Inner? && count >= 0 ==> childrenVisited == |Measured(vs, root, query, count, dist, false)|
  {
    r, childrenVisited := Search(vs, root, query, count, dist, false);
    if Unique(Items(root)) {
      MeasuredNearest(vs, root, query, count, dist, false);
    }
  }

  /**
   * `NearestNeighbors` with the skip test restricted to a full queue: over
   * balls that enclose their vectors, the answer is the `count` nearest of
   * all the vectors in the tree.
   */
  method NearestNeighborsCorrected(vs: seq<Vector>, root: Ball, query: Vector, count: int,
                                   dist: (Vector, Vector) -> real)
    returns (r: Result<seq<nat>>, childrenVisited: nat)
    requires InRange(Items(root), |vs|)
    ensures (r, childrenVisited) == Answer(vs, root, query, count, dist, true)
    ensures r.Err? <==> root.Inner? && count < 0
    ensures r.Err? ==> r.error == ArgumentOutOfRange
    ensures r.Ok? && Unique(Items(root)) && Encloses(Distances(vs, query, dist), query, dist, root) ==>
      IsNearest(Distances(vs, query, dist), count, Items(root), r.value)
    ensures root.Inner? && count >= 0 ==> childrenVisited == |Measured(vs, root, query, count, dist, true)|
  {
    r, childrenVisited := Search(vs, root, query, count, dist, true);
    if Unique(Items(root)) && Encloses(Distances(vs, query, dist), query, dist, root) {
      CorrectedNearest(vs, root, query, count, dist);
    }
  }

  /** Distance on the line, through the first coordinate. */
  function Line(a: Vector, b: Vector): real {
    if |a| == 0 || |b| == 0 then 0.0 else if a[0] >= b[0] then a[0] - b[0] else b[0] - a[0]
  }

  /** The vectors 1, 6, 0 and 14 on the line. */
  function ExampleVectors(): seq<Vector> {
    [[1.0], [6.0], [0.0], [14.0]]
  }

  /**
   * Leaves {1}, {6} and {0, 14} under one node, with the centres and radii
   * `LeafNode` and `Node` compute for them. The tree is built by hand:
   * with a cap of two or more, `Create` puts 0 in the group of 1. The early
   * prune needs only a queue that has a top but is not yet full, which
   * trees from `Create` give as well: with the default cap of eight and ten
   * vectors wanted, the queue after the first leaf holds at most eight.
   */
  function ExampleTree(): Ball {
    Inner([Leaf([0], [1.0], 0.0), Leaf([1], [6.0], 0.0), Leaf([2, 3], [7.0], 7.0)], [14.0 / 3.0], 28.0 / 3.0)
  }

  lemma ExampleItems()
    ensures Items(ExampleTree()) == [0, 1, 2, 3]
  {
    var a, b, c := Leaf([0], [1.0], 0.0), Leaf([1], [6.0], 0.0), Leaf([2, 3], [7.0], 7.0);
    ItemsOfOne(c);
    assert ItemsOf([b, c]) == [1] + ItemsOf([c]) by { assert [b, c][1..] == [c]; }
    assert ItemsOf([a, b, c]) == [0] + ItemsOf([b, c]) by { assert [a, b, c][1..] == [b, c]; }
  }

  lemma ExampleDistances()
    ensures Distances(ExampleVectors(), [0.0], Line) == [1.0, 6.0, 0.0, 14.0]
  {
  }

  /** The example tree is a well-formed ball tree for the query 0. */
  lemma ExampleEncloses()
    ensures InRange(Items(ExampleTree()), |ExampleVectors()|) && Unique(Items(ExampleTree()))
    ensures Encloses(Distances(ExampleVectors(), [0.0], Line), [0.0], Line, ExampleTree())
  {
    ExampleItems();
    ExampleDistances();
    assert multiset([0, 1, 2, 3]) == multiset{0, 1, 2, 3};
    EnclosesExample([1.0, 6.0, 0.0, 14.0]);
  }

  lemma EnclosesExample(p: seq<real>)
    requires p == [1.0, 6.0, 0.0, 14.0] && Items(ExampleTree()) == [0, 1, 2, 3]
    ensures Encloses(p, [0.0], Line, ExampleTree())
  {
    var a, b, c := Leaf([0], [1.0], 0.0), Leaf([1], [6.0], 0.0), Leaf([2, 3], [7.0], 7.0);
    assert Encloses(p, [0.0], Line, a);
    assert Encloses(p, [0.0], Line, b);
    assert Encloses(p, [0.0], Line, c);
    assert Line([0.0], [14.0 / 3.0]) - 28.0 / 3.0 <= 0.0;
  }

  /** The walk past a ball that is expanded. */
  lemma WalkExpands(p: seq<real>, query: Vector, dist: (Vector, Vector) -> real, count: int,
                    fullOnly: bool, stack: seq<Ball>, q: seq<Entry>)
    requires InRange(ItemsOf(stack), |p|)
    requires stack != [] && var b := stack[|stack| - 1];
      b.Inner? && !Prunes(q, count, dist(query, b.center) - b.radius, fullOnly)
    ensures var rest := stack[..|stack| - 1]; var kids := SortFarthestFirst(query, dist, stack[|stack| - 1].children);
      InRange(ItemsOf(rest + kids), |p|) &&
      Walk(p, query, dist, count, fullOnly, stack, q) == Walk(p, query, dist, count, fullOnly, rest + kids, q)
  {
    PushInRange(stack, SortFarthestFirst(query, dist, stack[|stack| - 1].children), |p|);
  }

  /** The root's children, farthest first: {0, 14} at 7, {6} at 6, {1} at 1. */
  lemma ExampleSorted(a: Ball, b: Ball, c: Ball)
    requires a == Leaf([0], [1.0], 0.0) && b == Leaf([1], [6.0], 0.0) && c == Leaf([2, 3], [7.0], 7.0)
    ensures SortFarthestFirst([0.0], Line, [a, b, c]) == [c, b, a]
  {
    assert Line([0.0], a.center) == 1.0 && Line([0.0], b.center) == 6.0 && Line([0.0], c.center) == 7.0;
    assert SortFarthestFirst([0.0], Line, [c]) == [c] by { assert [c][1..] == []; }
    assert InsertFarthestFirst([0.0], Line, b, [c]) == [c, b] by { assert [c][1..] == []; }
    assert SortFarthestFirst([0.0], Line, [b, c]) == [c, b] by { assert [b, c][1..] == [c]; }
    assert InsertFarthestFirst([0.0], Line, a, [b]) == [b, a] by { assert [b][1..] == []; }
    assert InsertFarthestFirst([0.0], Line, a, [c, b]) == [c, b, a] by { assert [c, b][1..] == [b]; }
    assert [a, b, c][1..] == [b, c];
  }

  /** An inner root is expanded first: nothing is queued yet, so nothing is skipped. */
  lemma RootExpands(p: seq<real>, query: Vector, dist: (Vector, Vector) -> real, count: int, fullOnly: bool,
                    root: Ball, kids: seq<Ball>)
    requires root.Inner? && InRange(ItemsOf([root]), |p|) && kids == SortFarthestFirst(query, dist, root.children)
    ensures InRange(ItemsOf(kids), |p|)
    ensures Walk(p, query, dist, count, fullOnly, [root], []) == Walk(p, query, dist, count, fullOnly, kids, [])
  {
    assert [root][..0] + kids == kids;
    WalkExpands(p, query, dist, count, fullOnly, [root], []);
  }

  lemma ExampleInRange(items: seq<nat>, n: nat)
    requires items == [0, 1, 2, 3] && n == 4
    ensures InRange(items, n)
  {
  }

  /** The leaf {1} is scanned first. */
  lemma ExampleFirstLeaf(p: seq<real>, fullOnly: bool)
    requires p == [1.0, 6.0, 0.0, 14.0]
    ensures var a, b, c := Leaf([0], [1.0], 0.0), Leaf([1], [6.0], 0.0), Leaf([2, 3], [7.0], 7.0);
      InRange(ItemsOf([c, b, a]), |p|) && InRange(ItemsOf([c, b]), |p|) &&
      Walk(p, [0.0], Line, 3, fullOnly, [c, b, a], []).heap == Walk(p, [0.0], Line, 3, fullOnly, [c, b], [Entry(0, 1.0)]).heap
  {
    var a, b, c := Leaf([0], [1.0], 0.0), Leaf([1], [6.0], 0.0), Leaf([2, 3], [7.0], 7.0);
    ExampleStacks(a, b, c);
    ExampleFirstOffer(p);
    assert [c, b, a][..2] == [c, b];
    WalkScans(p, [0.0], Line, 3, fullOnly, [c, b, a], []);
  }

  /** The vectors on the stack before and after the leaf {1}. */
  lemma ExampleStacks(a: Ball, b: Ball, c: Ball)
    requires a == Leaf([0], [1.0], 0.0) && b == Leaf([1], [6.0], 0.0) && c == Leaf([2, 3], [7.0], 7.0)
    ensures ItemsOf([c, b, a]) == [2, 3, 1, 0] && ItemsOf([c, b]) == [2, 3, 1]
  {
    Pop([c, b, a]);
    Pop([c, b]);
    Pop([c]);
    ItemsOfOne(c);
    assert [c, b, a][..2] == [c, b] && [c, b][..1] == [c] && [c][..0] == [];
  }

  /** The first offer enters an empty queue. */
  lemma ExampleFirstOffer(p: seq<real>)
    requires p == [1.0, 6.0, 0.0, 14.0]
    ensures OfferAll(p, 3, [], [0]) == [Entry(0, 1.0)]
  {
    assert [0][..0] == [];
  }

  /** The leaf {6}: skipped as written, scanned by the corrected test. */
  lemma ExampleSecondLeaf(p: seq<real>, fullOnly: bool)
    requires p == [1.0, 6.0, 0.0, 14.0]
    ensures var b, c := Leaf([1], [6.0], 0.0), Leaf([2, 3], [7.0], 7.0);
      InRange(ItemsOf([c, b]), |p|) && InRange(ItemsOf([c]), |p|) &&
      Walk(p, [0.0], Line, 3, fullOnly, [c, b], [Entry(0, 1.0)]).heap ==
      Walk(p, [0.0], Line, 3, fullOnly, [c], if fullOnly then [Entry(0, 1.0), Entry(1, 6.0)] else [Entry(0, 1.0)]).heap
  {
    var b, c := Leaf([1], [6.0], 0.0), Leaf([2, 3], [7.0], 7.0);
    Pop([c, b]);
    ItemsOfOne(c);
    assert [c, b][..1] == [c];
    if fullOnly {
      assert OfferAll(p, 3, [Entry(0, 1.0)], [1]) == [Entry(0, 1.0), Entry(1, 6.0)] by { assert [1][..0] == []; }
      WalkScans(p, [0.0], Line, 3, true, [c, b], [Entry(0, 1.0)]);
    } else {
      WalkSkips(p, [0.0], Line, 3, false, [c, b], [Entry(0, 1.0)]);
    }
  }

  /** The leaf {0, 14} last. */
  lemma ExampleLastLeaf(p: seq<real>, fullOnly: bool, q: seq<Entry>)
    requires p == [1.0, 6.0, 0.0, 14.0] && |q| <= 2 && Ascending(q) && forall e :: e in q ==> e.dist >= 0.0
    ensures var c := Leaf([2, 3], [7.0], 7.0);
      InRange(ItemsOf([c]), |p|) &&
      Walk(p, [0.0], Line, 3, fullOnly, [c], q).heap == OfferAll(p, 3, q, [2, 3])
  {
    var c := Leaf([2, 3], [7.0], 7.0);
    ItemsOfOne(c);
    if q != [] {
      assert q[|q| - 1] in q;
    }
    assert !Prunes(q, 3, Line([0.0], [7.0]) - 7.0, fullOnly);
    WalkScans(p, [0.0], Line, 3, fullOnly, [c], q);
    assert [c][..0] == [];
  }

  /** An inner root with a count in range: the answer is what the walk leaves in the queue. */
  lemma AnswerWalks(vs: seq<Vector>, root: Ball, query: Vector, count: int, dist: (Vector, Vector) -> real, fullOnly: bool)
    requires InRange(Items(root), |vs|) && root.Inner? && count >= 0
    ensures InRange(ItemsOf([root]), |vs|)
    ensures Answer(vs, root, query, count, dist, fullOnly).0 ==
      Ok(NodesOf(Walk(Distances(vs, query, dist), query, dist, count, fullOnly, [root], []).heap))
  {
    ItemsOfOne(root);
  }

  /** The queue the example leaves before its last leaf: {6} scanned only by the corrected test. */
  function ExampleQueue(fullOnly: bool): seq<Entry> {
    if fullOnly then [Entry(0, 1.0), Entry(1, 6.0)] else [Entry(0, 1.0)]
  }

  /** The root expanded and the leaf {1} scanned. */
  lemma ExampleOpening(p: seq<real>, root: Ball, fullOnly: bool)
    requires p == [1.0, 6.0, 0.0, 14.0] && root == ExampleTree()
    ensures var b, c := Leaf([1], [6.0], 0.0), Leaf([2, 3], [7.0], 7.0);
      InRange(ItemsOf([root]), |p|) && InRange(ItemsOf([c, b]), |p|) &&
      Walk(p, [0.0], Line, 3, fullOnly, [root], []).heap == Walk(p, [0.0], Line, 3, fullOnly, [c, b], [Entry(0, 1.0)]).heap
  {
    ExampleItems();
    ItemsOfOne(root);
    ExampleInRange(ItemsOf([root]), |p|);
    ExampleSorted(root.children[0], root.children[1], root.children[2]);
    assert root.children == [root.children[0], root.children[1], root.children[2]];
    RootExpands(p, [0.0], Line, 3, fullOnly, root, SortFarthestFirst([0.0], Line, root.children));
    ExampleFirstLeaf(p, fullOnly);
  }

  /** The leaves {6} and {0, 14}. */
  lemma ExampleClosing(p: seq<real>, fullOnly: bool)
    requires p == [1.0, 6.0, 0.0, 14.0]
    ensures var b, c := Leaf([1], [6.0], 0.0), Leaf([2, 3], [7.0], 7.0);
      InRange(ItemsOf([c, b]), |p|) &&
      Walk(p, [0.0], Line, 3, fullOnly, [c, b], [Entry(0, 1.0)]).heap == OfferAll(p, 3, ExampleQueue(fullOnly), [2, 3])
  {
    ExampleSecondLeaf(p, fullOnly);
    var q2 := ExampleQueue(fullOnly);
    assert forall e :: e in q2 ==> e.dist >= 0.0;
    ExampleLastLeaf(p, fullOnly, q2);
  }

  /** The offers of the last leaf, {0, 14}, to the queue the first two leaves leave. */
  function LastLeafOffers(p: seq<real>, fullOnly: bool): seq<Entry>
    requires |p| == 4
  {
    OfferAll(p, 3, ExampleQueue(fullOnly), [2, 3])
  }

  /** The walk over the example tree, leaf by leaf, up to the last leaf's offers. */
  lemma ExampleChain(p: seq<real>, root: Ball, fullOnly: bool)
    requires p == [1.0, 6.0, 0.0, 14.0] && root == ExampleTree()
    ensures InRange(ItemsOf([root]), |p|)
    ensures Walk(p, [0.0], Line, 3, fullOnly, [root], []).heap == LastLeafOffers(p, fullOnly)
  {
    ExampleOpening(p, root, fullOnly);
    ExampleClosing(p, fullOnly);
  }

  /** The walk over the example tree answers {0, 1, 6} when corrected and {0, 1, 14} as written. */
  lemma ExampleHeap(p: seq<real>, root: Ball, fullOnly: bool)
    requires p == [1.0, 6.0, 0.0, 14.0] && root == ExampleTree()
    ensures InRange(ItemsOf([root]), |p|)
    ensures NodesOf(Walk(p, [0.0], Line, 3, fullOnly, [root], []).heap) == if fullOnly then [2, 0, 1] else [2, 0, 3]
  {
    ExampleChain(p, root, fullOnly);
    if fullOnly {
      OffersCorrected(p, ExampleQueue(fullOnly));
    } else {
      OffersAsWritten(p, ExampleQueue(fullOnly));
    }
  }

  /** Counting and skipping as the walk does it, for the query 0 and `count` 3. */
  lemma ExampleWalk(vs: seq<Vector>, root: Ball, query: Vector, fullOnly: bool)
    requires vs == ExampleVectors() && root == ExampleTree() && query == [0.0]
    ensures InRange(Items(root), |vs|)
    ensures Answer(vs, root, query, 3, Line, fullOnly).0 == if fullOnly then Ok([2, 0, 1]) else Ok([2, 0, 3])
  {
    ExampleItems();
    ExampleDistances();
    ExampleInRange(Items(root), |vs|);
    AnswerWalks(vs, root, query, 3, Line, fullOnly);
    ExampleHeap(Distances(vs, query, Line), root, fullOnly);
  }

  /** Two offers in a row. */
  lemma OfferTwo(p: seq<real>, cap: int, q: seq<Entry>, x: nat, y: nat)
    requires x < |p| && y < |p|
    ensures InRange([x, y], |p|) && OfferAll(p, cap, q, [x, y]) == Offered(p, cap, Offered(p, cap, q, x), y)
  {
    assert InRange([x], |p|);
    assert OfferAll(p, cap, q, [x]) == Offered(p, cap, OfferAll(p, cap, q, []), x) by { assert [x][..0] == []; }
    assert OfferAll(p, cap, q, [x, y]) == Offered(p, cap, OfferAll(p, cap, q, [x]), y) by { assert [x, y][..1] == [x]; }
  }

  /** The last leaf after {6} was scanned: 0 joins and 14 finds the queue full of nearer vectors. */
  lemma OffersCorrected(p: seq<real>, q: seq<Entry>)
    requires p == [1.0, 6.0, 0.0, 14.0] && q == [Entry(0, 1.0), Entry(1, 6.0)]
    ensures NodesOf(OfferAll(p, 3, q, [2, 3])) == [2, 0, 1]
  {
    OfferTwo(p, 3, q, 2, 3);
    assert Offered(p, 3, q, 2) == [Entry(2, 0.0)] + q;
  }

  /** The last leaf after {6} was skipped: 0 and 14 both join. */
  lemma OffersAsWritten(p: seq<real>, q: seq<Entry>)
    requires p == [1.0, 6.0, 0.0, 14.0] && q == [Entry(0, 1.0)]
    ensures NodesOf(OfferAll(p, 3, q, [2, 3])) == [2, 0, 3]
  {
    OfferTwo(p, 3, q, 2, 3);
    var q3 := [Entry(2, 0.0)] + q;
    assert Offered(p, 3, q, 2) == q3;
    assert InsertByDistance(Entry(3, 14.0), q3) == [q3[0]] + InsertByDistance(Entry(3, 14.0), q3[1..]);
    assert q3[1..] == q && q[1..] == [];
  }

  /** As written, the walk answers 0, 1 and 14, though 6 is nearer than 14. */
  lemma AsWrittenMisses(vs: seq<Vector>, root: Ball, query: Vector)
    requires vs == ExampleVectors() && root == ExampleTree() && query == [0.0]
    ensures InRange(Items(root), |vs|)
    ensures Answer(vs, root, query, 3, Line, false).0 == Ok([2, 0, 3])
    ensures !IsNearest(Distances(vs, query, Line), 3, Items(root), [2, 0, 3])
  {
    ExampleWalk(vs, root, query, false);
    ExampleItems();
    ExampleDistances();
    SixLeftOut(Distances(vs, query, Line), Items(root), [2, 0, 3]);
  }

  /** Answering 0, 1 and 14 leaves out 6, which is nearer than 14. */
  lemma SixLeftOut(p: seq<real>, all: seq<nat>, r: seq<nat>)
    requires p == [1.0, 6.0, 0.0, 14.0] && all == [0, 1, 2, 3] && r == [2, 0, 3]
    ensures !IsNearest(p, 3, all, r)
  {
    assert all[1] == 1 && 1 !in r;
    assert p[r[2]] > p[all[1]];
  }

  /** Corrected, the walk answers the three nearest: 0, 1 and 6. */
  lemma CorrectedFinds(vs: seq<Vector>, root: Ball, query: Vector)
    requires vs == ExampleVectors() && root == ExampleTree() && query == [0.0]
    ensures InRange(Items(root), |vs|) && Unique(Items(root))
    ensures Encloses(Distances(vs, query, Line), query, Line, root)
    ensures Answer(vs, root, query, 3, Line, true).0 == Ok([2, 0, 1])
    ensures IsNearest(Distances(vs, query, Line), 3, Items(root), [2, 0, 1])
  {
    ExampleEncloses();
    ExampleWalk(vs, root, query, true);
    CorrectedNearest(vs, root, query, 3, Line);
  }

  /**
   * The skip test as written lets a ball go while the queue still has room:
   * with `count` 3 the leaf {6} is skipped because 6 is farther than the one
   * vector held so far, and 14 is answered in its place. The corrected test
   * answers 0, 1 and 6.
   */
  lemma PruningTooEarly(vs: seq<Vector>, root: Ball, query: Vector)
    requires vs == ExampleVectors() && root == ExampleTree() && query == [0.0]
    ensures InRange(Items(root), |vs|) && Unique(Items(root))
    ensures Encloses(Distances(vs, query, Line), query, Line, root)
    ensures var answer := Answer(vs, root, query, 3, Line, false).0;
      answer == Ok([2, 0, 3]) && !IsNearest(Distances(vs, query, Line), 3, Items(root), answer.value)
    ensures var answer := Answer(vs, root, query, 3, Line, true).0;
      answer == Ok([2, 0, 1]) && IsNearest(Distances(vs, query, Line), 3, Items(root), answer.value)
  {
    AsWrittenMisses(vs, root, query);
    CorrectedFinds(vs, root, query);
  }
}
