/**
 * `Tree.Group` of Experiments/BallTree/Program.cs: a greedy partition of a
 * list into groups of at most `groupSize` near items. Each round takes the
 * first remaining item, keeps the items nearest to it in a bounded
 * max-queue, swaps the chosen positions out of the list in descending
 * order, and records them as a group.
 */
module BallGroups {
  import opened Wrappers
  import opened NodeDistanceSets
  import opened BoundedQueues

  /** The bound a round's queue keeps to: `groupSize`, but never below the one item every round starts with. */
  function Cap(groupSize: int): int {
    if groupSize >= 1 then groupSize else 1
  }

  /** The priorities of a round: the first item enters with 0, item `i` with its distance from the first. */
  function RoundPriorities<T>(list: seq<T>, d: (T, T) -> real): (p: seq<real>)
    requires |list| > 0
    ensures |p| == |list| && p[0] == 0.0
    ensures forall i :: 0 < i < |list| ==> p[i] == d(list[0], list[i])
  {
    seq(|list|, i requires 0 <= i < |list| => if i == 0 then 0.0 else d(list[0], list[i]))
  }

  /** The positions `0 .. n - 1` in order. */
  function Range(n: nat): (r: seq<nat>)
    ensures |r| == n && forall i :: 0 <= i < n ==> r[i] == i
  {
    seq(n, i => i)
  }

  lemma RangeSnoc(n: nat)
    ensures Range(n + 1) == Range(n) + [n] && n !in Range(n)
  {
    assert forall j :: 0 <= j < n ==> Range(n)[j] != n;
  }

  /** The items at positions `idx`, in that order. */
  function Pick<T>(list: seq<T>, idx: seq<nat>): (r: seq<T>)
    requires forall i :: 0 <= i < |idx| ==> idx[i] < |list|
    ensures |r| == |idx| && forall i :: 0 <= i < |idx| ==> r[i] == list[idx[i]]
  {
    seq(|idx|, i requires 0 <= i < |idx| => list[idx[i]])
  }

  /** The groups laid end to end. */
  function Flatten<T>(groups: seq<seq<T>>): seq<T> {
    if groups == [] then [] else Flatten(groups[..|groups| - 1]) + groups[|groups| - 1]
  }

  /** Every distance from the first item is non-negative. */
  predicate NonNegative<T>(list: seq<T>, d: (T, T) -> real)
    requires |list| > 0
  {
    forall i :: 0 < i < |list| ==> d(list[0], list[i]) >= 0.0
  }

  /** Each position larger than the next. */
  predicate Decreasing(ix: seq<nat>) {
    forall i :: 0 < i < |ix| ==> StepsDown(ix, i)
  }

  predicate StepsDown(ix: seq<nat>, i: int)
    requires 0 < i < |ix|
  {
    ix[i - 1] > ix[i]
  }

  /** A position larger than the first of a descending sequence can go in front. */
  lemma ConsDecreasing(x: nat, s: seq<nat>)
    requires Decreasing(s) && (s == [] || x > s[0])
    ensures Decreasing([x] + s)
  {
    forall i | 0 < i < |[x] + s| ensures StepsDown([x] + s, i) {
      if i > 1 {
        assert StepsDown(s, i - 1);
      }
    }
  }

  lemma DecreasingTail(s: seq<nat>)
    requires Decreasing(s) && s != []
    ensures Decreasing(s[1..])
  {
    forall i | 0 < i < |s[1..]| ensures StepsDown(s[1..], i) {
      assert StepsDown(s, i + 1);
    }
  }

  /** `Array.Sort` with the comparer `Math.Sign(y - x)`: distinct positions, largest first. */
  function SortDescending(ix: seq<nat>): (r: seq<nat>)
    requires forall i, j :: 0 <= i < j < |ix| ==> ix[i] != ix[j]
    ensures multiset(r) == multiset(ix)
    ensures Decreasing(r)
  {
    if ix == [] then []
    else
      DistinctHead(ix);
      var rest := SortDescending(ix[1..]);
      SortedTail(ix, rest);
      InsertDescending(ix[0], rest)
  }

  /** The sorted tail misses the head, and with it holds every position. */
  lemma SortedTail(ix: seq<nat>, rest: seq<nat>)
    requires ix != [] && multiset(rest) == multiset(ix[1..]) && ix[0] !in multiset(ix[1..])
    ensures ix[0] !in rest && multiset(rest) + multiset{ix[0]} == multiset(ix)
  {
    assert ix == [ix[0]] + ix[1..];
  }

  /** The tail of distinct positions is distinct and misses the head. */
  lemma DistinctHead(ix: seq<nat>)
    requires ix != [] && forall i, j :: 0 <= i < j < |ix| ==> ix[i] != ix[j]
    ensures forall i, j :: 0 <= i < j < |ix[1..]| ==> ix[1..][i] != ix[1..][j]
    ensures ix[0] !in multiset(ix[1..])
  {
    forall i, j | 0 <= i < j < |ix[1..]| ensures ix[1..][i] != ix[1..][j] {
      assert ix[1..][i] == ix[i + 1] && ix[1..][j] == ix[j + 1];
    }
    forall j | 0 <= j < |ix[1..]| ensures ix[1..][j] != ix[0] {
      assert ix[1..][j] == ix[j + 1];
    }
  }

  function InsertDescending(x: nat, s: seq<nat>): (r: seq<nat>)
    requires x !in s && Decreasing(s)
    ensures multiset(r) == multiset(s) + multiset{x}
    ensures Decreasing(r)
    ensures r[0] == x || (s != [] && r[0] == s[0])
  {
    if s == [] || x > s[0] then
      ConsDecreasing(x, s);
      [x] + s
    else
      assert s == [s[0]] + s[1..];
      DecreasingTail(s);
      var t := InsertDescending(x, s[1..]);
      assert |s| > 1 ==> StepsDown(s, 1);
      ConsDecreasing(s[0], t);
      [s[0]] + t
  }

  /**
   * One round: the first item and, by the `for` loop, every later item is
   * offered to a queue bounded by `groupSize`. The queue ends with the
   * `Cap(groupSize)` positions of least priority, and, under non-negative
   * distances, always with the first item.
   */
  method SelectGroup<T>(list: seq<T>, groupSize: int, d: (T, T) -> real) returns (q: seq<Entry>)
    requires |list| > 0 && groupSize >= 0
    ensures Holds(RoundPriorities(list, d), Cap(groupSize), Range(|list|), q)
    ensures NonNegative(list, d) ==> 0 in NodesOf(q)
    ensures forall x, c :: 0 < x < |list| && x !in NodesOf(q) && 0 < c && c in NodesOf(q) ==>
      d(list[0], list[c]) <= d(list[0], list[x])
  {
    q := OfferRound(list, groupSize, d);
    RoundNearest(list, d, Cap(groupSize), q);
  }

  /** The offers of one round, the first item's and then, in the `for` loop, every later item's. */
  method OfferRound<T>(list: seq<T>, groupSize: int, d: (T, T) -> real) returns (q: seq<Entry>)
    requires |list| > 0 && groupSize >= 0
    ensures Holds(RoundPriorities(list, d), Cap(groupSize), Range(|list|), q)
    ensures NonNegative(list, d) ==> 0 in NodesOf(q)
  {
    var current := list[0];
    q := [Entry(0, 0.0)];
    FirstEntry(list, d, Cap(groupSize));
    assert RoundSoFar(list, groupSize, d, 1, q);
    var i := 1;
    while i < |list|
      invariant 1 <= i <= |list|
      invariant RoundSoFar(list, groupSize, d, i, q)
    {
      var distance := d(current, list[i]);
      q := RoundStep(list, groupSize, d, q, i, distance);
      i := i + 1;
    }
  }

  /** The state of a round after the offers of its first `i` items. */
  ghost predicate RoundSoFar<T>(list: seq<T>, groupSize: int, d: (T, T) -> real, i: nat, q: seq<Entry>)
    requires |list| > 0
  {
    Holds(RoundPriorities(list, d), Cap(groupSize), Range(i), q) &&
    (NonNegative(list, d) ==> 0 in NodesOf(q))
  }

  /** No item left out of a round is strictly nearer the first item than a chosen item other than the first. */
  lemma RoundNearest<T>(list: seq<T>, d: (T, T) -> real, cap: int, q: seq<Entry>)
    requires |list| > 0 && cap >= 1 && Holds(RoundPriorities(list, d), cap, Range(|list|), q)
    ensures forall x, c :: 0 < x < |list| && x !in NodesOf(q) && 0 < c && c in NodesOf(q) ==>
      d(list[0], list[c]) <= d(list[0], list[x])
  {
    var p := RoundPriorities(list, d);
    HoldsLeast(p, cap, Range(|list|), q);
    LeastByPriority(list, d, p, q);
  }

  lemma LeastByPriority<T>(list: seq<T>, d: (T, T) -> real, p: seq<real>, q: seq<Entry>)
    requires |list| > 0 && p == RoundPriorities(list, d)
    requires forall i :: 0 <= i < |q| ==> q[i].node in Range(|list|) && q[i].dist == p[q[i].node]
    requires forall x, e :: x in Range(|list|) && x !in NodesOf(q) && e in q ==> e.dist <= p[x]
    ensures forall x, c :: 0 < x < |list| && x !in NodesOf(q) && 0 < c && c in NodesOf(q) ==>
      d(list[0], list[c]) <= d(list[0], list[x])
  {
    forall x, c | 0 < x < |list| && x !in NodesOf(q) && 0 < c && c in NodesOf(q)
      ensures d(list[0], list[c]) <= d(list[0], list[x])
    {
      var t :| 0 <= t < |q| && NodesOf(q)[t] == c;
      assert Range(|list|)[x] == x;
      assert q[t] in q;
      assert q[t].dist <= p[x];
      assert q[t].node == c && q[t].dist == p[c];
    }
  }

  /** `Enqueue(0, 0f)`: the round's queue starts with the first item alone. */
  lemma FirstEntry<T>(list: seq<T>, d: (T, T) -> real, cap: int)
    requires |list| > 0 && cap >= 1
    ensures Holds(RoundPriorities(list, d), cap, Range(1), [Entry(0, 0.0)])
    ensures 0 in NodesOf([Entry(0, 0.0)])
  {
    var p := RoundPriorities(list, d);
    HoldsEmpty(p, cap);
    OfferedKeeps(p, cap, [], [], 0);
    assert Range(1) == [] + [0];
  }

  /**
   * The body of the `for` loop: `Enqueue` while there is room, else
   * `DequeueEnqueue` an item nearer than the top.
   */
  method RoundStep<T>(list: seq<T>, groupSize: int, d: (T, T) -> real, q: seq<Entry>, i: nat, distance: real)
    returns (q': seq<Entry>)
    requires 0 < i < |list| && groupSize >= 0 && distance == d(list[0], list[i])
    requires RoundSoFar(list, groupSize, d, i, q)
    ensures RoundSoFar(list, groupSize, d, i + 1, q')
  {
    ghost var p := RoundPriorities(list, d);
    ghost var cap := Cap(groupSize);
    q' := q;
    if |q| < groupSize {
      q' := InsertByDistance(Entry(i, distance), q);
    } else if |q| > 0 && distance < q[|q| - 1].dist {
      q' := InsertByDistance(Entry(i, distance), q[..|q| - 1]);
    }
    assert q' == Offered(p, cap, q, i);
    RangeSnoc(i);
    OfferedKeeps(p, cap, Range(i), q, i);
    if NonNegative(list, d) {
      assert forall e :: e in q && e.node == 0 ==> e.dist == 0.0;
      KeepsFirst(list, d, cap, q, i);
    }
  }

  /** With non-negative distances the first item, at priority 0, is never the top a smaller distance replaces. */
  lemma KeepsFirst<T>(list: seq<T>, d: (T, T) -> real, c: int, before: seq<Entry>, i: nat)
    requires 0 < i < |list| && NonNegative(list, d) && 0 in NodesOf(before) && Ascending(before)
    requires forall e :: e in before && e.node == 0 ==> e.dist == 0.0
    ensures 0 in NodesOf(Offered(RoundPriorities(list, d), c, before, i))
  {
    var p := RoundPriorities(list, d);
    var after := Offered(p, c, before, i);
    var e := Entry(i, p[i]);
    if |before| < c {
      InsertedNodes(e, before, after);
    } else if |before| > 0 && p[i] < before[|before| - 1].dist {
      var rest := before[..|before| - 1];
      var t :| 0 <= t < |before| && before[t].node == 0;
      assert before[t] in before;
      assert p[i] >= 0.0;
      assert t != |before| - 1;
      assert NodesOf(rest)[t] == 0;
      InsertedNodes(e, rest, after);
    }
  }

  /**
   * Swapping the item at `idx` with the last and dropping the last removes
   * exactly that item and leaves the positions below `idx` alone.
   */
  lemma SwapRemoved<T>(cur: seq<T>, idx: nat)
    requires idx < |cur|
    ensures multiset(cur[idx := cur[|cur| - 1]][..|cur| - 1]) + multiset{cur[idx]} == multiset(cur)
    ensures cur[idx := cur[|cur| - 1]][..|cur| - 1][..idx] == cur[..idx]
  {
    SwapRemovedItems(cur, idx);
    var s := cur[idx := cur[|cur| - 1]][..|cur| - 1];
    assert |s[..idx]| == |cur[..idx]|;
    forall k | 0 <= k < idx ensures s[..idx][k] == cur[..idx][k] {
      assert s[k] == cur[k];
    }
  }

  lemma SwapRemovedItems<T>(cur: seq<T>, idx: nat)
    requires idx < |cur|
    ensures multiset(cur[idx := cur[|cur| - 1]][..|cur| - 1]) + multiset{cur[idx]} == multiset(cur)
  {
    var last := |cur| - 1;
    var s := cur[idx := cur[last]];
    assert s == s[..last] + [cur[last]];
    if idx == last {
      assert cur == cur[..last] + [cur[last]];
    } else {
      var a, b := cur[..idx], cur[idx + 1..last];
      assert cur == a + [cur[idx]] + b + [cur[last]];
      assert s[..last] == a + [cur[last]] + b;
      calc {
        multiset(s[..last]) + multiset{cur[idx]};
        multiset(a) + multiset{cur[last]} + multiset(b) + multiset{cur[idx]};
        multiset(a) + multiset{cur[idx]} + multiset(b) + multiset{cur[last]};
        multiset(cur);
      }
    }
  }

  /** Strictly descending positions below `n` leave room for one removal per step. */
  lemma {:induction false} DescendingBound(ix: seq<nat>, n: nat, t: nat)
    requires forall i :: 0 <= i < |ix| ==> ix[i] < n
    requires Decreasing(ix) && t < |ix|
    ensures ix[t] + t < n
  {
    if t > 0 {
      DescendingBound(ix, n, t - 1);
      assert StepsDown(ix, t);
    }
  }

  /**
   * The removal loop of `Group`: each position, largest first, is filled
   * with the last item, which is then dropped. The items at `indexes` go,
   * every other item stays.
   */
  method RemoveIndexes<T>(list: seq<T>, indexes: seq<nat>) returns (rest: seq<T>)
    requires forall i :: 0 <= i < |indexes| ==> indexes[i] < |list|
    requires Decreasing(indexes)
    ensures |rest| == |list| - |indexes|
    ensures multiset(rest) + multiset(Pick(list, indexes)) == multiset(list)
  {
    forall t | 0 <= t < |indexes| ensures indexes[t] + t < |list| {
      DescendingBound(indexes, |list|, t);
    }
    rest := list;
    var i := 0;
    while i < |indexes|
      invariant 0 <= i <= |indexes| && |rest| == |list| - i
      invariant i == 0 ==> rest == list
      invariant i > 0 ==> indexes[i - 1] <= |rest| && rest[..indexes[i - 1]] == list[..indexes[i - 1]]
      invariant multiset(rest) + multiset(Pick(list, indexes[..i])) == multiset(list)
    {
      var idx := indexes[i];
      RemoveStep(list, indexes, i, rest);
      rest := rest[idx := rest[|rest| - 1]][..|rest| - 1];
      i := i + 1;
    }
    assert indexes[..i] == indexes;
  }

  /** One turn of the removal loop keeps its invariants. */
  lemma RemoveStep<T>(list: seq<T>, indexes: seq<nat>, i: nat, rest: seq<T>)
    requires i < |indexes| && Decreasing(indexes)
    requires forall t :: 0 <= t < |indexes| ==> indexes[t] + t < |list|
    requires |rest| == |list| - i && (i == 0 ==> rest == list)
    requires i > 0 ==> indexes[i - 1] <= |rest| && rest[..indexes[i - 1]] == list[..indexes[i - 1]]
    requires multiset(rest) + multiset(Pick(list, indexes[..i])) == multiset(list)
    ensures var idx := indexes[i]; var rest' := rest[idx := rest[|rest| - 1]][..|rest| - 1];
      idx < |rest| && idx <= |rest'| && rest'[..idx] == list[..idx] &&
      multiset(rest') + multiset(Pick(list, indexes[..i + 1])) == multiset(list)
  {
    var idx := indexes[i];
    assert idx + i < |list|;
    assert rest[..idx] == list[..idx] && rest[idx] == list[idx] by {
      if i > 0 {
        assert StepsDown(indexes, i);
        assert rest[..indexes[i - 1]][..idx] == rest[..idx];
        assert list[..indexes[i - 1]][..idx] == list[..idx];
        assert rest[..indexes[i - 1]][idx] == list[..indexes[i - 1]][idx];
      }
    }
    var rest' := rest[idx := rest[|rest| - 1]][..|rest| - 1];
    SwapRemoved(rest, idx);
    assert indexes[..i + 1] == indexes[..i] + [idx];
    PickConcat(list, indexes[..i], [idx]);
    assert Pick(list, [idx]) == [list[idx]];
    calc {
      multiset(rest') + multiset(Pick(list, indexes[..i + 1]));
      multiset(rest') + multiset{list[idx]} + multiset(Pick(list, indexes[..i]));
      multiset(rest) + multiset(Pick(list, indexes[..i]));
    }
  }

  /** Positions that are a permutation of each other pick a permutation of the items. */
  lemma {:induction false} PickPermutation<T>(list: seq<T>, a: seq<nat>, b: seq<nat>)
    requires multiset(a) == multiset(b)
    requires forall i :: 0 <= i < |a| ==> a[i] < |list|
    requires forall i :: 0 <= i < |b| ==> b[i] < |list|
    ensures multiset(Pick(list, a)) == multiset(Pick(list, b))
    decreases |a|
  {
    if a != [] {
      assert a[0] in multiset(b);
      var t :| 0 <= t < |b| && b[t] == a[0];
      var b' := b[..t] + b[t + 1..];
      RemoveOne(a, b, t);
      PickSplit(list, a, 0, a[1..]);
      PickSplit(list, b, t, b');
      PickPermutation(list, a[1..], b');
    }
  }

  /** The items at `b` are the item at `b[t]` and those at the other positions, `rest`. */
  lemma PickSplit<T>(list: seq<T>, b: seq<nat>, t: nat, rest: seq<nat>)
    requires t < |b| && forall i :: 0 <= i < |b| ==> b[i] < |list|
    requires rest == b[..t] + b[t + 1..]
    ensures forall i :: 0 <= i < |rest| ==> rest[i] < |list|
    ensures multiset(Pick(list, b)) == multiset{list[b[t]]} + multiset(Pick(list, rest))
  {
    forall i | 0 <= i < |rest| ensures rest[i] < |list| {
      if i < t {
        assert rest[i] == b[i];
      } else {
        assert rest[i] == b[i + 1];
      }
    }
    assert b == b[..t] + [b[t]] + b[t + 1..];
    PickConcat(list, b[..t] + [b[t]], b[t + 1..]);
    PickConcat(list, b[..t], [b[t]]);
    PickConcat(list, b[..t], b[t + 1..]);
    assert Pick(list, [b[t]]) == [list[b[t]]];
  }

  lemma RemoveOne<T>(a: seq<T>, b: seq<T>, t: nat)
    requires multiset(a) == multiset(b) && a != [] && t < |b| && b[t] == a[0]
    ensures multiset(a[1..]) == multiset(b[..t] + b[t + 1..])
  {
    assert a == [a[0]] + a[1..];
    assert b == b[..t] + [b[t]] + b[t + 1..];
    assert multiset(b) == multiset(b[..t]) + multiset{b[t]} + multiset(b[t + 1..]);
    assert multiset(a) == multiset{a[0]} + multiset(a[1..]);
    assert multiset(b[..t] + b[t + 1..]) == multiset(b[..t]) + multiset(b[t + 1..]);
    var m := multiset(a[1..]);
    var m' := multiset(b[..t] + b[t + 1..]);
    assert m + multiset{a[0]} == multiset(a);
    assert m' + multiset{a[0]} == multiset(b[..t]) + multiset{b[t]} + multiset(b[t + 1..]);
    assert m + multiset{a[0]} == m' + multiset{a[0]};
    assert forall x :: m[x] == (m + multiset{a[0]})[x] - (if x == a[0] then 1 else 0);
    assert forall x :: m'[x] == (m' + multiset{a[0]})[x] - (if x == a[0] then 1 else 0);
  }

  lemma PickConcat<T>(list: seq<T>, x: seq<nat>, y: seq<nat>)
    requires forall i :: 0 <= i < |x| ==> x[i] < |list|
    requires forall i :: 0 <= i < |y| ==> y[i] < |list|
    ensures Pick(list, x + y) == Pick(list, x) + Pick(list, y)
  {
  }

  lemma FlattenSnoc<T>(groups: seq<seq<T>>, g: seq<T>)
    ensures Flatten(groups + [g]) == Flatten(groups) + g
  {
    assert (groups + [g])[..|groups|] == groups;
  }

  /**
   * Positions `chosen` are a round's choice from `list`: distinct, in range,
   * `min(cap, |list|)` of them, the first item among them under
   * non-negative distances, and no position left out strictly nearer the
   * first item than a chosen position other than the first.
   */
  predicate NearestRound<T>(list: seq<T>, d: (T, T) -> real, cap: int, chosen: seq<nat>)
    requires |list| > 0
  {
    (forall t :: 0 <= t < |chosen| ==> chosen[t] < |list|) &&
    (forall i, j :: 0 <= i < j < |chosen| ==> chosen[i] != chosen[j]) &&
    |chosen| == (if cap < |list| then cap else |list|) &&
    (NonNegative(list, d) ==> 0 in chosen) &&
    (forall x, c :: 0 < x < |list| && x !in chosen && 0 < c && c in chosen ==>
      d(list[0], list[c]) <= d(list[0], list[x]))
  }

  /**
   * One turn of the `while` loop of `Group`: the round's queue chooses the
   * group, whose positions are then swapped out of the list largest first.
   * The group is the items at the positions `chosen`, the round's nearest
   * choice; the group and the rest split the list; the group has
   * `min(Cap(groupSize), |list|)` items and, under non-negative distances,
   * the first item.
   */
  method Round<T>(list: seq<T>, groupSize: int, d: (T, T) -> real) returns (group: seq<T>, rest: seq<T>, ghost chosen: seq<nat>)
    requires |list| > 0 && groupSize >= 0
    ensures NearestRound(list, d, Cap(groupSize), chosen) && group == Pick(list, chosen)
    ensures multiset(group) + multiset(rest) == multiset(list)
    ensures |group| == (if Cap(groupSize) < |list| then Cap(groupSize) else |list|)
    ensures |group| + |rest| == |list|
    ensures NonNegative(list, d) ==> list[0] in group
  {
    var q := SelectGroup(list, groupSize, d);
    var nodes := NodesOf(q);
    chosen := nodes;
    ChosenPositions(RoundPriorities(list, d), Cap(groupSize), |list|, q);
    group := Pick(list, nodes);
    var indexes := SortDescending(nodes);
    SortedBelow(nodes, indexes, |list|);
    rest := RemoveIndexes(list, indexes);
    PickPermutation(list, indexes, nodes);
    if NonNegative(list, d) {
      var t :| 0 <= t < |nodes| && nodes[t] == 0;
      assert group[t] == list[0];
    }
  }

  /** The positions a round's queue holds: distinct, below `n`, and `min(cap, n)` of them. */
  lemma ChosenPositions(p: seq<real>, cap: int, n: nat, q: seq<Entry>)
    requires Holds(p, cap, Range(n), q) && cap >= 0
    ensures |NodesOf(q)| == (if cap < n then cap else n)
    ensures forall t :: 0 <= t < |NodesOf(q)| ==> NodesOf(q)[t] < n
    ensures forall i, j :: 0 <= i < j < |NodesOf(q)| ==> NodesOf(q)[i] != NodesOf(q)[j]
  {
    HoldsLeast(p, cap, Range(n), q);
  }

  /** Sorting keeps the positions below `n`. */
  lemma SortedBelow(chosen: seq<nat>, indexes: seq<nat>, n: nat)
    requires multiset(indexes) == multiset(chosen) && forall t :: 0 <= t < |chosen| ==> chosen[t] < n
    ensures forall t :: 0 <= t < |indexes| ==> indexes[t] < n
  {
    forall t | 0 <= t < |indexes| ensures indexes[t] < n {
      assert indexes[t] in multiset(chosen);
    }
  }

  /**
   * `Group`: a negative `groupSize` is out of range for the queue's
   * capacity. Otherwise the groups partition the items, each holds between
   * one and `Cap(groupSize)` of them, with `groupSize >= 2` there are fewer
   * groups than items (so regrouping makes progress), with `groupSize <= 1`
   * exactly as many (so it makes none), and under non-negative distances
   * the first group holds the first item. Round `k`
   * starts from the items `lists[k]` still left, which are the items to
   * start with for `k == 0` and none after the last round; its group is the
   * nearest choice `picks[k]` of that round, and the rest is what is left
   * for the next.
   */
  method Group<T>(items: seq<T>, groupSize: int, d: (T, T) -> real)
    returns (r: Result<seq<seq<T>>>, ghost lists: seq<seq<T>>, ghost picks: seq<seq<nat>>)
    ensures r.Err? <==> groupSize < 0
    ensures r.Err? ==> r.error == ArgumentOutOfRange
    ensures r.Ok? ==> multiset(Flatten(r.value)) == multiset(items)
    ensures r.Ok? ==> forall k :: 0 <= k < |r.value| ==> 1 <= |r.value[k]| <= Cap(groupSize)
    ensures r.Ok? ==> (r.value == [] <==> items == [])
    ensures r.Ok? && groupSize >= 2 && |items| >= 2 ==> |r.value| < |items|
    ensures r.Ok? && groupSize <= 1 ==> |r.value| == |items|
    ensures r.Ok? && items != [] && NonNegative(items, d) ==> items[0] in r.value[0]
    ensures r.Ok? ==> |lists| == |r.value| + 1 && |picks| == |r.value| && lists[0] == items && lists[|r.value|] == []
    ensures r.Ok? ==> forall k :: 0 <= k < |r.value| ==> RoundAt(r.value, lists, picks, d, Cap(groupSize), k)
  {
    lists, picks := [items], [];
    if groupSize < 0 {
      return Err(ArgumentOutOfRange), lists, picks;
    }
    var list := items;
    var groups: seq<seq<T>> := [];
    while |list| > 0
      invariant GroupedSoFar(items, groupSize, d, groups, list)
      invariant RoundsSoFar(items, d, Cap(groupSize), groups, list, lists, picks)
      decreases |list|
    {
      var group, rest, chosen := Round(list, groupSize, d);
      GroupStep(items, groupSize, d, groups, list, group, rest);
      RoundsStep(items, d, Cap(groupSize), groups, list, lists, picks, group, rest, chosen);
      lists, picks := lists + [rest], picks + [chosen];
      list := rest;
      groups := groups + [group];
    }
    return Ok(groups), lists, picks;
  }

  /**
   * Round `k` of a grouping: it starts from `lists[k]`, its group is the
   * items at the nearest choice `picks[k]`, and it leaves `lists[k + 1]`.
   */
  ghost predicate RoundAt<T>(groups: seq<seq<T>>, lists: seq<seq<T>>, picks: seq<seq<nat>>, d: (T, T) -> real, cap: int, k: int)
    requires 0 <= k < |groups| && |lists| == |groups| + 1 && |picks| == |groups|
  {
    |lists[k]| > 0 && NearestRound(lists[k], d, cap, picks[k]) && groups[k] == Pick(lists[k], picks[k]) &&
    multiset(lists[k]) == multiset(groups[k]) + multiset(lists[k + 1])
  }

  /** The rounds of `Group` so far: each one recorded with the items it started from, ending at the `list` left. */
  ghost predicate RoundsSoFar<T>(items: seq<T>, d: (T, T) -> real, cap: int, groups: seq<seq<T>>, list: seq<T>,
                                 lists: seq<seq<T>>, picks: seq<seq<nat>>) {
    |lists| == |groups| + 1 && |picks| == |groups| && lists[0] == items && lists[|groups|] == list &&
    forall k :: 0 <= k < |groups| ==> RoundAt(groups, lists, picks, d, cap, k)
  }

  /** One round of `Group` extends the record of rounds. */
  lemma RoundsStep<T>(items: seq<T>, d: (T, T) -> real, cap: int, groups: seq<seq<T>>, list: seq<T>,
                      lists: seq<seq<T>>, picks: seq<seq<nat>>, group: seq<T>, rest: seq<T>, chosen: seq<nat>)
    requires |list| > 0 && RoundsSoFar(items, d, cap, groups, list, lists, picks)
    requires NearestRound(list, d, cap, chosen) && group == Pick(list, chosen)
    requires multiset(group) + multiset(rest) == multiset(list)
    ensures RoundsSoFar(items, d, cap, groups + [group], rest, lists + [rest], picks + [chosen])
  {
    var groups', lists', picks' := groups + [group], lists + [rest], picks + [chosen];
    forall k | 0 <= k < |groups'| ensures RoundAt(groups', lists', picks', d, cap, k) {
      assert lists'[k] == lists[k] && lists'[k + 1] == (if k + 1 < |lists| then lists[k + 1] else rest);
      if k < |groups| {
        assert RoundAt(groups, lists, picks, d, cap, k);
        assert groups'[k] == groups[k] && picks'[k] == picks[k];
      } else {
        assert lists[k] == list;
      }
    }
  }

  /** What the loop of `Group` keeps: `groups` and the `list` left partition the items. */
  ghost predicate GroupedSoFar<T>(items: seq<T>, groupSize: int, d: (T, T) -> real, groups: seq<seq<T>>, list: seq<T>) {
    multiset(Flatten(groups)) + multiset(list) == multiset(items) &&
    |Flatten(groups)| + |list| == |items| &&
    (forall k :: 0 <= k < |groups| ==> 1 <= |groups[k]| <= Cap(groupSize)) &&
    (groups == [] ==> list == items) &&
    |groups| + (if groups != [] && groupSize >= 2 && |items| >= 2 then 1 else 0) <= |Flatten(groups)| &&
    (groupSize <= 1 ==> |groups| == |Flatten(groups)|) &&
    (groups != [] && items != [] && NonNegative(items, d) ==> items[0] in groups[0])
  }

  /** One round of `Group` keeps its loop invariant. */
  lemma GroupStep<T>(items: seq<T>, groupSize: int, d: (T, T) -> real, groups: seq<seq<T>>, list: seq<T>,
                     group: seq<T>, rest: seq<T>)
    requires |list| > 0 && groupSize >= 0 && GroupedSoFar(items, groupSize, d, groups, list)
    requires multiset(group) + multiset(rest) == multiset(list)
    requires |group| == (if Cap(groupSize) < |list| then Cap(groupSize) else |list|)
    requires |group| + |rest| == |list|
    requires NonNegative(list, d) ==> list[0] in group
    ensures GroupedSoFar(items, groupSize, d, groups + [group], rest)
  {
    FlattenSnoc(groups, group);
    var groups' := groups + [group];
    assert groups'[0] == if groups == [] then group else groups[0];
    forall k | 0 <= k < |groups'| ensures 1 <= |groups'[k]| <= Cap(groupSize) {
      if k < |groups| {
        assert groups'[k] == groups[k];
      }
    }
  }
}
