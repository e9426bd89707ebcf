/**
 * The ball tree of Experiments/BallTree/Program.cs. A `LeafNode` holds a
 * group of vectors and a `Node` a group of child balls; each has a centre
 * and a radius. `Tree.Create` builds one by grouping the vectors into
 * leaves and regrouping balls until a single root remains.
 *
 * Vectors are `float[]` references; the model names each by its position in
 * the input array. Centres and radii are float means and maxima, computed
 * here by the functions `leafBall` and `innerBall` the caller supplies.
 */
module BallTrees {
  import opened Wrappers
  import opened Distance
  import opened NodeDistanceSets
  import opened BallGroups

  /** A `LeafNode` (positions of its vectors) or a `Node` (its children), with centre and radius. */
  datatype Ball =
    | Leaf(vectors: seq<nat>, center: Vector, radius: real)
    | Inner(children: seq<Ball>, center: Vector, radius: real)

  /** The vectors under a ball, leaf by leaf in child order. */
  function Items(b: Ball): seq<nat>
    decreases b, 1
  {
    match b
    case Leaf(vs, _, _) => vs
    case Inner(cs, _, _) => ItemsOf(cs)
  }

  function ItemsOf(bs: seq<Ball>): seq<nat>
    decreases bs, 0
  {
    if bs == [] then [] else Items(bs[0]) + ItemsOf(bs[1..])
  }

  /** The number of balls in a tree. */
  function Size(b: Ball): nat
    decreases b, 1
  {
    match b
    case Leaf(_, _, _) => 1
    case Inner(cs, _, _) => 1 + SizeOf(cs)
  }

  function SizeOf(bs: seq<Ball>): nat
    decreases bs, 0
  {
    if bs == [] then 0 else Size(bs[0]) + SizeOf(bs[1..])
  }

  lemma {:induction false} ItemsOfAppend(a: seq<Ball>, b: seq<Ball>)
    ensures ItemsOf(a + b) == ItemsOf(a) + ItemsOf(b)
    ensures SizeOf(a + b) == SizeOf(a) + SizeOf(b)
    decreases |a|
  {
    if a == [] {
      assert a + b == b;
    } else {
      assert (a + b)[0] == a[0] && (a + b)[1..] == a[1..] + b;
      ItemsOfAppend(a[1..], b);
    }
  }

  lemma ItemsOfOne(b: Ball)
    ensures ItemsOf([b]) == Items(b) && SizeOf([b]) == Size(b)
  {
    assert [b][1..] == [];
  }

  /** Reordering balls reorders their vectors and keeps their size. */
  lemma {:induction false} ItemsOfPermutation(a: seq<Ball>, b: seq<Ball>)
    requires multiset(a) == multiset(b)
    ensures multiset(ItemsOf(a)) == multiset(ItemsOf(b))
    ensures SizeOf(a) == SizeOf(b)
    decreases |a|
  {
    if a != [] {
      assert a[0] in multiset(b);
      var t :| 0 <= t < |b| && b[t] == a[0];
      var b' := b[..t] + b[t + 1..];
      RemoveOne(a, b, t);
      ItemsSplit(a, 0, a[1..]);
      ItemsSplit(b, t, b');
      ItemsOfPermutation(a[1..], b');
    }
  }

  /** The vectors under `b` are those under `b[t]` and those under the other balls, `rest`. */
  lemma ItemsSplit(b: seq<Ball>, t: nat, rest: seq<Ball>)
    requires t < |b| && rest == b[..t] + b[t + 1..]
    ensures multiset(ItemsOf(b)) == multiset(Items(b[t])) + multiset(ItemsOf(rest))
    ensures SizeOf(b) == Size(b[t]) + SizeOf(rest)
  {
    assert b == b[..t] + [b[t]] + b[t + 1..];
    ItemsOfAppend(b[..t] + [b[t]], b[t + 1..]);
    ItemsOfAppend(b[..t], [b[t]]);
    ItemsOfAppend(b[..t], b[t + 1..]);
    ItemsOfOne(b[t]);
  }

  /** The vectors of the groups laid end to end are those of the groups' balls. */
  lemma {:induction false} ItemsOfFlatten(groups: seq<seq<Ball>>)
    ensures ItemsOf(Flatten(groups)) == FlattenItems(groups)
    decreases |groups|
  {
    if groups != [] {
      var last := |groups| - 1;
      ItemsOfFlatten(groups[..last]);
      ItemsOfAppend(Flatten(groups[..last]), groups[last]);
    }
  }

  /** The vectors under each group, group by group. */
  function FlattenItems(groups: seq<seq<Ball>>): seq<nat> {
    if groups == [] then [] else FlattenItems(groups[..|groups| - 1]) + ItemsOf(groups[|groups| - 1])
  }

  /** An item of a group is an item of the groups laid end to end. */
  lemma {:induction false} InFlatten<T>(groups: seq<seq<T>>, k: nat, x: T)
    requires k < |groups| && x in groups[k]
    ensures x in Flatten(groups)
    decreases |groups|
  {
    var last := |groups| - 1;
    if k < last {
      InFlatten(groups[..last], k, x);
    }
  }

  /** Non-empty groups are no more numerous than their items. */
  lemma {:induction false} FlattenLength<T>(groups: seq<seq<T>>)
    requires forall k :: 0 <= k < |groups| ==> |groups[k]| >= 1
    ensures |groups| <= |Flatten(groups)|
    decreases |groups|
  {
    if groups != [] {
      FlattenLength(groups[..|groups| - 1]);
    }
  }

  /** Every leaf holds between one and `cap` vectors and every node between one and `cap` children. */
  predicate Shaped(b: Ball, cap: int) {
    match b
    case Leaf(vs, _, _) => 1 <= |vs| <= cap
    case Inner(cs, _, _) => 1 <= |cs| <= cap && forall c :: c in cs ==> Shaped(c, cap)
  }

  /** The centres and radii of a group of balls, as `new Node(group)` reads them. */
  function Shapes(group: seq<Ball>): (r: seq<(Vector, real)>)
    ensures |r| == |group| && forall i :: 0 <= i < |group| ==> r[i] == (group[i].center, group[i].radius)
  {
    seq(|group|, i requires 0 <= i < |group| => (group[i].center, group[i].radius))
  }

  /** `foreach (var group in grouped) nodes.Add(new LeafNode(group))`. */
  method MakeLeaves(vectors: seq<Vector>, groups: seq<seq<nat>>, ghost cap: int, leafBall: seq<Vector> -> (Vector, real))
    returns (nodes: seq<Ball>)
    requires forall k :: 0 <= k < |groups| ==> 1 <= |groups[k]| <= cap
    requires forall k, i :: 0 <= k < |groups| && 0 <= i < |groups[k]| ==> groups[k][i] < |vectors|
    ensures |nodes| == |groups| && ItemsOf(nodes) == Flatten(groups)
    ensures forall i :: 0 <= i < |nodes| ==> Shaped(nodes[i], cap)
  {
    nodes := [];
    var k := 0;
    while k < |groups|
      invariant 0 <= k <= |groups| && |nodes| == k
      invariant ItemsOf(nodes) == Flatten(groups[..k])
      invariant forall i :: 0 <= i < k ==> Shaped(nodes[i], cap)
    {
      var group := groups[k];
      var shape := leafBall(Pick(vectors, group));
      var leaf := Leaf(group, shape.0, shape.1);
      ItemsOfAppend(nodes, [leaf]);
      ItemsOfOne(leaf);
      assert groups[..k + 1][..k] == groups[..k];
      nodes := nodes + [leaf];
      k := k + 1;
    }
    assert groups[..k] == groups;
  }

  /** `foreach (var group in groupedNodes) nodes.Add(new Node(group))`. */
  method MakeNodes(groups: seq<seq<Ball>>, ghost cap: int, innerBall: seq<(Vector, real)> -> (Vector, real))
    returns (nodes: seq<Ball>)
    requires forall k :: 0 <= k < |groups| ==> 1 <= |groups[k]| <= cap
    requires forall k, c :: 0 <= k < |groups| && c in groups[k] ==> Shaped(c, cap)
    ensures |nodes| == |groups| && ItemsOf(nodes) == FlattenItems(groups)
    ensures forall i :: 0 <= i < |nodes| ==> Shaped(nodes[i], cap)
  {
    nodes := [];
    var k := 0;
    while k < |groups|
      invariant 0 <= k <= |groups| && |nodes| == k
      invariant ItemsOf(nodes) == FlattenItems(groups[..k])
      invariant forall i :: 0 <= i < k ==> Shaped(nodes[i], cap)
    {
      var group := groups[k];
      var shape := innerBall(Shapes(group));
      var node := Inner(group, shape.0, shape.1);
      ItemsOfAppend(nodes, [node]);
      ItemsOfOne(node);
      assert groups[..k + 1][..k] == groups[..k];
      nodes := nodes + [node];
      k := k + 1;
    }
    assert groups[..k] == groups;
  }

  /**
   * The leaves `Tree.Create` starts from, one per group of vector positions
   * that `Group` formed: together they hold every vector once.
   */
  method LeavesOf(vectors: seq<Vector>, groups: seq<seq<nat>>, maxNeighbors: int, ghost cap: int,
                  leafBall: seq<Vector> -> (Vector, real))
    returns (nodes: seq<Ball>)
    requires maxNeighbors >= 2 || |vectors| <= 1
    requires cap == Cap(maxNeighbors) && multiset(Flatten(groups)) == multiset(Range(|vectors|))
    requires forall k :: 0 <= k < |groups| ==> 1 <= |groups[k]| <= cap
    requires groups == [] <==> vectors == []
    requires maxNeighbors >= 2 && |vectors| >= 2 ==> |groups| < |vectors|
    ensures multiset(ItemsOf(nodes)) == multiset(Range(|vectors|))
    ensures (nodes == []) == (vectors == [])
    ensures |nodes| > 1 ==> maxNeighbors >= 2
    ensures forall i :: 0 <= i < |nodes| ==> Shaped(nodes[i], cap)
  {
    forall k, i | 0 <= k < |groups| && 0 <= i < |groups[k]| ensures groups[k][i] < |vectors| {
      InFlatten(groups, k, groups[k][i]);
      assert groups[k][i] in multiset(Range(|vectors|));
    }
    nodes := MakeLeaves(vectors, groups, cap, leafBall);
    FlattenLength(groups);
    assert |Flatten(groups)| == |multiset(Range(|vectors|))| == |vectors|;
  }

  /**
   * One turn of the `while` loop of `Tree.Create`: the balls are grouped by
   * their centres and each group becomes a `Node`. The new balls hold the
   * same vectors and are fewer.
   */
  method Regroup(nodes: seq<Ball>, maxNeighbors: int, ghost cap: int, dist: (Vector, Vector) -> real,
                 innerBall: seq<(Vector, real)> -> (Vector, real))
    returns (next: seq<Ball>)
    requires |nodes| > 1 && maxNeighbors >= 2 && cap == Cap(maxNeighbors)
    requires forall i :: 0 <= i < |nodes| ==> Shaped(nodes[i], cap)
    ensures multiset(ItemsOf(next)) == multiset(ItemsOf(nodes))
    ensures 1 <= |next| < |nodes|
    ensures forall i :: 0 <= i < |next| ==> Shaped(next[i], cap)
  {
    var regrouped, lists, picks := Group(nodes, maxNeighbors, (x: Ball, y: Ball) => dist(x.center, y.center));
    var balls := regrouped.value;
    forall k, c | 0 <= k < |balls| && c in balls[k] ensures Shaped(c, cap) {
      InFlatten(balls, k, c);
      assert c in multiset(nodes);
    }
    next := MakeNodes(balls, cap, innerBall);
    ItemsOfFlatten(balls);
    ItemsOfPermutation(Flatten(balls), nodes);
  }

  /**
   * `Tree.Create`. A negative `maxNeighbors` is out of range for `Group`'s
   * queue, and no vectors leave no node for `nodes[0]`; otherwise the root
   * holds every vector exactly once, and every ball at most `maxNeighbors`
   * entries. Each regrouping round leaves fewer balls, so the loop ends.
   */
  method Create(vectors: seq<Vector>, maxNeighbors: int, dist: (Vector, Vector) -> real,
                leafBall: seq<Vector> -> (Vector, real), innerBall: seq<(Vector, real)> -> (Vector, real))
    returns (r: Result<Ball>)
    requires maxNeighbors < 0 || maxNeighbors >= 2 || |vectors| <= 1
    ensures r.Err? <==> maxNeighbors < 0 || vectors == []
    ensures r.Err? ==> r.error == ArgumentOutOfRange
    ensures r.Ok? ==> multiset(Items(r.value)) == multiset(Range(|vectors|))
    ensures r.Ok? ==> Shaped(r.value, Cap(maxNeighbors))
  {
    var n := |vectors|;
    var d := (i: nat, j: nat) => if i < n && j < n then dist(vectors[i], vectors[j]) else 0.0;
    var grouped, lists, picks := Group(Range(n), maxNeighbors, d);
    if grouped.Err? {
      return Err(ArgumentOutOfRange);
    }
    ghost var cap := Cap(maxNeighbors);
    var nodes := LeavesOf(vectors, grouped.value, maxNeighbors, cap, leafBall);
    while |nodes| > 1
      invariant multiset(ItemsOf(nodes)) == multiset(Range(n))
      invariant (nodes == []) == (n == 0)
      invariant |nodes| > 1 ==> maxNeighbors >= 2
      invariant forall i :: 0 <= i < |nodes| ==> Shaped(nodes[i], cap)
      decreases |nodes|
    {
      nodes := Regroup(nodes, maxNeighbors, cap, dist, innerBall);
    }
    if |nodes| == 0 {
      return Err(ArgumentOutOfRange);
    }
    ItemsOfOne(nodes[0]);
    return Ok(nodes[0]);
  }
}
