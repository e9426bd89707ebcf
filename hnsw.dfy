/**
 * `HNSWCollection` (Experiments/HNSW/HNSW.cs): the layered proximity graph
 * and its operations. The node graph lives in the arena `nodes`, in
 * insertion order; `layers` is the source's `Nodes`, the per-level lists of
 * arena indices. Distances are computed by the function `dist`, which stands
 * for `DistanceCalculator.CosineDistance` on vectors of equal length.
 */
module Hnsw {
  import opened Wrappers
  import opened Distance
  import opened NodeDistanceSets
  import opened HnswGraph
  import opened HnswLevels
  import opened BoundedQueues

  /** The cached entry point is the first node to reach the top level, and exists iff there are nodes. */
  predicate IsEntryPoint(lv: seq<int>, ep: Option<nat>) {
    (ep.None? <==> lv == []) &&
    (ep.Some? ==> ep.value < |lv| && lv[ep.value] == Height(lv) - 1 &&
                  forall x :: 0 <= x < ep.value ==> lv[x] < lv[ep.value])
  }

  /** The invariant of `HNSWCollection`, on its four fields. */
  ghost predicate Consistent(nodes: seq<Node>, layers: seq<seq<nat>>, entryPoint: Option<nat>, maxId: int) {
    WellFormed(nodes) && Symmetric(nodes) &&
    (forall x :: 0 <= x < |nodes| ==> nodes[x].id == x + 1) &&
    maxId == |nodes| + 1 &&
    layers == Layers(Levels(nodes)) &&
    IsEntryPoint(Levels(nodes), entryPoint)
  }

  /** `Add` keeps the invariant: the new node is last, with the next id and level `level`. */
  lemma AddKeepsConsistent(g0: seq<Node>, layers0: seq<seq<nat>>, ep0: Option<nat>, maxId0: int,
                           node: Node, level: nat, g: seq<Node>, layers: seq<seq<nat>>, ep: Option<nat>)
    requires Consistent(g0, layers0, ep0, maxId0)
    requires node.id == maxId0 && |node.neighbors| == level + 1
    requires WellFormed(g) && Symmetric(g) && SameShape(g, g0 + [node])
    requires layers == Layers(Levels(g0) + [level])
    requires ep == if level > |layers0| - 1 then Some(|g0|) else ep0
    ensures Consistent(g, layers, ep, maxId0 + 1)
    ensures Levels(g) == Levels(g0) + [level]
  {
    var lv := Levels(g0);
    assert Levels(g) == lv + [level] && forall x :: 0 <= x < |g| ==> g[x].id == x + 1 by {
      AddShape(g0, node, level, g);
    }
    assert IsEntryPoint(lv + [level], ep) by {
      assert forall x :: 0 <= x < |lv| ==> lv[x] >= 0;
      assert |layers0| == Height(lv);
      IsEntryPointAfterAdd(lv, ep0, level);
    }
  }

  /** The nodes before the appended one keep their ids and vectors. */
  lemma AppendedShape(g0: seq<Node>, node: Node, g: seq<Node>)
    requires SameShape(g, g0 + [node])
    ensures |g| == |g0| + 1 && g[|g0|].id == node.id && g[|g0|].vector == node.vector
    ensures forall x :: 0 <= x < |g0| ==> g[x].id == g0[x].id && g[x].vector == g0[x].vector
  {
    assert (g0 + [node])[|g0|] == node;
    assert forall x :: 0 <= x < |g0| ==> (g0 + [node])[x] == g0[x];
  }

  lemma AddShape(g0: seq<Node>, node: Node, level: nat, g: seq<Node>)
    requires (forall x :: 0 <= x < |g0| ==> g0[x].id == x + 1) && node.id == |g0| + 1
    requires |node.neighbors| == level + 1 && SameShape(g, g0 + [node])
    ensures Levels(g) == Levels(g0) + [level]
    ensures forall x :: 0 <= x < |g| ==> g[x].id == x + 1
  {
    assert Levels(g0 + [node]) == Levels(g0) + [level];
    SameShapeLevels(g, g0 + [node]);
  }

  /**
   * An entry returned by a search at level `l` from `root`: a node of the
   * arena reached along level-`l` lists, at level `l` unless it is the
   * root itself, whose distance to `q` is recorded.
   */
  ghost predicate Found(g: seq<Node>, q: Vector, l: nat, root: nat, e: Entry, dist: (Vector, Vector) -> real) {
    e.node < |g| && Reachable(g, l, root, e.node) &&
    e.dist == dist(q, g[e.node].vector) &&
    (e.node == root || l < |g[e.node].neighbors|)
  }

  /** Every entry was found from `root` and its node visited. */
  ghost predicate AllFound(g: seq<Node>, q: Vector, l: nat, root: nat, dist: (Vector, Vector) -> real,
                           visited: set<nat>, items: seq<Entry>) {
    forall e :: e in items ==> Found(g, q, l, root, e, dist) && e.node in visited
  }

  lemma AllFoundInserted(g: seq<Node>, q: Vector, l: nat, root: nat, dist: (Vector, Vector) -> real,
                         visited: set<nat>, items: seq<Entry>, e: Entry)
    requires AllFound(g, q, l, root, dist, visited, items) && Found(g, q, l, root, e, dist) && e.node in visited
    ensures AllFound(g, q, l, root, dist, visited, Inserted(items, e))
  {
  }

  lemma AllFoundRemoved(g: seq<Node>, q: Vector, l: nat, root: nat, dist: (Vector, Vector) -> real,
                        visited: set<nat>, items: seq<Entry>, n: nat)
    requires AllFound(g, q, l, root, dist, visited, items)
    ensures AllFound(g, q, l, root, dist, visited, Removed(items, n))
  {
  }

  lemma AllFoundMore(g: seq<Node>, q: Vector, l: nat, root: nat, dist: (Vector, Vector) -> real,
                     visited: set<nat>, more: set<nat>, items: seq<Entry>, n: nat)
    requires AllFound(g, q, l, root, dist, visited, items) && visited <= more && n !in visited
    ensures AllFound(g, q, l, root, dist, more, items) && n !in NodesOf(items)
  {
  }

  /**
   * An unvisited neighbour of a reached node is found once visited, and
   * every entry found before stays found.
   */
  lemma FoundNeighbor(g: seq<Node>, q: Vector, l: nat, root: nat, dist: (Vector, Vector) -> real,
                      visited: set<nat>, from: nat, neighbor: nat, ritems: seq<Entry>, citems: seq<Entry>)
    requires WellFormed(g) && Reachable(g, l, root, from) && neighbor in Adj(g, from, l) && neighbor !in visited
    requires (forall x :: x in visited ==> x < |g|)
    requires AllFound(g, q, l, root, dist, visited, ritems) && AllFound(g, q, l, root, dist, visited, citems)
    ensures neighbor < |g| && (forall x :: x in visited + {neighbor} ==> x < |g|)
    ensures neighbor !in NodesOf(ritems) && neighbor !in NodesOf(citems)
    ensures AllFound(g, q, l, root, dist, visited + {neighbor}, ritems)
    ensures AllFound(g, q, l, root, dist, visited + {neighbor}, citems)
    ensures var e := Entry(neighbor, dist(q, g[neighbor].vector));
      AllFound(g, q, l, root, dist, visited + {neighbor}, Inserted(ritems, e)) &&
      AllFound(g, q, l, root, dist, visited + {neighbor}, Inserted(citems, e))
  {
    WellFormedMember(g, from, l, neighbor);
    ReachableStep(g, l, root, from, neighbor);
    var visited' := visited + {neighbor};
    var e := Entry(neighbor, dist(q, g[neighbor].vector));
    assert Found(g, q, l, root, e, dist);
    AllFoundMore(g, q, l, root, dist, visited, visited', citems, neighbor);
    AllFoundMore(g, q, l, root, dist, visited, visited', ritems, neighbor);
    AllFoundInserted(g, q, l, root, dist, visited', citems, e);
    AllFoundInserted(g, q, l, root, dist, visited', ritems, e);
  }

  lemma AllFoundSubset(g: seq<Node>, q: Vector, l: nat, root: nat, dist: (Vector, Vector) -> real,
                       visited: set<nat>, items: seq<Entry>, sub: seq<Entry>)
    requires AllFound(g, q, l, root, dist, visited, items) && forall e :: e in sub ==> e in items
    ensures AllFound(g, q, l, root, dist, visited, sub)
  {
  }

  /** The entry point after adding a node of level `v`: the new node exactly when it is higher than all others. */
  lemma IsEntryPointAfterAdd(lv: seq<int>, ep: Option<nat>, v: nat)
    requires IsEntryPoint(lv, ep) && forall x :: 0 <= x < |lv| ==> lv[x] >= 0
    ensures IsEntryPoint(lv + [v], if v > Height(lv) - 1 then Some(|lv|) else ep)
  {
    HeightAppend(lv, v);
  }

  function Max1(ef: int): int {
    if ef > 1 then ef else 1
  }

  /** The vectors of the nodes `s` names, in order. */
  function VectorsOf(g: seq<Node>, s: seq<nat>): (r: seq<Vector>)
    requires forall i :: 0 <= i < |s| ==> s[i] < |g|
    ensures |r| == |s| && forall i :: 0 <= i < |s| ==> r[i] == g[s[i]].vector
  {
    seq(|s|, i requires 0 <= i < |s| => g[s[i]].vector)
  }

  function Reversed<T>(s: seq<T>): (r: seq<T>)
    ensures |r| == |s| && forall i :: 0 <= i < |s| ==> r[i] == s[|s| - 1 - i]
  {
    seq(|s|, i requires 0 <= i < |s| => s[|s| - 1 - i])
  }

  /**
   * `chosen` is an answer to an exact `k`-nearest query: `min(k, |g|)`
   * distinct nodes, nearest first, and no node left out is nearer than any
   * node chosen.
   */
  predicate NearestK(g: seq<Node>, q: Vector, k: int, chosen: seq<nat>, dist: (Vector, Vector) -> real) {
    (forall i :: 0 <= i < |chosen| ==> chosen[i] < |g|) && NoDuplicates(chosen) &&
    |chosen| == (if k < |g| then k else |g|) &&
    (forall i, j :: 0 <= i < j < |chosen| ==> dist(q, g[chosen[i]].vector) <= dist(q, g[chosen[j]].vector)) &&
    (forall x, c :: 0 <= x < |g| && x !in chosen && c in chosen ==> dist(q, g[c].vector) <= dist(q, g[x].vector))
  }

  /** The distance from `q` of every arena node, indexed by node: the priorities of the scan of `SearchExact`. */
  function Priorities(g: seq<Node>, q: Vector, dist: (Vector, Vector) -> real): (p: seq<real>)
    ensures |p| == |g| && forall x :: 0 <= x < |g| ==> p[x] == dist(q, g[x].vector)
  {
    seq(|g|, x requires 0 <= x < |g| => dist(q, g[x].vector))
  }

  /**
   * The loop of `SearchExact` over level 0, the nodes of `layer` in order;
   * `Peek` on the empty queue (when `k == 0`) is an invalid operation.
   */
  method ExactScan(g: seq<Node>, layer: seq<nat>, q: Vector, k: int, dist: (Vector, Vector) -> real)
    returns (r: Result<seq<Entry>>)
    requires (forall x :: x in layer ==> x < |g|) && NoDuplicates(layer)
    ensures r.Err? <==> k == 0 && layer != []
    ensures r.Err? ==> r.error == InvalidOperation
    ensures r.Ok? ==> Scanned(g, q, k, layer, r.value, dist)
  {
    var pq: seq<Entry> := [];
    HoldsEmpty(Priorities(g, q, dist), k);
    var j := 0;
    ghost var seen: seq<nat> := [];
    while j < |layer|
      invariant 0 <= j <= |layer| && (k == 0 ==> j == 0) && seen == layer[..j]
      invariant Scanned(g, q, k, seen, pq, dist)
    {
      var node := layer[j];
      PrefixStep(layer, j);
      var next := ScanStep(g, q, k, seen, pq, node, dist);
      if next.Err? {
        return Err(InvalidOperation);
      }
      pq := next.value;
      seen := seen + [node];
      j := j + 1;
    }
    assert seen == layer;
    return Ok(pq);
  }

  /**
   * The `k` nearest of the entries a level-0 search returned: distinct
   * arena nodes, nearest first, at most `k` and at most `ef`, and at least
   * one when `k` is positive.
   */
  lemma SelectedNearest(g: seq<Node>, q: Vector, items: seq<Entry>, k: int, ef: int, selected: seq<Entry>,
                        dist: (Vector, Vector) -> real)
    requires forall e :: e in items ==> e.node < |g| && e.dist == dist(q, g[e.node].vector)
    requires Distinct(items) && 1 <= |items| <= Max1(ef)
    requires selected == SelectNeighborsSimple(items, k)
    ensures (forall i :: 0 <= i < |selected| ==> NodesOf(selected)[i] < |g|) && NoDuplicates(NodesOf(selected))
    ensures |selected| <= (if k > 0 then k else 0) && |selected| <= Max1(ef) && (k > 0 ==> |selected| >= 1)
    ensures forall i, j :: 0 <= i < j < |selected| ==>
      dist(q, VectorsOf(g, NodesOf(selected))[i]) <= dist(q, VectorsOf(g, NodesOf(selected))[j])
  {
    assert forall t :: 0 <= t < |selected| ==> selected[t] in items by {
      assert forall t :: 0 <= t < |selected| ==> selected[t] in selected;
    }
    AscendingVectors(g, q, items, selected, dist);
  }

  /** Entries drawn from `items`, distinct and nearest first, name distinct nodes whose vectors are nearest first. */
  lemma AscendingVectors(g: seq<Node>, q: Vector, items: seq<Entry>, selected: seq<Entry>, dist: (Vector, Vector) -> real)
    requires forall e :: e in items ==> e.node < |g| && e.dist == dist(q, g[e.node].vector)
    requires forall t :: 0 <= t < |selected| ==> selected[t] in items
    requires Ascending(selected) && Distinct(selected)
    ensures (forall i :: 0 <= i < |selected| ==> NodesOf(selected)[i] < |g|) && NoDuplicates(NodesOf(selected))
    ensures forall i, j :: 0 <= i < j < |selected| ==>
      dist(q, VectorsOf(g, NodesOf(selected))[i]) <= dist(q, VectorsOf(g, NodesOf(selected))[j])
  {
    var ns := NodesOf(selected);
    forall t | 0 <= t < |selected| ensures ns[t] < |g| && selected[t].dist == dist(q, g[ns[t]].vector) {
      assert selected[t] in items;
    }
    DistinctNodes(selected);
    var vs := VectorsOf(g, ns);
    forall i, j | 0 <= i < j < |selected| ensures dist(q, vs[i]) <= dist(q, vs[j]) {
      assert vs[i] == g[ns[i]].vector && vs[j] == g[ns[j]].vector;
    }
  }

  /** At the end of the scan over all nodes the queue is an exact answer. */
  lemma ScannedNearestK(g: seq<Node>, q: Vector, k: int, layer: seq<nat>, pq: seq<Entry>, dist: (Vector, Vector) -> real)
    requires Scanned(g, q, k, layer, pq, dist) && k > 0
    requires |layer| == |g| && forall x :: x in layer <==> 0 <= x < |g|
    ensures NearestK(g, q, k, NodesOf(pq), dist)
    ensures (forall e :: e in pq ==> e.node < |g|) && |pq| <= k
  {
    var p := Priorities(g, q, dist);
    HoldsLeast(p, k, layer, pq);
    LeastNearest(g, q, k, pq, dist);
  }

  /** A least-`k` queue over all the arena's nodes, by their distances from `q`, names the `k` nearest. */
  lemma LeastNearest(g: seq<Node>, q: Vector, k: int, pq: seq<Entry>, dist: (Vector, Vector) -> real)
    requires k > 0 && |pq| == (if k < |g| then k else |g|)
    requires forall i :: 0 <= i < |pq| ==> pq[i].node < |g| && pq[i].dist == dist(q, g[pq[i].node].vector)
    requires forall i, j :: 0 <= i < j < |pq| ==> pq[i].node != pq[j].node && pq[i].dist <= pq[j].dist
    requires forall x, e :: 0 <= x < |g| && x !in NodesOf(pq) && e in pq ==> e.dist <= dist(q, g[x].vector)
    ensures NearestK(g, q, k, NodesOf(pq), dist)
  {
    var chosen := NodesOf(pq);
    ChosenOrdered(g, q, pq, chosen, dist);
    forall x, c | 0 <= x < |g| && x !in chosen && c in chosen ensures dist(q, g[c].vector) <= dist(q, g[x].vector) {
      var t :| 0 <= t < |pq| && chosen[t] == c;
      assert pq[t] in pq;
    }
  }

  lemma ChosenOrdered(g: seq<Node>, q: Vector, pq: seq<Entry>, chosen: seq<nat>, dist: (Vector, Vector) -> real)
    requires chosen == NodesOf(pq)
    requires forall i :: 0 <= i < |pq| ==> pq[i].node < |g| && pq[i].dist == dist(q, g[pq[i].node].vector)
    requires forall i, j :: 0 <= i < j < |pq| ==> pq[i].node != pq[j].node && pq[i].dist <= pq[j].dist
    ensures (forall i :: 0 <= i < |chosen| ==> chosen[i] < |g|) && NoDuplicates(chosen)
    ensures forall i, j :: 0 <= i < j < |chosen| ==> dist(q, g[chosen[i]].vector) <= dist(q, g[chosen[j]].vector)
  {
    forall i | 0 <= i < |chosen| ensures chosen[i] < |g| {
      assert chosen[i] == pq[i].node;
    }
    forall i, j | 0 <= i < j < |chosen|
      ensures chosen[i] != chosen[j] && dist(q, g[chosen[i]].vector) <= dist(q, g[chosen[j]].vector)
    {
      assert chosen[i] == pq[i].node && chosen[j] == pq[j].node;
    }
  }

  /**
   * The last loop of `SearchExact` and `Reverse`: the queue is emptied
   * furthest first, and the list of vectors reversed, so nearest first.
   */
  method Drain(g: seq<Node>, pq: seq<Entry>, k: int) returns (result: seq<Vector>)
    requires (forall e :: e in pq ==> e.node < |g|) && |pq| <= k
    ensures (forall i :: 0 <= i < |pq| ==> NodesOf(pq)[i] < |g|) && result == VectorsOf(g, NodesOf(pq))
  {
    assert forall t :: 0 <= t < |pq| ==> pq[t] in pq;
    var rest := pq;
    result := [];
    var i := 0;
    while i < k && |rest| > 0
      invariant 0 <= i && |rest| + i == |pq| && rest == pq[..|rest|]
      invariant |result| == i && forall t :: 0 <= t < i ==> result[t] == g[pq[|pq| - 1 - t].node].vector
    {
      var nearest := rest[|rest| - 1];
      rest := rest[..|rest| - 1];
      result := result + [g[nearest.node].vector];
      i := i + 1;
    }
    result := Reversed(result);
  }

  /** The next node of a list without repeats is not among those before it. */
  lemma PrefixStep(layer: seq<nat>, j: nat)
    requires NoDuplicates(layer) && j < |layer|
    ensures layer[j] in layer && layer[..j + 1] == layer[..j] + [layer[j]] && layer[j] !in layer[..j]
  {
    forall t | 0 <= t < j ensures layer[..j][t] != layer[j] {
      assert layer[..j][t] == layer[t];
    }
  }

  /** The scan's queue after the nodes `xs`: it holds their least `k` by distance from `q`. */
  ghost predicate Scanned(g: seq<Node>, q: Vector, k: int, xs: seq<nat>, pq: seq<Entry>, dist: (Vector, Vector) -> real) {
    Holds(Priorities(g, q, dist), k, xs, pq)
  }

  /**
   * One turn of the scan: a node enters a queue with room; a full queue
   * drops its furthest entry for a nearer node, or skips `node`.
   */
  method ScanStep(g: seq<Node>, q: Vector, k: int, ghost xs: seq<nat>, pq: seq<Entry>, node: nat, dist: (Vector, Vector) -> real)
    returns (r: Result<seq<Entry>>)
    requires Scanned(g, q, k, xs, pq, dist) && node < |g| && node !in xs
    ensures r.Err? <==> k == 0
    ensures r.Err? ==> r.error == InvalidOperation
    ensures r.Ok? ==> Scanned(g, q, k, xs + [node], r.value, dist)
  {
    ghost var p := Priorities(g, q, dist);
    var distance := dist(q, g[node].vector);
    var e := Entry(node, distance);
    NotHeld(p, k, xs, pq, node);
    if |pq| == k {
      if |pq| == 0 {
        return Err(InvalidOperation);
      }
      if distance >= pq[|pq| - 1].dist {
        SkipKeeps(p, k, xs, pq, node);
        return Ok(pq);
      }
      var rest := pq[..|pq| - 1];
      var pq' := InsertByDistance(e, rest);
      ReplaceKeeps(p, k, xs, pq, e, pq');
      return Ok(pq');
    }
    var pq' := InsertByDistance(e, pq);
    InsertKeeps(p, k, xs, pq, e, pq');
    return Ok(pq');
  }

  /** The loop of `Add` over `layers`: node `n` is appended to layers 0 to `level`, new layers opening as needed. */
  method JoinLayers(layers: seq<seq<nat>>, n: nat, level: nat, ghost lv: seq<int>) returns (r: seq<seq<nat>>)
    requires layers == Layers(lv) && n == |lv|
    ensures r == Layers(lv + [level])
  {
    r := layers;
    var k := 0;
    while k < level + 1
      invariant 0 <= k <= level + 1 && Joined(lv, n, k, r)
    {
      r := JoinOne(lv, n, k, r);
      k := k + 1;
    }
    JoinedAll(lv, level, r);
  }

  /** Node `n` is in layers below `k` and in no other; the layers reach at least `k`. */
  ghost predicate Joined(lv: seq<int>, n: nat, k: nat, r: seq<seq<nat>>) {
    |r| == (if k > Height(lv) then k else Height(lv)) &&
    forall l :: 0 <= l < |r| ==> r[l] == Members(lv, l) + (if l < k then [n] else [])
  }

  /** One turn of the loop: layer `k` is opened when missing, and `n` joins it. */
  method JoinOne(ghost lv: seq<int>, n: nat, k: nat, r: seq<seq<nat>>) returns (r': seq<seq<nat>>)
    requires Joined(lv, n, k, r)
    ensures Joined(lv, n, k + 1, r')
  {
    r' := r;
    if k >= |r'| {
      MembersAbove(lv, k);
      r' := r' + [[]];
    }
    assert k < |r'| && r'[k] == Members(lv, k);
    assert forall l :: 0 <= l < |r'| && l != k ==> r'[l] == Members(lv, l) + (if l < k then [n] else []);
    r' := r'[k := r'[k] + [n]];
  }

  /** Once `n == |lv|` is in layers 0 to `level`, the layers are those of `lv + [level]`. */
  lemma JoinedAll(lv: seq<int>, level: nat, r: seq<seq<nat>>)
    requires Joined(lv, |lv|, level + 1, r)
    ensures r == Layers(lv + [level])
  {
    HeightAppend(lv, level);
    forall l | 0 <= l < |r| ensures r[l] == Members(lv + [level], l) {
      MembersAppend(lv, level, l);
    }
  }

  class HNSWCollection {
    var nodes: seq<Node>
    var layers: seq<seq<nat>>
    var entryPoint: Option<nat>
    var maxId: int
    const numNeighbors: int
    const numNeighbors0: int
    const efConstruction: int
    const dist: (Vector, Vector) -> real

    /**
     * Neighbour lists are well formed and symmetric, ids count up from 1,
     * each layer lists the nodes of at least its level, and the entry point
     * is the first node of the top level.
     */
    ghost predicate Valid()
      reads this
    {
      Consistent(nodes, layers, entryPoint, maxId)
    }

    /** `numNeighbors0 == -1` selects the default of twice `numNeighbors`. */
    constructor (numNeighbors: int, numNeighbors0: int, efConstruction: int, dist: (Vector, Vector) -> real)
      ensures Valid() && nodes == [] && layers == [] && entryPoint == None
      ensures this.numNeighbors == numNeighbors && this.efConstruction == efConstruction && this.dist == dist
      ensures this.numNeighbors0 == if numNeighbors0 != -1 then numNeighbors0 else numNeighbors * 2
    {
      this.numNeighbors := numNeighbors;
      this.numNeighbors0 := if numNeighbors0 != -1 then numNeighbors0 else numNeighbors * 2;
      this.efConstruction := efConstruction;
      this.dist := dist;
      nodes, layers, entryPoint, maxId := [], [], None, 1;
    }

    /** `Count => Nodes[0].Count`: the number of nodes, and an out-of-range error while there are none. */
    function Count(): (r: Result<nat>)
      reads this
      requires Valid()
      ensures r.Err? <==> nodes == []
      ensures r.Err? ==> r.error == ArgumentOutOfRange
      ensures r.Ok? ==> r.value == |nodes|
    {
      var lv := Levels(nodes);
      assert nodes != [] ==> lv[0] < Height(lv);
      LayerZero(lv);
      if |layers| == 0 then Err(ArgumentOutOfRange) else Ok(|layers[0]|)
    }

    /** What `SearchLayer` keeps true of its two sets and its visited set while it runs. */
    ghost predicate Searching(q: Vector, l: nat, root: nat, ef: int, d0: real, visited: set<nat>,
                              result: NodeDistanceSet, candidates: NodeDistanceSet)
      reads this, result, candidates
    {
      result != candidates && result.Valid() && candidates.Valid() &&
      (forall x :: x in visited ==> x < |nodes|) &&
      AllFound(nodes, q, l, root, dist, visited, result.items) &&
      AllFound(nodes, q, l, root, dist, visited, candidates.items) &&
      1 <= |result.items| <= Max1(ef) &&
      result.nearest.Some? && result.nearest.value.dist <= d0
    }

    /**
     * One turn of the inner loop of `SearchLayer`: an unvisited neighbour
     * is marked visited and, when it is closer than the furthest result
     * seen at the start of the turn or the results are not yet full,
     * enters both sets, evicting the furthest result on overflow.
     */
    method Consider(q: Vector, l: nat, root: nat, ef: int, d0: real, furthestResult: Option<Entry>,
                    from: nat, neighbor: nat, visited: set<nat>, result: NodeDistanceSet, candidates: NodeDistanceSet)
      returns (visited': set<nat>)
      requires WellFormed(nodes) && Searching(q, l, root, ef, d0, visited, result, candidates)
      requires Reachable(nodes, l, root, from) && neighbor in Adj(nodes, from, l)
      modifies result, candidates
      ensures Searching(q, l, root, ef, d0, visited', result, candidates)
      ensures visited' == visited + {neighbor}
      ensures |candidates.items| <= old(|candidates.items|) + (if neighbor in visited then 0 else 1)
    {
      visited' := visited;
      if neighbor !in visited {
        visited' := visited + {neighbor};
        var d := dist(q, nodes[neighbor].vector);
        var e := Entry(neighbor, d);
        FoundNeighbor(nodes, q, l, root, dist, visited, from, neighbor, result.items, candidates.items);
        if (furthestResult.Some? && d < furthestResult.value.dist) || |result.items| < ef {
          Admit(q, l, root, ef, d0, visited', e, result, candidates);
        }
      }
    }

    /** A newly found entry `e` enters both sets; the furthest result is evicted on overflow. */
    method Admit(q: Vector, l: nat, root: nat, ef: int, d0: real, visited: set<nat>, e: Entry,
                 result: NodeDistanceSet, candidates: NodeDistanceSet)
      requires result != candidates && result.Valid() && candidates.Valid()
      requires (forall x :: x in visited ==> x < |nodes|) && e.node !in NodesOf(result.items)
      requires AllFound(nodes, q, l, root, dist, visited, Inserted(result.items, e))
      requires AllFound(nodes, q, l, root, dist, visited, Inserted(candidates.items, e))
      requires 1 <= |result.items| <= Max1(ef) && result.nearest.Some? && result.nearest.value.dist <= d0
      modifies result, candidates
      ensures Searching(q, l, root, ef, d0, visited, result, candidates)
      ensures |candidates.items| <= old(|candidates.items|) + 1
    {
      candidates.Add(e);
      result.Add(e);
      if |result.items| > ef {
        ghost var before := result.items;
        Evict(result, d0);
        AllFoundSubset(nodes, q, l, root, dist, visited, before, result.items);
      }
    }

    /** `result.PopFurthest()` on overflow: one member fewer, and the nearest distance does not grow. */
    method Evict(result: NodeDistanceSet, ghost d0: real)
      requires result.Valid() && |result.items| >= 2 && result.nearest.value.dist <= d0
      modifies result
      ensures result.Valid() && |result.items| == old(|result.items|) - 1
      ensures forall e :: e in result.items ==> e in old(result.items)
      ensures result.nearest.Some? && result.nearest.value.dist <= d0
    {
      ghost var before := result.items;
      ghost var o := result.nearest.value;
      var r := result.PopFurthest();
      if o.node == r.value.node {
        DistinctMembers(before, o, r.value);
      }
      assert result.nearest.value in before;
    }

    /** The inner loop of `SearchLayer`: every level-`l` neighbour of `from` is considered in list order. */
    method Expand(q: Vector, l: nat, root: nat, ef: int, d0: real, furthestResult: Option<Entry>,
                  from: nat, visited: set<nat>, result: NodeDistanceSet, candidates: NodeDistanceSet)
      returns (visited': set<nat>)
      requires WellFormed(nodes) && Searching(q, l, root, ef, d0, visited, result, candidates)
      requires Reachable(nodes, l, root, from) && from < |nodes|
      modifies result, candidates
      ensures Searching(q, l, root, ef, d0, visited', result, candidates)
      ensures visited <= visited'
      ensures |candidates.items| - |visited'| <= old(|candidates.items|) - |visited|
    {
      var neighbors := GetNeighbors(nodes[from], l);
      assert neighbors == Adj(nodes, from, l);
      visited' := visited;
      var j := 0;
      while j < |neighbors|
        invariant Searching(q, l, root, ef, d0, visited', result, candidates)
        invariant visited <= visited'
        invariant |candidates.items| - |visited'| <= old(|candidates.items|) - |visited|
      {
        ghost var c0, v0 := |candidates.items|, visited';
        visited' := Consider(q, l, root, ef, d0, furthestResult, from, neighbors[j], visited', result, candidates);
        CardAdd(v0, neighbors[j]);
        j := j + 1;
      }
    }

    /**
     * `SearchLayer`: greedy best-first search of level `l` from `ep`,
     * keeping at most `ef` results (at least the one it starts from).
     */
    method SearchLayer(q: Vector, ep: Option<nat>, ef: int, l: nat) returns (result: NodeDistanceSet)
      requires WellFormed(nodes) && (ep.Some? ==> ep.value < |nodes|)
      ensures fresh(result) && result.Valid()
      ensures ep.None? ==> result.items == []
      ensures ep.Some? ==> 1 <= |result.items| <= Max1(ef)
      ensures ep.Some? ==> result.nearest.Some? && result.nearest.value.dist <= dist(q, nodes[ep.value].vector)
      ensures forall e :: e in result.items ==> ep.Some? && Found(nodes, q, l, ep.value, e, dist)
    {
      result := new NodeDistanceSet();
      if ep.None? {
        return;
      }
      var root := ep.value;
      var d0 := dist(q, nodes[root].vector);
      var e0 := Entry(root, d0);
      result.Add(e0);
      var visited: set<nat> := {root};
      var candidates := new NodeDistanceSet();
      candidates.Add(e0);
      assert Found(nodes, q, l, root, e0, dist) by {
        forall s: set<nat> | root in s && Closed(nodes, l, s) ensures root in s {
        }
      }
      assert AllFound(nodes, q, l, root, dist, visited, result.items);
      assert AllFound(nodes, q, l, root, dist, visited, candidates.items);
      while |candidates.items| > 0
        invariant fresh(result) && fresh(candidates)
        invariant Searching(q, l, root, ef, d0, visited, result, candidates)
        decreases |nodes| - |visited| + |candidates.items|
      {
        CardBelow(visited, |nodes|);
        ghost var before := candidates.items;
        var min := candidates.PopNearest();
        assert |candidates.items| == |before| - 1;
        AllFoundRemoved(nodes, q, l, root, dist, visited, before, min.value.node);
        var furthestResult := result.furthest;
        if furthestResult.Some? && min.value.dist > furthestResult.value.dist {
          break;
        }
        var from := min.value.node;
        assert Found(nodes, q, l, root, min.value, dist) by {
          assert min.value in before;
        }
        visited := Expand(q, l, root, ef, d0, furthestResult, from, visited, result, candidates);
      }
    }

    /**
     * `RefreshNeighborConnections(n, l, m)`: keeps the `m` former neighbours
     * of `n` closest to it, links every dropped one to the best retained
     * neighbour, and restores the back links of the retained ones.
     */
    method RefreshNeighborConnections(n: nat, l: nat, m: int)
      requires WellFormed(nodes) && n < |nodes| && l < |nodes[n].neighbors| && m >= 1
      modifies this
      ensures nodes == Refreshed(old(nodes), n, l, m, dist)
      ensures layers == old(layers) && entryPoint == old(entryPoint) && maxId == old(maxId)
    {
      var g0 := nodes;
      var list := GetNeighbors(g0[n], l);
      assert list == Adj(g0, n, l);
      assert AtLevel(g0, l, list) by { WellFormedAtLevel(g0, n, l); }
      var g1 := DropBackEdgesLoop(g0, l, n, list);
      assert g1 == Pruned(g0, n, l) && AtLevel(g1, l, list);
      var newNeighbors, dropped := ChooseNeighbors(g1, n, l, list, m, dist);
      assert newNeighbors == NewNeighbors(g0, n, l, m, dist);
      var g2 := RewireLoop(g1, l, n, m, newNeighbors, dropped, dist);
      assert g2 == Rewired(g0, n, l, m, dist);
      RefreshedLastStep(g0, n, l, m, dist, g2, newNeighbors);
      var g3 := SetAdj(g2, n, l, newNeighbors);
      nodes := AddBackEdgesLoop(g3, l, n, newNeighbors);
    }

    /**
     * `Add(vector)` with the level the source draws at random: the new node
     * is linked at each of its levels to the closest nodes found there,
     * crowded neighbours are refreshed, and the layers and the entry point
     * take the new node in.
     */
    method Add(vector: Vector, level: nat)
      requires Valid()
      modifies this
      ensures Valid()
      ensures |nodes| == |old(nodes)| + 1 && Levels(nodes) == Levels(old(nodes)) + [level]
      ensures nodes[|old(nodes)|].id == old(maxId) && nodes[|old(nodes)|].vector == vector
      ensures forall x :: 0 <= x < |old(nodes)| ==> nodes[x].id == old(nodes)[x].id && nodes[x].vector == old(nodes)[x].vector
      ensures layers == Layers(Levels(old(nodes)) + [level])
      ensures entryPoint == if level >= |old(layers)| then Some(|old(nodes)|) else old(entryPoint)
      ensures HasNeighbours(nodes[|old(nodes)|], -1, Min(|old(layers)| - 1, level), numNeighbors0, numNeighbors)
    {
      ghost var g0, layers0, ep0, maxId0 := nodes, layers, entryPoint, maxId;
      var n := Insert(vector, level);
      if level > |layers| - 1 {
        entryPoint := Some(n);
      }
      AddToLayers(n, level, Levels(g0));
      AddKeepsConsistent(g0, layers0, ep0, maxId0, NewNode(vector, level, maxId0), level, nodes, layers, entryPoint);
      AppendedShape(g0, NewNode(vector, level, maxId0), nodes);
    }

    /** The first part of `Add`: the new node `n` is appended and linked in, level by level from the top layer down. */
    method Insert(vector: Vector, level: nat) returns (n: nat)
      requires Valid()
      modifies this
      ensures n == |old(nodes)| && maxId == old(maxId) + 1
      ensures layers == old(layers) && entryPoint == old(entryPoint)
      ensures WellFormed(nodes) && Symmetric(nodes) && SameShape(nodes, old(nodes) + [NewNode(vector, level, old(maxId))])
      ensures HasNeighbours(nodes[n], -1, Min(|layers| - 1, level), numNeighbors0, numNeighbors)
    {
      var topLayer := |layers| - 1;
      n := |nodes|;
      var node := NewNode(vector, level, maxId);
      maxId := maxId + 1;
      AddNodeKeepsGraph(nodes, node);
      nodes := nodes + [node];
      assert topLayer >= 0 ==> entryPoint.Some? && entryPoint.value < n && topLayer < |nodes[entryPoint.value].neighbors|;
      var ep: Option<nat> := Descend(vector, n, level, topLayer, entryPoint);
      Connect(vector, n, level, topLayer, ep);
    }

    /** The second loop of `Add`: from level `min(topLayer, level)` down to 0, the new node `n` is linked in. */
    method Connect(vector: Vector, n: nat, level: nat, topLayer: int, ep: Option<nat>)
      requires WellFormed(nodes) && Symmetric(nodes) && |nodes| == n + 1 && |nodes[n].neighbors| == level + 1
      requires forall a: nat, k: nat :: n !in Adj(nodes, a, k)
      requires ep.Some? <==> topLayer >= 0
      requires ep.Some? ==>
        (ep.value < |nodes| && ep.value != n && (if topLayer < level then topLayer else level) < |nodes[ep.value].neighbors|)
      modifies this
      ensures WellFormed(nodes) && Symmetric(nodes) && SameShape(nodes, old(nodes))
      ensures layers == old(layers) && entryPoint == old(entryPoint) && maxId == old(maxId)
      ensures HasNeighbours(nodes[n], -1, Min(topLayer, level), numNeighbors0, numNeighbors)
    {
      var i := if topLayer < level then topLayer else level;
      var ep': Option<nat> := ep;
      while i >= 0 && ep'.Some?
        invariant i <= level && i <= topLayer
        invariant i >= -1 || i == Min(topLayer, level)
        invariant ep.Some? ==> ep'.Some?
        invariant layers == old(layers) && entryPoint == old(entryPoint) && maxId == old(maxId)
        invariant WellFormed(nodes) && Symmetric(nodes) && SameShape(nodes, old(nodes))
        invariant forall a: nat, k: nat :: k <= i ==> n !in Adj(nodes, a, k)
        invariant ep'.Some? ==> ep'.value < |nodes| && ep'.value != n && i < |nodes[ep'.value].neighbors|
        invariant HasNeighbours(nodes[n], i, Min(topLayer, level), numNeighbors0, numNeighbors)
      {
        ghost var g := nodes;
        ep' := ConnectAt(vector, n, i, ep'.value);
        HasNeighboursStep(g, nodes, n, i, Min(topLayer, level), numNeighbors0, numNeighbors);
        i := i - 1;
      }
    }

    /** One turn of the second loop of `Add`: search level `i`, link the selected neighbours, move the entry point. */
    method ConnectAt(vector: Vector, n: nat, i: nat, ep: nat) returns (ep': Option<nat>)
      requires WellFormed(nodes) && Symmetric(nodes) && n < |nodes| && i < |nodes[n].neighbors|
      requires forall a: nat :: n !in Adj(nodes, a, i)
      requires ep < |nodes| && ep != n && i < |nodes[ep].neighbors|
      modifies this
      ensures Cap(i) >= 1 ==> |Adj(nodes, n, i)| >= 1
      ensures WellFormed(nodes) && Symmetric(nodes) && SameShape(nodes, old(nodes))
      ensures forall a: nat, k: nat :: k != i ==> Adj(nodes, a, k) == Adj(old(nodes), a, k)
      ensures layers == old(layers) && entryPoint == old(entryPoint) && maxId == old(maxId)
      ensures ep'.Some? && ep'.value < |nodes| && ep'.value != n && i < |nodes[ep'.value].neighbors|
    {
      var numNeighbors := if i == 0 then numNeighbors0 else this.numNeighbors;
      var candidates := SearchLayer(vector, Some(ep), efConstruction, i);
      var neighbors := SelectNeighborsSimple(candidates.items, numNeighbors);
      forall e | e in candidates.items
        ensures e.node < |nodes| && e.node != n && i < |nodes[e.node].neighbors|
      {
        ReachableAvoids(nodes, i, ep, e.node, n);
      }
      var nearest: nat := candidates.nearest.value.node;
      assert candidates.nearest.value in candidates.items;
      ConnectLevel(n, i, neighbors, numNeighbors);
      ep' := Some(nearest);
    }

    /** The first loop of `Add`: the greedy descent from the top layer to level `level + 2`. */
    method Descend(vector: Vector, n: nat, level: nat, topLayer: int, ep: Option<nat>) returns (ep': Option<nat>)
      requires WellFormed(nodes) && n < |nodes| && forall a: nat, k: nat :: n !in Adj(nodes, a, k)
      requires ep.Some? <==> topLayer >= 0
      requires ep.Some? ==> ep.value < |nodes| && ep.value != n && topLayer < |nodes[ep.value].neighbors|
      ensures ep'.Some? <==> ep.Some?
      ensures ep'.Some? ==>
        (ep'.value < |nodes| && ep'.value != n && (if topLayer < level then topLayer else level) < |nodes[ep'.value].neighbors|)
    {
      ep' := ep;
      var i := topLayer;
      while i > level + 1
        invariant i <= topLayer && (ep'.Some? <==> ep.Some?)
        invariant ep'.Some? ==> ep'.value < |nodes| && ep'.value != n && i < |nodes[ep'.value].neighbors|
        invariant i >= level + 1 || i == topLayer
      {
        var nearest := SearchLayer(vector, ep', efConstruction, i);
        assert nearest.nearest.value in nearest.items;
        ReachableAvoids(nodes, i, ep'.value, nearest.nearest.value.node, n);
        ep' := Some(nearest.nearest.value.node);
        i := i - 1;
      }
    }

    /** The links of the new node `n` at level `i`, each followed by a refresh of a crowded neighbour. */
    method ConnectLevel(n: nat, i: nat, neighbors: seq<Entry>, m: int)
      requires WellFormed(nodes) && Symmetric(nodes) && n < |nodes| && i < |nodes[n].neighbors|
      requires forall e :: e in neighbors ==> e.node < |nodes| && e.node != n && i < |nodes[e.node].neighbors|
      requires |neighbors| > 0 ==> m >= 1
      modifies this
      ensures nodes == Linked(old(nodes), n, i, neighbors, m, dist)
      ensures layers == old(layers) && entryPoint == old(entryPoint) && maxId == old(maxId)
    {
      var j := 0;
      LinkedPrefix(nodes, n, i, neighbors, 0, m, dist);
      while j < |neighbors|
        invariant 0 <= j <= |neighbors|
        invariant nodes == Linked(old(nodes), n, i, neighbors[..j], m, dist)
        invariant layers == old(layers) && entryPoint == old(entryPoint) && maxId == old(maxId)
      {
        LinkedPrefix(old(nodes), n, i, neighbors, j + 1, m, dist);
        LinkNeighbor(n, i, neighbors[j].node, m);
        j := j + 1;
      }
      assert neighbors[..j] == neighbors;
    }

    /**
     * One turn of the loop over the selected neighbours: the new node and
     * `neighbor` list each other, and `neighbor` is refreshed when its
     * level-`i` list is longer than `m`.
     */
    method LinkNeighbor(n: nat, i: nat, neighbor: nat, m: int)
      requires WellFormed(nodes) && Symmetric(nodes) && n < |nodes| && i < |nodes[n].neighbors|
      requires neighbor < |nodes| && neighbor != n && i < |nodes[neighbor].neighbors| && m >= 1
      modifies this
      ensures nodes == LinkStep(old(nodes), n, i, neighbor, m, dist)
      ensures layers == old(layers) && entryPoint == old(entryPoint) && maxId == old(maxId)
    {
      LinkKeeps(nodes, i, neighbor, n);
      nodes := Append(Append(nodes, neighbor, i, n), n, i, neighbor);
      RefreshIfOver(neighbor, i, m, old(nodes));
    }

    /** `neighbor` is refreshed when its level-`i` list is longer than `m`. */
    method RefreshIfOver(neighbor: nat, i: nat, m: int, ghost g0: seq<Node>)
      requires WellFormed(nodes) && Symmetric(nodes) && neighbor < |nodes| && i < |nodes[neighbor].neighbors| && m >= 1
      requires SameShape(nodes, g0) && forall a: nat, k: nat :: k != i ==> Adj(nodes, a, k) == Adj(g0, a, k)
      modifies this
      ensures nodes == if |Adj(old(nodes), neighbor, i)| > m then Refreshed(old(nodes), neighbor, i, m, dist) else old(nodes)
      ensures WellFormed(nodes) && Symmetric(nodes) && SameShape(nodes, g0)
      ensures forall a: nat, k: nat :: k != i ==> Adj(nodes, a, k) == Adj(g0, a, k)
      ensures layers == old(layers) && entryPoint == old(entryPoint) && maxId == old(maxId)
    {
      if |GetNeighbors(nodes[neighbor], i)| > m {
        RefreshKeeps(nodes, neighbor, i, m, dist, g0);
        RefreshNeighborConnections(neighbor, i, m);
      }
    }

    /** The last loop of `Add`: the new node `n` joins layers 0 to `level`, new layers opening as needed. */
    method AddToLayers(n: nat, level: nat, ghost lv: seq<int>)
      requires layers == Layers(lv) && n == |lv|
      modifies this
      ensures layers == Layers(lv + [level])
      ensures nodes == old(nodes) && entryPoint == old(entryPoint) && maxId == old(maxId)
    {
      layers := JoinLayers(layers, n, level, lv);
    }

    /**
     * `SearchExact(q, k)`: the `k` nearest nodes by a scan of level 0,
     * nearest first. `Nodes[0]` on an empty collection, and a list of
     * negative capacity, are out-of-range errors; `Peek` on the empty queue
     * when `k == 0` is an invalid operation.
     */
    method SearchExact(q: Vector, k: int) returns (r: Result<seq<Vector>>, ghost chosen: seq<nat>)
      requires Valid()
      ensures |layers| == 0 ==> r == Err(ArgumentOutOfRange)
      ensures |layers| > 0 && k == 0 ==> r == Err(InvalidOperation)
      ensures |layers| > 0 && k < 0 ==> r == Err(ArgumentOutOfRange)
      ensures |layers| > 0 && k > 0 ==> r.Ok?
      ensures r.Ok? ==> NearestK(nodes, q, k, chosen, dist) && r.value == VectorsOf(nodes, chosen)
    {
      chosen := [];
      if |layers| == 0 {
        return Err(ArgumentOutOfRange), chosen;
      }
      var lv := Levels(nodes);
      var layer := layers[0];
      assert nodes != [] by {
        assert layers == Layers(lv) && lv == [] ==> layers == [];
      }
      assert forall x :: x in layer <==> 0 <= x < |nodes|;
      LayerZero(lv);
      var scan := ExactScan(nodes, layer, q, k, dist);
      if scan.Err? {
        return Err(InvalidOperation), chosen;
      }
      if k < 0 {
        return Err(ArgumentOutOfRange), chosen;
      }
      var pq := scan.value;
      ScannedNearestK(nodes, q, k, layer, pq, dist);
      var result := Drain(nodes, pq, k);
      chosen := NodesOf(pq);
      return Ok(result), chosen;
    }

    /**
     * `Search(q, k, ef)`: greedy descent with one candidate per level from
     * the top to level 1, a search of level 0 keeping `ef`, and the `k`
     * nearest of what it found, nearest first.
     */
    method Search(q: Vector, k: int, ef: int) returns (r: seq<Vector>, ghost chosen: seq<nat>)
      requires Valid()
      ensures (forall i :: 0 <= i < |chosen| ==> chosen[i] < |nodes|) && NoDuplicates(chosen)
      ensures r == VectorsOf(nodes, chosen)
      ensures entryPoint.None? ==> r == []
      ensures |r| <= (if k > 0 then k else 0) && |r| <= Max1(ef)
      ensures entryPoint.Some? && k > 0 ==> |r| >= 1
      ensures forall i, j :: 0 <= i < j < |r| ==> dist(q, r[i]) <= dist(q, r[j])
    {
      chosen := [];
      if entryPoint.None? {
        return [], chosen;
      }
      var ep: nat := entryPoint.value;
      var l := |layers| - 1;
      while l > 0
        invariant ep < |nodes|
      {
        var result := SearchLayer(q, Some(ep), 1, l);
        assert result.nearest.value in result.items;
        ep := result.nearest.value.node;
        l := l - 1;
      }
      var result := SearchLayer(q, Some(ep), ef, 0);
      var selected := SelectNeighborsSimple(result.items, k);
      SelectedNearest(nodes, q, result.items, k, ef, selected, dist);
      chosen := NodesOf(selected);
      r := VectorsOf(nodes, NodesOf(selected));
    }

    /** A level list is the arena's nodes of that level, in order, once each. */
    lemma LayerIsLayer(l: nat)
      requires Valid() && l < |layers|
      ensures IsLayer(nodes, l, layers[l]) && layers[l] != []
      ensures forall a, b :: a in layers[l] && b in Adj(nodes, a, l) ==> b in layers[l]
    {
      var lv := Levels(nodes);
      LayersNested(lv, l);
      forall a, b | a in layers[l] && b in Adj(nodes, a, l) ensures b in layers[l] {
        WellFormedMember(nodes, a, l, b);
      }
    }

    /**
     * `ToDot(level)`: the edges of one level the DOT text draws, each
     * undirected edge once; a level outside the existing ones is an
     * out-of-range error.
     */
    method ToDot(level: int) returns (r: Result<seq<(nat, nat)>>)
      requires Valid()
      ensures r.Err? <==> level < 0 || level >= |layers|
      ensures r.Err? ==> r.error == ArgumentOutOfRange
      ensures r.Ok? ==> 0 <= level < |layers| && DotEdges(nodes, level, layers[level], r.value)
    {
      if level < 0 || level >= |layers| {
        return Err(ArgumentOutOfRange);
      }
      LayerIsLayer(level);
      var edges := LevelEdges(nodes, level, layers[level]);
      return Ok(edges);
    }

    /** The neighbour cap `Verify` applies at level `l`. */
    function Cap(l: nat): int
      reads this
    {
      if l == 0 then numNeighbors0 else numNeighbors
    }

    /**
     * `Verify()`: true iff at every level all nodes are reachable from the
     * first node of the level and none lists more neighbours than the cap
     * of that level.
     */
    method Verify() returns (ok: bool)
      requires Valid()
      ensures ok <==> forall l: nat :: l < |layers| ==>
        LayerConnected(nodes, l, layers[l]) && DegreesWithin(nodes, l, layers[l], Cap(l))
    {
      forall l | 0 <= l < |layers| ensures IsLayer(nodes, l, layers[l]) && layers[l] != [] {
        LayerIsLayer(l);
      }
      var errors := CheckLevels(nodes, layers, numNeighbors0, numNeighbors);
      ok := errors == 0;
    }
  }

  function Min(a: int, b: int): int {
    if a < b then a else b
  }

  /**
   * `node` has a neighbour at every level `k`, `lo < k <= hi`, whose cap
   * (`m0` at level 0, `m` above) is at least one; written level by level
   * from the top down, as the second loop of `Add` establishes it.
   */
  ghost predicate HasNeighbours(node: Node, lo: int, hi: int, m0: int, m: int)
    decreases hi - lo
  {
    hi <= lo || hi < 0 ||
    (((if hi == 0 then m0 else m) >= 1 ==> |GetNeighbors(node, hi)| >= 1) && HasNeighbours(node, lo, hi - 1, m0, m))
  }

  /** `HasNeighbours` means what it says, level by level. */
  lemma {:induction false} HasNeighboursMeans(node: Node, lo: int, hi: int, m0: int, m: int)
    ensures HasNeighbours(node, lo, hi, m0, m) <==>
      forall k: nat :: lo < k <= hi && (if k == 0 then m0 else m) >= 1 ==> |GetNeighbors(node, k)| >= 1
    decreases hi - lo
  {
    if hi > lo && hi >= 0 {
      HasNeighboursMeans(node, lo, hi - 1, m0, m);
    }
  }

  /** Linking node `n` of `g` at level `i` (giving `h`) extends `HasNeighbours` one level down. */
  lemma {:induction false} HasNeighboursStep(g: seq<Node>, h: seq<Node>, n: nat, i: nat, hi: int, m0: int, m: int)
    requires n < |g| && n < |h| && HasNeighbours(g[n], i, hi, m0, m)
    requires forall k: nat :: k != i ==> Adj(h, n, k) == Adj(g, n, k)
    requires (if i == 0 then m0 else m) >= 1 ==> |Adj(h, n, i)| >= 1
    ensures HasNeighbours(h[n], i - 1, hi, m0, m)
    decreases hi - i
  {
    if hi > i {
      HasNeighboursStep(g, h, n, i, hi - 1, m0, m);
      assert Adj(h, n, hi) == Adj(g, n, hi);
    } else if hi == i {
      assert Adj(h, n, i) == GetNeighbors(h[n], i);
    }
  }

  /** Linking `a` and `b` at level `l` keeps the graph well formed and symmetric, and changes no other level. */
  lemma LinkKeeps(g: seq<Node>, l: nat, a: nat, b: nat)
    requires WellFormed(g) && Symmetric(g)
    requires a < |g| && b < |g| && a != b && l < |g[a].neighbors| && l < |g[b].neighbors|
    ensures var r := Append(Append(g, a, l, b), b, l, a);
      WellFormed(r) && Symmetric(r) && SameShape(r, g) &&
      forall x: nat, k: nat :: k != l ==> Adj(r, x, k) == Adj(g, x, k)
  {
    LinkKeepsWellFormed(g, l, a, b);
    LinkKeepsSymmetric(g, l, a, b);
    var g1 := Append(g, a, l, b);
    SameShapeTrans(Append(g1, b, l, a), g1, g);
  }

  /** Refreshing `n` at level `l` keeps the graph well formed and symmetric, its shape, and the other levels. */
  lemma RefreshKeeps(g: seq<Node>, n: nat, l: nat, m: int, dist: (Vector, Vector) -> real, g0: seq<Node>)
    requires WellFormed(g) && Symmetric(g) && n < |g| && l < |g[n].neighbors| && m >= 1
    requires SameShape(g, g0) && forall x: nat, k: nat :: k != l ==> Adj(g, x, k) == Adj(g0, x, k)
    ensures var r := Refreshed(g, n, l, m, dist);
      WellFormed(r) && Symmetric(r) && SameShape(r, g0) &&
      forall x: nat, k: nat :: k != l ==> Adj(r, x, k) == Adj(g0, x, k)
  {
    RefreshedKeepsGraph(g, n, l, m, dist);
    SameShapeTrans(Refreshed(g, n, l, m, dist), g, g0);
  }

  /**
   * One turn of the loop over the selected neighbours in `Add`, on the arena:
   * `y` and the new node `n` list each other at level `i`, and `y` is
   * refreshed when its level-`i` list grew longer than `m`.
   */
  function LinkStep(g: seq<Node>, n: nat, i: nat, y: nat, m: int, dist: (Vector, Vector) -> real): (r: seq<Node>)
    requires WellFormed(g) && Symmetric(g) && n < |g| && i < |g[n].neighbors|
    requires y < |g| && y != n && i < |g[y].neighbors| && m >= 1
    ensures WellFormed(r) && Symmetric(r) && SameShape(r, g)
    ensures forall a: nat, k: nat :: k != i ==> Adj(r, a, k) == Adj(g, a, k)
  {
    LinkKeeps(g, i, y, n);
    var g1 := Append(Append(g, y, i, n), n, i, y);
    if |Adj(g1, y, i)| > m then
      RefreshKeeps(g1, y, i, m, dist, g);
      Refreshed(g1, y, i, m, dist)
    else
      g1
  }

  /**
   * After a link step `n` lists `y`, or, when the refresh of `y` dropped
   * `n`, a node that `y` kept and that lists `n` back.
   */
  lemma LinkStepLinks(g: seq<Node>, n: nat, i: nat, y: nat, m: int, dist: (Vector, Vector) -> real)
    requires WellFormed(g) && Symmetric(g) && n < |g| && i < |g[n].neighbors|
    requires y < |g| && y != n && i < |g[y].neighbors| && m >= 1
    ensures var r := LinkStep(g, n, i, y, m, dist);
      y in Adj(r, n, i) || exists t :: t in Adj(r, y, i) && t in Adj(r, n, i) && n in Adj(r, t, i)
    ensures |Adj(LinkStep(g, n, i, y, m, dist), n, i)| >= 1
  {
    LinkKeeps(g, i, y, n);
    var g1 := Append(Append(g, y, i, n), n, i, y);
    var r := LinkStep(g, n, i, y, m, dist);
    if |Adj(g1, y, i)| > m {
      assert Adj(g1, y, i) == Adj(g, y, i) + [n];
      assert n in Adj(g1, y, i);
      if n in Adj(r, y, i) {
        RefreshedBackEdge(g1, y, i, m, dist, n);
        assert multiset(Adj(r, n, i))[y] == 1;
      } else {
        RefreshedRelinks(g1, y, i, m, dist, n);
      }
    } else {
      assert Adj(r, n, i) == Adj(g, n, i) + [y];
      assert Adj(r, n, i)[|Adj(r, n, i)| - 1] == y;
    }
  }

  /** Linking a prefix of `es` one more step links the next longer prefix. */
  lemma LinkedPrefix(g: seq<Node>, n: nat, i: nat, es: seq<Entry>, j: nat, m: int, dist: (Vector, Vector) -> real)
    requires WellFormed(g) && Symmetric(g) && n < |g| && i < |g[n].neighbors| && (es != [] ==> m >= 1)
    requires forall e :: e in es ==> e.node < |g| && e.node != n && i < |g[e.node].neighbors|
    requires j <= |es|
    ensures forall e :: e in es[..j] ==> e.node < |g| && e.node != n && i < |g[e.node].neighbors|
    ensures j > 0 ==> es[j - 1].node < |g| && es[j - 1].node != n && i < |g[es[j - 1].node].neighbors|
    ensures j > 0 ==> Linked(g, n, i, es[..j], m, dist) == LinkStep(Linked(g, n, i, es[..j - 1], m, dist), n, i, es[j - 1].node, m, dist)
  {
    assert forall e :: e in es[..j] ==> e in es;
    if j > 0 {
      assert es[j - 1] in es;
      assert es[..j][..j - 1] == es[..j - 1];
    }
  }

  /** Two graph changes that each keep the shape and every level but `i` compose to one that does too. */
  lemma ElsewhereChain(g: seq<Node>, h: seq<Node>, r: seq<Node>, i: nat)
    requires SameShape(h, g) && SameShape(r, h)
    requires forall a: nat, k: nat :: k != i ==> Adj(h, a, k) == Adj(g, a, k)
    requires forall a: nat, k: nat :: k != i ==> Adj(r, a, k) == Adj(h, a, k)
    ensures SameShape(r, g)
    ensures forall a: nat, k: nat :: k != i ==> Adj(r, a, k) == Adj(g, a, k)
  {
  }

  /** The nodes `es` linked to `n` at level `i` in order, each by a link step. */
  function Linked(g: seq<Node>, n: nat, i: nat, es: seq<Entry>, m: int, dist: (Vector, Vector) -> real): (r: seq<Node>)
    requires WellFormed(g) && Symmetric(g) && n < |g| && i < |g[n].neighbors| && (es != [] ==> m >= 1)
    requires forall e :: e in es ==> e.node < |g| && e.node != n && i < |g[e.node].neighbors|
    ensures WellFormed(r) && Symmetric(r) && SameShape(r, g)
    ensures forall a: nat, k: nat :: k != i ==> Adj(r, a, k) == Adj(g, a, k)
    ensures es != [] ==> |Adj(r, n, i)| >= 1
    decreases |es|
  {
    if es == [] then g
    else
      var last := es[|es| - 1];
      assert last in es;
      assert forall e :: e in es[..|es| - 1] ==> e in es;
      var prev := Linked(g, n, i, es[..|es| - 1], m, dist);
      LinkStepLinks(prev, n, i, last.node, m, dist);
      var r := LinkStep(prev, n, i, last.node, m, dist);
      ElsewhereChain(g, prev, r, i);
      r
  }

  /**
   * The loop of `Verify` over the levels, `cap0` the cap of level 0 and
   * `cap` that of the others: the errors of the levels added up.
   */
  method CheckLevels(g: seq<Node>, layers: seq<seq<nat>>, cap0: int, cap: int) returns (errors: int)
    requires WellFormed(g) && Symmetric(g)
    requires forall l :: 0 <= l < |layers| ==> IsLayer(g, l, layers[l]) && layers[l] != []
    ensures errors >= 0
    ensures errors == 0 <==> forall l: nat :: l < |layers| ==>
      LayerConnected(g, l, layers[l]) && DegreesWithin(g, l, layers[l], if l == 0 then cap0 else cap)
  {
    errors := 0;
    var level := 0;
    while level < |layers|
      invariant 0 <= level <= |layers| && errors >= 0
      invariant errors == 0 <==> forall l: nat :: l < level ==> LevelSound(g, l, layers[l], if l == 0 then cap0 else cap)
    {
      var maxNeighbors := if level == 0 then cap0 else cap;
      var e := CheckLevel(g, level, layers[level], maxNeighbors);
      assert e == 0 <==> LevelSound(g, level, layers[level], maxNeighbors);
      assert (forall l: nat :: l < level + 1 ==> LevelSound(g, l, layers[l], if l == 0 then cap0 else cap)) <==>
        (forall l: nat :: l < level ==> LevelSound(g, l, layers[l], if l == 0 then cap0 else cap)) && e == 0;
      errors := errors + e;
      level := level + 1;
    }
  }

  /** Level `l` is connected and within its cap. */
  ghost predicate LevelSound(g: seq<Node>, l: nat, layer: seq<nat>, cap: int) {
    LayerConnected(g, l, layer) && DegreesWithin(g, l, layer, cap)
  }

  /** Steps 2 to 4: the retained former neighbours, and the dropped ones left in the set. */
  method ChooseNeighbors(g: seq<Node>, n: nat, l: nat, list: seq<nat>, m: int, dist: (Vector, Vector) -> real)
    returns (newNeighbors: seq<nat>, dropped: seq<nat>)
    requires n < |g| && AtLevel(g, l, list) && m >= 1
    ensures newNeighbors == Kept(g, n, l, list, m, dist) && dropped == Dropped(g, n, l, list, m, dist)
    ensures AtLevel(g, l, newNeighbors) && AtLevel(g, l, dropped)
    ensures |dropped| > 0 ==> |newNeighbors| >= 1
  {
    var neighborSet := FormerNeighborsLoop(g, n, list, dist);
    newNeighbors := NodesOf(SelectNeighborsSimple(neighborSet.items, m));
    KeptInList(g, n, l, list, m, dist);
    RemoveAllLoop(neighborSet, newNeighbors);
    dropped := NodesOf(neighborSet.items);
    DroppedInList(g, n, l, list, m, dist);
    if |dropped| > 0 {
      assert dropped[0] in dropped;
    }
  }

  /** Step 1 of `RefreshNeighborConnections`: each former neighbour removes `n` from its level-`l` list. */
  method DropBackEdgesLoop(g: seq<Node>, l: nat, n: nat, list: seq<nat>) returns (r: seq<Node>)
    requires AtLevel(g, l, list)
    ensures r == DropBackEdges(g, l, n, list)
  {
    r := g;
    var k := 0;
    assert list[..0] == [];
    while k < |list|
      invariant 0 <= k <= |list| && AtLevel(g, l, list[..k])
      invariant r == DropBackEdges(g, l, n, list[..k])
    {
      DropBackEdgesStep(g, l, n, list, k);
      r := Unlink(r, list[k], l, n);
      k := k + 1;
    }
    assert list[..k] == list;
  }

  /** One turn of `DropBackEdgesLoop`: the fold over one more element unlinks that element last. */
  lemma DropBackEdgesStep(g: seq<Node>, l: nat, n: nat, list: seq<nat>, k: nat)
    requires AtLevel(g, l, list) && k < |list|
    ensures AtLevel(g, l, list[..k]) && AtLevel(g, l, list[..k + 1])
    ensures list[k] < |DropBackEdges(g, l, n, list[..k])| && l < |DropBackEdges(g, l, n, list[..k])[list[k]].neighbors|
    ensures DropBackEdges(g, l, n, list[..k + 1]) == Unlink(DropBackEdges(g, l, n, list[..k]), list[k], l, n)
  {
    assert list[..k + 1][..k] == list[..k];
    assert list[..k + 1][k] == list[k];
  }

  /** Step 2: `new NodeDistanceSet(n.Vector, n.Neighbors[l])`. */
  method FormerNeighborsLoop(g: seq<Node>, n: nat, list: seq<nat>, dist: (Vector, Vector) -> real)
    returns (s: NodeDistanceSet)
    requires n < |g| && forall i :: 0 <= i < |list| ==> list[i] < |g|
    ensures fresh(s) && s.Valid() && s.items == FormerNeighbors(g, n, list, dist)
  {
    s := new NodeDistanceSet();
    var k := 0;
    while k < |list|
      invariant 0 <= k <= |list| && s.Valid()
      invariant s.items == FormerNeighbors(g, n, list[..k], dist)
    {
      assert list[..k + 1][..k] == list[..k];
      s.Add(Entry(list[k], dist(g[n].vector, g[list[k]].vector)));
      k := k + 1;
    }
    assert list[..k] == list;
  }

  /** Step 4: `set.Remove` of each retained neighbour. */
  method RemoveAllLoop(s: NodeDistanceSet, keep: seq<nat>)
    requires s.Valid()
    modifies s
    ensures s.Valid() && s.items == RemoveAll(old(s.items), keep)
  {
    var k := 0;
    while k < |keep|
      invariant 0 <= k <= |keep| && s.Valid()
      invariant s.items == RemoveAll(old(s.items), keep[..k])
    {
      assert keep[..k + 1][..k] == keep[..k];
      var _ := s.Remove(keep[k]);
      k := k + 1;
    }
    assert keep[..k] == keep;
  }

  /** Step 5, the inner scan: the first retained neighbour, replaced by each next one it IsFarther than. */
  method TargetLoop(g: seq<Node>, l: nat, m: int, keep: seq<nat>, d: nat, dist: (Vector, Vector) -> real)
    returns (nearest: Option<Entry>)
    requires d < |g| && forall i :: 0 <= i < |keep| ==> keep[i] < |g|
    ensures nearest.None? <==> keep == []
    ensures nearest.Some? ==> nearest.value.node == Target(g, l, m, keep, d, dist)
    ensures nearest.Some? ==> nearest.value.dist == dist(g[nearest.value.node].vector, g[d].vector)
  {
    nearest := None;
    var j := 0;
    while j < |keep|
      invariant 0 <= j <= |keep|
      invariant j == 0 <==> nearest.None?
      invariant j > 0 ==> nearest.value.node == Target(g, l, m, keep[..j], d, dist)
      invariant j > 0 ==> nearest.value.dist == dist(g[nearest.value.node].vector, g[d].vector)
    {
      assert keep[..j + 1][..j] == keep[..j];
      var neighbor := keep[j];
      var distance := dist(g[neighbor].vector, g[d].vector);
      if nearest.None? {
        nearest := Some(Entry(neighbor, distance));
      } else if IsFarther(|GetNeighbors(g[nearest.value.node], l)|, nearest.value.dist,
                          |GetNeighbors(g[neighbor], l)|, distance, m) {
        nearest := Some(Entry(neighbor, distance));
      }
      j := j + 1;
    }
    assert keep[..j] == keep;
  }

  /** Step 5: each dropped neighbour forgets `n` and is linked both ways with its target. */
  method RewireLoop(g: seq<Node>, l: nat, n: nat, m: int, keep: seq<nat>, ds: seq<nat>, dist: (Vector, Vector) -> real)
    returns (r: seq<Node>)
    requires |ds| > 0 ==> |keep| >= 1
    requires AtLevel(g, l, keep) && AtLevel(g, l, ds)
    ensures r == Rewire(g, l, n, m, keep, ds, dist)
  {
    r := g;
    var k := 0;
    while k < |ds|
      invariant 0 <= k <= |ds|
      invariant r == Rewire(g, l, n, m, keep, ds[..k], dist)
    {
      assert ds[..k + 1][..k] == ds[..k];
      AtLevelShape(g, r, l, keep);
      AtLevelShape(g, r, l, ds);
      r := RewireStep(r, l, n, m, keep, ds[k], dist);
      k := k + 1;
    }
    assert ds[..k] == ds;
  }

  /** One turn of step 5: `removed` forgets `n` and is linked both ways with its target. */
  method RewireStep(g: seq<Node>, l: nat, n: nat, m: int, keep: seq<nat>, removed: nat, dist: (Vector, Vector) -> real)
    returns (r: seq<Node>)
    requires |keep| >= 1 && AtLevel(g, l, keep) && removed < |g| && l < |g[removed].neighbors|
    ensures r == RewireOne(g, l, n, m, keep, removed, dist)
  {
    r := Unlink(g, removed, l, n);
    AtLevelShape(g, r, l, keep);
    var nearest := TargetLoop(r, l, m, keep, removed, dist);
    var t := nearest.value.node;
    r := Append(r, t, l, removed);
    r := Append(r, removed, l, t);
  }

  /** Step 6: each retained neighbour lists `n` again. */
  method AddBackEdgesLoop(g: seq<Node>, l: nat, n: nat, keep: seq<nat>) returns (r: seq<Node>)
    requires AtLevel(g, l, keep)
    ensures r == AddBackEdges(g, l, n, keep)
  {
    r := g;
    var k := 0;
    while k < |keep|
      invariant 0 <= k <= |keep|
      invariant r == AddBackEdges(g, l, n, keep[..k])
    {
      assert keep[..k + 1][..k] == keep[..k];
      r := Append(r, keep[k], l, n);
      k := k + 1;
    }
    assert keep[..k] == keep;
  }
}
