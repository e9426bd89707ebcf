/**
 * Walks over one level of the graph (Experiments/HNSW/HNSW.cs): the edge
 * list `ToDot` prints, and the breadth-first check `Verify` makes of each
 * level. Both work on the arena `g` and a level list `layer`.
 */
module HnswLevels {
  import opened Wrappers
  import opened HnswGraph

  /**
   * `edges` lists each undirected level-`l` edge between nodes of `layer`
   * exactly once, in one of its two directions.
   */
  predicate DotEdges(g: seq<Node>, l: nat, layer: seq<nat>, edges: seq<(nat, nat)>) {
    (forall p :: p in edges ==> p.0 in layer && p.1 in layer && p.1 in Adj(g, p.0, l)) &&
    (forall a, i :: a in layer && 0 <= i < |Adj(g, a, l)| ==>
       (a, Adj(g, a, l)[i]) in edges || (Adj(g, a, l)[i], a) in edges) &&
    (forall i, j :: 0 <= i < j < |edges| ==> edges[i] != edges[j] && edges[i] != (edges[j].1, edges[j].0))
  }

  /** What the loops of `ToDot` keep: sound and without repeats, complete for the first `i` nodes and `j` neighbours of the next. */
  predicate DotSoFar(g: seq<Node>, l: nat, layer: seq<nat>, edges: seq<(nat, nat)>, i: nat, j: nat) {
    EdgesSound(g, l, layer, edges) && RowsCovered(g, l, layer, edges, i) &&
    RowCovered(g, l, layer, edges, i, j) && EdgesSimple(edges)
  }

  /** Every edge joins two nodes of the level, the second a neighbour of the first. */
  predicate EdgesSound(g: seq<Node>, l: nat, layer: seq<nat>, edges: seq<(nat, nat)>) {
    forall p :: p in edges ==> p.0 in layer && p.1 in layer && p.1 in Adj(g, p.0, l)
  }

  /** The neighbours of the first `i` nodes are listed, in one direction or the other. */
  predicate RowsCovered(g: seq<Node>, l: nat, layer: seq<nat>, edges: seq<(nat, nat)>, i: nat) {
    forall t, k :: 0 <= t < i && t < |layer| && 0 <= k < |Adj(g, layer[t], l)| ==>
      (layer[t], Adj(g, layer[t], l)[k]) in edges || (Adj(g, layer[t], l)[k], layer[t]) in edges
  }

  /** The first `j` neighbours of node `layer[i]` are listed. */
  predicate RowCovered(g: seq<Node>, l: nat, layer: seq<nat>, edges: seq<(nat, nat)>, i: nat, j: nat) {
    i < |layer| ==> forall k :: 0 <= k < j && k < |Adj(g, layer[i], l)| ==>
      (layer[i], Adj(g, layer[i], l)[k]) in edges || (Adj(g, layer[i], l)[k], layer[i]) in edges
  }

  /** No edge is listed twice, in either direction. */
  predicate EdgesSimple(edges: seq<(nat, nat)>) {
    forall a, b :: 0 <= a < b < |edges| ==> edges[a] != edges[b] && edges[a] != (edges[b].1, edges[b].0)
  }

  /**
   * The loops of `ToDot(level)`: each node of the level, each of its
   * neighbours, an edge unless it was listed already in either direction.
   * A neighbour outside the level's list would be a missing key in the
   * source's id dictionary; `layer` is closed under level-`l` lists.
   */
  method LevelEdges(g: seq<Node>, l: nat, layer: seq<nat>) returns (edges: seq<(nat, nat)>)
    requires forall a, b :: a in layer && b in Adj(g, a, l) ==> b in layer
    ensures DotEdges(g, l, layer, edges)
  {
    edges := [];
    var i := 0;
    while i < |layer|
      invariant 0 <= i <= |layer|
      invariant DotSoFar(g, l, layer, edges, i, 0)
    {
      edges := NodeEdges(g, l, layer, edges, i);
      i := i + 1;
    }
    forall a, k | a in layer && 0 <= k < |Adj(g, a, l)|
      ensures (a, Adj(g, a, l)[k]) in edges || (Adj(g, a, l)[k], a) in edges
    {
      var t :| 0 <= t < |layer| && layer[t] == a;
    }
  }

  /** The inner loop of `ToDot`: the edges to the neighbours of `layer[i]`. */
  method NodeEdges(g: seq<Node>, l: nat, layer: seq<nat>, edges: seq<(nat, nat)>, i: nat)
    returns (edges': seq<(nat, nat)>)
    requires forall a, b :: a in layer && b in Adj(g, a, l) ==> b in layer
    requires i < |layer| && DotSoFar(g, l, layer, edges, i, 0)
    ensures DotSoFar(g, l, layer, edges', i + 1, 0)
  {
    edges' := edges;
    var node := layer[i];
    var neighbors := Adj(g, node, l);
    var j := 0;
    while j < |neighbors|
      invariant 0 <= j <= |neighbors|
      invariant DotSoFar(g, l, layer, edges', i, j)
    {
      var neighbor := neighbors[j];
      if !((neighbor, node) in edges' || (node, neighbor) in edges') {
        edges' := AddEdge(g, l, layer, edges', i, j);
      } else {
        SkipEdge(g, l, layer, edges', i, j);
      }
      j := j + 1;
    }
    NextNode(g, l, layer, edges', i);
  }

  /** A neighbour already listed in either direction adds nothing. */
  lemma SkipEdge(g: seq<Node>, l: nat, layer: seq<nat>, edges: seq<(nat, nat)>, i: nat, j: nat)
    requires i < |layer| && j < |Adj(g, layer[i], l)| && DotSoFar(g, l, layer, edges, i, j)
    requires var p := (layer[i], Adj(g, layer[i], l)[j]); p in edges || (p.1, p.0) in edges
    ensures DotSoFar(g, l, layer, edges, i, j + 1)
  {
    var a := layer[i];
    var adj := Adj(g, a, l);
    forall k | 0 <= k < j + 1 && k < |adj| ensures (a, adj[k]) in edges || (adj[k], a) in edges {
      if k < j {
        assert 0 <= k < j && k < |Adj(g, layer[i], l)|;
      }
    }
  }

  /** Once all neighbours of `layer[i]` are covered, the next node starts. */
  lemma NextNode(g: seq<Node>, l: nat, layer: seq<nat>, edges: seq<(nat, nat)>, i: nat)
    requires i < |layer| && DotSoFar(g, l, layer, edges, i, |Adj(g, layer[i], l)|)
    ensures DotSoFar(g, l, layer, edges, i + 1, 0)
  {
    forall t, k | 0 <= t < i + 1 && t < |layer| && 0 <= k < |Adj(g, layer[t], l)|
      ensures (layer[t], Adj(g, layer[t], l)[k]) in edges || (Adj(g, layer[t], l)[k], layer[t]) in edges
    {
    }
  }

  /** The next pair, `(layer[i], j-th neighbour)`, listed in neither direction, is appended. */
  method AddEdge(g: seq<Node>, l: nat, layer: seq<nat>, edges: seq<(nat, nat)>, i: nat, j: nat)
    returns (edges': seq<(nat, nat)>)
    requires forall a, b :: a in layer && b in Adj(g, a, l) ==> b in layer
    requires i < |layer| && j < |Adj(g, layer[i], l)| && DotSoFar(g, l, layer, edges, i, j)
    requires var p := (layer[i], Adj(g, layer[i], l)[j]); p !in edges && (p.1, p.0) !in edges
    ensures edges' == edges + [(layer[i], Adj(g, layer[i], l)[j])]
    ensures DotSoFar(g, l, layer, edges', i, j + 1)
  {
    var p := (layer[i], Adj(g, layer[i], l)[j]);
    assert layer[i] in layer && p.1 in Adj(g, layer[i], l);
    edges' := edges + [p];
    assert forall x :: x in edges' <==> x in edges || x == p;
    forall a, b | 0 <= a < b < |edges'| ensures edges'[a] != edges'[b] && edges'[a] != (edges'[b].1, edges'[b].0) {
      if b == |edges| {
        assert edges[a] in edges;
      }
    }
  }

  /** Every node of `layer` is reachable at level `l` from the first. */
  ghost predicate LayerConnected(g: seq<Node>, l: nat, layer: seq<nat>) {
    layer != [] ==> forall x :: x in layer ==> Reachable(g, l, layer[0], x)
  }

  /** No node of `layer` lists more than `cap` neighbours at level `l`. */
  predicate DegreesWithin(g: seq<Node>, l: nat, layer: seq<nat>, cap: int) {
    forall x :: x in layer ==> |Adj(g, x, l)| <= cap
  }

  /** The nodes a queue of `(node, origin)` pairs will visit. */
  function Targets(queue: seq<(nat, Option<nat>)>): (r: seq<nat>)
    ensures |r| == |queue| && forall i :: 0 <= i < |queue| ==> r[i] == queue[i].0
  {
    seq(|queue|, i requires 0 <= i < |queue| => queue[i].0)
  }

  /** A queued pair: its node is in the level and reachable from `root`, and its origin lists it. */
  ghost predicate Queued(g: seq<Node>, l: nat, root: nat, layer: seq<nat>, p: (nat, Option<nat>)) {
    p.0 in layer && Reachable(g, l, root, p.0) && (p.1.Some? ==> p.1.value < |g| && p.0 in Adj(g, p.1.value, l))
  }

  /**
   * What the breadth-first walk of `Verify` keeps: every node visited or
   * queued is in the level and reachable from `root`; each queued origin
   * lists its node; the neighbours of a visited node are visited or queued;
   * the root is visited or is the one node queued; and `errors` counts at
   * least one exactly when a visited node has more than `cap` neighbours.
   */
  ghost predicate Walking(g: seq<Node>, l: nat, root: nat, layer: seq<nat>, cap: int,
                          visited: set<nat>, queue: seq<(nat, Option<nat>)>, errors: int) {
    (forall x :: x in visited ==> x in layer && Reachable(g, l, root, x)) &&
    (forall p :: p in queue ==> Queued(g, l, root, layer, p)) &&
    (forall x, i :: x in visited && 0 <= i < |Adj(g, x, l)| ==>
       Adj(g, x, l)[i] in visited || Adj(g, x, l)[i] in Targets(queue)) &&
    (visited == {} ==> queue == [(root, None)]) && (visited != {} ==> root in visited) &&
    errors >= 0 && (errors == 0 <==> forall x :: x in visited ==> |Adj(g, x, l)| <= cap)
  }

  /** `layer` lists exactly the nodes of the arena that have level `l`, once each. */
  ghost predicate IsLayer(g: seq<Node>, l: nat, layer: seq<nat>) {
    (forall x :: x in layer <==> 0 <= x < |g| && l < |g[x].neighbors|) && NoDuplicates(layer)
  }

  /**
   * The check `Verify` makes of one level: a breadth-first walk from the
   * first node of the level, an error for each node with more than `cap`
   * neighbours, for each node that does not list the node it was reached
   * from, and one if the walk did not reach the whole level.
   */
  method CheckLevel(g: seq<Node>, l: nat, layer: seq<nat>, cap: int) returns (errors: int)
    requires WellFormed(g) && Symmetric(g) && IsLayer(g, l, layer) && layer != []
    ensures errors >= 0
    ensures errors == 0 <==> LayerConnected(g, l, layer) && DegreesWithin(g, l, layer, cap)
  {
    var root := layer[0];
    assert root in layer;
    assert Reachable(g, l, root, root) by {
      forall s: set<nat> | root in s && Closed(g, l, s) ensures root in s {
      }
    }
    var visited: set<nat> := {};
    var queue: seq<(nat, Option<nat>)> := [(root, None)];
    errors := 0;
    while |queue| > 0
      invariant Walking(g, l, root, layer, cap, visited, queue, errors)
      decreases |g| - |visited|, |queue|
    {
      CardBelow(visited, |g|);
      var node := queue[0].0;
      var origin := queue[0].1;
      assert queue[0] in queue;
      ghost var queue0 := queue;
      queue := queue[1..];
      if node in visited {
        TargetsTail(queue0);
        continue;
      }
      CardAdd(visited, node);
      ghost var visited0 := visited;
      visited := visited + {node};
      ghost var errors0 := errors;
      if |Adj(g, node, l)| > cap {
        errors := errors + 1;
      }
      var hasOrigin;
      queue, hasOrigin := Visit(g, l, node, origin, visited, queue);
      VisitKeeps(g, l, root, layer, cap, visited0, queue0, errors0, queue, errors);
      if !hasOrigin {
        errors := errors + 1;
      }
    }
    WalkEnds(g, l, root, layer, cap, visited, errors);
    if |visited| != |layer| {
      errors := errors + 1;
    }
  }

  /**
   * The inner loop of the walk: the neighbours of `node` not yet visited are
   * queued with `node` as their origin, and the origin is looked for among
   * them; under symmetric lists it is always found.
   */
  method Visit(g: seq<Node>, l: nat, node: nat, origin: Option<nat>, visited: set<nat>, queue: seq<(nat, Option<nat>)>)
    returns (queue': seq<(nat, Option<nat>)>, hasOrigin: bool)
    requires Symmetric(g) && node < |g|
    requires origin.Some? ==> node in Adj(g, origin.value, l)
    ensures hasOrigin
    ensures |queue'| >= |queue| && queue'[..|queue|] == queue
    ensures forall p :: p in queue'[|queue|..] ==> p.1 == Some(node) && p.0 in Adj(g, node, l)
    ensures forall i :: 0 <= i < |Adj(g, node, l)| ==> Adj(g, node, l)[i] in visited || Adj(g, node, l)[i] in Targets(queue')
  {
    var neighbors := GetNeighbors(g[node], l);
    queue' := queue;
    hasOrigin := origin.None?;
    var j := 0;
    while j < |neighbors|
      invariant 0 <= j <= |neighbors| && |queue'| >= |queue| && queue'[..|queue|] == queue
      invariant hasOrigin <==> origin.None? || origin.value in neighbors[..j]
      invariant forall p :: p in queue'[|queue|..] ==> p.1 == Some(node) && p.0 in neighbors
      invariant forall i :: 0 <= i < j ==> neighbors[i] in visited || neighbors[i] in Targets(queue')
    {
      var neighbor := neighbors[j];
      if neighbor !in visited {
        ghost var before := queue';
        queue' := queue' + [(neighbor, Some(node))];
        assert Targets(queue') == Targets(before) + [neighbor];
        assert queue'[|queue|..] == before[|queue|..] + [(neighbor, Some(node))];
        assert forall i :: 0 <= i < j ==> neighbors[i] in Targets(before) ==> neighbors[i] in Targets(queue');
      }
      if !hasOrigin && Some(neighbor) == origin {
        hasOrigin := true;
      }
      assert neighbors[..j + 1] == neighbors[..j] + [neighbor];
      j := j + 1;
    }
    assert neighbors[..j] == neighbors;
    if origin.Some? {
      OriginListed(g, l, origin.value, node);
    }
  }

  /** Visiting the head of the queue keeps the walk's invariant. */
  lemma VisitKeeps(g: seq<Node>, l: nat, root: nat, layer: seq<nat>, cap: int, visited: set<nat>,
                   queue0: seq<(nat, Option<nat>)>, errors0: int, queue: seq<(nat, Option<nat>)>, errors: int)
    requires WellFormed(g) && IsLayer(g, l, layer)
    requires Walking(g, l, root, layer, cap, visited, queue0, errors0) && queue0 != [] && queue0[0].0 !in visited
    requires |queue| >= |queue0| - 1 && queue[..|queue0| - 1] == queue0[1..]
    requires forall p :: p in queue[|queue0| - 1..] ==> p.1 == Some(queue0[0].0) && p.0 in Adj(g, queue0[0].0, l)
    requires forall i :: 0 <= i < |Adj(g, queue0[0].0, l)| ==>
      Adj(g, queue0[0].0, l)[i] in visited + {queue0[0].0} || Adj(g, queue0[0].0, l)[i] in Targets(queue)
    requires errors == errors0 + (if |Adj(g, queue0[0].0, l)| > cap then 1 else 0)
    ensures Walking(g, l, root, layer, cap, visited + {queue0[0].0}, queue, errors)
  {
    var node := queue0[0].0;
    var n0 := |queue0| - 1;
    assert queue0[0] in queue0;
    TargetsTail(queue0);
    forall y | y in Targets(queue0[1..]) ensures y in Targets(queue) {
      var t :| 0 <= t < n0 && Targets(queue0[1..])[t] == y;
      assert queue[t] == queue0[1..][t];
      assert Targets(queue)[t] == y;
    }
    forall p | p in queue ensures Queued(g, l, root, layer, p) {
      var t :| 0 <= t < |queue| && queue[t] == p;
      if t < n0 {
        assert queue[t] == queue0[1..][t];
        assert p in queue0;
      } else {
        assert p in queue[n0..] by {
          assert queue[n0..][t - n0] == p;
        }
        ReachableStep(g, l, root, node, p.0);
        WellFormedMember(g, node, l, p.0);
      }
    }
  }

  /** The nodes queued behind the head of a queue. */
  lemma TargetsTail(queue: seq<(nat, Option<nat>)>)
    requires queue != []
    ensures forall y :: y in Targets(queue) ==> y in Targets(queue[1..]) || y == queue[0].0
  {
    forall y | y in Targets(queue) ensures y in Targets(queue[1..]) || y == queue[0].0 {
      var t :| 0 <= t < |queue| && Targets(queue)[t] == y;
      if t > 0 {
        assert Targets(queue[1..])[t - 1] == y;
      }
    }
  }

  /** Under symmetric lists a node lists every node that lists it. */
  lemma OriginListed(g: seq<Node>, l: nat, a: nat, b: nat)
    requires Symmetric(g) && b in Adj(g, a, l)
    ensures a in Adj(g, b, l)
  {
    assert Cnt(g, a, l, b) > 0;
    assert Cnt(g, b, l, a) > 0;
  }

  /**
   * When the queue is empty the visited set is closed, so it holds exactly
   * the nodes reachable from the root; it then covers the level iff it is as
   * large as the level's list.
   */
  lemma WalkEnds(g: seq<Node>, l: nat, root: nat, layer: seq<nat>, cap: int, visited: set<nat>, errors: int)
    requires Walking(g, l, root, layer, cap, visited, [], errors) && IsLayer(g, l, layer) && layer != [] && root == layer[0]
    ensures (errors == 0 && |visited| == |layer|) <==> LayerConnected(g, l, layer) && DegreesWithin(g, l, layer, cap)
  {
    assert Closed(g, l, visited);
    var all := SetOf(layer);
    assert visited <= all;
    DistinctCard(layer);
    if |visited| == |layer| {
      SubsetSameCard(visited, all);
    }
    if LayerConnected(g, l, layer) {
      assert all <= visited;
      assert visited == all;
    }
  }

  /** The members of a list. */
  function SetOf(s: seq<nat>): (r: set<nat>)
    ensures forall x :: x in r <==> x in s
  {
    set x | x in s
  }

  /** A list without repeats has as many members as entries. */
  lemma {:induction false} DistinctCard(s: seq<nat>)
    requires NoDuplicates(s)
    ensures |SetOf(s)| == |s|
  {
    if s != [] {
      var t := s[1..];
      assert NoDuplicates(t) by {
        forall i, j | 0 <= i < j < |t| ensures t[i] != t[j] {
          assert t[i] == s[i + 1] && t[j] == s[j + 1];
        }
      }
      DistinctCard(t);
      assert s[0] !in t by {
        forall i | 0 <= i < |t| ensures t[i] != s[0] {
          assert t[i] == s[i + 1];
        }
      }
      assert SetOf(s) == SetOf(t) + {s[0]} by {
        assert s == [s[0]] + t;
      }
      CardAdd(SetOf(t), s[0]);
    }
  }

  /** A subset as large as its superset is the superset. */
  lemma SubsetSameCard(a: set<nat>, b: set<nat>)
    requires a <= b && |a| == |b|
    ensures a == b
  {
    assert b == a + (b - a);
    assert |b - a| == 0;
  }
}
