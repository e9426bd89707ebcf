/**
 * The HNSW graph of Experiments/HNSW/HNSW.cs as an arena: node `i` of the
 * collection is `g[i]` (its id is `i + 1`), and a neighbour list holds
 * arena indices.  The level of a node is the number of its lists minus one.
 * Symmetry of edges is stated on multisets because the source's neighbour
 * lists are `List<Node>`s that can hold a node twice.
 */
module HnswGraph {
  import opened Distance
  import opened NodeDistanceSets

  /** `Node`: its id, its vector and one neighbour list per level 0..level. */
  datatype Node = Node(id: int, vector: Vector, neighbors: seq<seq<nat>>)

  /** The `Node` constructor: `level + 1` empty neighbour lists (none for a negative level). */
  function NewNode(vector: Vector, level: int, id: int): (n: Node)
    ensures n.id == id && n.vector == vector
    ensures |n.neighbors| == if level < 0 then 0 else level + 1
    ensures forall l :: 0 <= l < |n.neighbors| ==> n.neighbors[l] == []
  {
    Node(id, vector, seq(if level < 0 then 0 else level + 1, _ => []))
  }

  /** `GetNeighbors`: the list at `level`, or an empty sequence above the node's level. */
  function GetNeighbors(n: Node, level: nat): seq<nat> {
    if level > |n.neighbors| - 1 then [] else n.neighbors[level]
  }

  /** A new node of level `level` has no neighbour at any level, its own or above. */
  lemma NewNodeHasNoNeighbors(vector: Vector, level: int, id: int, l: nat)
    ensures GetNeighbors(NewNode(vector, level, id), l) == []
    ensures l <= level <==> l < |NewNode(vector, level, id).neighbors|
  {
  }

  /** The level-`l` list of arena node `x` (empty outside the arena or above its level). */
  function Adj(g: seq<Node>, x: nat, l: nat): seq<nat> {
    if x < |g| then GetNeighbors(g[x], l) else []
  }

  /** How many times `b` occurs in the level-`l` list of `a`. */
  function Cnt(g: seq<Node>, a: nat, l: nat, b: nat): nat {
    multiset(Adj(g, a, l))[b]
  }

  /** Ids, vectors and levels are the same: only neighbour lists may differ. */
  predicate SameShape(g: seq<Node>, h: seq<Node>) {
    |g| == |h| &&
    forall x :: 0 <= x < |g| ==>
      g[x].id == h[x].id && g[x].vector == h[x].vector && |g[x].neighbors| == |h[x].neighbors|
  }

  /** Levels of the arena nodes, in arena order. */
  function Levels(g: seq<Node>): (lv: seq<int>)
    ensures |lv| == |g| && forall x :: 0 <= x < |g| ==> lv[x] == |g[x].neighbors| - 1
  {
    seq(|g|, x requires 0 <= x < |g| => |g[x].neighbors| - 1)
  }

  lemma SameShapeTrans(g: seq<Node>, h: seq<Node>, k: seq<Node>)
    requires SameShape(g, h) && SameShape(h, k)
    ensures SameShape(g, k)
  {
  }

  lemma SameShapeLevels(g: seq<Node>, h: seq<Node>)
    requires SameShape(g, h)
    ensures Levels(g) == Levels(h)
  {
  }

  /** Replaces one neighbour list; nothing else changes. */
  function SetAdj(g: seq<Node>, x: nat, l: nat, s: seq<nat>): (r: seq<Node>)
    requires x < |g| && l < |g[x].neighbors|
    ensures SameShape(r, g)
    ensures forall y: nat, m: nat :: Adj(r, y, m) == if y == x && m == l then s else Adj(g, y, m)
  {
    g[x := g[x].(neighbors := g[x].neighbors[l := s])]
  }

  /** `List.Remove`: drops the first occurrence of `y`, if any. */
  function RemoveFirst(s: seq<nat>, y: nat): (r: seq<nat>)
    ensures multiset(r) == multiset(s) - multiset{y}
    ensures y !in s ==> r == s
  {
    if s == [] then []
    else
      assert s == [s[0]] + s[1..];
      if s[0] == y then s[1..] else [s[0]] + RemoveFirst(s[1..], y)
  }

  /** `x.Neighbors[l].Add(y)`. */
  function Append(g: seq<Node>, x: nat, l: nat, y: nat): (r: seq<Node>)
    requires x < |g| && l < |g[x].neighbors|
    ensures SameShape(r, g)
    ensures forall a: nat, m: nat :: Adj(r, a, m) == if a == x && m == l then Adj(g, x, l) + [y] else Adj(g, a, m)
  {
    SetAdj(g, x, l, Adj(g, x, l) + [y])
  }

  /** `x.Neighbors[l].Remove(y)`. */
  function Unlink(g: seq<Node>, x: nat, l: nat, y: nat): (r: seq<Node>)
    requires x < |g| && l < |g[x].neighbors|
    ensures SameShape(r, g)
    ensures forall a: nat, m: nat :: Adj(r, a, m) == if a == x && m == l then RemoveFirst(Adj(g, x, l), y) else Adj(g, a, m)
  {
    SetAdj(g, x, l, RemoveFirst(Adj(g, x, l), y))
  }

  /** `y` may appear in the level-`l` list of `x`: an arena node other than `x` that has level `l`. */
  predicate ValidEdge(g: seq<Node>, x: nat, l: nat, y: nat) {
    y < |g| && y != x && l < |g[y].neighbors|
  }

  /** Every node has a level, and every listed neighbour is a valid edge. */
  ghost predicate WellFormed(g: seq<Node>) {
    (forall x :: 0 <= x < |g| ==> |g[x].neighbors| >= 1) &&
    forall x: nat, l: nat, i :: 0 <= i < |Adj(g, x, l)| ==> ValidEdge(g, x, l, Adj(g, x, l)[i])
  }

  lemma WellFormedMember(g: seq<Node>, x: nat, l: nat, y: nat)
    requires WellFormed(g) && y in Adj(g, x, l)
    ensures ValidEdge(g, x, l, y)
  {
    var i :| 0 <= i < |Adj(g, x, l)| && Adj(g, x, l)[i] == y;
  }

  /** `a` lists `b` at level `l` exactly as often as `b` lists `a`. */
  ghost predicate Symmetric(g: seq<Node>) {
    forall a: nat, l: nat, b: nat :: Cnt(g, a, l, b) == Cnt(g, b, l, a)
  }

  /** Symmetric except between `n` and others at level `l`. */
  ghost predicate SymmetricOff(g: seq<Node>, l: nat, n: nat) {
    forall a: nat, k: nat, b: nat :: (k != l || (a != n && b != n)) ==> Cnt(g, a, k, b) == Cnt(g, b, k, a)
  }

  /** Linking `a` and `b` both ways adds one to the count of each in the other's list. */
  lemma LinkCount(g: seq<Node>, l: nat, a: nat, b: nat, x: nat, k: nat, y: nat)
    requires a < |g| && b < |g| && a != b && l < |g[a].neighbors| && l < |g[b].neighbors|
    ensures Cnt(Append(Append(g, a, l, b), b, l, a), x, k, y) ==
      Cnt(g, x, k, y) + (if k == l && ((x == a && y == b) || (x == b && y == a)) then 1 else 0)
  {
  }

  lemma LinkKeepsSymmetricOff(g: seq<Node>, l: nat, n: nat, a: nat, b: nat)
    requires a < |g| && b < |g| && a != b && l < |g[a].neighbors| && l < |g[b].neighbors|
    requires SymmetricOff(g, l, n) && a != n && b != n
    ensures var r := Append(Append(g, a, l, b), b, l, a);
      SymmetricOff(r, l, n) && forall x: nat :: Cnt(r, x, l, n) == Cnt(g, x, l, n)
  {
    var r := Append(Append(g, a, l, b), b, l, a);
    forall x: nat, k: nat, y: nat | k != l || (x != n && y != n) ensures Cnt(r, x, k, y) == Cnt(r, y, k, x) {
      LinkCount(g, l, a, b, x, k, y);
      LinkCount(g, l, a, b, y, k, x);
    }
    forall x: nat ensures Cnt(r, x, l, n) == Cnt(g, x, l, n) {
      LinkCount(g, l, a, b, x, l, n);
    }
  }

  /** Removing an absent neighbour changes nothing. */
  lemma UnlinkAbsent(g: seq<Node>, x: nat, l: nat, y: nat)
    requires x < |g| && l < |g[x].neighbors| && y !in Adj(g, x, l)
    ensures Unlink(g, x, l, y) == g
  {
    assert g[x].neighbors[l := g[x].neighbors[l]] == g[x].neighbors;
    assert g[x := g[x]] == g;
  }

  lemma LinkKeepsWellFormed(g: seq<Node>, l: nat, a: nat, b: nat)
    requires WellFormed(g)
    requires a < |g| && b < |g| && a != b && l < |g[a].neighbors| && l < |g[b].neighbors|
    ensures WellFormed(Append(Append(g, a, l, b), b, l, a))
  {
    var g1 := Append(g, a, l, b);
    var r := Append(g1, b, l, a);
    forall x: nat, k: nat, i | 0 <= i < |Adj(r, x, k)| ensures ValidEdge(r, x, k, Adj(r, x, k)[i]) {
      var s := Adj(g, x, k);
      if x == b && k == l {
        assert Adj(r, x, k) == s + [a];
        if i < |s| { WellFormedMember(g, x, k, s[i]); }
      } else if x == a && k == l {
        assert Adj(r, x, k) == s + [b];
        if i < |s| { WellFormedMember(g, x, k, s[i]); }
      } else {
        WellFormedMember(g, x, k, s[i]);
      }
    }
  }

  /** Every element of `list` is an arena node that has level `l`. */
  predicate AtLevel(g: seq<Node>, l: nat, list: seq<nat>) {
    forall i :: 0 <= i < |list| ==> list[i] < |g| && l < |g[list[i]].neighbors|
  }

  lemma AtLevelShape(g: seq<Node>, h: seq<Node>, l: nat, list: seq<nat>)
    requires SameShape(h, g) && AtLevel(g, l, list)
    ensures AtLevel(h, l, list)
  {
  }

  lemma WellFormedAtLevel(g: seq<Node>, n: nat, l: nat)
    requires WellFormed(g)
    ensures AtLevel(g, l, Adj(g, n, l)) && n !in Adj(g, n, l)
  {
    forall i | 0 <= i < |Adj(g, n, l)| ensures Adj(g, n, l)[i] < |g| && l < |g[Adj(g, n, l)[i]].neighbors| {
      WellFormedMember(g, n, l, Adj(g, n, l)[i]);
    }
    if n in Adj(g, n, l) { WellFormedMember(g, n, l, n); }
  }

  // ---------------------------------------------------------------------
  // RefreshNeighborConnections, step by step.  Each fold runs over a prefix
  // of its list and performs the last element's step last, as the loops do.
  // ---------------------------------------------------------------------

  /** Step 1: every former neighbour `x` of `n` removes `n` from its level-`l` list, once per occurrence of `x`. */
  function DropBackEdges(g: seq<Node>, l: nat, n: nat, list: seq<nat>): (r: seq<Node>)
    requires AtLevel(g, l, list)
    ensures SameShape(r, g)
    decreases |list|
  {
    if list == [] then g
    else Unlink(DropBackEdges(g, l, n, list[..|list| - 1]), list[|list| - 1], l, n)
  }

  /** Step 2: `new NodeDistanceSet(n.Vector, n.Neighbors[l])`, one entry per distinct former neighbour. */
  function FormerNeighbors(g: seq<Node>, n: nat, list: seq<nat>, dist: (Vector, Vector) -> real): (s: seq<Entry>)
    requires n < |g| && forall i :: 0 <= i < |list| ==> list[i] < |g|
    ensures Distinct(s)
    ensures forall e :: e in s ==> e.node in list && e.dist == dist(g[n].vector, g[e.node].vector)
    decreases |list|
  {
    if list == [] then []
    else
      var x := list[|list| - 1];
      var s0 := FormerNeighbors(g, n, list[..|list| - 1], dist);
      Inserted(s0, Entry(x, dist(g[n].vector, g[x].vector)))
  }

  /** Every former neighbour has an entry. */
  lemma {:induction false} FormerNeighborsCover(g: seq<Node>, n: nat, list: seq<nat>, dist: (Vector, Vector) -> real)
    requires n < |g| && forall i :: 0 <= i < |list| ==> list[i] < |g|
    ensures forall x :: x in list ==> x in NodesOf(FormerNeighbors(g, n, list, dist))
    decreases |list|
  {
    if list != [] {
      var x := list[|list| - 1];
      var pre := list[..|list| - 1];
      var s0 := FormerNeighbors(g, n, pre, dist);
      var r := FormerNeighbors(g, n, list, dist);
      FormerNeighborsCover(g, n, pre, dist);
      forall y | y in list ensures y in NodesOf(r) {
        var e := Entry(y, dist(g[n].vector, g[y].vector));
        if y in NodesOf(s0) {
          var i :| 0 <= i < |s0| && NodesOf(s0)[i] == y;
          assert s0[i] in r;
          assert NodesOf(r)[IndexOf(r, s0[i])] == y;
        } else {
          assert y !in pre;
          assert y == x;
          assert e in r;
          assert NodesOf(r)[IndexOf(r, e)] == y;
        }
      }
    }
  }

  /** Some index of `e` in `s`. */
  ghost function IndexOf<T>(s: seq<T>, e: T): (i: nat)
    requires e in s
    ensures i < |s| && s[i] == e
  {
    var i :| 0 <= i < |s| && s[i] == e; i
  }

  /** Step 4: `set.Remove` of every retained neighbour. */
  function RemoveAll(s: seq<Entry>, keep: seq<nat>): (r: seq<Entry>)
    ensures Distinct(s) ==> Distinct(r)
    ensures forall e :: e in r <==> e in s && e.node !in keep
    decreases |keep|
  {
    if keep == [] then s
    else Removed(RemoveAll(s, keep[..|keep| - 1]), keep[|keep| - 1])
  }

  /** `IsFarther`: a first candidate at or above the cap loses to a second below it; otherwise the farther loses. */
  predicate IsFarther(firstCount: int, firstDist: real, secondCount: int, secondDist: real, m: int) {
    var firstEmpty := firstCount < m;
    var secondEmpty := secondCount < m;
    if firstEmpty == secondEmpty then firstDist > secondDist else !firstEmpty
  }

  /**
   * Step 5, choice of the node that a dropped neighbour `d` is linked to: a scan
   * of the retained neighbours `cands` that replaces the current choice only when
   * it IsFarther than the next candidate.
   */
  function Target(g: seq<Node>, l: nat, m: int, cands: seq<nat>, d: nat, dist: (Vector, Vector) -> real): (t: nat)
    requires |cands| >= 1 && d < |g| && forall i :: 0 <= i < |cands| ==> cands[i] < |g|
    ensures t in cands
    ensures forall c :: c in cands ==> |Adj(g, t, l)| < m || |Adj(g, c, l)| >= m
    ensures forall c :: c in cands && ((|Adj(g, t, l)| < m) == (|Adj(g, c, l)| < m)) ==>
      dist(g[t].vector, g[d].vector) <= dist(g[c].vector, g[d].vector)
    decreases |cands|
  {
    if |cands| == 1 then cands[0]
    else
      var b := Target(g, l, m, cands[..|cands| - 1], d, dist);
      var c := cands[|cands| - 1];
      assert forall y :: y in cands ==> y in cands[..|cands| - 1] || y == c;
      if IsFarther(|Adj(g, b, l)|, dist(g[b].vector, g[d].vector), |Adj(g, c, l)|, dist(g[c].vector, g[d].vector), m)
      then c else b
  }

  /** Step 5 for one dropped neighbour `d`: forget `n`, then link `d` and its target both ways. */
  function RewireOne(g: seq<Node>, l: nat, n: nat, m: int, keep: seq<nat>, d: nat, dist: (Vector, Vector) -> real): (r: seq<Node>)
    requires |keep| >= 1 && AtLevel(g, l, keep) && d < |g| && l < |g[d].neighbors|
    ensures SameShape(r, g)
  {
    var g1 := Unlink(g, d, l, n);
    AtLevelShape(g, g1, l, keep);
    var t := Target(g1, l, m, keep, d, dist);
    Append(Append(g1, t, l, d), d, l, t)
  }

  /** Step 5: `foreach (var removed in set)`. */
  function Rewire(g: seq<Node>, l: nat, n: nat, m: int, keep: seq<nat>, ds: seq<nat>, dist: (Vector, Vector) -> real): (r: seq<Node>)
    requires |ds| > 0 ==> |keep| >= 1
    requires AtLevel(g, l, keep) && AtLevel(g, l, ds)
    ensures SameShape(r, g)
    decreases |ds|
  {
    if ds == [] then g
    else
      var r0 := Rewire(g, l, n, m, keep, ds[..|ds| - 1], dist);
      AtLevelShape(g, r0, l, keep);
      RewireOne(r0, l, n, m, keep, ds[|ds| - 1], dist)
  }

  /** Step 6 after `n.Neighbors[l] = newNeighbors`: each retained neighbour lists `n` again. */
  function AddBackEdges(g: seq<Node>, l: nat, n: nat, list: seq<nat>): (r: seq<Node>)
    requires AtLevel(g, l, list)
    ensures SameShape(r, g)
    decreases |list|
  {
    if list == [] then g
    else Append(AddBackEdges(g, l, n, list[..|list| - 1]), list[|list| - 1], l, n)
  }

  /** Step 3: `newNeighbors`, the `m` former neighbours closest to `n`. */
  function Kept(g: seq<Node>, n: nat, l: nat, list: seq<nat>, m: int, dist: (Vector, Vector) -> real): seq<nat>
    requires n < |g| && AtLevel(g, l, list)
  {
    NodesOf(SelectNeighborsSimple(FormerNeighbors(g, n, list, dist), m))
  }

  /** The former neighbours left in the set after step 4, in enumeration order. */
  function Dropped(g: seq<Node>, n: nat, l: nat, list: seq<nat>, m: int, dist: (Vector, Vector) -> real): seq<nat>
    requires n < |g| && AtLevel(g, l, list)
  {
    NodesOf(RemoveAll(FormerNeighbors(g, n, list, dist), Kept(g, n, l, list, m, dist)))
  }

  /** No node occurs twice. */
  predicate NoDuplicates(s: seq<nat>) {
    forall i, j :: 0 <= i < j < |s| ==> s[i] != s[j]
  }

  lemma DistinctNodes(s: seq<Entry>)
    requires Distinct(s)
    ensures NoDuplicates(NodesOf(s))
  {
  }

  /** The kept former neighbours: at most `m`, at least one when there was one, all from `list`, none twice. */
  lemma KeptInList(g: seq<Node>, n: nat, l: nat, list: seq<nat>, m: int, dist: (Vector, Vector) -> real)
    requires n < |g| && AtLevel(g, l, list) && m >= 1
    ensures var keep := Kept(g, n, l, list, m, dist);
      AtLevel(g, l, keep) && NoDuplicates(keep) && (forall x :: x in keep ==> x in list) &&
      |keep| <= m && (list != [] ==> |keep| >= 1)
  {
    DistinctNodes(SelectNeighborsSimple(FormerNeighbors(g, n, list, dist), m));
    KeptFromList(g, n, l, list, m, dist);
    KeptCount(g, n, l, list, m, dist);
  }

  lemma KeptFromList(g: seq<Node>, n: nat, l: nat, list: seq<nat>, m: int, dist: (Vector, Vector) -> real)
    requires n < |g| && AtLevel(g, l, list)
    ensures var keep := Kept(g, n, l, list, m, dist);
      AtLevel(g, l, keep) && forall x :: x in keep ==> x in list
  {
    var fs := FormerNeighbors(g, n, list, dist);
    var sel := SelectNeighborsSimple(fs, m);
    var keep := NodesOf(sel);
    forall i | 0 <= i < |keep| ensures keep[i] in list {
      assert sel[i] in fs;
    }
    forall i | 0 <= i < |keep| ensures keep[i] < |g| && l < |g[keep[i]].neighbors| {
      assert keep[i] in list;
    }
  }

  lemma KeptCount(g: seq<Node>, n: nat, l: nat, list: seq<nat>, m: int, dist: (Vector, Vector) -> real)
    requires n < |g| && AtLevel(g, l, list) && m >= 1
    ensures var keep := Kept(g, n, l, list, m, dist);
      |keep| <= m && (list != [] ==> |keep| >= 1)
  {
    var fs := FormerNeighbors(g, n, list, dist);
    if list != [] {
      FormerNeighborsCover(g, n, list, dist);
      assert list[0] in NodesOf(fs);
    }
  }

  /** The dropped former neighbours: all from `list`, none kept, none twice. */
  lemma DroppedInList(g: seq<Node>, n: nat, l: nat, list: seq<nat>, m: int, dist: (Vector, Vector) -> real)
    requires n < |g| && AtLevel(g, l, list)
    ensures var keep := Kept(g, n, l, list, m, dist);
      var ds := Dropped(g, n, l, list, m, dist);
      AtLevel(g, l, ds) && NoDuplicates(ds) && forall x :: x in ds ==> x in list && x !in keep
  {
    var fs := FormerNeighbors(g, n, list, dist);
    var keep := Kept(g, n, l, list, m, dist);
    var rest := RemoveAll(fs, keep);
    var ds := NodesOf(rest);
    DistinctNodes(rest);
    forall i | 0 <= i < |ds| ensures ds[i] in list && ds[i] !in keep {
      assert rest[i] in fs;
    }
    forall i | 0 <= i < |ds| ensures ds[i] < |g| && l < |g[ds[i]].neighbors| {
      assert ds[i] in list;
    }
    forall x | x in ds ensures x in list && x !in keep {
      var i :| 0 <= i < |ds| && ds[i] == x;
    }
  }

  /** Every former neighbour is kept or dropped. */
  lemma KeptOrDropped(g: seq<Node>, n: nat, l: nat, list: seq<nat>, m: int, dist: (Vector, Vector) -> real)
    requires n < |g| && AtLevel(g, l, list)
    ensures forall x :: x in list ==> x in Kept(g, n, l, list, m, dist) || x in Dropped(g, n, l, list, m, dist)
  {
    FormerNeighborsCover(g, n, list, dist);
    CoveredBy(FormerNeighbors(g, n, list, dist), list, Kept(g, n, l, list, m, dist));
  }

  /** Every node of `fs` is in `keep` or left over after removing those of `keep`. */
  lemma CoveredBy(fs: seq<Entry>, list: seq<nat>, keep: seq<nat>)
    requires forall x :: x in list ==> x in NodesOf(fs)
    ensures forall x :: x in list ==> x in keep || x in NodesOf(RemoveAll(fs, keep))
  {
    var rest := RemoveAll(fs, keep);
    var ds := NodesOf(rest);
    forall x | x in list ensures x in keep || x in ds {
      var j :| 0 <= j < |fs| && NodesOf(fs)[j] == x;
      var e := fs[j];
      if e.node !in keep {
        assert e in rest;
        assert ds[IndexOf(rest, e)] == x;
      }
    }
  }

  /** No dropped former neighbour is closer to `n` than a kept one. */
  lemma KeptAreClosest(g: seq<Node>, n: nat, l: nat, list: seq<nat>, m: int, dist: (Vector, Vector) -> real, x: nat, y: nat)
    requires n < |g| && AtLevel(g, l, list)
    requires x in list && x !in Kept(g, n, l, list, m, dist) && y in Kept(g, n, l, list, m, dist)
    ensures dist(g[n].vector, g[y].vector) <= dist(g[n].vector, g[x].vector)
  {
    var fs := FormerNeighbors(g, n, list, dist);
    var sel := SelectNeighborsSimple(fs, m);
    var keep := NodesOf(sel);
    FormerNeighborsCover(g, n, list, dist);
    var j := IndexOf(NodesOf(fs), x);
    var i := IndexOf(keep, y);
    var ex, ey := fs[j], sel[i];
    EntryOfMissing(sel, ex);
    assert ey in fs && ey.dist <= ex.dist;
  }

  /** An entry whose node is missing from `NodesOf(s)` is missing from `s`. */
  lemma EntryOfMissing(s: seq<Entry>, e: Entry)
    requires e.node !in NodesOf(s)
    ensures e !in s
  {
    forall t | 0 <= t < |s| ensures s[t] != e {
      assert NodesOf(s)[t] == s[t].node;
    }
  }

  /** After step 1. */
  function Pruned(g: seq<Node>, n: nat, l: nat): (r: seq<Node>)
    requires WellFormed(g)
    ensures SameShape(r, g) && AtLevel(r, l, Adj(g, n, l))
  {
    WellFormedAtLevel(g, n, l);
    var r := DropBackEdges(g, l, n, Adj(g, n, l));
    AtLevelShape(g, r, l, Adj(g, n, l));
    r
  }

  /** `newNeighbors`. */
  function NewNeighbors(g: seq<Node>, n: nat, l: nat, m: int, dist: (Vector, Vector) -> real): (keep: seq<nat>)
    requires WellFormed(g) && n < |g|
  {
    Kept(Pruned(g, n, l), n, l, Adj(g, n, l), m, dist)
  }

  /** After step 5. */
  function Rewired(g: seq<Node>, n: nat, l: nat, m: int, dist: (Vector, Vector) -> real): (r: seq<Node>)
    requires WellFormed(g) && n < |g| && m >= 1
    ensures SameShape(r, g) && AtLevel(r, l, NewNeighbors(g, n, l, m, dist))
  {
    var g1 := Pruned(g, n, l);
    var list := Adj(g, n, l);
    KeptInList(g1, n, l, list, m, dist);
    DroppedInList(g1, n, l, list, m, dist);
    var keep := Kept(g1, n, l, list, m, dist);
    var r := Rewire(g1, l, n, m, keep, Dropped(g1, n, l, list, m, dist), dist);
    AtLevelShape(g1, r, l, keep);
    SameShapeTrans(r, g1, g);
    r
  }

  /** `RefreshNeighborConnections(n, l, m)` on the arena: steps 1 to 6 in order. */
  function Refreshed(g: seq<Node>, n: nat, l: nat, m: int, dist: (Vector, Vector) -> real): (r: seq<Node>)
    requires WellFormed(g) && n < |g| && l < |g[n].neighbors| && m >= 1
    ensures SameShape(r, g)
  {
    var keep := NewNeighbors(g, n, l, m, dist);
    var g2 := Rewired(g, n, l, m, dist);
    var g3 := SetAdj(g2, n, l, keep);
    AtLevelShape(g2, g3, l, keep);
    SameShapeTrans(g3, g2, g);
    var r := AddBackEdges(g3, l, n, keep);
    SameShapeTrans(r, g3, g);
    r
  }

  /** The last step of `Refreshed`, spelled out for the method that computes it. */
  lemma RefreshedLastStep(g: seq<Node>, n: nat, l: nat, m: int, dist: (Vector, Vector) -> real, g2: seq<Node>, keep: seq<nat>)
    requires WellFormed(g) && n < |g| && l < |g[n].neighbors| && m >= 1
    requires keep == NewNeighbors(g, n, l, m, dist) && g2 == Rewired(g, n, l, m, dist)
    ensures n < |g2| && l < |g2[n].neighbors| && AtLevel(SetAdj(g2, n, l, keep), l, keep)
    ensures Refreshed(g, n, l, m, dist) == AddBackEdges(SetAdj(g2, n, l, keep), l, n, keep)
  {
    AtLevelShape(g2, SetAdj(g2, n, l, keep), l, keep);
  }

  // ---------------------------------------------------------------------
  // Each step keeps the graph well formed; together they keep it symmetric.
  // ---------------------------------------------------------------------

  lemma UnlinkKeepsWellFormed(g: seq<Node>, x: nat, l: nat, y: nat)
    requires WellFormed(g) && x < |g| && l < |g[x].neighbors|
    ensures WellFormed(Unlink(g, x, l, y))
  {
    var r := Unlink(g, x, l, y);
    forall a: nat, k: nat, i | 0 <= i < |Adj(r, a, k)| ensures ValidEdge(r, a, k, Adj(r, a, k)[i]) {
      var z := Adj(r, a, k)[i];
      if a == x && k == l {
        assert z in multiset(Adj(r, a, k));
        assert z in multiset(Adj(g, a, k));
      } else {
        assert z in Adj(g, a, k);
      }
      WellFormedMember(g, a, k, z);
    }
  }

  lemma AppendKeepsWellFormed(g: seq<Node>, x: nat, l: nat, y: nat)
    requires WellFormed(g) && x < |g| && l < |g[x].neighbors| && ValidEdge(g, x, l, y)
    ensures WellFormed(Append(g, x, l, y))
  {
    var r := Append(g, x, l, y);
    forall a: nat, k: nat, i | 0 <= i < |Adj(r, a, k)| ensures ValidEdge(r, a, k, Adj(r, a, k)[i]) {
      var z := Adj(r, a, k)[i];
      if a == x && k == l && i == |Adj(g, x, l)| {
        assert z == y;
      } else {
        assert z in Adj(g, a, k);
        WellFormedMember(g, a, k, z);
      }
    }
  }

  lemma SetAdjKeepsWellFormed(g: seq<Node>, x: nat, l: nat, s: seq<nat>)
    requires WellFormed(g) && x < |g| && l < |g[x].neighbors|
    requires forall i :: 0 <= i < |s| ==> ValidEdge(g, x, l, s[i])
    ensures WellFormed(SetAdj(g, x, l, s))
  {
    var r := SetAdj(g, x, l, s);
    forall a: nat, k: nat, i | 0 <= i < |Adj(r, a, k)| ensures ValidEdge(r, a, k, Adj(r, a, k)[i]) {
      if !(a == x && k == l) {
        WellFormedMember(g, a, k, Adj(r, a, k)[i]);
      }
    }
  }

  /** `Remove(y)` on one list lowers the count of `y` there by one, if it was there, and no other count. */
  lemma UnlinkCounts(g: seq<Node>, x: nat, l: nat, y: nat)
    requires x < |g| && l < |g[x].neighbors|
    ensures forall a: nat, k: nat, b: nat ::
              Cnt(Unlink(g, x, l, y), a, k, b) ==
              (if a == x && k == l && b == y && Cnt(g, a, k, b) > 0 then Cnt(g, a, k, b) - 1 else Cnt(g, a, k, b))
  {
  }

  /** `Add(y)` on one list raises the count of `y` there by one, and no other count. */
  lemma AppendCounts(g: seq<Node>, x: nat, l: nat, y: nat)
    requires x < |g| && l < |g[x].neighbors|
    ensures forall a: nat, k: nat, b: nat ::
              Cnt(Append(g, x, l, y), a, k, b) ==
              (if a == x && k == l && b == y then Cnt(g, a, k, b) + 1 else Cnt(g, a, k, b))
  {
  }

  lemma {:induction false} DropBackEdgesWellFormed(g: seq<Node>, l: nat, n: nat, p: seq<nat>)
    requires WellFormed(g) && AtLevel(g, l, p)
    ensures WellFormed(DropBackEdges(g, l, n, p))
    decreases |p|
  {
    if p != [] {
      var q := p[..|p| - 1];
      assert AtLevel(g, l, q);
      DropBackEdgesWellFormed(g, l, n, q);
      UnlinkKeepsWellFormed(DropBackEdges(g, l, n, q), p[|p| - 1], l, n);
    }
  }

  /** Step 1 only touches the level-`l` lists of the nodes in `p`, and only their counts of `n`. */
  lemma {:induction false} DropBackEdgesFrame(g: seq<Node>, l: nat, n: nat, p: seq<nat>)
    requires AtLevel(g, l, p)
    ensures var r := DropBackEdges(g, l, n, p);
      (forall a: nat, k: nat, b: nat :: (k != l || b != n) ==> Cnt(r, a, k, b) == Cnt(g, a, k, b)) &&
      (forall a: nat, k: nat :: (k != l || a !in p) ==> Adj(r, a, k) == Adj(g, a, k))
    decreases |p|
  {
    if p != [] {
      var q := p[..|p| - 1];
      var x := p[|p| - 1];
      assert p == q + [x];
      assert AtLevel(g, l, q);
      DropBackEdgesFrame(g, l, n, q);
      var r0 := DropBackEdges(g, l, n, q);
      UnlinkCounts(r0, x, l, n);
      var r := Unlink(r0, x, l, n);
      forall a: nat, k: nat | k != l || a !in p ensures Adj(r, a, k) == Adj(g, a, k) {
        assert a !in q ==> Adj(r0, a, k) == Adj(g, a, k);
      }
    }
  }

  /** Step 1 removes one `n` from a list per occurrence of its owner in `p`. */
  lemma {:induction false} DropBackEdgesRemoves(g: seq<Node>, l: nat, n: nat, p: seq<nat>)
    requires Symmetric(g) && AtLevel(g, l, p) && p <= Adj(g, n, l)
    ensures var r := DropBackEdges(g, l, n, p);
      forall a: nat :: Cnt(r, a, l, n) + multiset(p)[a] == Cnt(g, a, l, n)
    decreases |p|
  {
    if p != [] {
      var q := p[..|p| - 1];
      assert AtLevel(g, l, q);
      DropBackEdgesRemoves(g, l, n, q);
      var x := p[|p| - 1];
      assert Cnt(g, x, l, n) == Cnt(g, n, l, x);
      RemovesOneMore(g, DropBackEdges(g, l, n, q), l, n, p);
    }
  }

  /** The step of `DropBackEdgesRemoves`: unlinking `n` from the last owner in `p` removes one more. */
  lemma RemovesOneMore(g: seq<Node>, r0: seq<Node>, l: nat, n: nat, p: seq<nat>)
    requires p != [] && p <= Adj(g, n, l) && AtLevel(r0, l, p)
    requires Cnt(g, p[|p| - 1], l, n) == Cnt(g, n, l, p[|p| - 1])
    requires forall a: nat :: Cnt(r0, a, l, n) + multiset(p[..|p| - 1])[a] == Cnt(g, a, l, n)
    ensures forall a: nat :: Cnt(Unlink(r0, p[|p| - 1], l, n), a, l, n) + multiset(p)[a] == Cnt(g, a, l, n)
  {
    var q, x := p[..|p| - 1], p[|p| - 1];
    assert p == q + [x];
    StillLinked(g, r0, l, n, p);
    UnlinkCounts(r0, x, l, n);
    var mq: multiset<nat> := multiset(q);
    forall a: nat ensures Cnt(Unlink(r0, x, l, n), a, l, n) + multiset(p)[a] == Cnt(g, a, l, n) {
      assert Cnt(r0, a, l, n) + mq[a] == Cnt(g, a, l, n);
    }
  }

  /** The last node of `p` still lists `n` before its own turn. */
  lemma StillLinked(g: seq<Node>, r0: seq<Node>, l: nat, n: nat, p: seq<nat>)
    requires p != [] && p <= Adj(g, n, l)
    requires Cnt(g, p[|p| - 1], l, n) == Cnt(g, n, l, p[|p| - 1])
    requires forall a: nat :: Cnt(r0, a, l, n) + multiset(p[..|p| - 1])[a] == Cnt(g, a, l, n)
    ensures Cnt(r0, p[|p| - 1], l, n) >= 1
  {
    var q, x := p[..|p| - 1], p[|p| - 1];
    var adj := Adj(g, n, l);
    assert p == q + [x];
    assert adj == p + adj[|p|..];
    assert multiset(adj) == multiset(q) + multiset{x} + multiset(adj[|p|..]);
    var mq: multiset<nat> := multiset(q);
    assert Cnt(r0, x, l, n) + mq[x] == Cnt(g, x, l, n);
  }

  /** Step 5 for one dropped neighbour keeps the graph well formed. */
  lemma RewireOneWellFormed(g: seq<Node>, l: nat, n: nat, m: int, keep: seq<nat>, d: nat, dist: (Vector, Vector) -> real)
    requires WellFormed(g) && SymmetricOff(g, l, n) && forall a: nat :: Cnt(g, a, l, n) == 0
    requires |keep| >= 1 && AtLevel(g, l, keep) && d < |g| && l < |g[d].neighbors|
    requires d !in keep && n !in keep && d != n
    ensures WellFormed(RewireOne(g, l, n, m, keep, d, dist))
  {
    assert Cnt(g, d, l, n) == 0;
    UnlinkAbsent(g, d, l, n);
    var t := Target(g, l, m, keep, d, dist);
    var i := IndexOf(keep, t);
    assert RewireOne(g, l, n, m, keep, d, dist) == Append(Append(g, t, l, d), d, l, t);
    LinkKeepsWellFormed(g, l, t, d);
  }

  /** Step 5 for one dropped neighbour keeps the graph symmetric away from `n`, and no list holds `n`. */
  lemma RewireOneSymmetricOff(g: seq<Node>, l: nat, n: nat, m: int, keep: seq<nat>, d: nat, dist: (Vector, Vector) -> real)
    requires WellFormed(g) && SymmetricOff(g, l, n) && forall a: nat :: Cnt(g, a, l, n) == 0
    requires |keep| >= 1 && AtLevel(g, l, keep) && d < |g| && l < |g[d].neighbors|
    requires d !in keep && n !in keep && d != n
    ensures SymmetricOff(RewireOne(g, l, n, m, keep, d, dist), l, n)
    ensures forall a: nat :: Cnt(RewireOne(g, l, n, m, keep, d, dist), a, l, n) == 0
  {
    assert Cnt(g, d, l, n) == 0;
    UnlinkAbsent(g, d, l, n);
    var t := Target(g, l, m, keep, d, dist);
    var i := IndexOf(keep, t);
    assert RewireOne(g, l, n, m, keep, d, dist) == Append(Append(g, t, l, d), d, l, t);
    LinkKeepsSymmetricOff(g, l, n, t, d);
  }

  /** Step 5 for one dropped neighbour touches only its own list and a kept node's, and links it to a kept node. */
  lemma RewireOneFrame(g: seq<Node>, l: nat, n: nat, m: int, keep: seq<nat>, d: nat, dist: (Vector, Vector) -> real)
    requires |keep| >= 1 && AtLevel(g, l, keep) && d < |g| && l < |g[d].neighbors| && d !in keep
    ensures forall a: nat, k: nat :: (k != l || (a != d && a !in keep)) ==>
              Adj(RewireOne(g, l, n, m, keep, d, dist), a, k) == Adj(g, a, k)
    ensures exists t :: t in keep && t in Adj(RewireOne(g, l, n, m, keep, d, dist), d, l)
  {
    var g1 := Unlink(g, d, l, n);
    AtLevelShape(g, g1, l, keep);
    var t := Target(g1, l, m, keep, d, dist);
    var r := Append(Append(g1, t, l, d), d, l, t);
    assert RewireOne(g, l, n, m, keep, d, dist) == r;
    assert Adj(r, d, l) == Adj(g1, d, l) + [t];
  }

  /** Step 5 keeps the graph well formed and symmetric away from `n`, and touches only the dropped and kept nodes' lists. */
  lemma {:induction false} RewireFacts(g: seq<Node>, l: nat, n: nat, m: int, keep: seq<nat>, ds: seq<nat>, dist: (Vector, Vector) -> real)
    requires WellFormed(g) && SymmetricOff(g, l, n) && forall a: nat :: Cnt(g, a, l, n) == 0
    requires |ds| > 0 ==> |keep| >= 1
    requires AtLevel(g, l, keep) && AtLevel(g, l, ds) && n !in keep
    requires forall x :: x in ds ==> x !in keep && x != n
    ensures var r := Rewire(g, l, n, m, keep, ds, dist);
      WellFormed(r) && SymmetricOff(r, l, n) && (forall a: nat :: Cnt(r, a, l, n) == 0) &&
      (forall a: nat, k: nat :: (k != l || (a !in ds && a !in keep)) ==> Adj(r, a, k) == Adj(g, a, k))
    decreases |ds|
  {
    if ds != [] {
      var q := ds[..|ds| - 1];
      var d := ds[|ds| - 1];
      assert ds == q + [d];
      assert AtLevel(g, l, q);
      RewireFacts(g, l, n, m, keep, q, dist);
      var r0 := Rewire(g, l, n, m, keep, q, dist);
      AtLevelShape(g, r0, l, keep);
      RewireOneWellFormed(r0, l, n, m, keep, d, dist);
      RewireOneSymmetricOff(r0, l, n, m, keep, d, dist);
      RewireOneFrame(r0, l, n, m, keep, d, dist);
    }
  }

  lemma {:induction false} AddBackEdgesWellFormed(g: seq<Node>, l: nat, n: nat, p: seq<nat>)
    requires WellFormed(g) && AtLevel(g, l, p) && n < |g| && l < |g[n].neighbors| && n !in p
    ensures WellFormed(AddBackEdges(g, l, n, p))
    decreases |p|
  {
    if p != [] {
      var q := p[..|p| - 1];
      assert AtLevel(g, l, q);
      AddBackEdgesWellFormed(g, l, n, q);
      AppendKeepsWellFormed(AddBackEdges(g, l, n, q), p[|p| - 1], l, n);
    }
  }

  /** Step 6 adds one `n` to a list per occurrence of its owner in `p`, and changes nothing else. */
  lemma {:induction false} AddBackEdgesCounts(g: seq<Node>, l: nat, n: nat, p: seq<nat>)
    requires AtLevel(g, l, p)
    ensures var r := AddBackEdges(g, l, n, p);
      (forall a: nat, k: nat, b: nat :: (k != l || b != n) ==> Cnt(r, a, k, b) == Cnt(g, a, k, b)) &&
      (forall a: nat :: Cnt(r, a, l, n) == Cnt(g, a, l, n) + multiset(p)[a]) &&
      (forall a: nat, k: nat :: (k != l || a !in p) ==> Adj(r, a, k) == Adj(g, a, k))
    decreases |p|
  {
    if p != [] {
      var q := p[..|p| - 1];
      var x := p[|p| - 1];
      assert p == q + [x];
      assert AtLevel(g, l, q);
      AddBackEdgesCounts(g, l, n, q);
      var r0 := AddBackEdges(g, l, n, q);
      AppendCounts(r0, x, l, n);
      var r := Append(r0, x, l, n);
      forall a: nat ensures Cnt(r, a, l, n) == Cnt(g, a, l, n) + multiset(p)[a] {
        var mq: multiset<nat> := multiset(q);
        assert Cnt(r0, a, l, n) == Cnt(g, a, l, n) + mq[a];
      }
      forall a: nat, k: nat | k != l || a !in p ensures Adj(r, a, k) == Adj(g, a, k) {
        assert a !in q ==> Adj(r0, a, k) == Adj(g, a, k);
      }
    }
  }

  /** After step 1 no list holds `n` at level `l`, and the graph is symmetric elsewhere. */
  lemma PrunedFacts(g: seq<Node>, n: nat, l: nat)
    requires WellFormed(g) && Symmetric(g) && n < |g| && l < |g[n].neighbors|
    ensures var g1 := Pruned(g, n, l);
      WellFormed(g1) && SymmetricOff(g1, l, n) && (forall a: nat :: Cnt(g1, a, l, n) == 0) &&
      (forall a: nat, k: nat :: (k != l || a !in Adj(g, n, l)) ==> Adj(g1, a, k) == Adj(g, a, k))
  {
    WellFormedAtLevel(g, n, l);
    var list := Adj(g, n, l);
    var g1 := DropBackEdges(g, l, n, list);
    DropBackEdgesWellFormed(g, l, n, list);
    DropBackEdgesFrame(g, l, n, list);
    DropBackEdgesRemoves(g, l, n, list);
    forall a: nat ensures Cnt(g1, a, l, n) == 0 {
      assert Cnt(g, a, l, n) == Cnt(g, n, l, a);
    }
    forall a: nat, k: nat, b: nat | k != l || (a != n && b != n) ensures Cnt(g1, a, k, b) == Cnt(g1, b, k, a) {
      assert Cnt(g, a, k, b) == Cnt(g, b, k, a);
    }
  }

  /** After step 5 likewise, and only the lists of former neighbours have changed. */
  lemma RewiredFacts(g: seq<Node>, n: nat, l: nat, m: int, dist: (Vector, Vector) -> real)
    requires WellFormed(g) && Symmetric(g) && n < |g| && l < |g[n].neighbors| && m >= 1
    ensures var g2 := Rewired(g, n, l, m, dist);
      WellFormed(g2) && SymmetricOff(g2, l, n) && (forall a: nat :: Cnt(g2, a, l, n) == 0) &&
      (forall a: nat, k: nat :: (k != l || a !in Adj(g, n, l)) ==> Adj(g2, a, k) == Adj(g, a, k))
  {
    WellFormedAtLevel(g, n, l);
    PrunedFacts(g, n, l);
    var g1 := Pruned(g, n, l);
    var list := Adj(g, n, l);
    KeptInList(g1, n, l, list, m, dist);
    DroppedInList(g1, n, l, list, m, dist);
    var keep := Kept(g1, n, l, list, m, dist);
    var ds := Dropped(g1, n, l, list, m, dist);
    RewireFacts(g1, l, n, m, keep, ds, dist);
  }

  /**
   * RefreshNeighborConnections keeps the graph well formed and symmetric, changes
   * only the level-`l` lists of `n` and of its former neighbours, and leaves `n`
   * with exactly the new neighbours.
   */
  lemma RefreshedKeepsGraph(g: seq<Node>, n: nat, l: nat, m: int, dist: (Vector, Vector) -> real)
    requires WellFormed(g) && Symmetric(g) && n < |g| && l < |g[n].neighbors| && m >= 1
    ensures WellFormed(Refreshed(g, n, l, m, dist))
    ensures Symmetric(Refreshed(g, n, l, m, dist))
    ensures forall a: nat, k: nat :: (k != l || (a != n && a !in Adj(g, n, l))) ==>
              Adj(Refreshed(g, n, l, m, dist), a, k) == Adj(g, a, k)
    ensures Adj(Refreshed(g, n, l, m, dist), n, l) == NewNeighbors(g, n, l, m, dist)
  {
    RefreshedWellFormed(g, n, l, m, dist);
    RefreshedRestoresSymmetry(g, n, l, m, dist);
    RefreshedFrame(g, n, l, m, dist);
  }

  lemma RefreshedWellFormed(g: seq<Node>, n: nat, l: nat, m: int, dist: (Vector, Vector) -> real)
    requires WellFormed(g) && Symmetric(g) && n < |g| && l < |g[n].neighbors| && m >= 1
    ensures WellFormed(Refreshed(g, n, l, m, dist))
  {
    WellFormedAtLevel(g, n, l);
    var list := Adj(g, n, l);
    RewiredFacts(g, n, l, m, dist);
    KeptInList(Pruned(g, n, l), n, l, list, m, dist);
    var keep := NewNeighbors(g, n, l, m, dist);
    var g2 := Rewired(g, n, l, m, dist);
    forall i | 0 <= i < |keep| ensures ValidEdge(g2, n, l, keep[i]) {
      assert keep[i] in list;
    }
    SetAdjKeepsWellFormed(g2, n, l, keep);
    var g3 := SetAdj(g2, n, l, keep);
    AddBackEdgesWellFormed(g3, l, n, keep);
    assert AddBackEdges(g3, l, n, keep) == Refreshed(g, n, l, m, dist);
  }

  lemma RefreshedRestoresSymmetry(g: seq<Node>, n: nat, l: nat, m: int, dist: (Vector, Vector) -> real)
    requires WellFormed(g) && Symmetric(g) && n < |g| && l < |g[n].neighbors| && m >= 1
    ensures Symmetric(Refreshed(g, n, l, m, dist))
  {
    WellFormedAtLevel(g, n, l);
    var list := Adj(g, n, l);
    RewiredFacts(g, n, l, m, dist);
    KeptInList(Pruned(g, n, l), n, l, list, m, dist);
    var keep := NewNeighbors(g, n, l, m, dist);
    var g2 := Rewired(g, n, l, m, dist);
    var g3 := SetAdj(g2, n, l, keep);
    AtLevelShape(g2, g3, l, keep);
    assert n !in keep;
    BackEdgesRestore(g2, n, l, keep);
    assert AddBackEdges(g3, l, n, keep) == Refreshed(g, n, l, m, dist);
  }

  /** Linking `n` back from each node of `keep` makes the graph symmetric again. */
  lemma BackEdgesRestore(g2: seq<Node>, n: nat, l: nat, keep: seq<nat>)
    requires n < |g2| && l < |g2[n].neighbors| && n !in keep && AtLevel(SetAdj(g2, n, l, keep), l, keep)
    requires SymmetricOff(g2, l, n) && forall a: nat :: Cnt(g2, a, l, n) == 0
    ensures Symmetric(AddBackEdges(SetAdj(g2, n, l, keep), l, n, keep))
  {
    var g3 := SetAdj(g2, n, l, keep);
    AddBackEdgesCounts(g3, l, n, keep);
    RestoredSymmetry(g2, n, l, keep, AddBackEdges(g3, l, n, keep));
  }

  lemma RefreshedFrame(g: seq<Node>, n: nat, l: nat, m: int, dist: (Vector, Vector) -> real)
    requires WellFormed(g) && Symmetric(g) && n < |g| && l < |g[n].neighbors| && m >= 1
    ensures forall a: nat, k: nat :: (k != l || (a != n && a !in Adj(g, n, l))) ==>
              Adj(Refreshed(g, n, l, m, dist), a, k) == Adj(g, a, k)
    ensures Adj(Refreshed(g, n, l, m, dist), n, l) == NewNeighbors(g, n, l, m, dist)
  {
    WellFormedAtLevel(g, n, l);
    var list := Adj(g, n, l);
    RewiredFacts(g, n, l, m, dist);
    KeptInList(Pruned(g, n, l), n, l, list, m, dist);
    var keep := NewNeighbors(g, n, l, m, dist);
    var g2 := Rewired(g, n, l, m, dist);
    var g3 := SetAdj(g2, n, l, keep);
    AddBackEdgesCounts(g3, l, n, keep);
    var r := AddBackEdges(g3, l, n, keep);
    assert r == Refreshed(g, n, l, m, dist);
    assert n !in keep;
  }

  /** Step 6 restores full symmetry: `n` lists exactly the nodes that list it back. */
  lemma RestoredSymmetry(g2: seq<Node>, n: nat, l: nat, keep: seq<nat>, r: seq<Node>)
    requires n < |g2| && l < |g2[n].neighbors| && n !in keep
    requires SymmetricOff(g2, l, n) && forall a: nat :: Cnt(g2, a, l, n) == 0
    requires forall a: nat, k: nat, b: nat :: (k != l || b != n) ==> Cnt(r, a, k, b) == Cnt(SetAdj(g2, n, l, keep), a, k, b)
    requires forall a: nat :: Cnt(r, a, l, n) == Cnt(SetAdj(g2, n, l, keep), a, l, n) + multiset(keep)[a]
    ensures Symmetric(r)
  {
    var g3 := SetAdj(g2, n, l, keep);
    forall a: nat, k: nat, b: nat ensures Cnt(r, a, k, b) == Cnt(r, b, k, a) {
      if k != l || (a != n && b != n) {
        assert Adj(g3, a, k) == Adj(g2, a, k) && Adj(g3, b, k) == Adj(g2, b, k);
        assert Cnt(g2, a, k, b) == Cnt(g2, b, k, a);
      } else if a != n {
        assert Adj(g3, a, l) == Adj(g2, a, l);
        assert Cnt(g2, a, l, n) == 0;
        assert Adj(g3, n, l) == keep;
      } else if b != n {
        assert Adj(g3, b, l) == Adj(g2, b, l);
        assert Cnt(g2, b, l, n) == 0;
        assert Adj(g3, n, l) == keep;
      }
    }
  }

  /** The entries of step 2 depend only on the vectors. */
  lemma {:induction false} FormerNeighborsSameShape(g: seq<Node>, h: seq<Node>, n: nat, list: seq<nat>, dist: (Vector, Vector) -> real)
    requires SameShape(g, h) && n < |g| && forall i :: 0 <= i < |list| ==> list[i] < |g|
    ensures FormerNeighbors(g, n, list, dist) == FormerNeighbors(h, n, list, dist)
    decreases |list|
  {
    if list != [] {
      FormerNeighborsSameShape(g, h, n, list[..|list| - 1], dist);
    }
  }

  lemma {:induction false} NoDuplicatesCount(s: seq<nat>, y: nat)
    requires NoDuplicates(s) && y in s
    ensures multiset(s)[y] == 1
  {
    assert s == [s[0]] + s[1..];
    if s[0] == y {
      assert y !in s[1..];
    } else {
      NoDuplicatesCount(s[1..], y);
    }
  }

  /**
   * The new neighbours of `n`: at most `m` former neighbours, at least one if it had any,
   * none twice.
   */
  lemma RefreshedNeighbors(g: seq<Node>, n: nat, l: nat, m: int, dist: (Vector, Vector) -> real)
    requires WellFormed(g) && Symmetric(g) && n < |g| && l < |g[n].neighbors| && m >= 1
    ensures var keep := Adj(Refreshed(g, n, l, m, dist), n, l);
      (forall y :: y in keep ==> y in Adj(g, n, l)) &&
      |keep| <= m && (Adj(g, n, l) != [] ==> |keep| >= 1) && NoDuplicates(keep)
  {
    RefreshedAdj(g, n, l, m, dist);
    NewNeighborsBounded(g, n, l, m, dist);
  }

  lemma NewNeighborsBounded(g: seq<Node>, n: nat, l: nat, m: int, dist: (Vector, Vector) -> real)
    requires WellFormed(g) && n < |g| && m >= 1
    ensures var keep := NewNeighbors(g, n, l, m, dist);
      (forall y :: y in keep ==> y in Adj(g, n, l)) &&
      |keep| <= m && (Adj(g, n, l) != [] ==> |keep| >= 1) && NoDuplicates(keep)
  {
    KeptInList(Pruned(g, n, l), n, l, Adj(g, n, l), m, dist);
  }

  /** No former neighbour that `n` dropped is closer to it than one it kept. */
  lemma RefreshedKeepsClosest(g: seq<Node>, n: nat, l: nat, m: int, dist: (Vector, Vector) -> real, x: nat, y: nat)
    requires WellFormed(g) && Symmetric(g) && n < |g| && l < |g[n].neighbors| && m >= 1
    requires x in Adj(g, n, l) && x !in Adj(Refreshed(g, n, l, m, dist), n, l)
    requires y in Adj(Refreshed(g, n, l, m, dist), n, l)
    ensures x < |g| && y < |g| && dist(g[n].vector, g[y].vector) <= dist(g[n].vector, g[x].vector)
  {
    RefreshedAdj(g, n, l, m, dist);
    NewAreClosest(g, n, l, m, dist, x, y);
  }

  /** `n`'s list after the refresh is `newNeighbors`. */
  lemma RefreshedAdj(g: seq<Node>, n: nat, l: nat, m: int, dist: (Vector, Vector) -> real)
    requires WellFormed(g) && Symmetric(g) && n < |g| && l < |g[n].neighbors| && m >= 1
    ensures Adj(Refreshed(g, n, l, m, dist), n, l) == NewNeighbors(g, n, l, m, dist)
  {
    RefreshedKeepsGraph(g, n, l, m, dist);
  }

  /** No former neighbour left out of `newNeighbors` is closer to `n` than one in it. */
  lemma NewAreClosest(g: seq<Node>, n: nat, l: nat, m: int, dist: (Vector, Vector) -> real, x: nat, y: nat)
    requires WellFormed(g) && n < |g| && l < |g[n].neighbors| && m >= 1
    requires x in Adj(g, n, l) && x !in NewNeighbors(g, n, l, m, dist) && y in NewNeighbors(g, n, l, m, dist)
    ensures x < |g| && y < |g| && dist(g[n].vector, g[y].vector) <= dist(g[n].vector, g[x].vector)
  {
    var g1 := Pruned(g, n, l);
    KeptInList(g1, n, l, Adj(g, n, l), m, dist);
    KeptAreClosest(g1, n, l, Adj(g, n, l), m, dist, x, y);
  }

  /** Every new neighbour lists `n` back exactly once. */
  lemma RefreshedBackEdge(g: seq<Node>, n: nat, l: nat, m: int, dist: (Vector, Vector) -> real, y: nat)
    requires WellFormed(g) && Symmetric(g) && n < |g| && l < |g[n].neighbors| && m >= 1
    requires y in Adj(Refreshed(g, n, l, m, dist), n, l)
    ensures Cnt(Refreshed(g, n, l, m, dist), y, l, n) == 1
  {
    var r := Refreshed(g, n, l, m, dist);
    RefreshedSymmetric(g, n, l, m, dist, y, n);
    RefreshedNeighbors(g, n, l, m, dist);
    NoDuplicatesCount(Adj(r, n, l), y);
  }

  /** A former neighbour that `n` dropped no longer lists `n`. */
  lemma RefreshedNoBackEdge(g: seq<Node>, n: nat, l: nat, m: int, dist: (Vector, Vector) -> real, x: nat)
    requires WellFormed(g) && Symmetric(g) && n < |g| && l < |g[n].neighbors| && m >= 1
    requires x !in Adj(Refreshed(g, n, l, m, dist), n, l)
    ensures n !in Adj(Refreshed(g, n, l, m, dist), x, l)
  {
    RefreshedSymmetric(g, n, l, m, dist, x, n);
  }

  /** The refreshed graph is symmetric. */
  lemma RefreshedSymmetric(g: seq<Node>, n: nat, l: nat, m: int, dist: (Vector, Vector) -> real, a: nat, b: nat)
    requires WellFormed(g) && Symmetric(g) && n < |g| && l < |g[n].neighbors| && m >= 1
    ensures Cnt(Refreshed(g, n, l, m, dist), a, l, b) == Cnt(Refreshed(g, n, l, m, dist), b, l, a)
  {
    RefreshedKeepsGraph(g, n, l, m, dist);
  }

  /** After step 5, every dropped former neighbour lists some kept one. */
  lemma {:induction false} RewireLinks(g: seq<Node>, l: nat, n: nat, m: int, keep: seq<nat>, ds: seq<nat>, dist: (Vector, Vector) -> real, j: nat)
    requires |ds| > 0 ==> |keep| >= 1
    requires AtLevel(g, l, keep) && AtLevel(g, l, ds)
    requires forall x :: x in ds ==> x !in keep
    requires NoDuplicates(ds) && j < |ds|
    ensures exists t :: t in keep && t in Adj(Rewire(g, l, n, m, keep, ds, dist), ds[j], l)
    decreases |ds|
  {
    var q := ds[..|ds| - 1];
    var d := ds[|ds| - 1];
    RewirePrefix(g, l, n, m, keep, ds, dist);
    var r0 := Rewire(g, l, n, m, keep, q, dist);
    var r := Rewire(g, l, n, m, keep, ds, dist);
    RewireOneFrame(r0, l, n, m, keep, d, dist);
    if j == |ds| - 1 {
      var t :| t in keep && t in Adj(r, d, l);
      assert t in Adj(r, ds[j], l);
    } else {
      RewireLinks(g, l, n, m, keep, q, dist, j);
      assert ds[j] == q[j] && ds[j] != d;
      var t :| t in keep && t in Adj(r0, q[j], l);
      assert Adj(r, ds[j], l) == Adj(r0, ds[j], l);
      assert t in Adj(r, ds[j], l);
    }
  }

  /** Step 5 over `ds` is step 5 over all of `ds` but its last node, then one more rewiring. */
  lemma RewirePrefix(g: seq<Node>, l: nat, n: nat, m: int, keep: seq<nat>, ds: seq<nat>, dist: (Vector, Vector) -> real)
    requires |ds| > 0 && |keep| >= 1
    requires AtLevel(g, l, keep) && AtLevel(g, l, ds)
    requires forall x :: x in ds ==> x !in keep
    requires NoDuplicates(ds)
    ensures var q := ds[..|ds| - 1]; var d := ds[|ds| - 1];
      AtLevel(g, l, q) && NoDuplicates(q) && (forall x :: x in q ==> x !in keep) && d !in keep &&
      (forall i :: 0 <= i < |q| ==> q[i] == ds[i] && q[i] != d) &&
      var r0 := Rewire(g, l, n, m, keep, q, dist);
      AtLevel(r0, l, keep) && d < |r0| && l < |r0[d].neighbors| &&
      Rewire(g, l, n, m, keep, ds, dist) == RewireOne(r0, l, n, m, keep, d, dist)
  {
    var q := ds[..|ds| - 1];
    var d := ds[|ds| - 1];
    assert ds == q + [d];
    assert AtLevel(g, l, q);
    assert d in ds;
    forall x | x in q ensures x !in keep {
      assert x in ds;
    }
    forall i, k | 0 <= i < k < |q| ensures q[i] != q[k] {
      assert q[i] == ds[i] && q[k] == ds[k];
    }
    forall i | 0 <= i < |q| ensures q[i] == ds[i] && q[i] != d {
      assert ds[i] != ds[|ds| - 1];
    }
    var r0 := Rewire(g, l, n, m, keep, q, dist);
    AtLevelShape(g, r0, l, keep);
  }

  /**
   * A former neighbour that `n` dropped is linked, in both directions, to one of the
   * new neighbours of `n`.
   */
  lemma RefreshedRelinks(g: seq<Node>, n: nat, l: nat, m: int, dist: (Vector, Vector) -> real, x: nat)
    requires WellFormed(g) && Symmetric(g) && n < |g| && l < |g[n].neighbors| && m >= 1
    requires x in Adj(g, n, l) && x !in Adj(Refreshed(g, n, l, m, dist), n, l)
    ensures var r := Refreshed(g, n, l, m, dist);
      exists t :: t in Adj(r, n, l) && t in Adj(r, x, l) && x in Adj(r, t, l)
  {
    var r := Refreshed(g, n, l, m, dist);
    RefreshedAdj(g, n, l, m, dist);
    var t := DroppedRelinked(g, n, l, m, dist, x);
    RefreshedListOf(g, n, l, m, dist, x);
    assert t in Adj(r, x, l);
    RefreshedSymmetric(g, n, l, m, dist, x, t);
  }

  /** After step 5 a dropped former neighbour `x` lists some node `t` of `newNeighbors`. */
  ghost function DroppedRelinked(g: seq<Node>, n: nat, l: nat, m: int, dist: (Vector, Vector) -> real, x: nat): (t: nat)
    requires WellFormed(g) && Symmetric(g) && n < |g| && l < |g[n].neighbors| && m >= 1
    requires x in Adj(g, n, l) && x !in NewNeighbors(g, n, l, m, dist)
    ensures t in NewNeighbors(g, n, l, m, dist) && t in Adj(Rewired(g, n, l, m, dist), x, l)
  {
    WellFormedAtLevel(g, n, l);
    var list := Adj(g, n, l);
    var g1 := Pruned(g, n, l);
    KeptInList(g1, n, l, list, m, dist);
    DroppedInList(g1, n, l, list, m, dist);
    KeptOrDropped(g1, n, l, list, m, dist);
    var keep := NewNeighbors(g, n, l, m, dist);
    var ds := Dropped(g1, n, l, list, m, dist);
    assert x in ds;
    var j := IndexOf(ds, x);
    RewireLinks(g1, l, n, m, keep, ds, dist, j);
    var g2 := Rewired(g, n, l, m, dist);
    assert g2 == Rewire(g1, l, n, m, keep, ds, dist);
    var t :| t in keep && t in Adj(g2, x, l);
    t
  }

  /** The last steps of the refresh leave the list of a dropped former neighbour as step 5 left it. */
  lemma RefreshedListOf(g: seq<Node>, n: nat, l: nat, m: int, dist: (Vector, Vector) -> real, x: nat)
    requires WellFormed(g) && Symmetric(g) && n < |g| && l < |g[n].neighbors| && m >= 1
    requires x in Adj(g, n, l) && x !in NewNeighbors(g, n, l, m, dist)
    ensures Adj(Refreshed(g, n, l, m, dist), x, l) == Adj(Rewired(g, n, l, m, dist), x, l)
  {
    var keep := NewNeighbors(g, n, l, m, dist);
    var g2 := Rewired(g, n, l, m, dist);
    var g3 := SetAdj(g2, n, l, keep);
    AtLevelShape(g2, g3, l, keep);
    assert Refreshed(g, n, l, m, dist) == AddBackEdges(g3, l, n, keep);
    AddBackEdgesCounts(g3, l, n, keep);
    RefreshedAdj(g, n, l, m, dist);
  }

  /** In a symmetric graph a listed neighbour lists back. */
  lemma SymmetricMember(g: seq<Node>, x: nat, l: nat, y: nat)
    requires Symmetric(g) && y in Adj(g, x, l)
    ensures x in Adj(g, y, l)
  {
    assert Cnt(g, x, l, y) == Cnt(g, y, l, x);
  }

  // ---------------------------------------------------------------------
  // Layers: `Nodes[l]` lists, in insertion order, the nodes of level >= l.
  // ---------------------------------------------------------------------

  /** The arena indices of the nodes whose level is at least `l`, in arena order. */
  function Members(lv: seq<int>, l: nat): (r: seq<nat>)
    ensures forall x :: x in r <==> 0 <= x < |lv| && lv[x] >= l
    ensures forall i, j :: 0 <= i < j < |r| ==> r[i] < r[j]
    decreases |lv|
  {
    if lv == [] then []
    else
      var last := |lv| - 1;
      var pre := Members(lv[..last], l);
      var r := pre + (if lv[last] >= l then [last] else []);
      assert forall x :: 0 <= x < last ==> lv[..last][x] == lv[x];
      assert forall i :: 0 <= i < |pre| ==> pre[i] < last by {
        forall i | 0 <= i < |pre| ensures pre[i] < last {
          assert pre[i] in pre;
        }
      }
      r
  }

  /** The number of layers: one more than the highest level. */
  function Height(lv: seq<int>): (h: nat)
    ensures forall x :: 0 <= x < |lv| ==> lv[x] < h
    ensures h > 0 ==> exists x :: 0 <= x < |lv| && lv[x] == h - 1
    decreases |lv|
  {
    if lv == [] then 0
    else
      var h0 := Height(lv[..|lv| - 1]);
      var v := lv[|lv| - 1];
      assert forall x :: 0 <= x < |lv| - 1 ==> lv[x] == lv[..|lv| - 1][x];
      if v + 1 > h0 then v + 1 else h0
  }

  /** `Nodes`: one layer per level, from level 0 upwards. */
  function Layers(lv: seq<int>): (r: seq<seq<nat>>)
    ensures |r| == Height(lv) && forall l :: 0 <= l < |r| ==> r[l] == Members(lv, l)
  {
    seq(Height(lv), l requires 0 <= l => Members(lv, l))
  }

  /** A layer above level `l` is contained in layer `l`, and every layer below the height is non-empty. */
  lemma LayersNested(lv: seq<int>, l: nat)
    ensures forall x :: x in Members(lv, l + 1) ==> x in Members(lv, l)
    ensures l < Height(lv) ==> Members(lv, l) != []
  {
    if l < Height(lv) {
      var x :| 0 <= x < |lv| && lv[x] == Height(lv) - 1;
      assert x in Members(lv, l);
    }
  }

  /** Layer 0 holds every node when no level is negative. */
  lemma {:induction false} LayerZero(lv: seq<int>)
    requires forall x :: 0 <= x < |lv| ==> lv[x] >= 0
    ensures |Members(lv, 0)| == |lv|
    decreases |lv|
  {
    if lv != [] {
      LayerZero(lv[..|lv| - 1]);
    }
  }

  /** Layers at or above the height are empty. */
  lemma {:induction false} MembersAbove(lv: seq<int>, l: nat)
    requires l >= Height(lv)
    ensures Members(lv, l) == []
    decreases |lv|
  {
    if lv != [] {
      MembersAbove(lv[..|lv| - 1], l);
    }
  }

  /** Adding a node of level `v` appends its index to layers 0..v. */
  lemma MembersAppend(lv: seq<int>, v: int, l: nat)
    ensures Members(lv + [v], l) == Members(lv, l) + (if v >= l then [|lv|] else [])
  {
    assert (lv + [v])[..|lv|] == lv;
  }

  lemma HeightAppend(lv: seq<int>, v: int)
    ensures Height(lv + [v]) == if v + 1 > Height(lv) then v + 1 else Height(lv)
  {
    assert (lv + [v])[..|lv|] == lv;
  }

  // ---------------------------------------------------------------------
  // Reachability along level-`l` lists, used by Verify.
  // ---------------------------------------------------------------------

  /** `s` is closed under following level-`l` lists. */
  ghost predicate Closed(g: seq<Node>, l: nat, s: set<nat>) {
    forall x, i :: x in s && 0 <= i < |Adj(g, x, l)| ==> Adj(g, x, l)[i] in s
  }

  /** `x` is reachable from `root` at level `l`: it lies in every closed set that holds `root`. */
  ghost predicate Reachable(g: seq<Node>, l: nat, root: nat, x: nat) {
    forall s: set<nat> {:trigger Closed(g, l, s)} :: root in s && Closed(g, l, s) ==> x in s
  }

  /** The root is reachable, and so is every level-`l` neighbour of a reachable node. */
  lemma ReachableStep(g: seq<Node>, l: nat, root: nat, x: nat, y: nat)
    requires Reachable(g, l, root, x) && y in Adj(g, x, l)
    ensures Reachable(g, l, root, y) && Reachable(g, l, root, root)
  {
    forall s: set<nat> | root in s && Closed(g, l, s) ensures y in s {
      var i :| 0 <= i < |Adj(g, x, l)| && Adj(g, x, l)[i] == y;
    }
  }

  /** A node that no level-`l` list mentions is reachable only from itself. */
  lemma ReachableAvoids(g: seq<Node>, l: nat, root: nat, x: nat, n: nat)
    requires WellFormed(g) && root < |g| && root != n
    requires forall a: nat :: n !in Adj(g, a, l)
    requires Reachable(g, l, root, x)
    ensures x != n && x < |g|
  {
    var s := Below(|g|) - {n};
    forall a, i | a in s && 0 <= i < |Adj(g, a, l)| ensures Adj(g, a, l)[i] in s {
      WellFormedMember(g, a, l, Adj(g, a, l)[i]);
    }
    assert Closed(g, l, s);
  }

  /** The naturals below `k`. */
  function Below(k: nat): (r: set<nat>)
    ensures forall x: int :: x in r <==> 0 <= x < k
    ensures |r| == k
  {
    if k == 0 then {}
    else
      var r0 := Below(k - 1);
      assert k - 1 !in r0;
      r0 + {k - 1}
  }

  lemma CardAdd(s: set<nat>, x: nat)
    ensures |s + {x}| == |s| + (if x in s then 0 else 1)
  {
    if x in s {
      assert s + {x} == s;
    }
  }

  /** A set of naturals below `n` has at most `n` members. */
  lemma CardBelow(s: set<nat>, n: nat)
    requires forall x :: x in s ==> x < n
    ensures |s| <= n
  {
    assert s <= Below(n);
    assert |s| <= |Below(n)| by {
      var b := Below(n);
      assert b == s + (b - s);
    }
  }

  /** Linking two distinct nodes both ways keeps the graph symmetric. */
  lemma LinkKeepsSymmetric(g: seq<Node>, l: nat, a: nat, b: nat)
    requires a < |g| && b < |g| && a != b && l < |g[a].neighbors| && l < |g[b].neighbors|
    requires Symmetric(g)
    ensures Symmetric(Append(Append(g, a, l, b), b, l, a))
  {
    var r := Append(Append(g, a, l, b), b, l, a);
    forall x: nat, k: nat, y: nat ensures Cnt(r, x, k, y) == Cnt(r, y, k, x) {
      LinkCount(g, l, a, b, x, k, y);
      LinkCount(g, l, a, b, y, k, x);
    }
  }

  /** Appending a node without neighbours keeps the graph well formed and symmetric, and changes no list. */
  lemma AddNodeKeepsGraph(g: seq<Node>, node: Node)
    requires WellFormed(g) && Symmetric(g)
    requires |node.neighbors| >= 1 && forall l :: 0 <= l < |node.neighbors| ==> node.neighbors[l] == []
    ensures WellFormed(g + [node]) && Symmetric(g + [node])
    ensures forall x: nat, l: nat :: Adj(g + [node], x, l) == Adj(g, x, l)
    ensures forall x: nat, l: nat :: |g| !in Adj(g + [node], x, l)
  {
    var r := g + [node];
    assert forall x: nat, l: nat :: Adj(r, x, l) == Adj(g, x, l);
    forall x: nat, l: nat, i | 0 <= i < |Adj(r, x, l)| ensures ValidEdge(r, x, l, Adj(r, x, l)[i]) {
      WellFormedMember(g, x, l, Adj(g, x, l)[i]);
    }
    forall x: nat, l: nat ensures |g| !in Adj(r, x, l) {
      forall i | 0 <= i < |Adj(g, x, l)| ensures Adj(g, x, l)[i] != |g| {
        assert ValidEdge(g, x, l, Adj(g, x, l)[i]);
      }
    }
    assert forall a: nat, l: nat, b: nat :: Cnt(r, a, l, b) == Cnt(g, a, l, b);
  }
}
