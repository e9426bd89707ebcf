/**
 * The frontier used by the HNSW index (`NodeWithDistance` and
 * `NodeDistanceSet` in Experiments/HNSW/HNSW.cs): a set of (node, distance)
 * pairs, deduplicated by node, that caches its nearest and furthest member.
 * Nodes are arena indices of the collection; the distance is to the set's
 * query vector and is computed by the caller.
 */
module NodeDistanceSets {
  import opened Wrappers

  /** `NodeWithDistance`: a node with its distance to the query. */
  datatype Entry = Entry(node: nat, dist: real)

  /** `NodeWithDistance.Equals`: two entries are equal when they hold the same node, whatever their distances. */
  predicate SameNode(a: Entry, b: Option<Entry>) {
    b.Some? && a.node == b.value.node
  }

  /** The nodes of a sequence of entries, in order. */
  function NodesOf(items: seq<Entry>): (r: seq<nat>)
    ensures |r| == |items|
    ensures forall i :: 0 <= i < |items| ==> r[i] == items[i].node
  {
    if items == [] then [] else [items[0].node] + NodesOf(items[1..])
  }

  /** No node occurs twice: the `HashSet` invariant under node equality. */
  predicate Distinct(items: seq<Entry>) {
    forall i, j :: 0 <= i < j < |items| ==> items[i].node != items[j].node
  }

  /** `HashSet.Add`: the set is unchanged when an entry with that node is already present. */
  function Inserted(items: seq<Entry>, e: Entry): (r: seq<Entry>)
    ensures Distinct(items) ==> Distinct(r)
    ensures forall x :: x in r <==> x in items || (x == e && e.node !in NodesOf(items))
  {
    if e.node in NodesOf(items) then items else items + [e]
  }

  /** `HashSet.Remove`: drops the member holding node `n`, keeping the order of the others. */
  function Removed(items: seq<Entry>, n: nat): (r: seq<Entry>)
    ensures forall x :: x in r <==> x in items && x.node != n
    ensures Distinct(items) ==> Distinct(r)
    ensures Distinct(items) && n in NodesOf(items) ==> |r| == |items| - 1
    ensures n !in NodesOf(items) ==> r == items
  {
    if items == [] then []
    else
      var rest := Removed(items[1..], n);
      var r := if items[0].node == n then rest else [items[0]] + rest;
      RemovedCons(items, n, rest, r);
      r
  }

  /** One step of `Removed`: the first entry dropped or kept in front of the rest's answer. */
  lemma RemovedCons(items: seq<Entry>, n: nat, rest: seq<Entry>, r: seq<Entry>)
    requires items != []
    requires forall x :: x in rest <==> x in items[1..] && x.node != n
    requires Distinct(items[1..]) ==> Distinct(rest)
    requires Distinct(items[1..]) && n in NodesOf(items[1..]) ==> |rest| == |items| - 2
    requires n !in NodesOf(items[1..]) ==> rest == items[1..]
    requires r == if items[0].node == n then rest else [items[0]] + rest
    ensures forall x :: x in r <==> x in items && x.node != n
    ensures Distinct(items) ==> Distinct(r)
    ensures Distinct(items) && n in NodesOf(items) ==> |r| == |items| - 1
    ensures n !in NodesOf(items) ==> r == items
  {
    assert items == [items[0]] + items[1..];
    assert NodesOf(items) == [items[0].node] + NodesOf(items[1..]);
    if Distinct(items) {
      DistinctTail(items);
      if items[0].node != n {
        RemovedKeepsDistinct(items[0], items[1..], rest);
      }
    }
  }

  /** The tail of a distinct sequence is distinct and misses its head's node. */
  lemma DistinctTail(items: seq<Entry>)
    requires Distinct(items) && items != []
    ensures Distinct(items[1..]) && items[0].node !in NodesOf(items[1..])
  {
    var t := items[1..];
    forall i, j | 0 <= i < j < |t| ensures t[i].node != t[j].node {
      assert t[i] == items[i + 1] && t[j] == items[j + 1];
    }
    forall k | 0 <= k < |t| ensures NodesOf(t)[k] != items[0].node {
      assert t[k] == items[k + 1];
    }
  }

  /** A distinct part of `t` stays distinct with a head that `t` does not hold. */
  lemma RemovedKeepsDistinct(h: Entry, t: seq<Entry>, rest: seq<Entry>)
    requires Distinct(rest) && h.node !in NodesOf(t) && forall x :: x in rest ==> x in t
    ensures Distinct([h] + rest)
  {
    forall k | 0 <= k < |rest| ensures rest[k].node != h.node {
      assert rest[k] in rest;
      var i :| 0 <= i < |t| && t[i] == rest[k];
      assert NodesOf(t)[i] == t[i].node;
    }
    DistinctCons(h, rest);
  }

  /** An entry whose node is not among those of a distinct sequence can go in front of it. */
  lemma DistinctCons(h: Entry, s: seq<Entry>)
    requires Distinct(s) && forall k :: 0 <= k < |s| ==> s[k].node != h.node
    ensures Distinct([h] + s)
  {
    var r := [h] + s;
    forall i, j | 0 <= i < j < |r| ensures r[i].node != r[j].node {
      if i > 0 {
        assert r[i] == s[i - 1];
      }
      assert r[j] == s[j - 1];
    }
  }

  /** Every member is at least as far as the cached nearest one, which is a member. */
  predicate IsNearest(items: seq<Entry>, o: Option<Entry>) {
    (o.None? <==> items == []) &&
    (o.Some? ==> o.value in items && forall e :: e in items ==> o.value.dist <= e.dist)
  }

  /** Every member is at most as far as the cached furthest one, which is a member. */
  predicate IsFurthest(items: seq<Entry>, o: Option<Entry>) {
    (o.None? <==> items == []) &&
    (o.Some? ==> o.value in items && forall e :: e in items ==> e.dist <= o.value.dist)
  }

  /** `Enumerable.MinBy` on distance: the first member of minimal distance, or null. */
  function MinBy(items: seq<Entry>): (r: Option<Entry>)
    ensures IsNearest(items, r)
  {
    if items == [] then None
    else
      var rest := MinBy(items[1..]);
      if rest.None? || items[0].dist <= rest.value.dist then Some(items[0]) else rest
  }

  /** `Enumerable.MaxBy` on distance: the first member of maximal distance, or null. */
  function MaxBy(items: seq<Entry>): (r: Option<Entry>)
    ensures IsFurthest(items, r)
  {
    if items == [] then None
    else
      var rest := MaxBy(items[1..]);
      if rest.None? || items[0].dist >= rest.value.dist then Some(items[0]) else rest
  }

  /** Non-decreasing distances. */
  predicate Ascending(s: seq<Entry>) {
    forall i, j :: 0 <= i < j < |s| ==> s[i].dist <= s[j].dist
  }

  /** Places `e` before the first entry at least as far, which keeps the sort stable. */
  function InsertByDistance(e: Entry, s: seq<Entry>): (r: seq<Entry>)
    ensures multiset(r) == multiset(s) + multiset{e}
    ensures Ascending(s) ==> Ascending(r)
  {
    if s == [] then [e]
    else if e.dist <= s[0].dist then [e] + s
    else
      var t := InsertByDistance(e, s[1..]);
      assert s == [s[0]] + s[1..];
      AscendingCons(s[0], t, s[1..], e);
      [s[0]] + t
  }

  /** A sequence holding the entries of `s` and `e` (as `InsertByDistance` returns) has exactly those members. */
  lemma InsertedEntries(e: Entry, s: seq<Entry>, r: seq<Entry>)
    requires multiset(r) == multiset(s) + multiset{e}
    ensures forall x :: x in r <==> x in s || x == e
    ensures |r| == |s| + 1
  {
    assert forall x :: x in r <==> x in multiset(r);
    assert |r| == |multiset(r)|;
  }

  /** Its nodes are the old ones and `e`'s, none twice when `e`'s was new. */
  lemma InsertedNodes(e: Entry, s: seq<Entry>, r: seq<Entry>)
    requires multiset(r) == multiset(s) + multiset{e}
    ensures forall n :: n in NodesOf(r) <==> n in NodesOf(s) || n == e.node
    ensures Distinct(s) && e.node !in NodesOf(s) ==> Distinct(r)
  {
    InsertedEntries(e, s, r);
    forall n | n in NodesOf(r) ensures n in NodesOf(s) || n == e.node {
      var i :| 0 <= i < |r| && r[i].node == n;
      assert r[i] in r;
      if r[i] != e {
        var k :| 0 <= k < |s| && s[k] == r[i];
        assert NodesOf(s)[k] == n;
      }
    }
    forall n | n in NodesOf(s) ensures n in NodesOf(r) {
      var i :| 0 <= i < |s| && s[i].node == n;
      assert s[i] in r;
      var k :| 0 <= k < |r| && r[k] == s[i];
      assert NodesOf(r)[k] == n;
    }
    assert e.node in NodesOf(r) by {
      assert e in r;
      var k :| 0 <= k < |r| && r[k] == e;
      assert NodesOf(r)[k] == e.node;
    }
    if Distinct(s) && e.node !in NodesOf(s) {
      InsertedDistinct(e, s, r);
    }
  }

  lemma InsertedDistinct(e: Entry, s: seq<Entry>, r: seq<Entry>)
    requires multiset(r) == multiset(s) + multiset{e}
    requires Distinct(s) && e.node !in NodesOf(s)
    ensures Distinct(r)
  {
    assert Distinct(s + [e]) by {
      forall i | 0 <= i < |s| ensures s[i].node != e.node {
        assert NodesOf(s)[i] == s[i].node;
      }
    }
    assert multiset(r) == multiset(s + [e]);
    DistinctSub(r, s + [e]);
  }

  /** Dropping the last entry of an ascending sequence: what remains is ascending, distinct and no further than it. */
  lemma DroppedLast(s: seq<Entry>)
    requires Ascending(s) && Distinct(s) && s != []
    ensures Ascending(s[..|s| - 1]) && Distinct(s[..|s| - 1])
    ensures forall x :: x in s <==> x in s[..|s| - 1] || x == s[|s| - 1]
    ensures forall x :: x in s[..|s| - 1] ==> x.dist <= s[|s| - 1].dist
  {
    var rest := s[..|s| - 1];
    assert s == rest + [s[|s| - 1]];
    forall x | x in rest ensures x.dist <= s[|s| - 1].dist {
      var i :| 0 <= i < |rest| && rest[i] == x;
    }
  }

  /** The nodes without the last entry: all but its node, which occurred once. */
  lemma DroppedLastNode(s: seq<Entry>)
    requires Distinct(s) && s != []
    ensures forall n :: n in NodesOf(s) <==> n in NodesOf(s[..|s| - 1]) || n == s[|s| - 1].node
    ensures s[|s| - 1].node !in NodesOf(s[..|s| - 1])
  {
    var last := |s| - 1;
    NodesOfSnoc(s);
    forall i | 0 <= i < last ensures NodesOf(s[..last])[i] != s[last].node {
      assert NodesOf(s[..last])[i] == s[i].node;
    }
  }

  /** The nodes of a non-empty sequence: those before its last entry, then the last entry's. */
  lemma NodesOfSnoc(s: seq<Entry>)
    requires s != []
    ensures NodesOf(s) == NodesOf(s[..|s| - 1]) + [s[|s| - 1].node]
  {
    var a, b := NodesOf(s), NodesOf(s[..|s| - 1]) + [s[|s| - 1].node];
    assert |a| == |b|;
    forall i | 0 <= i < |a| ensures a[i] == b[i] {
      if i < |s| - 1 {
        assert b[i] == NodesOf(s[..|s| - 1])[i];
      }
    }
  }

  /** Prepending an entry no further than anything in `t` keeps `t` ascending. */
  lemma AscendingCons(h: Entry, t: seq<Entry>, rest: seq<Entry>, e: Entry)
    requires multiset(t) == multiset(rest) + multiset{e}
    requires h.dist < e.dist
    requires Ascending(rest) ==> Ascending(t)
    ensures Ascending([h] + rest) ==> Ascending([h] + t)
  {
    if Ascending([h] + rest) {
      assert Ascending(rest) by {
        forall i, j | 0 <= i < j < |rest| ensures rest[i].dist <= rest[j].dist {
          assert rest[i] == ([h] + rest)[i + 1] && rest[j] == ([h] + rest)[j + 1];
        }
      }
      forall x | x in t ensures h.dist <= x.dist {
        assert x in multiset(t);
        if x != e {
          assert x in multiset(rest);
          assert x in rest;
          var k :| 0 <= k < |rest| && rest[k] == x;
          assert ([h] + rest)[k + 1] == x && ([h] + rest)[0] == h;
          assert ([h] + rest)[0].dist <= ([h] + rest)[k + 1].dist;
        }
      }
      forall i, j | 0 <= i < j < |[h] + t| ensures ([h] + t)[i].dist <= ([h] + t)[j].dist {
        if i == 0 { assert ([h] + t)[j] == t[j - 1] && t[j - 1] in t; }
        else { assert ([h] + t)[i] == t[i - 1] && ([h] + t)[j] == t[j - 1]; }
      }
    }
  }

  /** `OrderBy(r => r.Distance)`: a stable sort by ascending distance. */
  function SortByDistance(s: seq<Entry>): (r: seq<Entry>)
    ensures multiset(r) == multiset(s)
    ensures Ascending(r)
  {
    if s == [] then []
    else
      assert s == [s[0]] + s[1..];
      InsertByDistance(s[0], SortByDistance(s[1..]))
  }

  /** A node occurring twice would occur twice in the multiset. */
  lemma {:induction false} DistinctCounts(t: seq<Entry>, x: Entry)
    requires Distinct(t)
    ensures multiset(t)[x] <= 1
  {
    if t != [] {
      assert t == [t[0]] + t[1..];
      DistinctCounts(t[1..], x);
      if x == t[0] {
        assert x !in t[1..] by {
          forall j | 0 <= j < |t[1..]| ensures t[1..][j] != x { assert t[1..][j] == t[j + 1]; }
        }
      }
    }
  }

  /** Two members of a distinct sequence with the same node are the same entry. */
  lemma DistinctMembers(t: seq<Entry>, x: Entry, y: Entry)
    requires Distinct(t) && x in t && y in t
    ensures x.node == y.node ==> x == y
  {
    var a :| 0 <= a < |t| && t[a] == x;
    var b :| 0 <= b < |t| && t[b] == y;
    assert a != b ==> t[a].node != t[b].node;
  }

  /** Distinct nodes survive taking a sub-multiset (a permutation, a prefix of one). */
  lemma DistinctSub(s: seq<Entry>, t: seq<Entry>)
    requires multiset(s) <= multiset(t) && Distinct(t)
    ensures Distinct(s)
  {
    forall i, j | 0 <= i < j < |s| ensures s[i].node != s[j].node {
      assert s[i] in multiset(s) && s[j] in multiset(s);
      DistinctMembers(t, s[i], s[j]);
      if s[i] == s[j] {
        assert s == s[..j] + [s[j]] + s[j + 1..];
        assert s[i] in s[..j];
        assert multiset(s)[s[i]] >= 2;
        DistinctCounts(t, s[i]);
      }
    }
  }

  /** A prefix of the sorted candidates: what the selection rule promises. */
  lemma SortedPrefix(candidates: seq<Entry>, sorted: seq<Entry>, r: seq<Entry>)
    requires multiset(sorted) == multiset(candidates) && Ascending(sorted)
    requires r <= sorted
    ensures multiset(r) <= multiset(candidates)
    ensures forall e :: e in r ==> e in candidates
    ensures Distinct(candidates) ==> Distinct(r)
    ensures forall e, x :: e in candidates && e !in r && x in r ==> x.dist <= e.dist
  {
    assert sorted == r + sorted[|r|..];
    assert multiset(r) <= multiset(sorted);
    forall e | e in r ensures e in candidates { assert e in multiset(sorted); }
    forall e, x | e in candidates && e !in r && x in r ensures x.dist <= e.dist {
      assert e in multiset(sorted);
      var k :| 0 <= k < |sorted| && sorted[k] == e;
      var i :| 0 <= i < |r| && r[i] == x;
      assert k >= |r|;
    }
    if Distinct(candidates) { DistinctSub(r, candidates); }
  }

  /**
   * `SelectNeighborsSimple`: the `min(|candidates|, m)` nearest candidates
   * in ascending distance (none when `m` is not positive).  No candidate left
   * out is strictly nearer than one selected, and distinct candidates give
   * distinct neighbours.
   */
  function SelectNeighborsSimple(candidates: seq<Entry>, m: int): (r: seq<Entry>)
    ensures |r| == if m <= 0 then 0 else if m < |candidates| then m else |candidates|
    ensures Ascending(r)
    ensures multiset(r) <= multiset(candidates)
    ensures forall e :: e in r ==> e in candidates
    ensures Distinct(candidates) ==> Distinct(r)
    ensures forall e, x :: e in candidates && e !in r && x in r ==> x.dist <= e.dist
  {
    var count := if m < |candidates| then m else |candidates|;
    var sorted := SortByDistance(candidates);
    var r := if count <= 0 then [] else sorted[..count];
    SortedPrefix(candidates, sorted, r);
    r
  }

  /**
   * `NodeDistanceSet`: the members in enumeration order (taken to be
   * insertion order) and the cached `Nearest` and `Furthest` members.
   */
  class NodeDistanceSet {
    var items: seq<Entry>
    var nearest: Option<Entry>
    var furthest: Option<Entry>

    ghost predicate Valid()
      reads this
    {
      Distinct(items) && IsNearest(items, nearest) && IsFurthest(items, furthest)
    }

    /** An empty set. */
    constructor ()
      ensures Valid() && items == [] && nearest == None && furthest == None
    {
      items, nearest, furthest := [], None, None;
    }

    /**
     * `Add(NodeWithDistance)`: a node already present leaves everything
     * unchanged; otherwise the cached extremes move only to a strictly
     * nearer or strictly further entry.
     */
    method Add(e: Entry)
      requires Valid()
      modifies this
      ensures Valid()
      ensures items == Inserted(old(items), e)
      ensures e.node in NodesOf(old(items)) ==> nearest == old(nearest) && furthest == old(furthest)
      ensures e.node !in NodesOf(old(items)) ==>
        furthest == (if old(furthest).None? || e.dist > old(furthest).value.dist then Some(e) else old(furthest)) &&
        nearest == (if old(nearest).None? || e.dist < old(nearest).value.dist then Some(e) else old(nearest))
    {
      if e.node !in NodesOf(items) {
        items := items + [e];
        if furthest.None? || e.dist > furthest.value.dist {
          furthest := Some(e);
        }
        if nearest.None? || e.dist < nearest.value.dist {
          nearest := Some(e);
        }
      }
    }

    /**
     * `Remove`: drops the member holding `node`, returning whether there was
     * one, and recomputes a cached extreme only when it was the member removed.
     */
    method Remove(node: nat) returns (removed: bool)
      requires Valid()
      modifies this
      ensures Valid()
      ensures removed <==> node in NodesOf(old(items))
      ensures items == Removed(old(items), node)
      ensures removed ==> |items| == |old(items)| - 1
      ensures furthest == if removed && old(furthest).value.node == node then MaxBy(items) else old(furthest)
      ensures nearest == if removed && old(nearest).value.node == node then MinBy(items) else old(nearest)
    {
      removed := node in NodesOf(items);
      if removed {
        var entry := Entry(node, 0.0);
        items := Removed(items, node);
        if furthest.Some? && SameNode(entry, furthest) {
          furthest := MaxBy(items);
        }
        if nearest.Some? && SameNode(entry, nearest) {
          nearest := MinBy(items);
        }
      }
    }

    /** `PopFurthest`: null on an empty set, otherwise removes and returns a member of maximal distance. */
    method PopFurthest() returns (r: Option<Entry>)
      requires Valid()
      modifies this
      ensures Valid()
      ensures r == old(furthest)
      ensures r.None? <==> old(items) == []
      ensures r.Some? ==> r.value in old(items) && (forall e :: e in old(items) ==> e.dist <= r.value.dist)
      ensures r.Some? ==> items == Removed(old(items), r.value.node) && |items| == |old(items)| - 1
      ensures r.None? ==> items == old(items)
    {
      r := furthest;
      if r.Some? {
        assert r.value.node in NodesOf(items) by {
          var k :| 0 <= k < |items| && items[k] == r.value;
        }
        var _ := Remove(r.value.node);
      }
    }

    /** `PopNearest`: null on an empty set, otherwise removes and returns a member of minimal distance. */
    method PopNearest() returns (r: Option<Entry>)
      requires Valid()
      modifies this
      ensures Valid()
      ensures r == old(nearest)
      ensures r.None? <==> old(items) == []
      ensures r.Some? ==> r.value in old(items) && (forall e :: e in old(items) ==> r.value.dist <= e.dist)
      ensures r.Some? ==> items == Removed(old(items), r.value.node) && |items| == |old(items)| - 1
      ensures r.None? ==> items == old(items)
    {
      r := nearest;
      if r.Some? {
        assert r.value.node in NodesOf(items) by {
          var k :| 0 <= k < |items| && items[k] == r.value;
        }
        var _ := Remove(r.value.node);
      }
    }

    /** `Clear`: the set becomes empty and both extremes null. */
    method Clear()
      modifies this
      ensures Valid() && items == [] && nearest == None && furthest == None
    {
      items, nearest, furthest := [], None, None;
    }
  }
}
