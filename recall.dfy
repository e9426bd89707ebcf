/**
 * `CalculateRecall` of Experiments/HNSW/Program.cs: how many of the exact
 * answers an approximate search found, walking both lists with two
 * indices. The lists hold vectors compared by reference, so a vector is
 * modelled by its identity, a `Ref`, never by its contents.
 */
module Recall {
  import opened Wrappers

  /** The identity of a `float[]`: `==` on arrays compares references. */
  type Ref = nat

  /**
   * The count the two-index walk arrives at: a match of the heads advances
   * both lists, anything else advances only the exact list.
   */
  function Matches(results: seq<Ref>, exact: seq<Ref>): (c: nat)
    ensures c <= |results| && c <= |exact|
    decreases |exact|
  {
    if results == [] || exact == [] then 0
    else if results[0] == exact[0] then 1 + Matches(results[1..], exact[1..])
    else Matches(results, exact[1..])
  }

  /**
   * `f` embeds `results` in `exact`: positions strictly increasing, each
   * holding the same reference.
   */
  predicate Embeds(results: seq<Ref>, exact: seq<Ref>, f: seq<nat>) {
    |f| == |results| &&
    (forall i :: 0 <= i < |f| ==> f[i] < |exact| && exact[f[i]] == results[i]) &&
    (forall i, j :: 0 <= i < j < |f| ==> f[i] < f[j])
  }

  ghost predicate IsSubsequence(results: seq<Ref>, exact: seq<Ref>) {
    exists f :: Embeds(results, exact, f)
  }

  /**
   * The loop of `CalculateRecall`. The quotient is `None` exactly when
   * `exactResults` is empty, where the single-precision `0 / 0` is NaN.
   */
  method CalculateRecall(results: seq<Ref>, exact: seq<Ref>) returns (r: Option<real>)
    ensures r.None? <==> exact == []
    ensures r.Some? ==> r.value == Matches(results, exact) as real / |exact| as real
    ensures r.Some? ==> 0.0 <= r.value <= 1.0
    ensures results == exact && exact != [] ==> r == Some(1.0)
  {
    var recallCount := 0;
    var i := 0;
    var j := 0;
    while i < |results| && j < |exact|
      invariant 0 <= i <= |results| && 0 <= j <= |exact|
      invariant recallCount + Matches(results[i..], exact[j..]) == Matches(results, exact)
      decreases |exact| - j
    {
      if results[i] == exact[j] {
        recallCount := recallCount + 1;
        i := i + 1;
        j := j + 1;
      } else {
        j := j + 1;
      }
    }
    assert recallCount == Matches(results, exact);
    if exact == [] {
      return None;
    }
    if results == exact {
      MatchesSelf(exact);
    }
    Ratio(recallCount, |exact|);
    r := Some(recallCount as real / |exact| as real);
  }

  /** A count out of `n` as a fraction of `n`. */
  lemma Ratio(c: nat, n: nat)
    requires 0 < n && c <= n
    ensures 0.0 <= c as real / n as real <= 1.0
    ensures c == n ==> c as real / n as real == 1.0
  {
    assert c as real / n as real * n as real == c as real;
  }

  /** Equal lists give a recall of 1. */
  lemma {:induction false} MatchesSelf(s: seq<Ref>)
    ensures Matches(s, s) == |s|
    decreases |s|
  {
    if s != [] {
      MatchesSelf(s[1..]);
    }
  }

  /** Every answer is counted exactly when the answers appear, in order, among the exact ones. */
  lemma {:induction false} MatchesAll(results: seq<Ref>, exact: seq<Ref>)
    ensures Matches(results, exact) == |results| <==> IsSubsequence(results, exact)
    decreases |exact|
  {
    if Matches(results, exact) == |results| {
      var f := EmbeddingOf(results, exact);
      assert Embeds(results, exact, f);
    }
    if IsSubsequence(results, exact) {
      var f :| Embeds(results, exact, f);
      GreedyFinds(results, exact, f);
    }
  }

  /** A full count yields the positions the walk matched. */
  lemma {:induction false} EmbeddingOf(results: seq<Ref>, exact: seq<Ref>) returns (f: seq<nat>)
    requires Matches(results, exact) == |results|
    ensures Embeds(results, exact, f)
    ensures forall i :: 0 <= i < |f| ==> f[i] < |exact|
    decreases |exact|
  {
    if results == [] {
      f := [];
    } else if results[0] == exact[0] {
      var g := EmbeddingOf(results[1..], exact[1..]);
      f := [0] + seq(|g|, i requires 0 <= i < |g| => g[i] + 1);
    } else {
      var g := EmbeddingOf(results, exact[1..]);
      f := seq(|g|, i requires 0 <= i < |g| => g[i] + 1);
    }
  }

  /** Greedy matching is optimal: whenever an embedding exists, the walk counts every answer. */
  lemma {:induction false} GreedyFinds(results: seq<Ref>, exact: seq<Ref>, f: seq<nat>)
    requires Embeds(results, exact, f)
    ensures Matches(results, exact) == |results|
    decreases |exact|
  {
    if results != [] {
      assert exact != [] by { assert f[0] < |exact|; }
      if results[0] == exact[0] {
        var g := seq(|f| - 1, i requires 0 <= i < |f| - 1 => f[i + 1] - 1);
        forall i | 0 <= i < |g| ensures g[i] < |exact[1..]| && exact[1..][g[i]] == results[1..][i] {
          assert f[0] < f[i + 1];
        }
        assert Embeds(results[1..], exact[1..], g);
        GreedyFinds(results[1..], exact[1..], g);
      } else {
        assert f[0] > 0;
        var g := seq(|f|, i requires 0 <= i < |f| => f[i] - 1);
        forall i | 0 <= i < |g| ensures g[i] < |exact[1..]| && exact[1..][g[i]] == results[i] {
          if i > 0 { assert f[0] < f[i]; }
        }
        assert Embeds(results, exact[1..], g);
        GreedyFinds(results, exact[1..], g);
      }
    }
  }
}
