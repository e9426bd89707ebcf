/**
 * The distance used by the HNSW index.  The floating-point body of
 * `CosineDistance` is not modelled: only its two exact branches are (the
 * length check and the zero-norm case). Everything else in the project uses
 * the distance as an abstract function into the totally ordered reals.
 */
module Distance {
  import opened Wrappers

  type Vector = seq<real>

  /** Every entry is 0, so the norm is 0. */
  predicate IsZero(a: Vector) {
    forall i :: 0 <= i < |a| ==> a[i] == 0.0
  }

  /** Sum of products of corresponding entries (exact, not rounded). */
  function Dot(a: Vector, b: Vector): real
    requires |a| == |b|
  {
    if a == [] then 0.0 else a[0] * b[0] + Dot(a[1..], b[1..])
  }

  /** A zero vector has a zero dot product with anything, its own norm included. */
  lemma {:induction false} ZeroDot(a: Vector, b: Vector)
    requires |a| == |b| && IsZero(a)
    ensures Dot(a, b) == 0.0
  {
    if a != [] {
      assert IsZero(a[1..]) by {
        forall i | 0 <= i < |a[1..]| ensures a[1..][i] == 0.0 { assert a[1..][i] == a[i + 1]; }
      }
      ZeroDot(a[1..], b[1..]);
    }
  }

  lemma ZeroNorm(a: Vector)
    ensures IsZero(a) ==> Dot(a, a) == 0.0
  {
    if IsZero(a) { ZeroDot(a, a); }
  }

  /**
   * Cosine distance of two vectors: an error when the lengths differ,
   * 1 when either vector has zero norm, and otherwise `1 - cosine`, where the
   * square root and rounding of the source are hidden in `cosine`, which
   * the caller supplies.
   */
  function CosineDistance(first: Vector, second: Vector, cosine: (Vector, Vector) -> real): (r: Result<real>)
    ensures r.Err? <==> |first| != |second|
    ensures r.Err? ==> r.error == Argument
    ensures r.Ok? && (IsZero(first) || IsZero(second)) ==> r.value == 1.0
  {
    if |first| != |second| then Err(Argument)
    else
      ZeroNorm(first);
      ZeroNorm(second);
      if Dot(first, first) == 0.0 || Dot(second, second) == 0.0 then Ok(1.0)
      else Ok(1.0 - cosine(first, second))
  }
}
