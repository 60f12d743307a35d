/** Matrices in owner/neighbour form: a diagonal, and one upper and one lower coefficient per face, with the
    product they define. */
module Ldu {
  import opened Sums
  import opened Vectors

  datatype Ldu = Ldu(n: nat, own: seq<nat>, nei: seq<nat>, diag: seq<real>, upper: seq<real>, lower: seq<real>)
  {
    function NFaces(): nat { |own| }

    predicate Valid() {
      && |diag| == n && |nei| == |upper| == |lower| == |own|
      && forall f :: 0 <= f < |own| ==> own[f] < n && nei[f] < n && own[f] != nei[f]
    }

    /** Upper triangular addressing: owner below neighbour, faces in owner order. */
    predicate UpperTriangular() {
      && Valid()
      && (forall f :: 0 <= f < |own| ==> own[f] < nei[f])
      && (forall f, g :: 0 <= f < g < |own| ==> own[f] <= own[g])
    }

    /** What face `f` puts into row `c` below the diagonal of the product with `x`. */
    function LowerTerm(x: Vector, c: int): int -> real
      requires Valid()
    {
      f => if 0 <= f < |own| && nei[f] == c then lower[f] * At(x, own[f]) else 0.0
    }

    /** What face `f` puts into row `c` above the diagonal. */
    function UpperTerm(x: Vector, c: int): int -> real
      requires Valid()
    {
      f => if 0 <= f < |own| && own[f] == c then upper[f] * At(x, nei[f]) else 0.0
    }

    function LowerSums(x: Vector): (s: Vector)
      requires Valid()
      ensures |s| == n
    {
      seq(n, c => Sum(|own|, LowerTerm(x, c)))
    }

    function UpperSums(x: Vector): (s: Vector)
      requires Valid()
      ensures |s| == n
    {
      seq(n, c => Sum(|own|, UpperTerm(x, c)))
    }

    /** The product with the matrix, in the form `lduMatrix::Amul` gives it. */
    function Amul(x: Vector): Vector
      requires Valid()
    {
      Add(Times(diag, seq(n, c => At(x, c))), Add(LowerSums(x), UpperSums(x)))
    }
  }

  /** Terms from position `f` on. */
  function SumFrom(f: nat, n: nat, t: int -> real): real
    decreases n - f
  {
    if f >= n then 0.0 else t(f) + SumFrom(f + 1, n, t)
  }

  lemma SumFromEqual(f: nat, n: nat, s: int -> real, t: int -> real)
    requires forall i :: f <= i < n ==> s(i) == t(i)
    ensures SumFrom(f, n, s) == SumFrom(f, n, t)
    decreases n - f
  {
  }

  lemma SumSplit(f: nat, n: nat, t: int -> real)
    requires f <= n
    ensures Sum(n, t) == Sum(f, t) + SumFrom(f, n, t)
    decreases n - f
  {
    if f < n {
      SumSplit(f + 1, n, t);
    }
  }

  lemma SumFromZero(f: nat, n: nat, t: int -> real)
    requires forall i :: f <= i < n ==> t(i) == 0.0
    ensures SumFrom(f, n, t) == 0.0
    decreases n - f
  {
  }
}
