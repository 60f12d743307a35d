/** Finite sums of reals and the few laws the linear algebra rests on: term by term, scaled, reordered, and
    with the order of two summations exchanged. */
module Sums {

  function Sum(n: nat, t: int -> real): real {
    if n == 0 then 0.0 else Sum(n - 1, t) + t(n - 1)
  }

  lemma SumEqual(n: nat, s: int -> real, t: int -> real)
    requires forall i :: 0 <= i < n ==> s(i) == t(i)
    ensures Sum(n, s) == Sum(n, t)
  {
  }

  lemma SumZero(n: nat, t: int -> real)
    requires forall i :: 0 <= i < n ==> t(i) == 0.0
    ensures Sum(n, t) == 0.0
  {
  }

  lemma SumAdd(n: nat, s: int -> real, t: int -> real, u: int -> real)
    requires forall i :: 0 <= i < n ==> u(i) == s(i) + t(i)
    ensures Sum(n, u) == Sum(n, s) + Sum(n, t)
  {
  }

  lemma SumScale(n: nat, k: real, t: int -> real, u: int -> real)
    requires forall i :: 0 <= i < n ==> u(i) == k * t(i)
    ensures Sum(n, u) == k * Sum(n, t)
  {
  }

  /** Only one term counts. */
  lemma SumOnly(n: nat, t: int -> real, k: nat)
    requires k < n && forall i :: 0 <= i < n && i != k ==> t(i) == 0.0
    ensures Sum(n, t) == t(k)
  {
    if k == n - 1 {
      SumZero(n - 1, t);
    } else {
      SumOnly(n - 1, t, k);
    }
  }

  /** The order of two summations does not matter. */
  lemma {:induction false} SumSwap(n: nat, k: nat, t: (int, int) -> real, rows: int -> real, cols: int -> real)
    requires forall i :: 0 <= i < n ==> rows(i) == Sum(k, j => t(i, j))
    requires forall j :: 0 <= j < k ==> cols(j) == Sum(n, i => t(i, j))
    ensures Sum(n, rows) == Sum(k, cols)
  {
    if n == 0 {
      SumZero(k, cols);
    } else {
      var cols' := j => Sum(n - 1, i => t(i, j));
      var last := j => t(n - 1, j);
      SumSwap(n - 1, k, t, rows, cols');
      SumEqual(k, last, j => t(n - 1, j));
      forall j | 0 <= j < k ensures cols(j) == cols'(j) + last(j) {
        SumPeel(n, j, t);
      }
      SumAdd(k, cols', last, cols);
    }
  }

  lemma SumPeel(n: nat, j: nat, t: (int, int) -> real)
    requires n > 0
    ensures Sum(n, i => t(i, j)) == Sum(n - 1, i => t(i, j)) + t(n - 1, j)
  {
  }

  /** Summing in another order: `order` lists every index once, `place` says where. */
  lemma {:induction false} SumReordered(n: nat, order: seq<nat>, place: seq<nat>, t: int -> real, u: int -> real)
    requires |order| == |place| == n
    requires forall k :: 0 <= k < n ==> order[k] < n && place[order[k]] == k
    requires forall f :: 0 <= f < n ==> place[f] < n && order[place[f]] == f
    requires forall k :: 0 <= k < n ==> u(k) == t(order[k])
    ensures Sum(n, u) == Sum(n, t)
  {
    var cell := (k: int, f: int) => if 0 <= k < n && order[k] == f then t(f) else 0.0;
    forall k | 0 <= k < n ensures u(k) == Sum(n, f => cell(k, f)) {
      SumOnly(n, f => cell(k, f), order[k]);
    }
    forall f | 0 <= f < n ensures t(f) == Sum(n, k => cell(k, f)) {
      forall k | 0 <= k < n && k != place[f] ensures cell(k, f) == 0.0 {
        assert place[order[k]] == k;
      }
      SumOnly(n, k => cell(k, f), place[f]);
    }
    SumSwap(n, n, cell, u, t);
  }

  /** Equal factors, equal products: stated once so that proofs can ask for it by name. */
  lemma SameProduct(a: real, b: real, c: real, d: real)
    requires a == c && b == d
    ensures a * b == c * d
  {
  }
}
