/** Reachability along a step relation: some finite walk leads from one node to the other.
    Every component, closure and connectivity claim of the project is stated with `Reaches`. */
module Reachability {

  ghost predicate IsWalk<T(!new)>(step: (T, T) -> bool, walk: seq<T>) {
    |walk| > 0 && forall i :: 0 <= i < |walk| - 1 ==> step(walk[i], walk[i + 1])
  }

  ghost predicate Reaches<T(!new)>(step: (T, T) -> bool, a: T, b: T) {
    exists walk :: IsWalk(step, walk) && walk[0] == a && walk[|walk| - 1] == b
  }

  ghost predicate Symmetric<T(!new)>(step: (T, T) -> bool) {
    forall x, y :: step(x, y) ==> step(y, x)
  }

  /** No step leads out of `s`. */
  ghost predicate Closed<T(!new)>(step: (T, T) -> bool, s: iset<T>) {
    forall x, y :: x in s && step(x, y) ==> y in s
  }

  lemma ReachesSelf<T(!new)>(step: (T, T) -> bool, a: T)
    ensures Reaches(step, a, a)
  {
    assert IsWalk(step, [a]);
  }

  lemma ReachesStep<T(!new)>(step: (T, T) -> bool, a: T, b: T)
    requires step(a, b)
    ensures Reaches(step, a, b)
  {
    assert IsWalk(step, [a, b]);
  }

  lemma ReachesTransitive<T(!new)>(step: (T, T) -> bool, a: T, b: T, c: T)
    requires Reaches(step, a, b) && Reaches(step, b, c)
    ensures Reaches(step, a, c)
  {
    var u :| IsWalk(step, u) && u[0] == a && u[|u| - 1] == b;
    var v :| IsWalk(step, v) && v[0] == b && v[|v| - 1] == c;
    var w := u + v[1..];
    forall i | 0 <= i < |w| - 1 ensures step(w[i], w[i + 1]) {
      if i >= |u| - 1 {
        assert step(v[i - |u| + 1], v[i - |u| + 2]);
      }
    }
    assert IsWalk(step, w) && w[0] == a && w[|w| - 1] == c;
  }

  lemma ReachesSymmetric<T(!new)>(step: (T, T) -> bool, a: T, b: T)
    requires Symmetric(step) && Reaches(step, a, b)
    ensures Reaches(step, b, a)
  {
    var u :| IsWalk(step, u) && u[0] == a && u[|u| - 1] == b;
    var w := seq(|u|, i requires 0 <= i < |u| => u[|u| - 1 - i]);
    forall i | 0 <= i < |w| - 1 ensures step(w[i], w[i + 1]) {
      assert step(u[|u| - 2 - i], u[|u| - 1 - i]);
    }
    assert IsWalk(step, w) && w[0] == b && w[|w| - 1] == a;
  }

  lemma ReachesMonotone<T(!new)>(step: (T, T) -> bool, step': (T, T) -> bool, a: T, b: T)
    requires forall x, y :: step(x, y) ==> step'(x, y)
    requires Reaches(step, a, b)
    ensures Reaches(step', a, b)
  {
    var w :| IsWalk(step, w) && w[0] == a && w[|w| - 1] == b;
    assert IsWalk(step', w);
  }

  /** A closed set that holds the start of a walk holds its end. */
  lemma ReachesStaysIn<T(!new)>(step: (T, T) -> bool, s: iset<T>, a: T, b: T)
    requires Closed(step, s) && a in s && Reaches(step, a, b)
    ensures b in s
  {
    var w :| IsWalk(step, w) && w[0] == a && w[|w| - 1] == b;
    var i := 0;
    while i < |w| - 1
      invariant 0 <= i < |w| && w[i] in s
    {
      assert step(w[i], w[i + 1]);
      i := i + 1;
    }
  }
}
