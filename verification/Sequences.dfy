/** Sequences read backwards, and ascending ones. */
module Sequences {

  function Reversed<T>(s: seq<T>): (r: seq<T>)
    ensures |r| == |s| && forall i :: 0 <= i < |s| ==> r[i] == s[|s| - 1 - i]
  {
    seq(|s|, i requires 0 <= i < |s| => s[|s| - 1 - i])
  }

  predicate Ascending(s: seq<nat>) {
    forall i, j :: 0 <= i < j < |s| ==> s[i] < s[j]
  }

  /** Two increasing lists of the same numbers are equal. */
  lemma {:induction false} SameList(s: seq<nat>, t: seq<nat>)
    requires Ascending(s) && Ascending(t)
    requires forall f: nat :: f in s <==> f in t
    ensures s == t
  {
    if s != [] && t != [] {
      var s', t' := s[..|s| - 1], t[..|t| - 1];
      AllButLast(s);
      AllButLast(t);
      assert s[|s| - 1] == t[|t| - 1];
      SameList(s', t');
    } else {
      SomeEntry(s);
      SomeEntry(t);
    }
  }

  lemma SomeEntry(s: seq<nat>)
    ensures s != [] ==> exists f: nat :: f in s
  {
    if s != [] {
      assert s[0] in s;
    }
  }

  lemma {:induction false} AllButLast(s: seq<nat>)
    requires Ascending(s) && s != []
    ensures var s', x := s[..|s| - 1], s[|s| - 1];
      && s == s' + [x] && Ascending(s') && x in s
      && (forall f: nat :: f in s' <==> f in s && f != x)
      && forall f :: f in s ==> f <= x
  {
  }
}
