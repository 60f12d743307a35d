/** The coarse cell graph of an aggregation, the levels built from it, and when they fit together. */
module Coarsening {
  import opened Basics
  import opened Reachability
  import opened Vectors
  import opened Aggregation
  import VCycle

  type Pair = (int, int)

  // ---- the coarse graph -----------------------------------------------------------------------------

  /** The face joins two different aggregates. */
  predicate Crosses(g: Graph, cells: seq<int>, f: nat)
    requires g.Valid() && f < |g.owner| && |cells| == g.n
  {
    cells[g.owner[f]] != cells[g.nei[f]]
  }

  function Key(g: Graph, cells: seq<int>, f: nat): Pair
    requires g.Valid() && f < |g.owner| && |cells| == g.n
  {
    var o, n := cells[g.owner[f]], cells[g.nei[f]];
    if o < n then (o, n) else (n, o)
  }

  function PairSums(g: Graph, cells: seq<int>, k: nat): map<Pair, real>
    requires g.Valid() && k <= |g.owner| && |cells| == g.n
  {
    if k == 0 then map[]
    else
      var m := PairSums(g, cells, k - 1);
      if !Crosses(g, cells, k - 1) then m
      else
        var key := Key(g, cells, k - 1);
        m[key := (if key in m then m[key] else 0.0) + g.weight[k - 1]]
  }

  /** The weight of all faces between two aggregates. */
  function Between(g: Graph, cells: seq<int>, key: Pair, k: nat): real
    requires g.Valid() && k <= |g.owner| && |cells| == g.n
  {
    if k == 0 then 0.0
    else
      Between(g, cells, key, k - 1)
      + if Crosses(g, cells, k - 1) && Key(g, cells, k - 1) == key then g.weight[k - 1] else 0.0
  }

  ghost predicate SomeFace(g: Graph, cells: seq<int>, key: Pair, k: nat)
    requires g.Valid() && k <= |g.owner| && |cells| == g.n
  {
    exists f :: 0 <= f < k && Crosses(g, cells, f) && Key(g, cells, f) == key
  }

  /** A pair of aggregates is listed exactly when a face joins them, with the weight of all such faces. */
  lemma {:induction false} PairSumsAre(g: Graph, cells: seq<int>, key: Pair, k: nat)
    requires g.Valid() && k <= |g.owner| && |cells| == g.n
    ensures key in PairSums(g, cells, k) <==> SomeFace(g, cells, key, k)
    ensures key in PairSums(g, cells, k) ==> PairSums(g, cells, k)[key] == Between(g, cells, key, k)
    ensures key !in PairSums(g, cells, k) ==> Between(g, cells, key, k) == 0.0
  {
    if k > 0 {
      PairSumsAre(g, cells, key, k - 1);
      if SomeFace(g, cells, key, k) && !(Crosses(g, cells, k - 1) && Key(g, cells, k - 1) == key) {
        var f :| 0 <= f < k && Crosses(g, cells, f) && Key(g, cells, f) == key;
        assert f < k - 1;
      }
    }
  }

  lemma {:induction false} BetweenPositive(g: Graph, cells: seq<int>, key: Pair, k: nat)
    requires g.Valid() && k <= |g.owner| && |cells| == g.n && forall f :: 0 <= f < |g.weight| ==> g.weight[f] >= 0.0
    ensures Between(g, cells, key, k) >= 0.0
  {
    if k > 0 {
      BetweenPositive(g, cells, key, k - 1);
    }
  }

  /** The pairs (a, b) with a fixed and b below a bound, in order. */
  function RowPairs(keys: set<Pair>, a: nat, b: nat): (r: seq<Pair>)
    ensures forall p :: p in r <==> p in keys && p.0 == a && 0 <= p.1 < b
  {
    if b == 0 then [] else RowPairs(keys, a, b - 1) + if (a, b - 1) in keys then [(a, b - 1)] else []
  }

  /** All pairs with a first part below `a`, in lexicographic order: what sorting the keys gives. */
  function SortedPairs(keys: set<Pair>, n: nat, a: nat): (r: seq<Pair>)
    ensures forall p :: p in r <==> p in keys && 0 <= p.0 < a && 0 <= p.1 < n
  {
    if a == 0 then [] else SortedPairs(keys, n, a - 1) + RowPairs(keys, a - 1, n)
  }

  predicate Below(p: Pair, q: Pair) { p.0 < q.0 || (p.0 == q.0 && p.1 < q.1) }

  predicate Increasing(s: seq<Pair>) {
    forall i, j :: 0 <= i < j < |s| ==> Below(s[i], s[j])
  }

  lemma {:induction false} RowIncreasing(keys: set<Pair>, a: nat, b: nat)
    ensures Increasing(RowPairs(keys, a, b))
  {
    if b > 0 {
      RowIncreasing(keys, a, b - 1);
      var row := RowPairs(keys, a, b - 1);
      forall i | 0 <= i < |row| ensures Below(row[i], (a, b - 1)) {
        assert row[i] in row;
      }
    }
  }

  lemma {:induction false} PairsIncreasing(keys: set<Pair>, n: nat, a: nat)
    ensures Increasing(SortedPairs(keys, n, a))
  {
    if a > 0 {
      PairsIncreasing(keys, n, a - 1);
      RowIncreasing(keys, a - 1, n);
      var s, t := SortedPairs(keys, n, a - 1), RowPairs(keys, a - 1, n);
      forall i, j | 0 <= i < |s| && 0 <= j < |t| ensures Below(s[i], t[j]) {
        assert s[i] in s && t[j] in t;
      }
    }
  }

  predicate WeightsNonnegative(g: Graph) {
    forall f :: 0 <= f < |g.weight| ==> g.weight[f] >= 0.0
  }

  function GraphOf(n: nat, ordered: seq<Pair>, sums: map<Pair, real>): (h: Graph)
    requires forall k :: 0 <= k < |ordered| ==> 0 <= ordered[k].0 < ordered[k].1 < n && ordered[k] in sums
    ensures h.Valid() && h.n == n && |h.owner| == |ordered|
    ensures forall k :: 0 <= k < |ordered| ==>
      h.owner[k] == ordered[k].0 && h.nei[k] == ordered[k].1 && h.weight[k] == sums[ordered[k]]
  {
    Graph(n,
          seq(|ordered|, k requires 0 <= k < |ordered| => ordered[k].0),
          seq(|ordered|, k requires 0 <= k < |ordered| => ordered[k].1),
          seq(|ordered|, k requires 0 <= k < |ordered| => sums[ordered[k]]))
  }

  lemma {:induction false} KeysFit(g: Graph, s: Agg, k: nat)
    requires g.Valid() && AllPlaced(g, s) && k <= |g.owner|
    ensures forall p :: p in PairSums(g, s.cells, k) ==> 0 <= p.0 < p.1 < s.count
  {
    if k > 0 {
      KeysFit(g, s, k - 1);
    }
  }

  function CoarseOrder(g: Graph, s: Agg): (r: seq<Pair>)
    requires g.Valid() && AllPlaced(g, s)
    ensures forall p :: p in r <==> p in PairSums(g, s.cells, |g.owner|)
    ensures forall k :: 0 <= k < |r| ==> 0 <= r[k].0 < r[k].1 < s.count && r[k] in PairSums(g, s.cells, |g.owner|)
  {
    KeysFit(g, s, |g.owner|);
    SortedPairs(PairSums(g, s.cells, |g.owner|).Keys, s.count, s.count)
  }

  /** One cell an aggregate, one face a pair of touching aggregates, with the faces' joint weight. */
  function CoarseGraph(g: Graph, s: Agg): (h: Graph)
    requires g.Valid() && AllPlaced(g, s)
    ensures h.Valid() && h.n == s.count
  {
    GraphOf(s.count, CoarseOrder(g, s), PairSums(g, s.cells, |g.owner|))
  }

  /** Weights that are not negative stay so. */
  lemma {:induction false} CoarseNonnegative(g: Graph, s: Agg)
    requires g.Valid() && WeightsNonnegative(g) && AllPlaced(g, s)
    ensures WeightsNonnegative(CoarseGraph(g, s))
  {
    var h, order := CoarseGraph(g, s), CoarseOrder(g, s);
    forall k | 0 <= k < |h.weight| ensures h.weight[k] >= 0.0 {
      PairSumsAre(g, s.cells, order[k], |g.owner|);
      BetweenPositive(g, s.cells, order[k], |g.owner|);
    }
  }

  /** The coarse faces: every pair of touching aggregates once, in order, with the weight of all faces between the
      two. */
  lemma {:induction false} CoarseGraphIs(g: Graph, s: Agg)
    requires g.Valid() && AllPlaced(g, s)
    ensures var h := CoarseGraph(g, s);
      && (forall k :: 0 <= k < |h.owner| ==> h.owner[k] < h.nei[k])
      && (forall j, k :: 0 <= j < k < |h.owner| ==> Below((h.owner[j], h.nei[j]), (h.owner[k], h.nei[k])))
      && (forall k :: 0 <= k < |h.owner| ==> h.weight[k] == Between(g, s.cells, (h.owner[k], h.nei[k]), |g.owner|))
      && (forall key: Pair :: SomeFace(g, s.cells, key, |g.owner|) <==> key in CoarseOrder(g, s))
  {
    var order := CoarseOrder(g, s);
    PairsIncreasing(PairSums(g, s.cells, |g.owner|).Keys, s.count, s.count);
    assert Increasing(order);
    forall key: Pair ensures SomeFace(g, s.cells, key, |g.owner|) <==> key in order {
      PairSumsAre(g, s.cells, key, |g.owner|);
    }
    forall k | 0 <= k < |order| ensures CoarseGraph(g, s).weight[k] == Between(g, s.cells, order[k], |g.owner|) {
      PairSumsAre(g, s.cells, order[k], |g.owner|);
    }
  }

  /** Aggregates are neighbours exactly when cells of theirs are. */
  lemma {:induction false} CoarseAdjacent(g: Graph, s: Agg, x: int, y: int)
    requires g.Valid() && AllPlaced(g, s) && 0 <= x < g.n && 0 <= y < g.n && Adjacent(g, x, y)
    requires s.cells[x] != s.cells[y]
    ensures Adjacent(CoarseGraph(g, s), s.cells[x], s.cells[y])
  {
    var f: nat :| f < |g.owner| && Joins(g, f, x, y);
    var key := Key(g, s.cells, f);
    assert Crosses(g, s.cells, f);
    PairSumsAre(g, s.cells, key, |g.owner|);
    var order := CoarseOrder(g, s);
    assert key in order;
    var k: nat :| k < |order| && order[k] == key;
    assert Joins(CoarseGraph(g, s), k, s.cells[x], s.cells[y]);
  }

  // ---- connectedness --------------------------------------------------------------------------------

  ghost function Neighbours(g: Graph): (int, int) -> bool
    requires g.Valid()
  {
    (x, y) => Adjacent(g, x, y)
  }

  ghost predicate AllConnected(g: Graph)
    requires g.Valid()
  {
    forall i, j :: 0 <= i < g.n && 0 <= j < g.n ==> Reaches(Neighbours(g), i, j)
  }

  lemma {:induction false} NoWayOut(g: Graph, c: nat, y: int)
    requires g.Valid() && Isolated(g, c)
    ensures !Adjacent(g, c, y)
  {
    if Adjacent(g, c, y) {
      var f: nat :| f < |g.owner| && Joins(g, f, c, y);
      assert AtCell(g, f, c);
    }
  }

  lemma {:induction false} NoneIsolated(g: Graph, c: nat)
    requires g.Valid() && AllConnected(g) && g.n >= 2 && c < g.n
    ensures !Isolated(g, c)
  {
    if Isolated(g, c) {
      forall y ensures !Adjacent(g, c, y) {
        NoWayOut(g, c, y);
      }
      var d := if c == 0 then 1 else 0;
      ReachesStaysIn(Neighbours(g), iset{c as int}, c as int, d);
    }
  }

  /** A connected graph of at least two cells at least halves. */
  lemma {:induction false} Halves(g: Graph)
    requires g.Valid() && g.WeightsAbove(-1.0) && AllConnected(g) && g.n >= 2
    ensures 2 * Sweep(g, g.n).count <= g.n
  {
    AggregatesAll(g);
    forall c | c in LooseCells(g) ensures false {
      NoneIsolated(g, c);
    }
    assert LooseCells(g) == {};
  }

  lemma {:induction false} CoarseReaches(g: Graph, s: Agg, i: int, j: int)
    requires g.Valid() && AllPlaced(g, s) && 0 <= i < g.n && 0 <= j < g.n && Reaches(Neighbours(g), i, j)
    ensures Reaches(Neighbours(CoarseGraph(g, s)), s.cells[i], s.cells[j])
  {
    var h := CoarseGraph(g, s);
    var step := Neighbours(h);
    var there := iset x | 0 <= x < g.n && Reaches(step, s.cells[i], s.cells[x]);
    forall x, y | x in there && Neighbours(g)(x, y) ensures y in there {
      assert Adjacent(g, x, y);
      if s.cells[x] != s.cells[y] {
        CoarseAdjacent(g, s, x, y);
        ReachesStep(step, s.cells[x], s.cells[y]);
        ReachesTransitive(step, s.cells[i], s.cells[x], s.cells[y]);
      }
    }
    ReachesSelf(step, s.cells[i]);
    ReachesStaysIn(Neighbours(g), there, i, j);
  }

  /** A connected graph stays connected. */
  lemma {:induction false} CoarseConnected(g: Graph, s: Agg)
    requires g.Valid() && AllPlaced(g, s) && Onto(s) && AllConnected(g)
    ensures AllConnected(CoarseGraph(g, s))
  {
    var h := CoarseGraph(g, s);
    forall a, b | 0 <= a < h.n && 0 <= b < h.n ensures Reaches(Neighbours(h), a, b) {
      assert Used(s, a) && Used(s, b);
      var i :| 0 <= i < |s.cells| && s.cells[i] == a;
      var j :| 0 <= j < |s.cells| && s.cells[j] == b;
      CoarseReaches(g, s, i, j);
    }
  }

  /** Its coarse graph has no face left exactly when everything is in one aggregate. */
  lemma {:induction false} FacesGoneExactly(g: Graph, s: Agg)
    requires g.Valid() && AllPlaced(g, s) && Onto(s) && AllConnected(g)
    ensures CoarseGraph(g, s).owner == [] <==> s.count <= 1
  {
    var h := CoarseGraph(g, s);
    if h.owner != [] {
      assert CoarseOrder(g, s)[0].0 < CoarseOrder(g, s)[0].1 < s.count;
    }
    if s.count >= 2 {
      CoarseConnected(g, s);
      NoneIsolated(h, 0);
    }
  }

  // ---- the levels -----------------------------------------------------------------------------------

  function Nats(cells: seq<int>): (r: seq<nat>)
    requires forall i :: 0 <= i < |cells| ==> cells[i] >= 0
    ensures |r| == |cells| && forall i :: 0 <= i < |cells| ==> r[i] == cells[i]
  {
    seq(|cells|, i requires 0 <= i < |cells| => cells[i])
  }

  lemma {:induction false} SweepPlacesAll(g: Graph)
    requires g.Valid()
    ensures AllPlaced(g, Sweep(g, g.n)) && Onto(Sweep(g, g.n))
  {
    SweepPlaces(g, g.n);
    SweepOnto(g, g.n);
  }

  /** The level of `a` with its aggregation. */
  function Aggregated(a: Matrix, g: Graph): VCycle.Level
    requires g.Valid()
  {
    SweepPlacesAll(g);
    var s := Sweep(g, g.n);
    VCycle.Level(a, Some(Nats(s.cells)), VCycle.Injection(Nats(s.cells), s.count))
  }

  function CoarseMatrix(a: Matrix, g: Graph): Matrix
    requires g.Valid()
  {
    VCycle.Galerkin(a, Aggregated(a, g).p, g.n, Sweep(g, g.n).count)
  }

  function Coarsest(a: Matrix): VCycle.Level { VCycle.Level(a, None, []) }

  /** The list of levels; where a coarse graph has no face, the last operator is the one before it. */
  function Levels(a: Matrix, g: Graph, target: nat): (r: seq<VCycle.Level>)
    requires g.Valid()
    ensures |r| > 0
    decreases g.n, 1
  {
    if g.n <= target then [Coarsest(a)] else LevelsBelow(a, g, target)
  }

  function LevelsBelow(a: Matrix, g: Graph, target: nat): (r: seq<VCycle.Level>)
    requires g.Valid()
    ensures |r| > 0
    decreases g.n, 0
  {
    var s := Sweep(g, g.n);
    SweepPlacesAll(g);
    var h := CoarseGraph(g, s);
    if s.count >= g.n then [Coarsest(a)]
    else if h.owner == [] then [Aggregated(a, g), Coarsest(a)]
    else [Aggregated(a, g)] + Levels(CoarseMatrix(a, g), h, target)
  }

  lemma {:induction false} LevelsSplit(a: Matrix, g: Graph, target: nat)
    requires g.Valid()
    ensures AllPlaced(g, Sweep(g, g.n))
    ensures g.n <= target || Sweep(g, g.n).count >= g.n ==> Levels(a, g, target) == [Coarsest(a)]
    ensures g.n > target && Sweep(g, g.n).count < g.n ==>
      var h := CoarseGraph(g, Sweep(g, g.n));
      Levels(a, g, target) ==
        [Aggregated(a, g)] + if h.owner == [] then [Coarsest(a)] else Levels(CoarseMatrix(a, g), h, target)
  {
    SweepPlacesAll(g);
    if g.n > target {
      assert Levels(a, g, target) == LevelsBelow(a, g, target);
      assert [Aggregated(a, g)] + [Coarsest(a)] == [Aggregated(a, g), Coarsest(a)];
    }
  }

  /** The next operator and the next graph. */
  method Coarsen(a: Matrix, g: Graph, cells: seq<int>, nCoarse: nat)
    returns (level: VCycle.Level, aCoarse: Matrix, h: Graph)
    requires g.Valid() && Agg(cells, nCoarse) == Sweep(g, g.n) && AllPlaced(g, Sweep(g, g.n))
    ensures level == Aggregated(a, g) && aCoarse == CoarseMatrix(a, g) && h == CoarseGraph(g, Sweep(g, g.n))
  {
    var p := VCycle.Injection(Nats(cells), nCoarse);
    aCoarse := VCycle.Galerkin(a, p, g.n, nCoarse);
    level := VCycle.Level(a, Some(Nats(cells)), p);
    var sums := CollectPairs(g, cells);
    KeysFit(g, Sweep(g, g.n), |g.owner|);
    h := GraphOf(nCoarse, SortedPairs(sums.Keys, nCoarse, nCoarse), sums);
  }

  /** The loop that builds the levels. */
  method BuildLevels(a: Matrix, g: Graph, target: nat) returns (levels: seq<VCycle.Level>)
    requires g.Valid()
    ensures levels == Levels(a, g, target)
  {
    levels := [];
    var a', g' := a, g;
    ghost var all, rest := Levels(a, g, target), Levels(a, g, target);
    while true
      invariant g'.Valid() && rest == Levels(a', g', target) && levels + rest == all
      invariant all == Levels(a, g, target)
      decreases g'.n
    {
      LevelsSplit(a', g', target);
      if g'.n <= target {
        break;
      }
      var cells, nCoarse := PairwiseAggregate(g');
      if nCoarse >= g'.n {
        break;
      }
      var level, aCoarse, h := Coarsen(a', g', cells, nCoarse);
      ghost var below := if h.owner == [] then [Coarsest(a')] else Levels(aCoarse, h, target);
      assert levels + ([level] + below) == levels + [level] + below;
      levels, rest := levels + [level], below;
      if h.owner == [] {
        break;
      }
      a', g' := aCoarse, h;
    }
    levels := levels + [Coarsest(a')];
  }

  lemma {:induction false} NoPairs(g: Graph, s: Agg)
    requires g.Valid() && AllPlaced(g, s) && PairSums(g, s.cells, |g.owner|) == map[]
    ensures CoarseGraph(g, s).owner == []
  {
    NoneSorted(s.count, s.count);
    assert PairSums(g, s.cells, |g.owner|).Keys == {};
  }

  lemma {:induction false} NoneInRow(a: nat, b: nat)
    ensures RowPairs({}, a, b) == []
  {
    if b > 0 {
      NoneInRow(a, b - 1);
    }
  }

  lemma {:induction false} NoneSorted(n: nat, a: nat)
    ensures SortedPairs({}, n, a) == []
  {
    if a > 0 {
      NoneSorted(n, a - 1);
      NoneInRow(a - 1, n);
    }
  }

  method CollectPairs(g: Graph, cells: seq<int>) returns (pairs: map<Pair, real>)
    requires g.Valid() && |cells| == g.n
    ensures pairs == PairSums(g, cells, |g.owner|)
  {
    pairs := map[];
    for f := 0 to |g.owner|
      invariant pairs == PairSums(g, cells, f)
    {
      var co, cn := cells[g.owner[f]], cells[g.nei[f]];
      if co == cn {
        continue;
      }
      var key := if co < cn then (co, cn) else (cn, co);
      pairs := pairs[key := (if key in pairs then pairs[key] else 0.0) + g.weight[f]];
    }
  }

  /** Some aggregation on the way down leaves no face between its aggregates. */
  predicate Collapses(g: Graph, target: nat)
    requires g.Valid()
    decreases g.n
  {
    var s := Sweep(g, g.n);
    SweepPlacesAll(g);
    var h := CoarseGraph(g, s);
    g.n > target && s.count < g.n && (h.owner == [] || Collapses(h, target))
  }

  ghost predicate LinkedAt(levels: seq<VCycle.Level>, k: nat)
    requires k + 1 < |levels|
  {
    VCycle.Linked(levels[k], levels[k + 1])
  }

  ghost predicate AllLinked(levels: seq<VCycle.Level>) {
    forall k: nat {:trigger LinkedAt(levels, k)} :: k + 1 < |levels| ==> LinkedAt(levels, k)
  }

  lemma {:induction false} FirstLinked(a: Matrix, g: Graph, next: VCycle.Level)
    requires g.Valid() && |a| == g.n > 0 && next.a == CoarseMatrix(a, g)
    ensures VCycle.Linked(Aggregated(a, g), next) && |next.a| == Sweep(g, g.n).count
  {
    SweepPlacesAll(g);
  }

  lemma {:induction false} NotLinked(a: Matrix, g: Graph)
    requires g.Valid() && |a| == g.n > 0 && Sweep(g, g.n).count < g.n
    ensures !VCycle.Linked(Aggregated(a, g), Coarsest(a))
  {
    SweepPlacesAll(g);
    var cells, count := Nats(Sweep(g, g.n).cells), Sweep(g, g.n).count;
    assert |VCycle.Injection(cells, count)[0]| == count && |VCycle.Injection(cells, g.n)[0]| == g.n;
  }

  lemma {:induction false} LevelsStart(a: Matrix, g: Graph, target: nat)
    requires g.Valid()
    ensures Levels(a, g, target)[0].a == a
  {
    LevelsSplit(a, g, target);
  }

  lemma {:induction false} LinkedBehind(first: VCycle.Level, rest: seq<VCycle.Level>)
    requires |rest| > 0
    ensures AllLinked([first] + rest) <==> VCycle.Linked(first, rest[0]) && AllLinked(rest)
  {
    var all := [first] + rest;
    if AllLinked(all) {
      assert LinkedAt(all, 0);
      forall k: nat | k + 1 < |rest| ensures LinkedAt(rest, k) {
        assert LinkedAt(all, k + 1);
      }
    }
    if VCycle.Linked(first, rest[0]) && AllLinked(rest) {
      forall k: nat | k + 1 < |all| ensures LinkedAt(all, k) {
        if k > 0 {
          assert LinkedAt(rest, k - 1);
        }
      }
    }
  }

  /** The levels fit together exactly when no aggregation on the way down ends without a face. */
  lemma {:induction false} LinkedExactly(a: Matrix, g: Graph, target: nat)
    requires g.Valid() && |a| == g.n
    ensures AllLinked(Levels(a, g, target)) <==> !Collapses(g, target)
    decreases g.n
  {
    LevelsSplit(a, g, target);
    var s := Sweep(g, g.n);
    if g.n > target && s.count < g.n {
      var h := CoarseGraph(g, s);
      if h.owner == [] {
        NotLinked(a, g);
        LinkedBehind(Aggregated(a, g), [Coarsest(a)]);
      } else {
        var rest := Levels(CoarseMatrix(a, g), h, target);
        LevelsStart(CoarseMatrix(a, g), h, target);
        FirstLinked(a, g, rest[0]);
        LinkedExactly(CoarseMatrix(a, g), h, target);
        LinkedBehind(Aggregated(a, g), rest);
      }
    }
  }

  /** The last level has no aggregation of its own. */
  predicate EndsDirect(levels: seq<VCycle.Level>) {
    |levels| > 0 && levels[|levels| - 1].cellMap.None?
  }

  lemma {:induction false} SameEnd(first: VCycle.Level, rest: seq<VCycle.Level>)
    requires EndsDirect(rest)
    ensures EndsDirect([first] + rest)
  {
  }

  lemma {:induction false} LevelsEnd(a: Matrix, g: Graph, target: nat)
    requires g.Valid()
    ensures EndsDirect(Levels(a, g, target))
    decreases g.n
  {
    LevelsSplit(a, g, target);
    var s := Sweep(g, g.n);
    assert EndsDirect([Coarsest(a)]);
    if g.n > target && s.count < g.n {
      var h := CoarseGraph(g, s);
      if h.owner == [] {
        SameEnd(Aggregated(a, g), [Coarsest(a)]);
      } else {
        LevelsEnd(CoarseMatrix(a, g), h, target);
        SameEnd(Aggregated(a, g), Levels(CoarseMatrix(a, g), h, target));
      }
    }
  }

  /** Then the V-cycle's theory applies to what `build_levels` returns. */
  lemma {:induction false} BuiltHierarchy(a: Matrix, g: Graph, target: nat)
    requires g.Valid() && VCycle.SymmetricMatrix(a, g.n) && !Collapses(g, target)
    requires VCycle.Smoothable(Levels(a, g, target))
    ensures VCycle.Hierarchy(Levels(a, g, target))
  {
    LinkedExactly(a, g, target);
    LevelsEnd(a, g, target);
    LevelsStart(a, g, target);
    var levels := Levels(a, g, target);
    forall k: nat | k + 1 < |levels| ensures VCycle.Linked(levels[k], levels[k + 1]) {
      assert LinkedAt(levels, k);
    }
  }

  /** One step down from a connected graph. */
  lemma {:induction false} StepDown(g: Graph)
    requires g.Valid() && WeightsNonnegative(g) && AllConnected(g) && g.n > 0
    ensures AllPlaced(g, Sweep(g, g.n))
    ensures var h := CoarseGraph(g, Sweep(g, g.n)); WeightsNonnegative(h) && AllConnected(h)
    ensures 0 < Sweep(g, g.n).count && (g.n >= 2 ==> 2 * Sweep(g, g.n).count <= g.n)
  {
    SweepPlacesAll(g);
    CoarseNonnegative(g, Sweep(g, g.n));
    CoarseConnected(g, Sweep(g, g.n));
    assert 0 <= Sweep(g, g.n).cells[0] < Sweep(g, g.n).count;
    if g.n >= 2 {
      Halves(g);
    }
  }

  lemma {:induction false} OneMore(rest: nat, few: nat, n: nat)
    requires rest > 0 && Power2(rest - 1) <= few && 2 * few <= n
    ensures Power2(rest) <= n
  {
  }

  lemma {:induction false} FewBelow(a: Matrix, h: Graph, target: nat, n: nat)
    requires h.Valid() && WeightsNonnegative(h) && AllConnected(h) && h.n > 0 && 2 * h.n <= n
    ensures Power2(|Levels(a, h, target)|) <= n
    decreases h.n, 2
  {
    FewLevels(a, h, target);
    OneMore(|Levels(a, h, target)|, h.n, n);
  }

  /** A connected graph gives few levels: the number of cells at least halves from each to the next. */
  lemma {:induction false} FewLevels(a: Matrix, g: Graph, target: nat)
    requires g.Valid() && WeightsNonnegative(g) && AllConnected(g) && g.n > 0
    ensures Power2(|Levels(a, g, target)| - 1) <= g.n
    decreases g.n, 1
  {
    LevelsSplit(a, g, target);
    var count := Sweep(g, g.n).count;
    if g.n > target && count < g.n {
      StepDown(g);
      var h := CoarseGraph(g, Sweep(g, g.n));
      if h.owner == [] {
        OneMore(1, count, g.n);
      } else {
        FewBelow(CoarseMatrix(a, g), h, target, g.n);
      }
    }
  }

  /** The operators of the levels: each but the last larger than `target`, and each smaller than the one before it. */
  predicate SizesFall(levels: seq<VCycle.Level>, target: nat) {
    forall k :: 0 <= k < |levels| - 1 ==> |levels[k].a| > target && |levels[k + 1].a| < |levels[k].a|
  }

  lemma {:induction false} SizesBehind(first: VCycle.Level, rest: seq<VCycle.Level>, target: nat)
    requires rest != [] && SizesFall(rest, target) && |first.a| > target && |rest[0].a| < |first.a|
    ensures SizesFall([first] + rest, target)
  {
    var all := [first] + rest;
    forall k | 0 <= k < |all| - 1 ensures |all[k].a| > target && |all[k + 1].a| < |all[k].a| {
      if k > 0 {
        assert all[k] == rest[k - 1] && all[k + 1] == rest[k];
      }
    }
  }

  lemma {:induction false} CoarseSize(a: Matrix, g: Graph)
    requires g.Valid()
    ensures |CoarseMatrix(a, g)| == Sweep(g, g.n).count && Aggregated(a, g).a == a
  {
  }

  /** Aggregation goes on while there are more cells than `target` and it makes fewer of them. */
  lemma {:induction false} LevelsShrink(a: Matrix, g: Graph, target: nat)
    requires g.Valid() && |a| == g.n && !Collapses(g, target)
    ensures SizesFall(Levels(a, g, target), target)
    decreases g.n
  {
    LevelsSplit(a, g, target);
    var s := Sweep(g, g.n);
    if g.n > target && s.count < g.n {
      var a', h := CoarseMatrix(a, g), CoarseGraph(g, s);
      CoarseSize(a, g);
      LevelsShrink(a', h, target);
      LevelsStart(a', h, target);
      SizesBehind(Aggregated(a, g), Levels(a', h, target), target);
    }
  }

  /** The size of the last operator. */
  function LastSize(levels: seq<VCycle.Level>): nat
    requires levels != []
  {
    |levels[|levels| - 1].a|
  }

  lemma {:induction false} SameLast(first: VCycle.Level, rest: seq<VCycle.Level>)
    requires rest != []
    ensures LastSize([first] + rest) == LastSize(rest)
  {
  }

  /** A connected graph is brought down to `target`, or to one cell. */
  lemma {:induction false} LevelsReachTarget(a: Matrix, g: Graph, target: nat)
    requires g.Valid() && WeightsNonnegative(g) && AllConnected(g) && g.n > 0 && |a| == g.n && !Collapses(g, target)
    ensures LastSize(Levels(a, g, target)) <= if target > 1 then target else 1
    decreases g.n
  {
    LevelsSplit(a, g, target);
    var s := Sweep(g, g.n);
    StepDown(g);
    if g.n > target && s.count < g.n {
      var a', h := CoarseMatrix(a, g), CoarseGraph(g, s);
      CoarseSize(a, g);
      LevelsReachTarget(a', h, target);
      SameLast(Aggregated(a, g), Levels(a', h, target));
    }
  }

  /** One cell joined to two others, as small as it gets with a target of two cells. */
  const STAR: Graph := Graph(3, [0, 0], [1, 2], [1.0, 1.0])

  lemma {:induction false} StarCollapses(a: Matrix)
    requires |a| == 3
    ensures STAR.Valid() && Collapses(STAR, 2) && !AllLinked(Levels(a, STAR, 2))
  {
    StarSweep();
    SweepPlacesAll(STAR);
    var s := Sweep(STAR, 3);
    assert PairSums(STAR, s.cells, 1) == PairSums(STAR, s.cells, 0) == map[];
    NoPairs(STAR, s);
    LinkedExactly(a, STAR, 2);
  }

  lemma {:induction false} StarFaces()
    ensures STAR.Valid() && Incident(STAR, 0, 2) == [0, 1] && Incident(STAR, 2, 2) == [1]
  {
    assert Incident(STAR, 0, 0) == [] && Incident(STAR, 0, 1) == [0];
    assert Incident(STAR, 2, 0) == [] && Incident(STAR, 2, 1) == [];
  }

  /** The first cell pairs with the second. */
  lemma {:induction false} StarFirst()
    ensures STAR.Valid() && Place(STAR, Agg([-1, -1, -1], 0), 0) == Agg([0, 0, -1], 1)
  {
    StarFaces();
    var cells := [-1, -1, -1];
    assert [0, 1][..1] == [0] && [0][..0] == [];
    assert Strongest(STAR, cells, 0, false, []) == -1;
    assert Strongest(STAR, cells, 0, false, [0]) == 0;
    assert Strongest(STAR, cells, 0, false, [0, 1]) == 0;
  }

  /** The third finds only a taken cell and joins it. */
  lemma {:induction false} StarLast()
    ensures STAR.Valid() && Place(STAR, Agg([0, 0, -1], 1), 2) == Agg([0, 0, 0], 1)
  {
    StarFaces();
    var cells := [0, 0, -1];
    assert [1][..0] == [];
    assert Strongest(STAR, cells, 2, false, []) == -1 && Strongest(STAR, cells, 2, true, []) == -1;
    assert Strongest(STAR, cells, 2, false, [1]) == -1;
    assert Strongest(STAR, cells, 2, true, [1]) == 1;
  }

  lemma {:induction false} SweepIs(g: Graph, c: nat, s: Agg, s': Agg)
    requires g.Valid() && c < g.n && Sweep(g, c) == s && Place(g, s, c) == s'
    ensures Sweep(g, c + 1) == s'
  {
    assert Sweep(g, c + 1) == Swept(g, c);
  }

  lemma {:induction false} StarSweep()
    ensures STAR.Valid() && Sweep(STAR, 3) == Agg([0, 0, 0], 1)
  {
    StarFirst();
    StarLast();
    var none := seq(3, _ => -1);
    assert none == [-1, -1, -1];
    assert Sweep(STAR, 0) == Agg([-1, -1, -1], 0);
    SweepIs(STAR, 0, Agg([-1, -1, -1], 0), Agg([0, 0, -1], 1));
    SweepIs(STAR, 1, Agg([0, 0, -1], 1), Agg([0, 0, -1], 1));
    SweepIs(STAR, 2, Agg([0, 0, -1], 1), Agg([0, 0, 0], 1));
  }
}
