/** Pairwise aggregation of a cell graph: the greedy sweep and what its aggregates look like. */
module Aggregation {
  import opened Reachability
  import opened Sequences

  /** Cells joined by weighted faces. */
  datatype Graph = Graph(n: nat, owner: seq<nat>, nei: seq<nat>, weight: seq<real>)
  {
    predicate Valid() {
      && |owner| == |nei| == |weight|
      && forall f :: 0 <= f < |owner| ==> owner[f] < n && nei[f] < n && owner[f] != nei[f]
    }

    predicate WeightsAbove(w: real) {
      forall f :: 0 <= f < |weight| ==> weight[f] > w
    }
  }

  predicate AtCell(g: Graph, f: nat, c: nat)
    requires g.Valid() && f < |g.owner|
  {
    g.owner[f] == c || g.nei[f] == c
  }

  function Other(g: Graph, f: nat, c: nat): (d: nat)
    requires g.Valid() && f < |g.owner|
    ensures d < g.n
  {
    if g.owner[f] == c then g.nei[f] else g.owner[f]
  }

  predicate FacesOf(g: Graph, faces: seq<nat>) {
    forall k :: 0 <= k < |faces| ==> faces[k] < |g.owner|
  }

  /** The faces below `k` at a cell, in face order. */
  function Incident(g: Graph, c: nat, k: nat): (r: seq<nat>)
    requires g.Valid() && k <= |g.owner|
    ensures FacesOf(g, r) && forall f: nat :: f in r <==> f < k && AtCell(g, f, c)
  {
    if k == 0 then [] else Incident(g, c, k - 1) + if AtCell(g, k - 1, c) then [k - 1] else []
  }

  /** The cell across `f` is already in an aggregate, or is not, as asked. */
  predicate Eligible(g: Graph, map_: seq<int>, c: nat, taken: bool, f: nat)
    requires g.Valid() && f < |g.owner| && |map_| == g.n
  {
    (map_[Other(g, f, c)] >= 0) == taken
  }

  /** The first eligible face of greatest weight, above -1; -1 for none. */
  function Strongest(g: Graph, map_: seq<int>, c: nat, taken: bool, faces: seq<nat>): (b: int)
    requires g.Valid() && |map_| == g.n && FacesOf(g, faces)
    ensures b >= 0 ==> b in faces && b < |g.owner|
  {
    if faces == [] then -1
    else
      var f := faces[|faces| - 1];
      assert f in faces;
      var b := Strongest(g, map_, c, taken, faces[..|faces| - 1]);
      if Eligible(g, map_, c, taken, f) && g.weight[f] > (if b < 0 then -1.0 else g.weight[b]) then f else b
  }

  /** It is eligible, no eligible face is stronger, and there is none only if nothing is eligible above -1. */
  lemma {:induction false} StrongestIs(g: Graph, map_: seq<int>, c: nat, taken: bool, faces: seq<nat>)
    requires g.Valid() && |map_| == g.n && FacesOf(g, faces)
    ensures var b := Strongest(g, map_, c, taken, faces);
      && (b >= 0 ==> b < |g.owner| && Eligible(g, map_, c, taken, b) && g.weight[b] > -1.0)
      && forall f: nat :: f in faces && f < |g.owner| && Eligible(g, map_, c, taken, f) ==>
         f < |g.owner| && g.weight[f] <= if b >= 0 then g.weight[b] else -1.0
  {
    if faces != [] {
      StrongestIs(g, map_, c, taken, faces[..|faces| - 1]);
      assert faces == faces[..|faces| - 1] + [faces[|faces| - 1]];
    }
  }

  /** Of faces in order, it is the first as strong as that. */
  lemma {:induction false} StrongestFirst(g: Graph, map_: seq<int>, c: nat, taken: bool, faces: seq<nat>)
    requires g.Valid() && |map_| == g.n && FacesOf(g, faces)
    requires Ascending(faces)
    ensures var b := Strongest(g, map_, c, taken, faces);
      forall f: nat :: f in faces && f < b && Eligible(g, map_, c, taken, f) ==> g.weight[f] < g.weight[b]
  {
    if faces != [] {
      var before, last := faces[..|faces| - 1], faces[|faces| - 1];
      StrongestFirst(g, map_, c, taken, before);
      StrongestIs(g, map_, c, taken, before);
      assert faces == before + [last];
      assert forall f: nat :: f in before ==> f < last;
    }
  }

  lemma {:induction false} IncidentAscends(g: Graph, c: nat, k: nat)
    requires g.Valid() && k <= |g.owner|
    ensures Ascending(Incident(g, c, k))
  {
    if k > 0 {
      IncidentAscends(g, c, k - 1);
      var r := Incident(g, c, k - 1);
      forall i | 0 <= i < |r| ensures r[i] < k - 1 {
        assert r[i] in r;
      }
      assert Incident(g, c, k) == r + if AtCell(g, k - 1, c) then [k - 1] else [];
    }
  }

  /** The cell map so far (-1: none yet) and the number of aggregates. */
  datatype Agg = Agg(cells: seq<int>, count: nat)

  predicate Shaped(g: Graph, s: Agg) {
    |s.cells| == g.n && forall i :: 0 <= i < g.n ==> -1 <= s.cells[i] < s.count
  }

  /** One cell of the sweep. */
  function Place(g: Graph, s: Agg, c: nat): (r: Agg)
    requires g.Valid() && Shaped(g, s) && c < g.n
    ensures Shaped(g, r)
  {
    var faces := Incident(g, c, |g.owner|);
    if s.cells[c] >= 0 then s
    else
      var b := Strongest(g, s.cells, c, false, faces);
      if b >= 0 then Agg(s.cells[c := s.count][Other(g, b, c) := s.count], s.count + 1)
      else
        var t := Strongest(g, s.cells, c, true, faces);
        if t >= 0 && s.cells[Other(g, t, c)] >= 0 then Agg(s.cells[c := s.cells[Other(g, t, c)]], s.count)
        else Agg(s.cells[c := s.count], s.count + 1)
  }

  /** The sweep over the first `c` cells. */
  function Sweep(g: Graph, c: nat): (r: Agg)
    requires g.Valid() && c <= g.n
    ensures Shaped(g, r)
    decreases c, 0
  {
    if c == 0 then Agg(seq(g.n, _ => -1), 0) else Swept(g, c - 1)
  }

  function Swept(g: Graph, c: nat): (r: Agg)
    requires g.Valid() && c < g.n
    ensures Shaped(g, r)
    decreases c, 1
  {
    Place(g, Sweep(g, c), c)
  }

  // ---- the code -------------------------------------------------------------------------------------

  /** The search loop over a cell's faces. */
  method FindStrongest(g: Graph, cellMap: array<int>, c: nat, taken: bool, faces: seq<nat>) returns (best: int)
    requires g.Valid() && cellMap.Length == g.n && FacesOf(g, faces)
    ensures best == Strongest(g, cellMap[..], c, taken, faces)
  {
    best := -1;
    var bestWeight := -1.0;
    for k := 0 to |faces|
      invariant FacesOf(g, faces[..k])
      invariant best == Strongest(g, cellMap[..], c, taken, faces[..k])
      invariant bestWeight == if best < 0 then -1.0 else g.weight[best]
    {
      var f := faces[k];
      assert faces[..k + 1][..k] == faces[..k];
      var other := Other(g, f, c);
      if (cellMap[other] >= 0) == taken && g.weight[f] > bestWeight {
        bestWeight := g.weight[f];
        best := f;
      }
    }
    assert faces[..|faces|] == faces;
  }

  method CollectIncident(g: Graph) returns (incident: seq<seq<nat>>)
    requires g.Valid()
    ensures |incident| == g.n && forall c :: 0 <= c < g.n ==> incident[c] == Incident(g, c, |g.owner|)
  {
    incident := seq(g.n, _ => []);
    for f := 0 to |g.owner|
      invariant |incident| == g.n && forall c :: 0 <= c < g.n ==> incident[c] == Incident(g, c, f)
    {
      var o, n := g.owner[f], g.nei[f];
      incident := incident[o := incident[o] + [f]];
      incident := incident[n := incident[n] + [f]];
    }
  }

  /** The body of the sweep for one cell. */
  method PlaceCell(g: Graph, cellMap: array<int>, c: nat, faces: seq<nat>, nCoarse: nat) returns (count: nat)
    requires g.Valid() && Shaped(g, Agg(cellMap[..], nCoarse)) && c < g.n && faces == Incident(g, c, |g.owner|)
    modifies cellMap
    ensures Agg(cellMap[..], count) == Place(g, Agg(old(cellMap[..]), nCoarse), c)
  {
    ghost var before := cellMap[..];
    count := nCoarse;
    if cellMap[c] >= 0 {
      return;
    }
    var best := FindStrongest(g, cellMap, c, false, faces);
    if best >= 0 {
      var other := Other(g, best, c);
      cellMap[c] := nCoarse;
      cellMap[other] := nCoarse;
      assert cellMap[..] == before[c := nCoarse][other := nCoarse];
      count := nCoarse + 1;
      return;
    }
    var attached := FindStrongest(g, cellMap, c, true, faces);
    if attached >= 0 && cellMap[Other(g, attached, c)] >= 0 {
      cellMap[c] := cellMap[Other(g, attached, c)];
    } else {
      cellMap[c] := nCoarse;
      count := nCoarse + 1;
    }
  }

  /** The greedy selector; its result is that of the sweep over all cells. */
  method PairwiseAggregate(g: Graph) returns (cells: seq<int>, nCoarse: nat)
    requires g.Valid()
    ensures Agg(cells, nCoarse) == Sweep(g, g.n)
  {
    var incident := CollectIncident(g);
    var cellMap := new int[g.n](_ => -1);
    nCoarse := 0;
    assert cellMap[..] == seq(g.n, _ => -1);
    for c := 0 to g.n
      invariant Agg(cellMap[..], nCoarse) == Sweep(g, c)
    {
      nCoarse := PlaceCell(g, cellMap, c, incident[c], nCoarse);
      assert Sweep(g, c + 1) == Swept(g, c);
    }
    cells := cellMap[..];
  }

  // ---- what the aggregates look like ----------------------------------------------------------------

  predicate Joins(g: Graph, f: nat, x: int, y: int)
    requires g.Valid() && f < |g.owner|
  {
    (g.owner[f] == x && g.nei[f] == y) || (g.owner[f] == y && g.nei[f] == x)
  }

  ghost predicate Adjacent(g: Graph, x: int, y: int)
    requires g.Valid()
  {
    exists f: nat {:trigger Joins(g, f, x, y)} :: f < |g.owner| && Joins(g, f, x, y)
  }

  ghost predicate Isolated(g: Graph, c: nat)
    requires g.Valid()
  {
    forall f :: 0 <= f < |g.owner| ==> !AtCell(g, f, c)
  }

  /** A step inside one aggregate. */
  ghost predicate Inside(g: Graph, cells: seq<int>, x: int, y: int)
    requires g.Valid()
  {
    0 <= x < |cells| && 0 <= y < |cells| && cells[x] == cells[y] >= 0 && Adjacent(g, x, y)
  }

  ghost function Within(g: Graph, cells: seq<int>): (int, int) -> bool
    requires g.Valid()
  {
    (x, y) => Inside(g, cells, x, y)
  }

  ghost predicate Connected(g: Graph, s: Agg)
    requires g.Valid()
  {
    forall i, j :: 0 <= i < |s.cells| && 0 <= j < |s.cells| && s.cells[i] == s.cells[j] >= 0 ==>
      Reaches(Within(g, s.cells), i, j)
  }

  predicate Used(s: Agg, a: int) {
    exists i :: 0 <= i < |s.cells| && s.cells[i] == a
  }

  ghost predicate Onto(s: Agg) {
    forall a {:trigger Used(s, a)} :: 0 <= a < s.count ==> Used(s, a)
  }

  ghost predicate OnlyIsolatedAlone(g: Graph, s: Agg)
    requires g.Valid()
  {
    forall i :: 0 <= i < |s.cells| && s.cells[i] >= 0 ==> Isolated(g, i) || HasMate(s, i)
  }

  predicate HasMate(s: Agg, i: int)
    requires 0 <= i < |s.cells|
  {
    exists j :: 0 <= j < |s.cells| && j != i && s.cells[j] == s.cells[i]
  }

  ghost function Cells(n: nat): (r: set<int>)
    ensures |r| == n && forall i :: i in r <==> 0 <= i < n
  {
    if n == 0 then {} else Cells(n - 1) + {n - 1}
  }

  ghost function Mapped(s: Agg): set<int> {
    set i | i in Cells(|s.cells|) && s.cells[i] >= 0
  }

  ghost function LooseCells(g: Graph): set<int>
    requires g.Valid()
  {
    set i | i in Cells(g.n) && Isolated(g, i)
  }

  /** Twice the aggregates are paid for by the mapped cells, isolated ones counting double. */
  ghost predicate Paid(g: Graph, s: Agg)
    requires g.Valid()
  {
    2 * s.count <= |Mapped(s)| + |Mapped(s) * LooseCells(g)|
  }

  /** What a step of the sweep does to the map: nothing, a new pair, one cell attached, or one cell on its own. */
  datatype Move = Stay | Pair(other: nat) | Attach(other: nat) | Single

  ghost predicate Moves(g: Graph, s: Agg, s': Agg, c: nat, m: Move)
    requires g.Valid() && Shaped(g, s) && c < g.n
  {
    match m
    case Stay => s' == s && s.cells[c] >= 0
    case Pair(o) => s.cells[c] < 0 && o < g.n && o != c && s.cells[o] < 0 && Adjacent(g, c, o)
                    && s' == Agg(s.cells[c := s.count][o := s.count], s.count + 1)
    case Attach(o) =>
      s.cells[c] < 0 && o < g.n && s.cells[o] >= 0 && Adjacent(g, c, o) && s' == Agg(s.cells[c := s.cells[o]], s.count)
    case Single => s.cells[c] < 0 && s' == Agg(s.cells[c := s.count], s.count + 1)
  }

  /** Face `f` of `c` leads to a cell in an aggregate, or to one in none, as asked, and counts. */
  predicate Offers(g: Graph, s: Agg, c: nat, taken: bool, f: nat)
    requires g.Valid() && Shaped(g, s) && f < |g.owner|
  {
    AtCell(g, f, c) && (s.cells[Other(g, f, c)] >= 0) == taken && g.weight[f] > -1.0
  }

  predicate NoOffer(g: Graph, s: Agg, c: nat, taken: bool)
    requires g.Valid() && Shaped(g, s)
  {
    forall f: nat :: f < |g.owner| ==> !Offers(g, s, c, taken, f)
  }

  /** Face `f` is the first of the heaviest on offer. */
  predicate BestOffer(g: Graph, s: Agg, c: nat, taken: bool, f: nat)
    requires g.Valid() && Shaped(g, s) && f < |g.owner|
  {
    && Offers(g, s, c, taken, f)
    && forall e: nat :: e < |g.owner| && Offers(g, s, c, taken, e) ==>
         g.weight[e] <= g.weight[f] && (e < f ==> g.weight[e] < g.weight[f])
  }

  /** Which step is due: a cell without an aggregate pairs across its heaviest face to another one without, and only if
      there is none it joins the aggregate across its heaviest face, and only if there is none either it stays alone. */
  predicate Due(g: Graph, s: Agg, c: nat, m: Move, f: nat)
    requires g.Valid() && Shaped(g, s) && c < g.n
  {
    match m
    case Stay => s.cells[c] >= 0
    case Pair(o) =>
      s.cells[c] < 0 && f < |g.owner| && BestOffer(g, s, c, false, f) && o == Other(g, f, c)
    case Attach(o) =>
      && s.cells[c] < 0 && NoOffer(g, s, c, false)
      && f < |g.owner| && BestOffer(g, s, c, true, f) && o == Other(g, f, c)
    case Single => s.cells[c] < 0 && NoOffer(g, s, c, false) && NoOffer(g, s, c, true)
  }

  /** What a search over all faces of a cell finds. */
  lemma {:induction false} SearchFinds(g: Graph, s: Agg, c: nat, taken: bool)
    requires g.Valid() && Shaped(g, s) && c < g.n
    ensures var b := Strongest(g, s.cells, c, taken, Incident(g, c, |g.owner|));
      if b >= 0 then b < |g.owner| && BestOffer(g, s, c, taken, b) else NoOffer(g, s, c, taken)
  {
    var faces := Incident(g, c, |g.owner|);
    StrongestIs(g, s.cells, c, taken, faces);
    IncidentAscends(g, c, |g.owner|);
    StrongestFirst(g, s.cells, c, taken, faces);
    var b := Strongest(g, s.cells, c, taken, faces);
    forall e: nat | e < |g.owner| && Offers(g, s, c, taken, e)
      ensures b >= 0 && g.weight[e] <= g.weight[b] && (e < b ==> g.weight[e] < g.weight[b])
    {
      assert e in faces && Eligible(g, s.cells, c, taken, e);
    }
  }

  lemma {:induction false} FaceAdjoins(g: Graph, f: nat, c: nat)
    requires g.Valid() && f < |g.owner| && AtCell(g, f, c)
    ensures Adjacent(g, c, Other(g, f, c)) && Other(g, f, c) != c
  {
    assert Joins(g, f, c, Other(g, f, c));
  }

  lemma {:induction false} PlaceMoves(g: Graph, s: Agg, c: nat) returns (m: Move, f: nat)
    requires g.Valid() && Shaped(g, s) && c < g.n
    ensures Due(g, s, c, m, f) && Moves(g, s, Place(g, s, c), c, m)
    ensures m.Single? && g.WeightsAbove(-1.0) ==> Isolated(g, c)
  {
    if s.cells[c] >= 0 {
      return Stay, 0;
    }
    var faces := Incident(g, c, |g.owner|);
    var b, t := Strongest(g, s.cells, c, false, faces), Strongest(g, s.cells, c, true, faces);
    SearchFinds(g, s, c, false);
    if b >= 0 {
      FaceAdjoins(g, b, c);
      return Pair(Other(g, b, c)), b;
    }
    SearchFinds(g, s, c, true);
    if t >= 0 {
      FaceAdjoins(g, t, c);
      return Attach(Other(g, t, c)), t;
    }
    if g.WeightsAbove(-1.0) {
      forall e | 0 <= e < |g.owner| ensures !AtCell(g, e, c) {
        assert !Offers(g, s, c, false, e) && !Offers(g, s, c, true, e);
      }
    }
    return Single, 0;
  }

  lemma {:induction false} MoveOnto(g: Graph, s: Agg, s': Agg, c: nat, m: Move)
    requires g.Valid() && Shaped(g, s) && c < g.n && Moves(g, s, s', c, m) && Onto(s)
    ensures Onto(s')
  {
    forall a | 0 <= a < s'.count ensures Used(s', a) {
      if a < s.count {
        assert Used(s, a);
        var i :| 0 <= i < |s.cells| && s.cells[i] == a;
        assert s'.cells[i] == a;
      } else {
        assert s'.cells[c] == a;
      }
    }
  }

  lemma {:induction false} MoveMates(g: Graph, s: Agg, s': Agg, c: nat, m: Move)
    requires g.Valid() && Shaped(g, s) && c < g.n && Moves(g, s, s', c, m) && OnlyIsolatedAlone(g, s)
    requires m.Single? ==> Isolated(g, c)
    ensures OnlyIsolatedAlone(g, s')
  {
    forall i | 0 <= i < |s'.cells| && s'.cells[i] >= 0 ensures Isolated(g, i) || HasMate(s', i) {
      if s.cells[i] >= 0 {
        if HasMate(s, i) {
          var j :| 0 <= j < |s.cells| && j != i && s.cells[j] == s.cells[i];
          assert s'.cells[j] == s'.cells[i];
        }
      } else if m.Pair? {
        assert s'.cells[if i == c then m.other else c] == s'.cells[i];
      } else if m.Attach? {
        assert s'.cells[m.other] == s'.cells[i];
      }
    }
  }

  ghost function Added(c: nat, m: Move): set<int> {
    match m case Stay => {} case Pair(o) => {c, o} case Attach(_) => {c} case Single => {c}
  }

  lemma {:induction false} OneMapped(cells: seq<int>, count: nat, c: nat, a: int)
    requires c < |cells| && cells[c] < 0 && a >= 0
    ensures Mapped(Agg(cells[c := a], count)) == Mapped(Agg(cells, count)) + {c as int}
    ensures c !in Mapped(Agg(cells, count))
  {
  }

  lemma {:induction false} MoveMaps(g: Graph, s: Agg, s': Agg, c: nat, m: Move)
    requires g.Valid() && Shaped(g, s) && c < g.n && Moves(g, s, s', c, m)
    ensures Mapped(s') == Mapped(s) + Added(c, m) && Mapped(s) !! Added(c, m)
  {
    match m {
      case Stay =>
      case Pair(o) =>
        OneMapped(s.cells, s.count, c, s.count);
        OneMapped(s.cells[c := s.count], s.count, o, s.count);
      case Attach(o) =>
        OneMapped(s.cells, s.count, c, s.cells[o]);
      case Single =>
        OneMapped(s.cells, s.count, c, s.count);
    }
    assert Mapped(s') == Mapped(Agg(s'.cells, s.count));
  }

  lemma {:induction false} DisjointCounts(old_: set<int>, more: set<int>, loose: set<int>)
    requires old_ !! more
    ensures |old_ + more| == |old_| + |more|
    ensures |(old_ + more) * loose| == |old_ * loose| + |more * loose|
  {
    assert (old_ + more) * loose == old_ * loose + more * loose;
  }

  /** A step adds as many aggregates as its cells pay for. */
  lemma {:induction false} AddedPays(c: nat, m: Move, loose: set<int>)
    requires m.Pair? ==> m.other != c
    requires m.Single? ==> c in loose
    ensures (if m.Pair? || m.Single? then 2 else 0) <= |Added(c, m)| + |Added(c, m) * loose|
  {
    if m.Single? {
      assert Added(c, m) * loose == {c as int};
    }
  }

  lemma {:induction false} MoveCounts(g: Graph, s: Agg, s': Agg, c: nat, m: Move)
    requires g.Valid() && Shaped(g, s) && c < g.n && Moves(g, s, s', c, m)
    ensures 2 * s'.count == 2 * s.count + (if m.Pair? || m.Single? then 2 else 0)
    ensures m.Pair? ==> m.other != c
  {
  }

  lemma {:induction false} LooseIs(g: Graph, c: nat)
    requires g.Valid() && c < g.n && Isolated(g, c)
    ensures c in LooseCells(g)
  {
  }

  lemma {:induction false} MovePaid(g: Graph, s: Agg, s': Agg, c: nat, m: Move)
    requires g.Valid() && Shaped(g, s) && c < g.n && Moves(g, s, s', c, m) && Paid(g, s)
    requires m.Single? ==> Isolated(g, c)
    ensures Paid(g, s')
  {
    MoveMaps(g, s, s', c, m);
    MoveCounts(g, s, s', c, m);
    if m.Single? {
      LooseIs(g, c);
    }
    DisjointCounts(Mapped(s), Added(c, m), LooseCells(g));
    AddedPays(c, m, LooseCells(g));
  }

  lemma {:induction false} OldReaches(g: Graph, s: Agg, s': Agg, c: nat, m: Move, i: int, j: int)
    requires g.Valid() && Shaped(g, s) && c < g.n && Moves(g, s, s', c, m)
    requires Reaches(Within(g, s.cells), i, j)
    ensures Reaches(Within(g, s'.cells), i, j)
  {
    forall x, y | Within(g, s.cells)(x, y) ensures Within(g, s'.cells)(x, y) {
      assert Inside(g, s.cells, x, y);
    }
    ReachesMonotone(Within(g, s.cells), Within(g, s'.cells), i, j);
  }

  lemma {:induction false} WithinSymmetric(g: Graph, cells: seq<int>)
    requires g.Valid()
    ensures Symmetric(Within(g, cells))
  {
    forall x, y | Within(g, cells)(x, y) ensures Within(g, cells)(y, x) {
      assert Inside(g, cells, x, y);
      var f: nat :| f < |g.owner| && Joins(g, f, x, y);
      assert Joins(g, f, y, x);
    }
  }

  /** A cell reaches whatever its partner reaches. */
  lemma {:induction false} ThroughPartner(g: Graph, cells: seq<int>, c: int, o: int, j: int)
    requires g.Valid() && Inside(g, cells, c, o) && Reaches(Within(g, cells), o, j)
    ensures Reaches(Within(g, cells), c, j) && Reaches(Within(g, cells), j, c)
  {
    WithinSymmetric(g, cells);
    assert Within(g, cells)(c, o);
    ReachesStep(Within(g, cells), c, o);
    ReachesTransitive(Within(g, cells), c, o, j);
    ReachesSymmetric(Within(g, cells), c, j);
  }

  lemma {:induction false} MoveConnected(g: Graph, s: Agg, s': Agg, c: nat, m: Move)
    requires g.Valid() && Shaped(g, s) && c < g.n && Moves(g, s, s', c, m) && Connected(g, s)
    ensures Connected(g, s')
  {
    forall i, j | 0 <= i < |s'.cells| && 0 <= j < |s'.cells| && s'.cells[i] == s'.cells[j] >= 0
      ensures Reaches(Within(g, s'.cells), i, j)
    {
      PairReaches(g, s, s', c, m, i, j);
    }
  }

  lemma {:induction false} PairReaches(g: Graph, s: Agg, s': Agg, c: nat, m: Move, i: int, j: int)
    requires g.Valid() && Shaped(g, s) && c < g.n && Moves(g, s, s', c, m) && Connected(g, s)
    requires 0 <= i < |s'.cells| && 0 <= j < |s'.cells| && s'.cells[i] == s'.cells[j] >= 0
    ensures Reaches(Within(g, s'.cells), i, j)
  {
    if i == j {
      ReachesSelf(Within(g, s'.cells), i);
    } else if s.cells[i] >= 0 && s.cells[j] >= 0 {
      OldReaches(g, s, s', c, m, i, j);
    } else if m.Pair? {
      assert Inside(g, s'.cells, c, m.other);
      ReachesSelf(Within(g, s'.cells), m.other);
      ThroughPartner(g, s'.cells, c, m.other, m.other);
    } else if m.Attach? {
      var k := if i == c then j else i;
      assert s.cells[k] == s.cells[m.other];
      OldReaches(g, s, s', c, m, m.other, k);
      assert Inside(g, s'.cells, c, m.other);
      ThroughPartner(g, s'.cells, c, m.other, k);
    }
  }

  /** Every step of the sweep is one of the four moves. */
  lemma {:induction false} SweepMoves(g: Graph, c: nat) returns (m: Move, f: nat)
    requires g.Valid() && c < g.n
    ensures Due(g, Sweep(g, c), c, m, f) && Moves(g, Sweep(g, c), Sweep(g, c + 1), c, m)
    ensures m.Single? && g.WeightsAbove(-1.0) ==> Isolated(g, c)
  {
    assert Sweep(g, c + 1) == Swept(g, c) == Place(g, Sweep(g, c), c);
    m, f := PlaceMoves(g, Sweep(g, c), c);
  }

  lemma {:induction false} SweepPlaces(g: Graph, c: nat)
    requires g.Valid() && c <= g.n
    ensures forall i :: 0 <= i < c ==> Sweep(g, c).cells[i] >= 0
  {
    if c > 0 {
      SweepPlaces(g, c - 1);
      var m, f := SweepMoves(g, c - 1);
    }
  }

  lemma {:induction false} SweepOnto(g: Graph, c: nat)
    requires g.Valid() && c <= g.n
    ensures Onto(Sweep(g, c))
  {
    if c > 0 {
      SweepOnto(g, c - 1);
      var m, f := SweepMoves(g, c - 1);
      MoveOnto(g, Sweep(g, c - 1), Sweep(g, c), c - 1, m);
    }
  }

  lemma {:induction false} SweepMates(g: Graph, c: nat)
    requires g.Valid() && g.WeightsAbove(-1.0) && c <= g.n
    ensures OnlyIsolatedAlone(g, Sweep(g, c))
  {
    if c > 0 {
      SweepMates(g, c - 1);
      var m, f := SweepMoves(g, c - 1);
      MoveMates(g, Sweep(g, c - 1), Sweep(g, c), c - 1, m);
    }
  }

  lemma {:induction false} SweepPaid(g: Graph, c: nat)
    requires g.Valid() && g.WeightsAbove(-1.0) && c <= g.n
    ensures Paid(g, Sweep(g, c))
  {
    if c > 0 {
      SweepPaid(g, c - 1);
      var m, f := SweepMoves(g, c - 1);
      MovePaid(g, Sweep(g, c - 1), Sweep(g, c), c - 1, m);
    }
  }

  lemma {:induction false} SweepConnected(g: Graph, c: nat)
    requires g.Valid() && c <= g.n
    ensures Connected(g, Sweep(g, c))
  {
    if c > 0 {
      SweepConnected(g, c - 1);
      var m, f := SweepMoves(g, c - 1);
      MoveConnected(g, Sweep(g, c - 1), Sweep(g, c), c - 1, m);
    }
  }

  ghost predicate AllPlaced(g: Graph, s: Agg) {
    |s.cells| == g.n && forall i :: 0 <= i < g.n ==> 0 <= s.cells[i] < s.count
  }

  /** Every cell lands in an aggregate, every number is used and aggregates are connected. With weights above -1 only
      isolated cells are alone, and the aggregates are at most half of the cells, isolated ones counted twice. */
  lemma {:induction false} AggregatesAll(g: Graph)
    requires g.Valid()
    ensures var s := Sweep(g, g.n); AllPlaced(g, s) && Onto(s) && Connected(g, s)
    ensures var s := Sweep(g, g.n);
      g.WeightsAbove(-1.0) ==> OnlyIsolatedAlone(g, s) && 2 * s.count <= g.n + |LooseCells(g)|
  {
    SweepPlaces(g, g.n);
    SweepOnto(g, g.n);
    SweepConnected(g, g.n);
    if g.WeightsAbove(-1.0) {
      SweepMates(g, g.n);
      SweepPaid(g, g.n);
      var s := Sweep(g, g.n);
      assert Mapped(s) == Cells(g.n);
      assert Cells(g.n) * LooseCells(g) == LooseCells(g);
    }
  }
}
