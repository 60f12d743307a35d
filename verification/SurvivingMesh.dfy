/** What `setRefinement` leaves of the mesh, in terms of the old mesh alone: which edges and points go, which faces
    merge, and the points, sides and patch of every face that survives. */
module SurvivingMesh {
  import opened Reachability
  import opened Sequences
  import opened Meshes
  import opened EdgeCounts
  import opened FaceWalk
  import opened Surgery
  import opened Refinement
  import opened Unrefinement
  import Cells = CellRegions

  // ---- what is left of a list -----------------------------------------------------------------------

  /** `at` lists, in order, the positions of `list` whose entries are not in `gone`. */
  predicate Positions(at: seq<nat>, list: seq<nat>, gone: set<nat>) {
    && Ascending(at)
    && (forall k :: 0 <= k < |at| ==> at[k] < |list|)
    && forall i: nat :: i < |list| ==> (i in at <==> list[i] !in gone)
  }

  /** `kept` is `list` without what is in `gone`, in the same order. */
  ghost predicate IsLeft(kept: seq<nat>, list: seq<nat>, gone: set<nat>) {
    exists at :: Positions(at, list, gone) && Picks(kept, list, at)
  }

  predicate Picks(kept: seq<nat>, list: seq<nat>, at: seq<nat>) {
    |at| == |kept| && forall k :: 0 <= k < |at| ==> at[k] < |list| && kept[k] == list[at[k]]
  }

  /** `kept` is `list` without what is in `gone`, read from its end. */
  ghost predicate IsLeftBackwards(kept: seq<nat>, list: seq<nat>, gone: set<nat>) {
    exists there :: IsLeft(there, list, gone) && Opposite(kept, there)
  }

  predicate Opposite(s: seq<nat>, t: seq<nat>) {
    |s| == |t| && forall i :: 0 <= i < |s| ==> s[i] == t[|t| - 1 - i]
  }

  lemma {:induction false} OneMorePosition(before: seq<nat>, list: seq<nat>, x: nat, gone: set<nat>, at: seq<nat>)
    requires Positions(before, list, gone) && at == before + if x in gone then [] else [|list|]
    ensures Positions(at, list + [x], gone)
  {
    forall i: nat | i < |list| + 1 ensures i in at <==> (list + [x])[i] !in gone {
      assert i in at <==> i in before || (x !in gone && i == |list|);
      assert i == |list| ==> i !in before;
    }
  }

  lemma {:induction false} PositionsOf(list: seq<nat>, gone: set<nat>) returns (at: seq<nat>)
    ensures Positions(at, list, gone) && |at| == |Remaining(list, gone)|
    ensures forall k :: 0 <= k < |at| ==> at[k] < |list| && Remaining(list, gone)[k] == list[at[k]]
  {
    if list == [] {
      return [];
    }
    var n, x := |list| - 1, list[|list| - 1];
    var before := PositionsOf(list[..n], gone);
    assert list == list[..n] + [x];
    RemainingAppend(list[..n], x, gone);
    at := before + if x in gone then [] else [n];
    OneMorePosition(before, list[..n], x, gone, at);
  }

  lemma {:induction false} OnePosition(at: seq<nat>, bt: seq<nat>, list: seq<nat>, gone: set<nat>)
    requires Positions(at, list, gone) && Positions(bt, list, gone)
    ensures at == bt
  {
    forall i: nat ensures i in at <==> i in bt {
      assert i in at ==> i < |list|;
      assert i in bt ==> i < |list|;
    }
    SameList(at, bt);
  }

  // ---- which edges and points go --------------------------------------------------------------------

  /** Two faces that become one across an edge: of one patch and not at a sharp angle, or between the same two
      regions. */
  predicate Mergeable(m: Mesh, cellRegion: seq<int>, tooSharp: (nat, nat) -> bool, f: nat, g: nat)
    requires FacesWellFormed(m) && |cellRegion| == m.nCells && f < m.NFaces() && g < m.NFaces()
  {
    || (!m.Internal(f) && !m.Internal(g) && m.whichPatch[f] == m.whichPatch[g] && !tooSharp(f, g))
    || (m.Internal(f) && m.Internal(g) && SameRegions(m, cellRegion, f, g))
  }

  predicate SameRegions(m: Mesh, cellRegion: seq<int>, f: nat, g: nat)
    requires FacesWellFormed(m) && |cellRegion| == m.nCells && m.Internal(f) && m.Internal(g)
  {
    var a, b := cellRegion[m.faceOwner[f]], cellRegion[m.faceNeighbour[f]];
    var c, d := cellRegion[m.faceOwner[g]], cellRegion[m.faceNeighbour[g]];
    (a == c && b == d) || (a == d && b == c)
  }

  /** A face that goes is on the edge, and the faces that stay on it are none, or two that merge. */
  ghost predicate EdgeGoes(m: Mesh, faceLabels: seq<nat>, cellRegion: seq<int>, tooSharp: (nat, nat) -> bool, e: nat)
    requires WellFormed(m) && |cellRegion| == m.nCells && e < |m.edges|
  {
    var fs := m.edgeFaces[e];
    && (exists f :: f in faceLabels && f in fs)
    && ((forall i :: 0 <= i < |fs| ==> fs[i] in faceLabels)
        || exists i, j ::
             0 <= i < j < |fs| && OnlyTwoStay(fs, FaceSet(faceLabels), i, j)
                  && fs[i] < m.NFaces() && fs[j] < m.NFaces()
             && Mergeable(m, cellRegion, tooSharp, fs[i], fs[j]))
  }

  predicate OnlyTwoStay(list: seq<nat>, gone: set<nat>, i: nat, j: nat)
    requires i < j < |list|
  {
    forall k :: 0 <= k < |list| ==> (list[k] !in gone <==> k == i || k == j)
  }

  lemma {:induction false} TwoLeft(list: seq<nat>, gone: set<nat>) returns (i: nat, j: nat)
    requires |Remaining(list, gone)| == 2
    ensures i < j < |list| && OnlyTwoStay(list, gone, i, j)
    ensures Remaining(list, gone) == [list[i], list[j]]
  {
    var at := PositionsOf(list, gone);
    i, j := at[0], at[1];
    assert at == [i, j];
    forall k: nat | k < |list| ensures list[k] !in gone <==> k == i || k == j {
      assert k in at <==> list[k] !in gone;
    }
  }

  lemma {:induction false} LeftAreTwo(list: seq<nat>, gone: set<nat>, i: nat, j: nat)
    requires i < j < |list| && OnlyTwoStay(list, gone, i, j)
    ensures Remaining(list, gone) == [list[i], list[j]]
  {
    var at := PositionsOf(list, gone);
    OnePosition(at, [i, j], list, gone);
  }

  lemma {:induction false} NoneLeft(list: seq<nat>, gone: set<nat>)
    ensures Remaining(list, gone) == [] <==> forall i :: 0 <= i < |list| ==> list[i] in gone
  {
    var at := PositionsOf(list, gone);
    if at == [] {
      forall i: nat | i < |list| ensures list[i] in gone {
        assert i !in at;
      }
    } else {
      assert at[0] in at;
    }
  }

  lemma {:induction false} EdgeGoesIfGone(m: Mesh, faceLabels: seq<nat>, cellRegion: seq<int>,
                                          tooSharp: (nat, nat) -> bool, e: nat)
    requires WellFormed(m) && |cellRegion| == m.nCells && NoneMixed(m, cellRegion, tooSharp, FaceSet(faceLabels))
    requires e in GoneEdges(m, faceLabels, cellRegion, tooSharp)
    ensures EdgeGoes(m, faceLabels, cellRegion, tooSharp, e)
  {
    var fs, gone := m.edgeFaces[e], FaceSet(faceLabels);
    if !EdgeTouched(m, gone, e) {
      RemainingUntouched(fs, gone);
    }
    NoneLeft(fs, gone);
    if |Remaining(fs, gone)| == 2 {
      var i, j := TwoLeft(fs, gone);
      assert fs[i] in fs && fs[j] in fs;
      DecidedToMerge(m, cellRegion, tooSharp, fs[i], fs[j]);
    }
  }

  /** The decision to merge, in terms of patches, angle and regions. */
  lemma {:induction false} DecidedToMerge(m: Mesh, cellRegion: seq<int>, tooSharp: (nat, nat) -> bool, f: nat, g: nat)
    requires FacesWellFormed(m) && |cellRegion| == m.nCells && f < m.NFaces() && g < m.NFaces()
    ensures Decide(m, cellRegion, tooSharp, f, g).Merge? <==> Mergeable(m, cellRegion, tooSharp, f, g)
    ensures Decide(m, cellRegion, tooSharp, f, g).Mixed? <==> m.Internal(f) != m.Internal(g)
  {
  }

  lemma {:induction false} GoneIfEdgeGoes(m: Mesh, faceLabels: seq<nat>, cellRegion: seq<int>,
                                          tooSharp: (nat, nat) -> bool, e: nat)
    requires WellFormed(m) && |cellRegion| == m.nCells && e < |m.edges|
    requires EdgeGoes(m, faceLabels, cellRegion, tooSharp, e)
    ensures e in GoneEdges(m, faceLabels, cellRegion, tooSharp)
  {
    var fs, gone := m.edgeFaces[e], FaceSet(faceLabels);
    var f :| f in faceLabels && f in fs;
    assert f in gone && EdgeTouched(m, gone, e);
    if forall i :: 0 <= i < |fs| ==> fs[i] in faceLabels {
      NoneLeft(fs, gone);
    } else {
      var i, j :| 0 <= i < j < |fs| && OnlyTwoStay(fs, FaceSet(faceLabels), i, j)
                  && fs[i] < m.NFaces() && fs[j] < m.NFaces()
                  && Mergeable(m, cellRegion, tooSharp, fs[i], fs[j]);
      LeftAreTwo(fs, gone, i, j);
      DecidedToMerge(m, cellRegion, tooSharp, fs[i], fs[j]);
    }
  }

  /** The edges to remove, of the old mesh alone. */
  lemma {:induction false} EdgesGoExactly(m: Mesh, faceLabels: seq<nat>, cellRegion: seq<int>,
                                          tooSharp: (nat, nat) -> bool, e: nat)
    requires WellFormed(m) && |cellRegion| == m.nCells && NoneMixed(m, cellRegion, tooSharp, FaceSet(faceLabels))
    requires e < |m.edges|
    ensures e in GoneEdges(m, faceLabels, cellRegion, tooSharp) <==> EdgeGoes(m, faceLabels, cellRegion, tooSharp, e)
  {
    if e in GoneEdges(m, faceLabels, cellRegion, tooSharp) {
      EdgeGoesIfGone(m, faceLabels, cellRegion, tooSharp, e);
    }
    if EdgeGoes(m, faceLabels, cellRegion, tooSharp, e) {
      GoneIfEdgeGoes(m, faceLabels, cellRegion, tooSharp, e);
    }
  }

  /** A point goes when its edges all go, or all but two. */
  ghost predicate PointGoes(m: Mesh, edges: set<nat>, p: nat)
    requires PointsWellFormed(m) && p < m.nPoints
  {
    var es := m.pointEdges[p];
    || (forall i :: 0 <= i < |es| ==> es[i] in edges)
    || exists i, j :: 0 <= i < j < |es| && OnlyTwoStay(es, edges, i, j)
  }

  lemma {:induction false} PointsGoExactly(m: Mesh, edges: set<nat>, p: nat)
    requires PointsWellFormed(m) && p < m.nPoints
    ensures p in GonePoints(m, edges) <==> PointGoes(m, edges, p)
  {
    var es := m.pointEdges[p];
    NoneLeft(es, edges);
    if PointUse(m, edges, p) == 2 {
      var i, j := TwoLeft(es, edges);
    }
    if PointGoes(m, edges, p) && !(forall i :: 0 <= i < |es| ==> es[i] in edges) {
      var i, j :| 0 <= i < j < |es| && OnlyTwoStay(es, edges, i, j);
      LeftAreTwo(es, edges, i, j);
    }
  }

  // ---- which faces merge ----------------------------------------------------------------------------

  /** Two faces that stay share an edge that goes. */
  ghost predicate AcrossGone(m: Mesh, faceLabels: seq<nat>, edges: set<nat>, f: int, g: int)
    requires EdgesWellFormed(m)
  {
    && 0 <= f < m.NFaces() && 0 <= g < m.NFaces() && f !in faceLabels && g !in faceLabels
    && exists e :: e in edges && e < |m.edges| && f in m.edgeFaces[e] && g in m.edgeFaces[e]
  }

  ghost function Across(m: Mesh, faceLabels: seq<nat>, edges: set<nat>): (int, int) -> bool
    requires EdgesWellFormed(m)
  {
    (f, g) => AcrossGone(m, faceLabels, edges, f, g)
  }

  /** What the walk crosses is what goes. */
  lemma {:induction false} CrossableGoes(m: Mesh, faceLabels: seq<nat>, cellRegion: seq<int>,
                                         tooSharp: (nat, nat) -> bool, e: nat)
    requires WellFormed(m) && |cellRegion| == m.nCells && EdgesDecided(m, faceLabels, cellRegion, tooSharp)
    requires e < |m.edges|
    ensures TheWalk(m, faceLabels, cellRegion, tooSharp).Crossable(e) <==>
      e in GoneEdges(m, faceLabels, cellRegion, tooSharp)
  {
  }

  lemma {:induction false} StepAcross(m: Mesh, faceLabels: seq<nat>, cellRegion: seq<int>,
                                      tooSharp: (nat, nat) -> bool, w: Walk, edges: set<nat>, f: int, g: int)
    requires WellFormed(m) && |cellRegion| == m.nCells && EdgesDecided(m, faceLabels, cellRegion, tooSharp)
    requires w == TheWalk(m, faceLabels, cellRegion, tooSharp)
    requires edges == GoneEdges(m, faceLabels, cellRegion, tooSharp)
    ensures w.Adjacent(f, g) <==> AcrossGone(m, faceLabels, edges, f, g)
  {
    forall e: nat | e < |m.edges| ensures w.Crossable(e) <==> e in edges {
      CrossableGoes(m, faceLabels, cellRegion, tooSharp, e);
    }
    SameSteps(m, faceLabels, w, edges, f, g);
  }

  lemma {:induction false} SameSteps(m: Mesh, faceLabels: seq<nat>, w: Walk, edges: set<nat>, f: int, g: int)
    requires WellFormed(m) && w.Valid() && w.m == m && w.removedFace == seq(m.NFaces(), f => f in faceLabels)
    requires forall e: nat :: e < |m.edges| ==> (w.Crossable(e) <==> e in edges)
    ensures w.Adjacent(f, g) <==> AcrossGone(m, faceLabels, edges, f, g)
  {
    if w.Adjacent(f, g) {
      var e :| e in m.faceEdges[f] && w.Crossable(e) && g in m.edgeFaces[e];
      assert e in edges && f in m.edgeFaces[e];
    }
    if AcrossGone(m, faceLabels, edges, f, g) {
      var e :| e in edges && e < |m.edges| && f in m.edgeFaces[e] && g in m.edgeFaces[e];
      assert e in m.faceEdges[f] && w.Crossable(e);
    }
  }

  /** The faces that become one are those a chain across edges that go leads to. */
  lemma {:induction false} JoinedAcrossGone(m: Mesh, faceLabels: seq<nat>, cellRegion: seq<int>,
                                            tooSharp: (nat, nat) -> bool, f: int, g: int)
    requires WellFormed(m) && |cellRegion| == m.nCells && EdgesDecided(m, faceLabels, cellRegion, tooSharp)
    ensures TheWalk(m, faceLabels, cellRegion, tooSharp).Joined(f, g) <==>
      Reaches<int>(Across(m, faceLabels, GoneEdges(m, faceLabels, cellRegion, tooSharp)), f, g)
  {
    var w, edges := TheWalk(m, faceLabels, cellRegion, tooSharp), GoneEdges(m, faceLabels, cellRegion, tooSharp);
    var step := Across(m, faceLabels, edges);
    forall x, y ensures w.Step()(x, y) <==> step(x, y) {
      StepAcross(m, faceLabels, cellRegion, tooSharp, w, edges, x, y);
    }
    if w.Joined(f, g) {
      ReachesMonotone<int>(w.Step(), step, f, g);
    }
    if Reaches<int>(step, f, g) {
      ReachesMonotone<int>(step, w.Step(), f, g);
    }
  }

  /** Both on one patch, or both internal and between the same two regions. */
  predicate Alike(m: Mesh, cellRegion: seq<int>, f: int, g: int)
    requires FacesWellFormed(m) && |cellRegion| == m.nCells
  {
    && 0 <= f < m.NFaces() && 0 <= g < m.NFaces()
    && (m.Internal(f) <==> m.Internal(g))
    && (!m.Internal(f) ==> m.whichPatch[f] == m.whichPatch[g])
    && (m.Internal(f) ==> SameRegions(m, cellRegion, f, g))
  }

  lemma {:induction false} AcrossAlike(m: Mesh, faceLabels: seq<nat>, cellRegion: seq<int>,
                                       tooSharp: (nat, nat) -> bool, f: int, g: int)
    requires WellFormed(m) && |cellRegion| == m.nCells && NoneMixed(m, cellRegion, tooSharp, FaceSet(faceLabels))
    requires AcrossGone(m, faceLabels, GoneEdges(m, faceLabels, cellRegion, tooSharp), f, g)
    ensures Alike(m, cellRegion, f, g)
  {
    var edges := GoneEdges(m, faceLabels, cellRegion, tooSharp);
    var e :| e in edges && e < |m.edges| && f in m.edgeFaces[e] && g in m.edgeFaces[e];
    EdgeGoesIfGone(m, faceLabels, cellRegion, tooSharp, e);
    var fs := m.edgeFaces[e];
    var a, b :| 0 <= a < |fs| && 0 <= b < |fs| && fs[a] == f && fs[b] == g;
    var i, j :| 0 <= i < j < |fs| && OnlyTwoStay(fs, FaceSet(faceLabels), i, j)
                  && fs[i] < m.NFaces() && fs[j] < m.NFaces()
                && Mergeable(m, cellRegion, tooSharp, fs[i], fs[j]);
    assert (a == i || a == j) && (b == i || b == j);
  }

  /** Faces that become one lie on one patch, or are internal and between the same two regions. */
  lemma {:induction false} JoinedAlike(m: Mesh, faceLabels: seq<nat>, cellRegion: seq<int>,
                                       tooSharp: (nat, nat) -> bool, f: nat, g: nat)
    requires WellFormed(m) && |cellRegion| == m.nCells && EdgesDecided(m, faceLabels, cellRegion, tooSharp)
    requires f < m.NFaces() && TheWalk(m, faceLabels, cellRegion, tooSharp).Joined(f, g)
    ensures Alike(m, cellRegion, f, g)
  {
    var step := Across(m, faceLabels, GoneEdges(m, faceLabels, cellRegion, tooSharp));
    JoinedAcrossGone(m, faceLabels, cellRegion, tooSharp, f, g);
    var alike := iset x: int | Alike(m, cellRegion, f, x);
    forall x, y | x in alike && step(x, y) ensures y in alike {
      AcrossAlike(m, faceLabels, cellRegion, tooSharp, x, y);
    }
    ReachesStaysIn<int>(step, alike, f, g);
  }

  // ---- the faces that survive -----------------------------------------------------------------------

  /** The points of a surviving face, listed for its old owner side: its own, or, if faces merged into it, the
      loop's. */
  ghost predicate PointsFor(p: Plan, f: nat, kept: seq<nat>)
    requires p.Valid() && p.AllLoops() && f < p.m.NFaces()
  {
    if p.faceRegion[f] < 0 then IsLeft(kept, p.m.faces[f], p.pointsToRemove)
    else
      assert p.HasLoop(p.faceRegion[f]);
      var loop := p.outline(p.regionToFaces[p.faceRegion[f]]).value;
      if loop.reverseLoop then IsLeftBackwards(kept, loop.vertices, p.pointsToRemove)
      else IsLeft(kept, loop.vertices, p.pointsToRemove)
  }

  lemma {:induction false} RemainingIsLeft(list: seq<nat>, gone: set<nat>)
    ensures IsLeft(Remaining(list, gone), list, gone)
  {
    var at := PositionsOf(list, gone);
    assert Picks(Remaining(list, gone), list, at);
  }

  /** The points before any turning round for the sides. */
  ghost function PointsBefore(p: Plan, f: nat): seq<nat>
    requires p.Valid() && p.AllLoops() && f < p.m.NFaces() && Survives(p, f)
  {
    if p.faceRegion[f] >= 0 then p.MergedPoints(p.faceRegion[f]) else Remaining(p.m.faces[f], p.pointsToRemove)
  }

  lemma {:induction false} PointsBeforeFor(p: Plan, f: nat)
    requires p.Valid() && p.AllLoops() && f < p.m.NFaces() && Survives(p, f)
    ensures PointsFor(p, f, PointsBefore(p, f))
  {
    RemainingIsLeft(p.m.faces[f], p.pointsToRemove);
    if p.faceRegion[f] >= 0 {
      assert p.HasLoop(p.faceRegion[f]);
      RemainingIsLeft(p.outline(p.regionToFaces[p.faceRegion[f]]).value.vertices, p.pointsToRemove);
    }
  }

  /** How a surviving face comes out: towards the cell that took the place of its old neighbour it lists the points in
      the old order; where owner and neighbour have changed sides, in the opposite one. */
  lemma {:induction false} SurvivorOriented(p: Plan, pierced: set<nat>, f: nat) returns (kept: seq<nat>)
    requires p.Valid() && p.AllLoops() && Compatible(p, pierced) && f < p.m.NFaces() && Survives(p, f)
    ensures PointsFor(p, f, kept)
    ensures After(p, f).owner == p.CellAfter(p.m.faceOwner[f]) ==> After(p, f).points == kept
    ensures p.m.Internal(f) && After(p, f).owner == p.CellAfter(p.m.faceNeighbour[f]) ==>
      Opposite(After(p, f).points, kept)
  {
    kept := PointsBefore(p, f);
    PointsBeforeFor(p, f);
    SidesDiffer(p, pierced, f);
    if !p.Edited(Face(f)) {
      SurvivorsWellFormed(p, pierced, f);
      PointsSurvive(p, f);
      RemainingUntouched(p.m.faces[f], p.pointsToRemove);
    }
  }

  lemma {:induction false} SidesDiffer(p: Plan, pierced: set<nat>, f: nat)
    requires p.Valid() && p.AllLoops() && Compatible(p, pierced) && f < p.m.NFaces() && Survives(p, f)
    ensures p.m.Internal(f) ==> p.CellAfter(p.m.faceOwner[f]) != p.CellAfter(p.m.faceNeighbour[f])
  {
    if p.m.Internal(f) {
      RecountExact(p, pierced, f);
    }
  }

  /** A boundary face keeps its patch, an internal one has none. */
  lemma {:induction false} PatchKept(p: Plan, f: nat)
    requires p.Valid() && p.AllLoops() && f < p.m.NFaces() && Survives(p, f)
    ensures After(p, f).patch == if p.m.Internal(f) then -1 else p.m.whichPatch[f]
  {
  }

  /** Which faces survive: those neither taken out nor merged into another. */
  lemma {:induction false} SurvivesExactly(p: Plan, f: nat)
    requires p.Valid() && p.AllLoops() && f < p.m.NFaces()
    ensures Survives(p, f) <==>
      f !in p.faceLabels && (p.faceRegion[f] >= 0 ==> f == p.MasterFace(p.faceRegion[f]))
    ensures f in p.faceLabels ==> p.ActionFor(Face(f)) == RemoveFace(f, -1)
  {
  }

  /** A cell that goes is merged into the cell that takes its place. */
  lemma {:induction false} CellsMerge(p: Plan, pierced: set<nat>, c: nat)
    requires p.Valid() && Compatible(p, pierced) && c < p.m.nCells
    ensures p.Edited(Cell(c)) <==> exists d :: 0 <= d < c && Cells.Linked(p.m, pierced, c, d)
    ensures p.Edited(Cell(c)) ==> p.ActionFor(Cell(c)) == RemoveCell(c, p.CellAfter(c))
  {
    CellAfterSurvives(p, pierced, c);
  }
}
