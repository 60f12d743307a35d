/** `setRefinement` end to end, composed with `compatibleRemoves`, and the mesh that survives the edits. */
module Unrefinement {
  import opened Reachability
  import opened Sequences
  import opened Meshes
  import opened EdgeCounts
  import opened FaceWalk
  import opened Surgery
  import opened Refinement
  import Cells = CellRegions

  ghost function TheWalk(m: Mesh, faceLabels: seq<nat>, cellRegion: seq<int>, tooSharp: (nat, nat) -> bool): (w: Walk)
    requires WellFormed(m) && |cellRegion| == m.nCells
    ensures w.Valid()
  {
    Walk(m, seq(m.NFaces(), f => f in faceLabels),
         seq(|m.edges|, e requires 0 <= e < |m.edges| => FinalUse(m, cellRegion, tooSharp, FaceSet(faceLabels), e)))
  }

  /** An edge goes when the faces it keeps are none, or two that merge. */
  ghost function GoneEdges(m: Mesh, faceLabels: seq<nat>, cellRegion: seq<int>, tooSharp: (nat, nat) -> bool): set<nat>
    requires WellFormed(m) && |cellRegion| == m.nCells
  {
    var gone := FaceSet(faceLabels);
    set e: nat | e < |m.edges| &&
                 (FinalUse(m, cellRegion, tooSharp, gone, e) == 0 || FinalUse(m, cellRegion, tooSharp, gone, e) == 2)
  }

  /** Every decision `setRefinement` takes before its first edit, stated independently of how it takes it. */
  ghost predicate Planned(p: Plan, tooSharp: (nat, nat) -> bool) {
    && p.Valid()
    && p.edgesToRemove == GoneEdges(p.m, p.faceLabels, p.cellRegion, tooSharp)
    && p.pointsToRemove == GonePoints(p.m, p.edgesToRemove)
    && FaceComponents(TheWalk(p.m, p.faceLabels, p.cellRegion, tooSharp), p.faceRegion, |p.regionToFaces|)
    && Inverts(p.faceRegion, |p.faceRegion|, p.regionToFaces)
  }

  /** What the edge and point phases demand: internal faces to take out, at least two faces on every edge they do not
      touch, no edge left between an internal and a boundary face or with one face, and no point left with one edge. */
  ghost predicate EdgesDecided(m: Mesh, faceLabels: seq<nat>, cellRegion: seq<int>, tooSharp: (nat, nat) -> bool)
    requires WellFormed(m) && |cellRegion| == m.nCells
  {
    var gone := FaceSet(faceLabels);
    && (forall f :: f in faceLabels ==> m.Internal(f))
    && EdgesHaveFaces(m, gone)
    && NoneMixed(m, cellRegion, tooSharp, gone)
    && forall e :: 0 <= e < |m.edges| ==> FinalUse(m, cellRegion, tooSharp, gone, e) != 1
  }

  ghost predicate Decided(m: Mesh, faceLabels: seq<nat>, cellRegion: seq<int>, tooSharp: (nat, nat) -> bool)
    requires WellFormed(m) && |cellRegion| == m.nCells
  {
    && EdgesDecided(m, faceLabels, cellRegion, tooSharp)
    && NoPointKeepsOne(m, GoneEdges(m, faceLabels, cellRegion, tooSharp))
  }

  /** The edge phase: which edges go, and the walk that merges faces across them. */
  method DecideEdges(m: Mesh, faceLabels: seq<nat>, cellRegion: seq<int>, tooSharp: (nat, nat) -> bool)
    returns (s: Status, w: Walk, edgesToRemove: set<nat>)
    requires WellFormed(m) && |cellRegion| == m.nCells
    requires NoDuplicates(faceLabels) && forall f :: f in faceLabels ==> f < m.NFaces()
    ensures s.Ok? <==> EdgesDecided(m, faceLabels, cellRegion, tooSharp)
    ensures s.Ok? || EdgeCause(m, faceLabels, cellRegion, tooSharp, s)
    ensures s.Ok? ==> w == TheWalk(m, faceLabels, cellRegion, tooSharp)
    ensures s.Ok? ==> edgesToRemove == GoneEdges(m, faceLabels, cellRegion, tooSharp)
  {
    edgesToRemove := {};
    var removed := new bool[m.NFaces()](_ => false);
    w := Walk(m, removed[..], []);
    for i := 0 to |faceLabels|
      invariant forall f :: f in faceLabels[..i] ==> m.Internal(f)
      invariant forall f :: 0 <= f < m.NFaces() ==> (removed[f] <==> f in faceLabels[..i])
    {
      assert faceLabels[..i + 1] == faceLabels[..i] + [faceLabels[i]] && faceLabels[i] in faceLabels;
      if !m.Internal(faceLabels[i]) {
        return FaceNotInternal(faceLabels[i]), w, {};
      }
      removed[faceLabels[i]] := true;
    }
    assert faceLabels[..|faceLabels|] == faceLabels;
    var removedFace := removed[..];
    var nFacesPerEdge;
    s, nFacesPerEdge := CountEdgeUse(m, faceLabels);
    if !s.Ok? {
      return s, w, {};
    }
    s := FilterEdges(m, cellRegion, tooSharp, removedFace, nFacesPerEdge, FaceSet(faceLabels));
    if !s.Ok? {
      return s, w, {};
    }
    s := CheckEdges(nFacesPerEdge[..]);
    if !s.Ok? {
      return s, w, {};
    }
    edgesToRemove := CollectEdges(nFacesPerEdge[..]);
    w := Walk(m, removedFace, nFacesPerEdge[..]);
  }

  /** The face or edge an error names is at fault, in the first phase that finds one. */
  ghost predicate EdgeCause(m: Mesh, faceLabels: seq<nat>, cellRegion: seq<int>, tooSharp: (nat, nat) -> bool,
                            s: Status)
    requires WellFormed(m) && |cellRegion| == m.nCells
  {
    var gone := FaceSet(faceLabels);
    && (s.FaceNotInternal? || forall f :: f in faceLabels ==> m.Internal(f))
    && match s
       case FaceNotInternal(f) => f in faceLabels && !m.Internal(f)
       case EdgeHasTooFewFaces(e) => e < |m.edges| && !EdgeTouched(m, gone, e) && |m.edgeFaces[e]| < 2
       case EdgeBetweenInternalAndBoundary(e) =>
         && EdgesHaveFaces(m, gone) && e < |m.edges|
         && EdgeUse(m, gone, e) == 2 && EdgeDecision(m, cellRegion, tooSharp, gone, e).Mixed?
       case EdgeWouldKeepOneFace(e) =>
         && EdgesHaveFaces(m, gone) && NoneMixed(m, cellRegion, tooSharp, gone)
         && e < |m.edges| && FinalUse(m, cellRegion, tooSharp, gone, e) == 1
       case _ => false
  }

  /** The same with the two later errors: a point that would keep one edge, a patch of faces without one outside
      loop. */
  ghost predicate Cause(m: Mesh, faceLabels: seq<nat>, cellRegion: seq<int>, tooSharp: (nat, nat) -> bool, p: Plan,
                        s: Status)
    requires WellFormed(m) && |cellRegion| == m.nCells
  {
    match s
    case PointWouldKeepOneEdge(q) =>
      && EdgesDecided(m, faceLabels, cellRegion, tooSharp)
      && q < m.nPoints && PointUse(m, GoneEdges(m, faceLabels, cellRegion, tooSharp), q) == 1
    case NotASingleLoop(r) =>
      && Decided(m, faceLabels, cellRegion, tooSharp)
      && r < |p.regionToFaces| && !p.HasLoop(r)
    case _ => EdgeCause(m, faceLabels, cellRegion, tooSharp, s)
  }

  /** The faces, in order, of one patch of two or more that the walk joins. */
  ghost predicate IsPatch(w: Walk, fs: seq<nat>)
    requires w.Valid()
  {
    && |fs| >= 2 && fs[0] < w.m.NFaces() && !w.removedFace[fs[0]]
    && Ascending(fs)
    && forall g: nat :: g in fs <==> g < w.m.NFaces() && w.Joined(fs[0], g)
  }

  /** Every patch of faces to merge has one outside loop. */
  ghost predicate PatchesHaveLoops(w: Walk, outline: Outline)
    requires w.Valid()
  {
    forall fs :: IsPatch(w, fs) ==> outline(fs).Some? && outline(fs).value.masterIndex < |fs|
  }

  /** When `setRefinement` succeeds: no phase objects, and every patch to merge has one outside loop. */
  ghost predicate Refinable(m: Mesh, faceLabels: seq<nat>, cellRegion: seq<int>, tooSharp: (nat, nat) -> bool,
                            outline: Outline)
    requires WellFormed(m) && |cellRegion| == m.nCells
  {
    && Decided(m, faceLabels, cellRegion, tooSharp)
    && PatchesHaveLoops(TheWalk(m, faceLabels, cellRegion, tooSharp), outline)
  }

  /** All decisions, before the first edit. */
  method DecideAll(m: Mesh, faceLabels: seq<nat>, cellRegion: seq<int>, regionMaster: seq<int>,
                   tooSharp: (nat, nat) -> bool, outline: Outline)
    returns (s: Status, p: Plan)
    requires WellFormed(m) && LabelsInRange(m, cellRegion, regionMaster)
    requires NoDuplicates(faceLabels) && forall f :: f in faceLabels ==> f < m.NFaces()
    ensures s.Ok? <==> Decided(m, faceLabels, cellRegion, tooSharp)
    ensures s.Ok? || (!s.NotASingleLoop? && Cause(m, faceLabels, cellRegion, tooSharp, p, s))
    ensures p.m == m && p.faceLabels == faceLabels && p.cellRegion == cellRegion && p.regionMaster == regionMaster
    ensures p.outline == outline
    ensures s.Ok? ==> Planned(p, tooSharp)
  {
    p := Plan(m, faceLabels, cellRegion, regionMaster, {}, {}, [], [], outline);
    var w, edgesToRemove;
    s, w, edgesToRemove := DecideEdges(m, faceLabels, cellRegion, tooSharp);
    if !s.Ok? {
      return;
    }
    var faceRegionArray, nRegions := WalkFaces(w);
    var faceRegion := faceRegionArray[..];
    var pointsToRemove;
    s, pointsToRemove := FindPointsToRemove(m, edgesToRemove);
    if !s.Ok? {
      return;
    }
    var regionToFaces := InvertOneToMany(nRegions, faceRegion);
    p := Plan(m, faceLabels, cellRegion, regionMaster, edgesToRemove, pointsToRemove, faceRegion, regionToFaces,
              outline);
    PlanIsValid(p, w);
  }

  method SetRefinement(m: Mesh, faceLabels: seq<nat>, cellRegion: seq<int>, regionMaster: seq<int>,
                       tooSharp: (nat, nat) -> bool, outline: Outline, meshMod: TopoChange)
    returns (s: Status, p: Plan)
    requires WellFormed(m) && LabelsInRange(m, cellRegion, regionMaster)
    requires NoDuplicates(faceLabels) && forall f :: f in faceLabels ==> f < m.NFaces()
    modifies meshMod
    ensures s.Ok? <==> Refinable(m, faceLabels, cellRegion, tooSharp, outline)
    ensures s.Ok? || Cause(m, faceLabels, cellRegion, tooSharp, p, s)
    ensures |old(meshMod.actions)| <= |meshMod.actions|
    ensures meshMod.actions[..|old(meshMod.actions)|] == old(meshMod.actions)
    ensures p.m == m && p.faceLabels == faceLabels && p.cellRegion == cellRegion && p.regionMaster == regionMaster
    ensures Decided(m, faceLabels, cellRegion, tooSharp) ==> Planned(p, tooSharp)
    ensures s.Ok? ==> EditsExactly(p, meshMod.actions[|old(meshMod.actions)|..])
  {
    s, p := DecideAll(m, faceLabels, cellRegion, regionMaster, tooSharp, outline);
    if s.Ok? {
      var affectedFace := GetFacesAffected(p);
      s := EmitAll(p, affectedFace, meshMod, |meshMod.actions|);
      RegionsHaveTwoFaces(p, TheWalk(m, faceLabels, cellRegion, tooSharp));
      LoopsArePatches(p, tooSharp);
    }
  }

  lemma {:induction false} RegionIsPatch(p: Plan, tooSharp: (nat, nat) -> bool, r: nat)
    requires Planned(p, tooSharp) && r < |p.regionToFaces|
    ensures IsPatch(TheWalk(p.m, p.faceLabels, p.cellRegion, tooSharp), p.regionToFaces[r])
  {
    var w, fs := TheWalk(p.m, p.faceLabels, p.cellRegion, tooSharp), p.regionToFaces[r];
    RegionsHaveTwoFaces(p, w);
    assert fs[0] in fs;
    forall g: nat ensures g in fs <==> g < w.m.NFaces() && w.Joined(fs[0], g) {
    }
  }

  lemma {:induction false} PatchIsRegion(p: Plan, tooSharp: (nat, nat) -> bool, fs: seq<nat>) returns (r: nat)
    requires Planned(p, tooSharp) && IsPatch(TheWalk(p.m, p.faceLabels, p.cellRegion, tooSharp), fs)
    ensures r < |p.regionToFaces| && p.regionToFaces[r] == fs
  {
    var w := TheWalk(p.m, p.faceLabels, p.cellRegion, tooSharp);
    assert fs[1] in fs && w.Joined(fs[0], fs[1]);
    r := p.faceRegion[fs[0]];
    forall f: nat ensures f in fs <==> f in p.regionToFaces[r] {
    }
    SameList(fs, p.regionToFaces[r]);
  }

  /** Whether every region has its loop does not depend on how the regions are numbered. */
  lemma {:induction false} LoopsArePatches(p: Plan, tooSharp: (nat, nat) -> bool)
    requires Planned(p, tooSharp)
    ensures p.AllLoops() <==> PatchesHaveLoops(TheWalk(p.m, p.faceLabels, p.cellRegion, tooSharp), p.outline)
  {
    var w := TheWalk(p.m, p.faceLabels, p.cellRegion, tooSharp);
    if p.AllLoops() {
      forall fs | IsPatch(w, fs) ensures p.outline(fs).Some? && p.outline(fs).value.masterIndex < |fs| {
        var r := PatchIsRegion(p, tooSharp, fs);
        assert p.HasLoop(r);
      }
    }
    if PatchesHaveLoops(w, p.outline) {
      forall r | 0 <= r < |p.regionToFaces| ensures p.HasLoop(r) {
        RegionIsPatch(p, tooSharp, r);
      }
    }
  }

  lemma PlanIsValid(p: Plan, w: Walk)
    requires WellFormed(p.m) && LabelsInRange(p.m, p.cellRegion, p.regionMaster)
    requires forall f :: f in p.faceLabels ==> p.m.Internal(f)
    requires forall e :: e in p.edgesToRemove ==> e < |p.m.edges|
    requires forall q :: q in p.pointsToRemove ==> q < p.m.nPoints
    requires w.Valid() && w.m == p.m && forall f :: f in p.faceLabels ==> f < |w.removedFace| && w.removedFace[f]
    requires FaceComponents(w, p.faceRegion, |p.regionToFaces|)
    requires Inverts(p.faceRegion, |p.faceRegion|, p.regionToFaces)
    ensures p.Valid()
  {
  }

  /** Why "Region contains only faces" cannot be reached. */
  lemma RegionsHaveTwoFaces(p: Plan, w: Walk)
    requires p.Valid() && w.Valid() && w.m == p.m
    requires FaceComponents(w, p.faceRegion, |p.regionToFaces|)
    requires Inverts(p.faceRegion, |p.faceRegion|, p.regionToFaces)
    ensures forall r :: 0 <= r < |p.regionToFaces| ==> |p.regionToFaces[r]| > 1
  {
    forall r | 0 <= r < |p.regionToFaces| ensures |p.regionToFaces[r]| > 1 {
      TwoInList(FacesIn(p.faceRegion, r), p.regionToFaces[r]);
    }
  }

  lemma TwoInList(fs: set<nat>, list: seq<nat>)
    requires |fs| >= 2 && forall f :: f in fs ==> f in list
    ensures |list| > 1
  {
    var f :| f in fs;
    assert |fs - {f}| >= 1;
    var g :| g in fs - {f};
    assert f in list && g in list;
  }

  // ---- the mesh after the edits -----------------------------------------------------------------

  /** Face `f` is not among the removed faces. */
  ghost predicate Survives(p: Plan, f: nat)
    requires p.Valid() && p.AllLoops() && f < p.m.NFaces()
  {
    p.Edited(Face(f)) ==> p.ActionFor(Face(f)).ModifyFace?
  }

  datatype FaceAfter = FaceAfter(points: seq<nat>, owner: int, neighbour: int, patch: int)

  /** A surviving face as the edits leave it: the modified data, or its own if it was not edited. */
  ghost function After(p: Plan, f: nat): FaceAfter
    requires p.Valid() && p.AllLoops() && f < p.m.NFaces() && Survives(p, f)
  {
    if p.Edited(Face(f)) then
      var a := p.ActionFor(Face(f));
      FaceAfter(a.points, a.owner, a.neighbour, a.patch)
    else
      FaceAfter(p.m.faces[f], p.m.faceOwner[f], if p.m.Internal(f) then p.m.faceNeighbour[f] else -1,
                if p.m.Internal(f) then -1 else p.m.whichPatch[f])
  }

  /** The labels and masters come from `compatibleRemoves` on `pierced`, the faces from its recount. */
  ghost predicate Compatible(p: Plan, pierced: set<nat>)
    requires p.Valid()
  {
    Consistent(p.m, p.cellRegion, p.regionMaster, p.faceLabels, pierced)
  }

  ghost predicate Consistent(m: Mesh, cellRegion: seq<int>, regionMaster: seq<int>, faceLabels: seq<nat>,
                             pierced: set<nat>)
    requires FacesWellFormed(m) && |cellRegion| == m.nCells
  {
    && Cells.ComponentLabels(m, pierced, cellRegion)
    && Cells.LowestMasters(cellRegion, regionMaster)
    && Cells.InnerFaces(m, cellRegion, m.NFaces(), faceLabels)
  }

  /** The cell taking a cell's place survives, and no cell of its region is numbered lower. */
  lemma CellAfterSurvives(p: Plan, pierced: set<nat>, c: nat)
    requires p.Valid() && Compatible(p, pierced) && c < p.m.nCells
    ensures 0 <= p.CellAfter(c) <= c && !p.CellRemoved(p.CellAfter(c))
    ensures p.CellAfter(c) == c <==> !p.CellRemoved(c)
    ensures Cells.Linked(p.m, pierced, c, p.CellAfter(c))
    ensures forall d :: 0 <= d < p.m.nCells && Cells.Linked(p.m, pierced, c, d) ==> p.CellAfter(c) <= d
  {
    var r := p.cellRegion[c];
    if r == -1 {
      ReachesSelf<int>(Cells.CellLink(p.m, pierced), c);
      forall d | 0 <= d < p.m.nCells && Cells.Linked(p.m, pierced, c, d) ensures c <= d {
        ChainStartsTouched(p.m, pierced, c, d);
      }
    } else {
      assert p.cellRegion[p.regionMaster[r]] == r;
      assert Cells.Linked(p.m, pierced, c, p.regionMaster[r]);
    }
  }

  lemma ChainStartsTouched(m: Mesh, fs: set<nat>, c: int, d: int)
    requires FacesWellFormed(m) && Cells.Linked(m, fs, c, d)
    ensures c == d || Cells.Touched(m, fs, c)
  {
    var link := Cells.CellLink(m, fs);
    var walk :| IsWalk<int>(link, walk) && walk[0] == c && walk[|walk| - 1] == d;
    if |walk| > 1 {
      assert link(walk[0], walk[1]);
      var f :| f in fs && m.Internal(f) && Joins(m, f, c, walk[1]);
      assert OnFace(m, f, c);
    }
  }

  /** The recount is exact: the faces taken out are precisely the internal faces whose two cells
      become one. */
  lemma RecountExact(p: Plan, pierced: set<nat>, f: nat)
    requires p.Valid() && Compatible(p, pierced) && p.m.Internal(f)
    ensures f in p.faceLabels <==> p.CellAfter(p.m.faceOwner[f]) == p.CellAfter(p.m.faceNeighbour[f])
  {
    var own, nei := p.m.faceOwner[f], p.m.faceNeighbour[f];
    if p.CellAfter(own) == p.CellAfter(nei) {
      var r0, r1 := p.cellRegion[own], p.cellRegion[nei];
      if r0 != -1 {
        assert p.cellRegion[p.regionMaster[r0]] == r0;
      }
      if r1 != -1 {
        assert p.cellRegion[p.regionMaster[r1]] == r1;
      }
    }
  }

  /** Main result on the surviving mesh. Every surviving face, edited or not, mentions only surviving
      points and cells; its sides are the cells that took the place of its old ones; and if it is
      internal its owner is still below its neighbour. */
  lemma SurvivorsWellFormed(p: Plan, pierced: set<nat>, f: nat)
    requires p.Valid() && p.AllLoops() && Compatible(p, pierced) && f < p.m.NFaces() && Survives(p, f)
    ensures var a := After(p, f);
            && Intact(p, f)
            && (a.neighbour == -1 <==> !p.m.Internal(f))
            && (p.m.Internal(f) ==>
                  {a.owner, a.neighbour} == {p.CellAfter(p.m.faceOwner[f]), p.CellAfter(p.m.faceNeighbour[f])})
            && (!p.m.Internal(f) ==> a.owner == p.CellAfter(p.m.faceOwner[f]))
  {
    var own := p.m.faceOwner[f];
    CellAfterSurvives(p, pierced, own);
    if p.m.Internal(f) {
      CellAfterSurvives(p, pierced, p.m.faceNeighbour[f]);
      RecountExact(p, pierced, f);
    }
    PointsSurvive(p, f);
    if !p.Edited(Face(f)) {
      assert OnFace(p.m, f, own) && f in p.m.cells[own];
      if p.m.Internal(f) {
        assert OnFace(p.m, f, p.m.faceNeighbour[f]) && f in p.m.cells[p.m.faceNeighbour[f]];
      }
    }
  }

  /** Of every merged region exactly the master survives, and each other face is removed into it: a
      surviving face of the same component. */
  lemma MergedIntoMaster(p: Plan, tooSharp: (nat, nat) -> bool, f: nat)
    requires Planned(p, tooSharp) && p.AllLoops() && f < p.m.NFaces() && p.faceRegion[f] >= 0
    ensures p.HasLoop(p.faceRegion[f]) && p.MasterFace(p.faceRegion[f]) < p.m.NFaces()
    ensures var master := p.MasterFace(p.faceRegion[f]);
            && Survives(p, master)
            && (Survives(p, f) <==> f == master)
            && TheWalk(p.m, p.faceLabels, p.cellRegion, tooSharp).Joined(f, master)
            && (f != master ==> p.Edited(Face(f)) && p.ActionFor(Face(f)) == RemoveFace(f, master))
  {
    var r := p.faceRegion[f];
    var master := p.MasterFace(r);
    assert master in p.regionToFaces[r];
    assert p.faceRegion[f] == p.faceRegion[master];
    assert TheWalk(p.m, p.faceLabels, p.cellRegion, tooSharp).Joined(f, master);
  }

  lemma PointsSurvive(p: Plan, f: nat)
    requires p.Valid() && p.AllLoops() && f < p.m.NFaces() && Survives(p, f)
    ensures forall q :: q in After(p, f).points ==> q !in p.pointsToRemove
  {
    if !p.Edited(Face(f)) {
      forall q | q in p.m.faces[f] ensures q !in p.pointsToRemove {
        assert f in p.m.pointFaces[q];
      }
    } else if p.faceRegion[f] >= 0 {
      var kept := p.MergedPoints(p.faceRegion[f]);
      assert forall q :: q in kept ==> q !in p.pointsToRemove;
    }
  }

  // ---- both calls -------------------------------------------------------------------------------

  /** `compatibleRemoves` and then `setRefinement` on what it returned. */
  method PierceAndRefine(m: Mesh, pierced: seq<nat>, tooSharp: (nat, nat) -> bool, outline: Outline,
                         meshMod: TopoChange)
    returns (v: Cells.Verdict, s: Status, p: Plan)
    requires WellFormed(m)
    modifies meshMod
    ensures v.Ok? <==> forall f :: f in pierced ==> m.Internal(f)
    ensures v.Ok? ==> !s.FaceNotInternal? && !s.RegionOfOneFace?
    ensures v.Ok? ==> p.m == m && |p.cellRegion| == m.nCells
    ensures v.Ok? ==> (s.Ok? <==> Refinable(m, p.faceLabels, p.cellRegion, tooSharp, outline))
    ensures v.Ok? ==> Consistent(m, p.cellRegion, p.regionMaster, p.faceLabels, FaceSet(pierced))
    ensures |old(meshMod.actions)| <= |meshMod.actions|
    ensures v.Ok? && s.Ok? ==> p.m == m && Planned(p, tooSharp) && Compatible(p, FaceSet(pierced))
    ensures v.Ok? && s.Ok? ==> EditsExactly(p, meshMod.actions[|old(meshMod.actions)|..]) && AllIntact(p)
  {
    var nUsed, cellRegion, regionMaster, facesToRemove;
    v, nUsed, cellRegion, regionMaster, facesToRemove := Cells.CompatibleRemoves(m, pierced);
    s := Ok;
    p := Plan(m, [], [], [], {}, {}, [], [], outline);
    if v.Ok? {
      s, p := SetRefinement(m, facesToRemove, cellRegion, regionMaster, tooSharp, outline, meshMod);
      if s.Ok? {
        forall f | 0 <= f < m.NFaces() && Survives(p, f) ensures Intact(p, f) {
          SurvivorsWellFormed(p, FaceSet(pierced), f);
        }
      }
    }
  }

  /** A surviving face mentions no removed point or cell, and its owner is below its neighbour. */
  ghost predicate Intact(p: Plan, f: nat)
    requires p.Valid() && p.AllLoops() && f < p.m.NFaces() && Survives(p, f)
  {
    var a := After(p, f);
    && (forall q :: q in a.points ==> q !in p.pointsToRemove)
    && 0 <= a.owner < p.m.nCells && !p.CellRemoved(a.owner)
    && (p.m.Internal(f) ==> a.owner < a.neighbour < p.m.nCells && !p.CellRemoved(a.neighbour))
  }

  ghost predicate AllIntact(p: Plan)
    requires p.Valid() && p.AllLoops()
  {
    forall f :: 0 <= f < p.m.NFaces() && Survives(p, f) ==> Intact(p, f)
  }
}
