/** The middle of `setRefinement`: how many faces each edge keeps, and which edges therefore go. */
module EdgeCounts {
  import opened Meshes

  /** How `setRefinement` can stop. */
  datatype Status =
    | Ok
    | FaceNotInternal(face: nat)
    | EdgeHasTooFewFaces(edge: nat)
    | EdgeBetweenInternalAndBoundary(edge: nat)
    | EdgeWouldKeepOneFace(edge: nat)
    | PointWouldKeepOneEdge(point: nat)
    | RegionOfOneFace(region: nat)
    | NotASingleLoop(region: nat)

  // ---- counting the faces an edge keeps ---------------------------------------------------------

  /** The entries of `fs` that are not in `gone`, in order. */
  function Remaining(fs: seq<nat>, gone: set<nat>): (kept: seq<nat>)
    ensures forall f :: f in kept <==> f in fs && f !in gone
  {
    if fs == [] then [] else (if fs[0] in gone then [] else [fs[0]]) + Remaining(fs[1..], gone)
  }

  /** One more entry gone lowers the count by exactly one. */
  lemma {:induction false} RemainingDropsOne(fs: seq<nat>, gone: set<nat>, f: nat)
    requires NoDuplicates(fs) && f !in gone
    ensures |Remaining(fs, gone + {f})| == |Remaining(fs, gone)| - (if f in fs then 1 else 0)
  {
    if fs != [] {
      RemainingDropsOne(fs[1..], gone, f);
      assert fs == [fs[0]] + fs[1..];
      assert f == fs[0] ==> f !in fs[1..];
    }
  }

  ghost predicate EdgeTouched(m: Mesh, gone: set<nat>, e: nat)
    requires e < |m.edgeFaces|
  {
    exists f :: f in gone && f in m.edgeFaces[e]
  }

  /** Every edge that no removed face touches has at least two faces. */
  ghost predicate EdgesHaveFaces(m: Mesh, gone: set<nat>)
    requires |m.edgeFaces| == |m.edges|
  {
    forall e :: 0 <= e < |m.edges| ==> EdgeTouched(m, gone, e) || |m.edgeFaces[e]| >= 2
  }

  /** Faces edge `e` keeps if a removed face uses it, -1 (nothing to count) otherwise. */
  ghost function TouchedUse(m: Mesh, gone: set<nat>, e: nat): int
    requires e < |m.edgeFaces|
  {
    if EdgeTouched(m, gone, e) then |Remaining(m.edgeFaces[e], gone)| else -1
  }

  /** The count every edge starts the merge decision with. */
  ghost function EdgeUse(m: Mesh, gone: set<nat>, e: nat): int
    requires e < |m.edgeFaces|
  {
    if EdgeTouched(m, gone, e) || |m.edgeFaces[e]| > 2 then |Remaining(m.edgeFaces[e], gone)| else -1
  }

  lemma TouchedUseStep(m: Mesh, gone: set<nat>, f: nat, e: nat)
    requires EdgesWellFormed(m) && f < m.NFaces() && f !in gone && e < |m.edges|
    ensures TouchedUse(m, gone + {f}, e) ==
            if e !in m.faceEdges[f] then TouchedUse(m, gone, e)
            else if TouchedUse(m, gone, e) == -1 then |m.edgeFaces[e]| - 1
            else TouchedUse(m, gone, e) - 1
  {
    RemainingDropsOne(m.edgeFaces[e], gone, f);
    assert forall g :: g in gone + {f} <==> g in gone || g == f;
    if !EdgeTouched(m, gone, e) {
      RemainingUntouched(m.edgeFaces[e], gone);
      assert e in m.faceEdges[f] ==> EdgeTouched(m, gone + {f}, e) by {
        assert f in gone + {f};
      }
    } else {
      var g :| g in gone && g in m.edgeFaces[e];
      assert g in gone + {f};
    }
  }

  lemma {:induction false} RemainingAppend(fs: seq<nat>, x: nat, gone: set<nat>)
    ensures Remaining(fs + [x], gone) == Remaining(fs, gone) + (if x in gone then [] else [x])
  {
    if fs == [] {
      assert fs + [x] == [x];
    } else {
      var head, last := if fs[0] in gone then [] else [fs[0]], if x in gone then [] else [x];
      var rest := Remaining(fs[1..], gone);
      RemainingAppend(fs[1..], x, gone);
      assert (fs + [x])[0] == fs[0] && (fs + [x])[1..] == fs[1..] + [x];
      assert head + (rest + last) == (head + rest) + last;
    }
  }

  lemma RemainingUntouched(fs: seq<nat>, gone: set<nat>)
    requires forall f :: f in fs ==> f !in gone
    ensures Remaining(fs, gone) == fs
  {
    if fs != [] {
      assert forall f :: f in fs[1..] ==> f in fs;
      RemainingUntouched(fs[1..], gone);
    }
  }

  /** One removed face: every edge of it loses one use. */
  method CountFaceEdges(m: Mesh, f: nat, nFacesPerEdge: array<int>, ghost gone: set<nat>)
    requires EdgesWellFormed(m) && f < m.NFaces() && f !in gone && nFacesPerEdge.Length == |m.edges|
    requires forall e :: 0 <= e < |m.edges| ==> nFacesPerEdge[e] == TouchedUse(m, gone, e)
    modifies nFacesPerEdge
    ensures forall e :: 0 <= e < |m.edges| ==> nFacesPerEdge[e] == TouchedUse(m, gone + {f}, e)
  {
    var fEdges := m.faceEdges[f];
    for i := 0 to |fEdges|
      invariant forall e :: 0 <= e < |m.edges| ==>
                  nFacesPerEdge[e] == TouchedUse(m, if e in fEdges[..i] then gone + {f} else gone, e)
    {
      var e := fEdges[i];
      assert e in m.faceEdges[f] && e !in fEdges[..i];
      TouchedUseStep(m, gone, f, e);
      assert fEdges[..i + 1] == fEdges[..i] + [e];
      if nFacesPerEdge[e] == -1 {
        nFacesPerEdge[e] := |m.edgeFaces[e]| - 1;
      } else {
        nFacesPerEdge[e] := nFacesPerEdge[e] - 1;
      }
    }
    assert fEdges[..|fEdges|] == fEdges;
    forall e | 0 <= e < |m.edges| ensures nFacesPerEdge[e] == TouchedUse(m, gone + {f}, e) {
      TouchedUseStep(m, gone, f, e);
    }
  }

  /** The loop over the removed faces. */
  method CountTouched(m: Mesh, faceLabels: seq<nat>) returns (nFacesPerEdge: array<int>)
    requires EdgesWellFormed(m) && NoDuplicates(faceLabels) && forall f :: f in faceLabels ==> f < m.NFaces()
    ensures fresh(nFacesPerEdge) && nFacesPerEdge.Length == |m.edges|
    ensures forall e :: 0 <= e < |m.edges| ==> nFacesPerEdge[e] == TouchedUse(m, FaceSet(faceLabels), e)
  {
    nFacesPerEdge := new int[|m.edges|](_ => -1);
    for i := 0 to |faceLabels|
      invariant forall e :: 0 <= e < |m.edges| ==> nFacesPerEdge[e] == TouchedUse(m, FaceSet(faceLabels[..i]), e)
    {
      assert faceLabels[i] in faceLabels;
      CountFaceEdges(m, faceLabels[i], nFacesPerEdge, FaceSet(faceLabels[..i]));
      assert FaceSet(faceLabels[..i + 1]) == FaceSet(faceLabels[..i]) + {faceLabels[i]};
    }
    assert faceLabels[..|faceLabels|] == faceLabels;
  }

  /** The two counting loops. For an edge of a removed face the result is the exact number of faces it
      keeps, so it never collides with the -1 that stands for "no removed face here". */
  method CountEdgeUse(m: Mesh, faceLabels: seq<nat>) returns (s: Status, nFacesPerEdge: array<int>)
    requires EdgesWellFormed(m) && NoDuplicates(faceLabels) && forall f :: f in faceLabels ==> f < m.NFaces()
    ensures s.Ok? || s.EdgeHasTooFewFaces?
    ensures fresh(nFacesPerEdge) && nFacesPerEdge.Length == |m.edges|
    ensures s.Ok? ==> forall e :: 0 <= e < |m.edges| ==> nFacesPerEdge[e] == EdgeUse(m, FaceSet(faceLabels), e)
    ensures s.Ok? <==> EdgesHaveFaces(m, FaceSet(faceLabels))
    ensures s.EdgeHasTooFewFaces? ==>
      s.edge < |m.edges| && !EdgeTouched(m, FaceSet(faceLabels), s.edge) && |m.edgeFaces[s.edge]| < 2
  {
    nFacesPerEdge := CountTouched(m, faceLabels);
    ghost var gone := FaceSet(faceLabels);
    for e := 0 to |m.edges|
      invariant forall k :: 0 <= k < e ==> nFacesPerEdge[k] == EdgeUse(m, gone, k)
      invariant forall k :: e <= k < |m.edges| ==> nFacesPerEdge[k] == TouchedUse(m, gone, k)
      invariant forall k :: 0 <= k < e ==> EdgeTouched(m, gone, k) || |m.edgeFaces[k]| >= 2
    {
      if nFacesPerEdge[e] == -1 {
        RemainingUntouched(m.edgeFaces[e], gone);
        if |m.edgeFaces[e]| > 2 {
          nFacesPerEdge[e] := |m.edgeFaces[e]|;
        } else if |m.edgeFaces[e]| != 2 {
          return EdgeHasTooFewFaces(e), nFacesPerEdge;
        }
      }
    }
    s := Ok;
  }

  // ---- which edges go ---------------------------------------------------------------------------

  datatype Decision = Merge | Preserve | Mixed

  predicate SamePair(a: (int, int), b: (int, int)) {
    a == b || (a.0 == b.1 && a.1 == b.0)
  }

  /** What becomes of an edge whose last two faces are `f0` and `f1`. `tooSharp` is the feature-angle
      test on two faces of one boundary patch. */
  function Decide(m: Mesh, cellRegion: seq<int>, tooSharp: (nat, nat) -> bool, f0: nat, f1: nat): Decision
    requires FacesWellFormed(m) && |cellRegion| == m.nCells && f0 < m.NFaces() && f1 < m.NFaces()
  {
    if !m.Internal(f0) && !m.Internal(f1) then
      if m.whichPatch[f0] != m.whichPatch[f1] || tooSharp(f0, f1) then Preserve else Merge
    else if m.Internal(f0) != m.Internal(f1) then Mixed
    else
      var ownEdge := (cellRegion[m.faceOwner[f0]], cellRegion[m.faceNeighbour[f0]]);
      var neiEdge := (cellRegion[m.faceOwner[f1]], cellRegion[m.faceNeighbour[f1]]);
      if SamePair(ownEdge, neiEdge) then Merge else Preserve
  }

  /** The first two faces of an edge that stay; -1 where there is none. */
  method FirstTwoKept(eFaces: seq<nat>, removedFace: seq<bool>, ghost gone: set<nat>) returns (f0: int, f1: int)
    requires forall f :: f in eFaces ==> f < |removedFace|
    requires forall f :: 0 <= f < |removedFace| ==> (removedFace[f] <==> f in gone)
    ensures var kept := Remaining(eFaces, gone);
            f0 == (if |kept| > 0 then kept[0] else -1) && f1 == (if |kept| > 1 then kept[1] else -1)
  {
    f0, f1 := -1, -1;
    ghost var kept := Remaining(eFaces, gone);
    ghost var rest := kept;
    for i := 0 to |eFaces|
      invariant rest == Remaining(eFaces[i..], gone)
      invariant f1 == -1
      invariant f0 == -1 ==> rest == kept
      invariant f0 != -1 ==> |kept| > 0 && f0 == kept[0] && rest == kept[1..]
    {
      rest := Remaining(eFaces[i + 1..], gone);
      assert eFaces[i..][0] == eFaces[i] && eFaces[i..][1..] == eFaces[i + 1..];
      if !removedFace[eFaces[i]] {
        if f0 == -1 {
          f0 := eFaces[i];
        } else {
          f1 := eFaces[i];
          return;
        }
      }
    }
  }

  /** The count after the merge decision: an edge with two faces left that must stay is marked 3. */
  ghost function FinalUse(m: Mesh, cellRegion: seq<int>, tooSharp: (nat, nat) -> bool, gone: set<nat>, e: nat): int
    requires FacesWellFormed(m) && EdgesWellFormed(m) && |cellRegion| == m.nCells && e < |m.edges|
  {
    if EdgeUse(m, gone, e) == 2 && EdgeDecision(m, cellRegion, tooSharp, gone, e).Preserve? then 3
    else EdgeUse(m, gone, e)
  }

  ghost function EdgeDecision(m: Mesh, cellRegion: seq<int>, tooSharp: (nat, nat) -> bool, gone: set<nat>,
                              e: nat): Decision
    requires FacesWellFormed(m) && EdgesWellFormed(m) && |cellRegion| == m.nCells && e < |m.edges|
    requires EdgeUse(m, gone, e) == 2
  {
    var kept := Remaining(m.edgeFaces[e], gone);
    assert kept[0] in kept && kept[1] in kept;
    Decide(m, cellRegion, tooSharp, kept[0], kept[1])
  }

  /** No edge is left between an internal and a boundary face. */
  ghost predicate NoneMixed(m: Mesh, cellRegion: seq<int>, tooSharp: (nat, nat) -> bool, gone: set<nat>)
    requires FacesWellFormed(m) && EdgesWellFormed(m) && |cellRegion| == m.nCells
  {
    forall e :: 0 <= e < |m.edges| && EdgeUse(m, gone, e) == 2 ==>
      !EdgeDecision(m, cellRegion, tooSharp, gone, e).Mixed?
  }

  method DecideEdge(m: Mesh, cellRegion: seq<int>, tooSharp: (nat, nat) -> bool, removedFace: seq<bool>, e: nat,
                    ghost gone: set<nat>)
    returns (d: Decision)
    requires FacesWellFormed(m) && EdgesWellFormed(m) && |cellRegion| == m.nCells && e < |m.edges|
    requires |removedFace| == m.NFaces() && forall f :: 0 <= f < |removedFace| ==> (removedFace[f] <==> f in gone)
    requires EdgeUse(m, gone, e) == 2
    ensures d == EdgeDecision(m, cellRegion, tooSharp, gone, e)
  {
    var f0, f1 := FirstTwoKept(m.edgeFaces[e], removedFace, gone);
    ghost var kept := Remaining(m.edgeFaces[e], gone);
    assert kept[0] in kept && kept[1] in kept;
    d := Decide(m, cellRegion, tooSharp, f0, f1);
  }

  method FilterEdges(m: Mesh, cellRegion: seq<int>, tooSharp: (nat, nat) -> bool, removedFace: seq<bool>,
                     nFacesPerEdge: array<int>, ghost gone: set<nat>) returns (s: Status)
    requires FacesWellFormed(m) && EdgesWellFormed(m) && |cellRegion| == m.nCells
    requires |removedFace| == m.NFaces() && forall f :: 0 <= f < |removedFace| ==> (removedFace[f] <==> f in gone)
    requires nFacesPerEdge.Length == |m.edges|
    requires forall e :: 0 <= e < |m.edges| ==> nFacesPerEdge[e] == EdgeUse(m, gone, e)
    modifies nFacesPerEdge
    ensures s.Ok? || s.EdgeBetweenInternalAndBoundary?
    ensures s.Ok? <==> NoneMixed(m, cellRegion, tooSharp, gone)
    ensures s.EdgeBetweenInternalAndBoundary? ==>
      s.edge < |m.edges| && EdgeUse(m, gone, s.edge) == 2 && EdgeDecision(m, cellRegion, tooSharp, gone, s.edge).Mixed?
    ensures s.Ok? ==> forall e :: 0 <= e < |m.edges| ==> nFacesPerEdge[e] == FinalUse(m, cellRegion, tooSharp, gone, e)
  {
    for e := 0 to |m.edges|
      invariant forall k :: 0 <= k < e ==> nFacesPerEdge[k] == FinalUse(m, cellRegion, tooSharp, gone, k)
      invariant forall k :: e <= k < |m.edges| ==> nFacesPerEdge[k] == EdgeUse(m, gone, k)
      invariant forall k :: 0 <= k < e && EdgeUse(m, gone, k) == 2 ==>
                  !EdgeDecision(m, cellRegion, tooSharp, gone, k).Mixed?
    {
      if nFacesPerEdge[e] == 2 {
        var d := DecideEdge(m, cellRegion, tooSharp, removedFace, e, gone);
        if d.Mixed? {
          return EdgeBetweenInternalAndBoundary(e);
        }
        if d.Preserve? {
          nFacesPerEdge[e] := 3;
        }
      }
    }
    s := Ok;
  }

  method CheckEdges(nFacesPerEdge: seq<int>) returns (s: Status)
    ensures s.Ok? || s.EdgeWouldKeepOneFace?
    ensures s.Ok? <==> 1 !in nFacesPerEdge
    ensures s.EdgeWouldKeepOneFace? ==> s.edge < |nFacesPerEdge| && nFacesPerEdge[s.edge] == 1
  {
    for e := 0 to |nFacesPerEdge|
      invariant 1 !in nFacesPerEdge[..e]
    {
      if nFacesPerEdge[e] == 1 {
        return EdgeWouldKeepOneFace(e);
      }
    }
    s := Ok;
  }

  method CollectEdges(nFacesPerEdge: seq<int>) returns (edgesToRemove: set<nat>)
    ensures edgesToRemove == set e: nat | e < |nFacesPerEdge| && (nFacesPerEdge[e] == 0 || nFacesPerEdge[e] == 2)
  {
    edgesToRemove := {};
    for e := 0 to |nFacesPerEdge|
      invariant edgesToRemove == set k: nat | k < e && (nFacesPerEdge[k] == 0 || nFacesPerEdge[k] == 2)
    {
      if nFacesPerEdge[e] == 0 {
        edgesToRemove := edgesToRemove + {e};
      } else if nFacesPerEdge[e] == 2 {
        edgesToRemove := edgesToRemove + {e};
      }
    }
  }
}
