/** The phases of `setRefinement` that find the points to remove and the faces affected and emit the edits, each
    proved against the plan. */
module Refinement {
  import opened Sequences
  import opened Meshes
  import opened EdgeCounts
  import opened FaceWalk
  import opened Surgery

  // ---- points -----------------------------------------------------------------------------------

  ghost function PointUse(m: Mesh, edgesToRemove: set<nat>, p: nat): nat
    requires p < |m.pointEdges|
  {
    |Remaining(m.pointEdges[p], edgesToRemove)|
  }

  lemma PointUseStep(m: Mesh, gone: set<nat>, e: nat, p: nat)
    requires PointsWellFormed(m) && e < |m.edges| && e !in gone && p < m.nPoints
    ensures PointUse(m, gone + {e}, p) ==
            PointUse(m, gone, p) - (if m.edges[e].0 == p || m.edges[e].1 == p then 1 else 0)
  {
    RemainingDropsOne(m.pointEdges[p], gone, e);
  }

  method CountPointUse(m: Mesh, edgesToRemove: set<nat>) returns (nEdgesPerPoint: array<int>)
    requires PointsWellFormed(m) && forall e :: e in edgesToRemove ==> e < |m.edges|
    ensures nEdgesPerPoint.Length == m.nPoints
    ensures forall p :: 0 <= p < m.nPoints ==> nEdgesPerPoint[p] == PointUse(m, edgesToRemove, p)
  {
    nEdgesPerPoint := new int[m.nPoints];
    for p := 0 to m.nPoints
      invariant forall q :: 0 <= q < p ==> nEdgesPerPoint[q] == PointUse(m, {}, q)
    {
      RemainingUntouched(m.pointEdges[p], {});
      nEdgesPerPoint[p] := |m.pointEdges[p]|;
    }
    var todo := edgesToRemove;
    assert edgesToRemove - todo == {};
    while todo != {}
      invariant todo <= edgesToRemove
      invariant forall p :: 0 <= p < m.nPoints ==> nEdgesPerPoint[p] == PointUse(m, edgesToRemove - todo, p)
      decreases todo
    {
      var e :| e in todo;
      forall p | 0 <= p < m.nPoints
        ensures PointUse(m, edgesToRemove - (todo - {e}), p) ==
                PointUse(m, edgesToRemove - todo, p) - (if m.edges[e].0 == p || m.edges[e].1 == p then 1 else 0)
      {
        PointUseStep(m, edgesToRemove - todo, e, p);
        assert edgesToRemove - (todo - {e}) == (edgesToRemove - todo) + {e};
      }
      nEdgesPerPoint[m.edges[e].0] := nEdgesPerPoint[m.edges[e].0] - 1;
      nEdgesPerPoint[m.edges[e].1] := nEdgesPerPoint[m.edges[e].1] - 1;
      todo := todo - {e};
    }
    assert edgesToRemove - todo == edgesToRemove;
  }

  /** A point goes when it keeps no edge, or two that become one. */
  ghost function GonePoints(m: Mesh, edgesToRemove: set<nat>): set<nat>
    requires |m.pointEdges| == m.nPoints
  {
    set p: nat | p < m.nPoints && (PointUse(m, edgesToRemove, p) == 0 || PointUse(m, edgesToRemove, p) == 2)
  }

  ghost predicate NoPointKeepsOne(m: Mesh, edgesToRemove: set<nat>)
    requires |m.pointEdges| == m.nPoints
  {
    forall p :: 0 <= p < m.nPoints ==> PointUse(m, edgesToRemove, p) != 1
  }

  method FindPointsToRemove(m: Mesh, edgesToRemove: set<nat>) returns (s: Status, pointsToRemove: set<nat>)
    requires PointsWellFormed(m) && forall e :: e in edgesToRemove ==> e < |m.edges|
    ensures s.Ok? || s.PointWouldKeepOneEdge?
    ensures s.Ok? <==> NoPointKeepsOne(m, edgesToRemove)
    ensures s.PointWouldKeepOneEdge? ==> s.point < m.nPoints && PointUse(m, edgesToRemove, s.point) == 1
    ensures s.Ok? ==> pointsToRemove == GonePoints(m, edgesToRemove)
  {
    var counts := CountPointUse(m, edgesToRemove);
    var nEdgesPerPoint := counts[..];
    pointsToRemove := {};
    for p := 0 to m.nPoints
      invariant forall q :: 0 <= q < p ==> nEdgesPerPoint[q] != 1
    {
      if nEdgesPerPoint[p] == 1 {
        return PointWouldKeepOneEdge(p), {};
      }
    }
    for p := 0 to m.nPoints
      invariant pointsToRemove == set q: nat | q < p && (nEdgesPerPoint[q] == 0 || nEdgesPerPoint[q] == 2)
    {
      if nEdgesPerPoint[p] == 0 {
        pointsToRemove := pointsToRemove + {p};
      } else if nEdgesPerPoint[p] == 2 {
        pointsToRemove := pointsToRemove + {p};
      }
    }
    s := Ok;
  }

  // ---- affected faces ---------------------------------------------------------------------------

  method MarkAll(fs: seq<nat>, affectedFace: array<bool>)
    requires forall f :: f in fs ==> f < affectedFace.Length
    modifies affectedFace
    ensures forall f :: 0 <= f < affectedFace.Length ==> (affectedFace[f] <==> old(affectedFace[f]) || f in fs)
  {
    for i := 0 to |fs|
      invariant forall f :: 0 <= f < affectedFace.Length ==> (affectedFace[f] <==> old(affectedFace[f]) || f in fs[..i])
    {
      assert fs[..i + 1] == fs[..i] + [fs[i]] && fs[i] in fs;
      affectedFace[fs[i]] := true;
    }
    assert fs[..|fs|] == fs;
  }

  ghost predicate ByCell(p: Plan, f: nat, upTo: nat)
    requires p.Valid() && upTo <= p.m.nCells
  {
    exists c :: 0 <= c < upTo && p.CellRemoved(c) && f in p.m.cells[c]
  }

  method MarkByCells(p: Plan, affectedFace: array<bool>)
    requires p.Valid() && affectedFace.Length == p.m.NFaces()
    requires forall f :: 0 <= f < affectedFace.Length ==> !affectedFace[f]
    modifies affectedFace
    ensures forall f :: 0 <= f < affectedFace.Length ==> (affectedFace[f] <==> ByCell(p, f, p.m.nCells))
  {
    for c := 0 to p.m.nCells
      invariant forall f :: 0 <= f < affectedFace.Length ==> (affectedFace[f] <==> ByCell(p, f, c))
    {
      ghost var before := affectedFace[..];
      if p.cellRegion[c] != -1 && c != p.regionMaster[p.cellRegion[c]] {
        MarkAll(p.m.cells[c], affectedFace);
      }
      forall f | 0 <= f < affectedFace.Length ensures affectedFace[f] <==> ByCell(p, f, c + 1) {
        assert before[f] <==> ByCell(p, f, c);
      }
    }
  }

  method MarkBySet(todo0: set<nat>, faces: seq<seq<nat>>, affectedFace: array<bool>)
    requires forall k :: k in todo0 ==> k < |faces| && forall f :: f in faces[k] ==> f < affectedFace.Length
    modifies affectedFace
    ensures forall f :: 0 <= f < affectedFace.Length ==>
              (affectedFace[f] <==> old(affectedFace[f]) || exists k :: k in todo0 && f in faces[k])
  {
    var todo := todo0;
    while todo != {}
      invariant todo <= todo0
      invariant forall f :: 0 <= f < affectedFace.Length ==>
                  (affectedFace[f] <==> old(affectedFace[f]) || exists k :: k in todo0 - todo && f in faces[k])
      decreases todo
    {
      var k :| k in todo;
      MarkAll(faces[k], affectedFace);
      todo := todo - {k};
    }
  }

  method GetFacesAffected(p: Plan) returns (affectedFace: array<bool>)
    requires p.Valid()
    ensures fresh(affectedFace) && affectedFace.Length == p.m.NFaces()
    ensures forall f :: 0 <= f < p.m.NFaces() ==> (affectedFace[f] <==> p.Affected(f))
  {
    affectedFace := new bool[p.m.NFaces()](_ => false);
    MarkByCells(p, affectedFace);
    MarkAll(p.faceLabels, affectedFace);
    MarkBySet(p.edgesToRemove, p.m.edgeFaces, affectedFace);
    MarkBySet(p.pointsToRemove, p.m.pointFaces, affectedFace);
  }

  // ---- emitting the edits -----------------------------------------------------------------------

  /** Appends the one right edit of an object that has none yet. */
  method Emit(p: Plan, a: Action, meshMod: TopoChange, ghost n: nat, ghost keys: set<Key>)
    requires p.Valid() && n <= |meshMod.actions| && Recorded(p, meshMod.actions[n..], keys)
    requires KeyOf(a) !in keys && p.Edited(KeyOf(a))
    requires KeyOf(a).Face? && p.faceRegion[KeyOf(a).f] >= 0 ==> p.HasLoop(p.faceRegion[KeyOf(a).f])
    requires a == p.ActionFor(KeyOf(a))
    modifies meshMod
    ensures n <= |meshMod.actions| && meshMod.actions[..n] == old(meshMod.actions[..n])
    ensures Recorded(p, meshMod.actions[n..], keys + {KeyOf(a)})
  {
    Record(p, meshMod.actions[n..], keys, a);
    meshMod.SetAction(a);
    assert meshMod.actions[n..] == old(meshMod.actions[n..]) + [a];
  }

  ghost predicate Marks(p: Plan, affectedFace: seq<bool>, keys: set<Key>)
    requires p.Valid()
  {
    |affectedFace| == p.m.NFaces() &&
    forall f :: 0 <= f < |affectedFace| ==> (affectedFace[f] <==> p.Affected(f) && Face(f) !in keys)
  }

  ghost function FaceKeys(fs: seq<nat>): set<Key> {
    set f | f in fs :: Face(f)
  }

  lemma FaceKeysStep(fs: seq<nat>, i: nat)
    requires i < |fs|
    ensures FaceKeys(fs[..i + 1]) == FaceKeys(fs[..i]) + {Face(fs[i])}
  {
    assert fs[..i + 1] == fs[..i] + [fs[i]];
  }

  method RemoveSplitFaces(p: Plan, affectedFace: array<bool>, meshMod: TopoChange, ghost n: nat)
    requires p.Valid() && n == |meshMod.actions| && Marks(p, affectedFace[..], {})
    modifies meshMod, affectedFace
    ensures n <= |meshMod.actions| && meshMod.actions[..n] == old(meshMod.actions)
    ensures Recorded(p, meshMod.actions[n..], FaceKeys(p.faceLabels))
    ensures Marks(p, affectedFace[..], FaceKeys(p.faceLabels))
  {
    for i := 0 to |p.faceLabels|
      invariant n <= |meshMod.actions| && meshMod.actions[..n] == old(meshMod.actions)
      invariant Recorded(p, meshMod.actions[n..], FaceKeys(p.faceLabels[..i]))
      invariant Marks(p, affectedFace[..], FaceKeys(p.faceLabels[..i]))
    {
      var f := p.faceLabels[i];
      assert f in p.faceLabels && p.m.Internal(f);
      FaceKeysStep(p.faceLabels, i);
      if affectedFace[f] {
        affectedFace[f] := false;
        Emit(p, RemoveFace(f, -1), meshMod, n, FaceKeys(p.faceLabels[..i]));
      } else {
        assert FaceKeys(p.faceLabels[..i + 1]) == FaceKeys(p.faceLabels[..i]);
      }
    }
    assert p.faceLabels[..|p.faceLabels|] == p.faceLabels;
  }

  ghost function PointKeys(ps: set<nat>): set<Key> {
    set q | q in ps :: Point(q)
  }

  method RemovePoints(p: Plan, meshMod: TopoChange, ghost n: nat, ghost keys: set<Key>)
    requires p.Valid() && n <= |meshMod.actions| && Recorded(p, meshMod.actions[n..], keys)
    requires forall k :: k in keys ==> k.Face?
    modifies meshMod
    ensures n <= |meshMod.actions| && meshMod.actions[..n] == old(meshMod.actions[..n])
    ensures Recorded(p, meshMod.actions[n..], keys + PointKeys(p.pointsToRemove))
  {
    var todo := p.pointsToRemove;
    assert keys + PointKeys(p.pointsToRemove - todo) == keys;
    while todo != {}
      invariant todo <= p.pointsToRemove
      invariant n <= |meshMod.actions| && meshMod.actions[..n] == old(meshMod.actions[..n])
      invariant Recorded(p, meshMod.actions[n..], keys + PointKeys(p.pointsToRemove - todo))
      decreases todo
    {
      var q :| q in todo;
      ghost var soFar := keys + PointKeys(p.pointsToRemove - todo);
      Emit(p, RemovePoint(q), meshMod, n, soFar);
      todo := todo - {q};
      assert p.pointsToRemove - todo == (p.pointsToRemove - (todo + {q})) + {q};
      assert keys + PointKeys(p.pointsToRemove - todo) == soFar + {Point(q)};
    }
    assert p.pointsToRemove - todo == p.pointsToRemove;
  }

  ghost function CellKeys(p: Plan, upTo: nat): set<Key>
    requires p.Valid() && upTo <= p.m.nCells
  {
    set c: nat | c < upTo && p.CellRemoved(c) :: Cell(c)
  }

  method RemoveCells(p: Plan, meshMod: TopoChange, ghost n: nat, ghost keys: set<Key>)
    requires p.Valid() && n <= |meshMod.actions| && Recorded(p, meshMod.actions[n..], keys)
    requires forall k :: k in keys ==> !k.Cell?
    modifies meshMod
    ensures n <= |meshMod.actions| && meshMod.actions[..n] == old(meshMod.actions[..n])
    ensures Recorded(p, meshMod.actions[n..], keys + CellKeys(p, p.m.nCells))
  {
    assert keys + CellKeys(p, 0) == keys;
    for c := 0 to p.m.nCells
      invariant n <= |meshMod.actions| && meshMod.actions[..n] == old(meshMod.actions[..n])
      invariant Recorded(p, meshMod.actions[n..], keys + CellKeys(p, c))
    {
      var region := p.cellRegion[c];
      assert keys + CellKeys(p, c + 1) == (keys + CellKeys(p, c)) + (if p.CellRemoved(c) then {Cell(c)} else {});
      if region != -1 && c != p.regionMaster[region] {
        Emit(p, RemoveCell(c, p.regionMaster[region]), meshMod, n, keys + CellKeys(p, c));
      } else {
        assert keys + CellKeys(p, c + 1) == keys + CellKeys(p, c);
      }
    }
  }

  /** The points of a face or loop that stay, in order. */
  method FilterPoints(points: seq<nat>, pointsToRemove: set<nat>) returns (kept: seq<nat>)
    ensures kept == Remaining(points, pointsToRemove)
  {
    kept := [];
    for i := 0 to |points|
      invariant kept == Remaining(points[..i], pointsToRemove)
    {
      assert points[..i + 1] == points[..i] + [points[i]];
      RemainingAppend(points[..i], points[i], pointsToRemove);
      if points[i] !in pointsToRemove {
        kept := kept + [points[i]];
      }
    }
    assert points[..|points|] == points;
  }

  /** Merges the faces of one region: the master is modified, the others are removed into it. */
  method MergeFaces(p: Plan, r: nat, meshMod: TopoChange, ghost n: nat, ghost keys: set<Key>)
    requires p.Valid() && n <= |meshMod.actions| && Recorded(p, meshMod.actions[n..], keys)
    requires r < |p.regionToFaces| && p.HasLoop(r)
    requires forall f :: f in p.regionToFaces[r] ==> Face(f) !in keys
    modifies meshMod
    ensures n <= |meshMod.actions| && meshMod.actions[..n] == old(meshMod.actions[..n])
    ensures Recorded(p, meshMod.actions[n..], keys + FaceKeys(p.regionToFaces[r]))
  {
    var faceLabels := p.regionToFaces[r];
    var loop := p.outline(faceLabels).value;
    var masterIndex := loop.masterIndex;
    var master := faceLabels[masterIndex];
    var mergedFace := FilterPoints(loop.vertices, p.pointsToRemove);
    if loop.reverseLoop {
      mergedFace := Reversed(mergedFace);
    }
    RegionFace(p, r, masterIndex);
    var a := p.ModFace(mergedFace, master);
    assert KeyOf(a) == Face(master);
    Emit(p, a, meshMod, n, keys);
    RemoveOthers(p, r, masterIndex, meshMod, n, keys);
  }

  lemma RegionFace(p: Plan, r: nat, i: nat)
    requires p.Valid() && r < |p.regionToFaces| && i < |p.regionToFaces[r]|
    ensures var f := p.regionToFaces[r][i];
            && f < p.m.NFaces() && p.faceRegion[f] == r && f !in p.faceLabels
            && f in p.regionToFaces[r] && f !in p.regionToFaces[r][..i]
  {
    var f := p.regionToFaces[r][i];
    assert f in p.regionToFaces[r];
    assert NoDuplicates(p.regionToFaces[r]);
  }

  /** A face of the region other than its master is removed into the master. */
  method RemoveOther(p: Plan, r: nat, masterIndex: nat, i: nat, meshMod: TopoChange, ghost n: nat, ghost done: set<Key>)
    requires p.Valid() && n <= |meshMod.actions| && r < |p.regionToFaces| && p.HasLoop(r)
    requires masterIndex == p.outline(p.regionToFaces[r]).value.masterIndex && i < |p.regionToFaces[r]|
    requires i != masterIndex
    requires Recorded(p, meshMod.actions[n..], done) && Face(p.regionToFaces[r][i]) !in done
    modifies meshMod
    ensures n <= |meshMod.actions| && meshMod.actions[..n] == old(meshMod.actions[..n])
    ensures Recorded(p, meshMod.actions[n..], done + {Face(p.regionToFaces[r][i])})
  {
    var f, master := p.regionToFaces[r][i], p.regionToFaces[r][masterIndex];
    RegionFace(p, r, i);
    assert f != master by {
      assert NoDuplicates(p.regionToFaces[r]);
    }
    Emit(p, RemoveFace(f, master), meshMod, n, done);
  }

  lemma NotYetDone(fs: seq<nat>, i: nat, masterIndex: nat, keys: set<Key>)
    requires NoDuplicates(fs) && i < |fs| && masterIndex < |fs| && i != masterIndex
    requires forall f :: f in fs ==> Face(f) !in keys
    ensures Face(fs[i]) !in keys + {Face(fs[masterIndex])} + FaceKeys(fs[..i])
  {
    assert fs[i] in fs;
  }

  method RemoveOthers(p: Plan, r: nat, masterIndex: nat, meshMod: TopoChange, ghost n: nat, ghost keys: set<Key>)
    requires p.Valid() && n <= |meshMod.actions| && r < |p.regionToFaces| && p.HasLoop(r)
    requires masterIndex == p.outline(p.regionToFaces[r]).value.masterIndex
    requires Recorded(p, meshMod.actions[n..], keys + {Face(p.MasterFace(r))})
    requires forall f :: f in p.regionToFaces[r] ==> Face(f) !in keys
    modifies meshMod
    ensures n <= |meshMod.actions| && meshMod.actions[..n] == old(meshMod.actions[..n])
    ensures Recorded(p, meshMod.actions[n..], keys + FaceKeys(p.regionToFaces[r]))
  {
    var faceLabels := p.regionToFaces[r];
    ghost var master := Face(faceLabels[masterIndex]);
    ghost var done := keys + {master};
    for i := 0 to |faceLabels|
      invariant n <= |meshMod.actions| && meshMod.actions[..n] == old(meshMod.actions[..n])
      invariant done == keys + {master} + FaceKeys(faceLabels[..i])
      invariant Recorded(p, meshMod.actions[n..], done)
    {
      FaceKeysStep(faceLabels, i);
      if i != masterIndex {
        NotYetDone(faceLabels, i, masterIndex, keys);
        RemoveOther(p, r, masterIndex, i, meshMod, n, done);
      } else {
        assert done == done + {Face(faceLabels[i])};
      }
      done := done + {Face(faceLabels[i])};
    }
    assert faceLabels[..|faceLabels|] == faceLabels;
    assert done == keys + FaceKeys(faceLabels);
  }

  ghost function MergedKeys(p: Plan, upTo: nat): set<Key>
    requires p.Valid()
  {
    set f: nat | f < p.m.NFaces() && 0 <= p.faceRegion[f] < upTo :: Face(f)
  }

  /** One region merged and its marks cleared. */
  method MergeRegion(p: Plan, r: nat, affectedFace: array<bool>, meshMod: TopoChange, ghost n: nat,
                     ghost keys: set<Key>)
    requires p.Valid() && n <= |meshMod.actions| && r < |p.regionToFaces| && p.HasLoop(r)
    requires Recorded(p, meshMod.actions[n..], keys + MergedKeys(p, r))
    requires Marks(p, affectedFace[..], keys + MergedKeys(p, r))
    requires forall f :: 0 <= f < p.m.NFaces() && p.faceRegion[f] >= 0 ==> Face(f) !in keys
    modifies meshMod, affectedFace
    ensures n <= |meshMod.actions| && meshMod.actions[..n] == old(meshMod.actions[..n])
    ensures Recorded(p, meshMod.actions[n..], keys + MergedKeys(p, r + 1))
    ensures Marks(p, affectedFace[..], keys + MergedKeys(p, r + 1))
  {
    var rFaces := p.regionToFaces[r];
    ghost var soFar := keys + MergedKeys(p, r);
    MergedKeysStep(p, r);
    MergeFaces(p, r, meshMod, n, soFar);
    ClearMarks(p, affectedFace, rFaces, soFar);
    assert soFar + FaceKeys(rFaces) == keys + MergedKeys(p, r + 1);
  }

  method MergeAllRegions(p: Plan, affectedFace: array<bool>, meshMod: TopoChange, ghost n: nat, ghost keys: set<Key>)
    returns (s: Status)
    requires p.Valid() && n <= |meshMod.actions| && Recorded(p, meshMod.actions[n..], keys)
    requires Marks(p, affectedFace[..], keys)
    requires forall f :: 0 <= f < p.m.NFaces() && p.faceRegion[f] >= 0 ==> Face(f) !in keys
    modifies meshMod, affectedFace
    ensures s.Ok? || s.NotASingleLoop? || s.RegionOfOneFace?
    ensures s.RegionOfOneFace? ==> s.region < |p.regionToFaces| && |p.regionToFaces[s.region]| <= 1
    ensures s.NotASingleLoop? ==> s.region < |p.regionToFaces| && !p.HasLoop(s.region)
    ensures s.Ok? <==> p.AllLoops() && forall r :: 0 <= r < |p.regionToFaces| ==> |p.regionToFaces[r]| > 1
    ensures n <= |meshMod.actions| && meshMod.actions[..n] == old(meshMod.actions[..n])
    ensures s.Ok? ==> Recorded(p, meshMod.actions[n..], keys + MergedKeys(p, |p.regionToFaces|))
    ensures s.Ok? ==> Marks(p, affectedFace[..], keys + MergedKeys(p, |p.regionToFaces|))
  {
    assert keys + MergedKeys(p, 0) == keys;
    for r := 0 to |p.regionToFaces|
      invariant n <= |meshMod.actions| && meshMod.actions[..n] == old(meshMod.actions[..n])
      invariant Recorded(p, meshMod.actions[n..], keys + MergedKeys(p, r))
      invariant Marks(p, affectedFace[..], keys + MergedKeys(p, r))
      invariant forall q :: 0 <= q < r ==> p.HasLoop(q) && |p.regionToFaces[q]| > 1
    {
      if |p.regionToFaces[r]| <= 1 {
        return RegionOfOneFace(r);
      }
      if !p.HasLoop(r) {
        return NotASingleLoop(r);
      }
      MergeRegion(p, r, affectedFace, meshMod, n, keys);
    }
    s := Ok;
  }

  lemma MergedKeysStep(p: Plan, r: nat)
    requires p.Valid() && r < |p.regionToFaces|
    ensures MergedKeys(p, r + 1) == MergedKeys(p, r) + FaceKeys(p.regionToFaces[r])
  {
  }

  method ClearMarks(p: Plan, affectedFace: array<bool>, fs: seq<nat>, ghost keys: set<Key>)
    requires p.Valid() && Marks(p, affectedFace[..], keys) && forall f :: f in fs ==> f < p.m.NFaces()
    modifies affectedFace
    ensures Marks(p, affectedFace[..], keys + FaceKeys(fs))
  {
    for i := 0 to |fs|
      invariant Marks(p, affectedFace[..], keys + FaceKeys(fs[..i]))
    {
      FaceKeysStep(fs, i);
      assert fs[i] in fs;
      affectedFace[fs[i]] := false;
    }
    assert fs[..|fs|] == fs;
  }

  ghost function AffectedKeys(p: Plan, upTo: nat): set<Key>
    requires p.Valid() && upTo <= p.m.NFaces()
  {
    set f: nat | f < upTo && p.Affected(f) :: Face(f)
  }

  lemma AffectedKeysStep(p: Plan, keys: set<Key>, f: nat)
    requires p.Valid() && f < p.m.NFaces()
    ensures keys + AffectedKeys(p, f + 1) ==
            if p.Affected(f) && Face(f) !in keys then (keys + AffectedKeys(p, f)) + {Face(f)}
            else keys + AffectedKeys(p, f)
    ensures Face(f) !in AffectedKeys(p, f)
  {
    assert AffectedKeys(p, f + 1) == AffectedKeys(p, f) + (if p.Affected(f) then {Face(f)} else {});
  }

  method ModifyOne(p: Plan, f: nat, meshMod: TopoChange, ghost n: nat, ghost keys: set<Key>)
    requires p.Valid() && n <= |meshMod.actions| && Recorded(p, meshMod.actions[n..], keys)
    requires f < p.m.NFaces() && p.Affected(f) && Face(f) !in keys && f !in p.faceLabels && p.faceRegion[f] < 0
    modifies meshMod
    ensures n <= |meshMod.actions| && meshMod.actions[..n] == old(meshMod.actions[..n])
    ensures Recorded(p, meshMod.actions[n..], keys + {Face(f)})
  {
    var points := FilterPoints(p.m.faces[f], p.pointsToRemove);
    var a := p.ModFace(points, f);
    assert KeyOf(a) == Face(f);
    Emit(p, a, meshMod, n, keys);
  }

  /** The affected faces that are neither removed nor merged: new cells and fewer points. */
  method ModifyRemaining(p: Plan, affectedFace: array<bool>, meshMod: TopoChange, ghost n: nat, ghost keys: set<Key>)
    requires p.Valid() && n <= |meshMod.actions| && Recorded(p, meshMod.actions[n..], keys)
    requires Marks(p, affectedFace[..], keys)
    requires forall f :: 0 <= f < p.m.NFaces() && (f in p.faceLabels || p.faceRegion[f] >= 0) ==> Face(f) in keys
    modifies meshMod, affectedFace
    ensures n <= |meshMod.actions| && meshMod.actions[..n] == old(meshMod.actions[..n])
    ensures Recorded(p, meshMod.actions[n..], keys + AffectedKeys(p, p.m.NFaces()))
  {
    assert keys + AffectedKeys(p, 0) == keys;
    for f := 0 to p.m.NFaces()
      invariant n <= |meshMod.actions| && meshMod.actions[..n] == old(meshMod.actions[..n])
      invariant Recorded(p, meshMod.actions[n..], keys + AffectedKeys(p, f))
      invariant Marks(p, affectedFace[..], keys + AffectedKeys(p, f))
    {
      ghost var soFar := keys + AffectedKeys(p, f);
      AffectedKeysStep(p, keys, f);
      if affectedFace[f] {
        affectedFace[f] := false;
        ModifyOne(p, f, meshMod, n, soFar);
      }
    }
  }

  // ---- the whole call ---------------------------------------------------------------------------

  /** Every region's faces, in increasing order. */
  ghost predicate Inverts(faceRegion: seq<int>, upTo: nat, regionToFaces: seq<seq<nat>>)
    requires upTo <= |faceRegion|
  {
    && (forall r, f {:trigger f in regionToFaces[r]} :: 0 <= r < |regionToFaces| ==>
          (f in regionToFaces[r] <==> 0 <= f < upTo && faceRegion[f] == r))
    && (forall r, i, j :: 0 <= r < |regionToFaces| && 0 <= i < j < |regionToFaces[r]| ==>
          regionToFaces[r][i] < regionToFaces[r][j])
  }

  method InvertOneToMany(nRegions: nat, faceRegion: seq<int>) returns (regionToFaces: seq<seq<nat>>)
    requires forall f :: 0 <= f < |faceRegion| ==> faceRegion[f] < nRegions
    ensures |regionToFaces| == nRegions && Inverts(faceRegion, |faceRegion|, regionToFaces)
  {
    regionToFaces := seq(nRegions, _ => []);
    for f := 0 to |faceRegion|
      invariant |regionToFaces| == nRegions && Inverts(faceRegion, f, regionToFaces)
    {
      var r := faceRegion[f];
      if r >= 0 {
        assert forall i :: 0 <= i < |regionToFaces[r]| ==> regionToFaces[r][i] in regionToFaces[r];
        regionToFaces := regionToFaces[r := regionToFaces[r] + [f]];
      }
    }
  }

  /** Exactly the edits of the plan: each edited object once, with its one right edit. */
  ghost predicate EditsExactly(p: Plan, actions: seq<Action>)
    requires p.Valid()
  {
    p.AllLoops() && exists keys :: Recorded(p, actions, keys) && forall k :: k in keys <==> p.Edited(k)
  }

  /** The merged faces, then the other affected ones. */
  method EmitFaces(p: Plan, affectedFace: array<bool>, meshMod: TopoChange, ghost n: nat, ghost keys: set<Key>)
    returns (s: Status)
    requires p.Valid() && n <= |meshMod.actions| && Recorded(p, meshMod.actions[n..], keys)
    requires Marks(p, affectedFace[..], keys)
    requires keys == FaceKeys(p.faceLabels) + PointKeys(p.pointsToRemove) + CellKeys(p, p.m.nCells)
    modifies meshMod, affectedFace
    ensures s.Ok? || s.NotASingleLoop? || s.RegionOfOneFace?
    ensures s.RegionOfOneFace? ==> s.region < |p.regionToFaces| && |p.regionToFaces[s.region]| <= 1
    ensures s.NotASingleLoop? ==> s.region < |p.regionToFaces| && !p.HasLoop(s.region)
    ensures s.Ok? <==> p.AllLoops() && forall r :: 0 <= r < |p.regionToFaces| ==> |p.regionToFaces[r]| > 1
    ensures n <= |meshMod.actions| && meshMod.actions[..n] == old(meshMod.actions[..n])
    ensures s.Ok? ==> EditsExactly(p, meshMod.actions[n..])
  {
    s := MergeAllRegions(p, affectedFace, meshMod, n, keys);
    if s.Ok? {
      ghost var merged := keys + MergedKeys(p, |p.regionToFaces|);
      RegionsMerged(p);
      ModifyRemaining(p, affectedFace, meshMod, n, merged);
      Complete(p, meshMod.actions[n..], merged + AffectedKeys(p, p.m.NFaces()));
    }
  }

  /** All edits of a valid plan, once the affected faces are marked. */
  method EmitAll(p: Plan, affectedFace: array<bool>, meshMod: TopoChange, ghost n: nat) returns (s: Status)
    requires p.Valid() && n == |meshMod.actions| && Marks(p, affectedFace[..], {})
    modifies meshMod, affectedFace
    ensures s.Ok? || s.NotASingleLoop? || s.RegionOfOneFace?
    ensures s.RegionOfOneFace? ==> s.region < |p.regionToFaces| && |p.regionToFaces[s.region]| <= 1
    ensures s.NotASingleLoop? ==> s.region < |p.regionToFaces| && !p.HasLoop(s.region)
    ensures s.Ok? <==> p.AllLoops() && forall r :: 0 <= r < |p.regionToFaces| ==> |p.regionToFaces[r]| > 1
    ensures n <= |meshMod.actions| && meshMod.actions[..n] == old(meshMod.actions)
    ensures s.Ok? ==> EditsExactly(p, meshMod.actions[n..])
  {
    RemoveSplitFaces(p, affectedFace, meshMod, n);
    ghost var keys0 := FaceKeys(p.faceLabels);
    RemovePoints(p, meshMod, n, keys0);
    ghost var keys1 := keys0 + PointKeys(p.pointsToRemove);
    RemoveCells(p, meshMod, n, keys1);
    s := EmitFaces(p, affectedFace, meshMod, n, keys1 + CellKeys(p, p.m.nCells));
  }

  /** Removed faces and faces with a region number have had their edits. */
  lemma RegionsMerged(p: Plan)
    requires p.Valid()
    ensures var keys := FaceKeys(p.faceLabels) + PointKeys(p.pointsToRemove) + CellKeys(p, p.m.nCells)
                        + MergedKeys(p, |p.regionToFaces|);
            forall f :: 0 <= f < p.m.NFaces() && (f in p.faceLabels || p.faceRegion[f] >= 0) ==> Face(f) in keys
  {
  }

  lemma Complete(p: Plan, actions: seq<Action>, keys: set<Key>)
    requires p.Valid() && p.AllLoops() && Recorded(p, actions, keys)
    requires keys == FaceKeys(p.faceLabels) + PointKeys(p.pointsToRemove) + CellKeys(p, p.m.nCells)
                     + MergedKeys(p, |p.regionToFaces|) + AffectedKeys(p, p.m.NFaces())
    ensures EditsExactly(p, actions)
  {
    AllKeys(p);
  }

  lemma AllKeys(p: Plan)
    requires p.Valid()
    ensures var keys := FaceKeys(p.faceLabels) + PointKeys(p.pointsToRemove) + CellKeys(p, p.m.nCells)
                        + MergedKeys(p, |p.regionToFaces|) + AffectedKeys(p, p.m.NFaces());
            forall k :: k in keys <==> p.Edited(k)
  {
  }
}
