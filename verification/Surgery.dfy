/** `setRefinement`: from the faces to remove and the cell regions to the list of mesh edits. */
module Surgery {
  import opened Basics
  import opened Sequences
  import opened Meshes
  import opened EdgeCounts
  import opened FaceWalk

  // ---- the edits ----------------------------------------------------------------------------------

  datatype Action =
    | RemoveFace(face: nat, mergeInto: int)
    | RemovePoint(point: nat)
    | RemoveCell(cell: nat, mergeIntoCell: int)
    | ModifyFace(points: seq<nat>, modified: nat, owner: int, neighbour: int, patch: int)

  /** The mesh object an edit is about. */
  datatype Key = Face(f: nat) | Point(p: nat) | Cell(c: nat)

  function KeyOf(a: Action): Key {
    match a
    case RemoveFace(f, _) => Face(f)
    case RemovePoint(p) => Point(p)
    case RemoveCell(c, _) => Cell(c)
    case ModifyFace(_, f, _, _, _) => Face(f)
  }

  class TopoChange {
    var actions: seq<Action>

    constructor ()
      ensures actions == []
    {
      actions := [];
    }

    method SetAction(a: Action)
      modifies this
      ensures actions == old(actions) + [a]
    {
      actions := actions + [a];
    }
  }

  // ---- what is decided before the first edit --------------------------------------------------------

  /** The outside loop of a face patch, the face that keeps its label, and whether the loop runs
      against that face. */
  datatype Loop = Loop(vertices: seq<nat>, masterIndex: nat, reverseLoop: bool)

  type Outline = seq<nat> -> Option<Loop>

  datatype Plan = Plan(
    m: Mesh,
    faceLabels: seq<nat>,
    cellRegion: seq<int>,
    regionMaster: seq<int>,
    edgesToRemove: set<nat>,
    pointsToRemove: set<nat>,
    faceRegion: seq<int>,
    regionToFaces: seq<seq<nat>>,
    outline: Outline)
  {
    ghost predicate Valid() {
      && WellFormed(m)
      && (forall f :: f in faceLabels ==> m.Internal(f))
      && LabelsInRange(m, cellRegion, regionMaster)
      && (forall e :: e in edgesToRemove ==> e < |m.edges|)
      && (forall p :: p in pointsToRemove ==> p < m.nPoints)
      && |faceRegion| == m.NFaces()
      && (forall f :: 0 <= f < m.NFaces() ==> faceRegion[f] < |regionToFaces|)
      && (forall f :: f in faceLabels ==> faceRegion[f] == -1)
      && (forall r, f {:trigger f in regionToFaces[r]} :: 0 <= r < |regionToFaces| && f in regionToFaces[r] ==>
            f < m.NFaces() && faceRegion[f] == r)
      && (forall f :: 0 <= f < m.NFaces() && faceRegion[f] >= 0 ==> f in regionToFaces[faceRegion[f]])
      && (forall r :: 0 <= r < |regionToFaces| ==> NoDuplicates(regionToFaces[r]))
    }

    /** The cell that takes the place of cell `c`. */
    function CellAfter(c: nat): int
      requires c < |cellRegion| && cellRegion[c] < |regionMaster|
    {
      if cellRegion[c] < 0 then c else regionMaster[cellRegion[c]]
    }

    predicate CellRemoved(c: nat)
      requires c < |cellRegion| && cellRegion[c] < |regionMaster|
    {
      cellRegion[c] >= 0 && c != regionMaster[cellRegion[c]]
    }

    /** A face is affected by the removal of one of its cells, of itself, of an edge or of a point. */
    ghost predicate Affected(f: nat)
      requires Valid() && f < m.NFaces()
    {
      || (exists c :: 0 <= c < m.nCells && CellRemoved(c) && f in m.cells[c])
      || f in faceLabels
      || (exists e :: e in edgesToRemove && f in m.edgeFaces[e])
      || (exists p :: p in pointsToRemove && f in m.pointFaces[p])
    }

    /** The edit of face `f` with the new points `points`: reversed if owner and neighbour swap order. */
    function ModFace(points: seq<nat>, f: nat): Action
      requires f < |m.faceOwner| == |m.whichPatch| && m.faceOwner[f] < |cellRegion|
      requires forall c :: 0 <= c < |cellRegion| ==> cellRegion[c] < |regionMaster|
      requires m.Internal(f) ==> m.faceNeighbour[f] < |cellRegion|
    {
      var own := CellAfter(m.faceOwner[f]);
      var nei := if m.Internal(f) then CellAfter(m.faceNeighbour[f]) else -1;
      var patch := if m.Internal(f) then -1 else m.whichPatch[f];
      if nei == -1 || own < nei then ModifyFace(points, f, own, nei, patch)
      else ModifyFace(Reversed(points), f, nei, own, patch)
    }

    predicate HasLoop(r: nat)
      requires r < |regionToFaces|
    {
      var l := outline(regionToFaces[r]);
      l.Some? && l.value.masterIndex < |regionToFaces[r]|
    }

    function MergedPoints(r: nat): seq<nat>
      requires r < |regionToFaces| && HasLoop(r)
    {
      var l := outline(regionToFaces[r]).value;
      var kept := Remaining(l.vertices, pointsToRemove);
      if l.reverseLoop then Reversed(kept) else kept
    }

    function MasterFace(r: nat): nat
      requires r < |regionToFaces| && HasLoop(r)
    {
      regionToFaces[r][outline(regionToFaces[r]).value.masterIndex]
    }

    ghost predicate AllLoops() {
      forall r :: 0 <= r < |regionToFaces| ==> HasLoop(r)
    }

    /** Which objects are edited... */
    ghost predicate Edited(k: Key)
      requires Valid()
    {
      match k
      case Face(f) => f < m.NFaces() && (f in faceLabels || faceRegion[f] >= 0 || Affected(f))
      case Point(p) => p in pointsToRemove
      case Cell(c) => c < m.nCells && CellRemoved(c)
    }

    /** ...and what the one edit of each of them is. */
    ghost function ActionFor(k: Key): Action
      requires Valid() && Edited(k)
      requires k.Face? && faceRegion[k.f] >= 0 ==> HasLoop(faceRegion[k.f])
    {
      match k
      case Face(f) =>
        if f in faceLabels then RemoveFace(f, -1)
        else if faceRegion[f] >= 0 then
          if f == MasterFace(faceRegion[f]) then ModFace(MergedPoints(faceRegion[f]), f)
          else RemoveFace(f, MasterFace(faceRegion[f]))
        else ModFace(Remaining(m.faces[f], pointsToRemove), f)
      case Point(p) => RemovePoint(p)
      case Cell(c) => RemoveCell(c, regionMaster[cellRegion[c]])
    }
  }

  ghost predicate LabelsInRange(m: Mesh, cellRegion: seq<int>, regionMaster: seq<int>) {
    && |cellRegion| == m.nCells
    && (forall c :: 0 <= c < m.nCells ==> -1 <= cellRegion[c] < |regionMaster|)
    && (forall c :: 0 <= c < m.nCells && cellRegion[c] != -1 ==> 0 <= regionMaster[cellRegion[c]] < m.nCells)
  }

  /** The edits made so far: one for each key in `keys`, each the right one. */
  ghost predicate Recorded(p: Plan, actions: seq<Action>, keys: set<Key>)
    requires p.Valid()
  {
    && (forall k :: k in keys ==> p.Edited(k) && (k.Face? && p.faceRegion[k.f] >= 0 ==> p.HasLoop(p.faceRegion[k.f])))
    && (forall i :: 0 <= i < |actions| ==> KeyOf(actions[i]) in keys && actions[i] == p.ActionFor(KeyOf(actions[i])))
    && (forall i, j :: 0 <= i < j < |actions| ==> KeyOf(actions[i]) != KeyOf(actions[j]))
    && (forall k :: k in keys ==> exists i :: 0 <= i < |actions| && KeyOf(actions[i]) == k)
  }

  lemma Record(p: Plan, actions: seq<Action>, keys: set<Key>, a: Action)
    requires p.Valid() && Recorded(p, actions, keys)
    requires KeyOf(a) !in keys && p.Edited(KeyOf(a))
    requires KeyOf(a).Face? && p.faceRegion[KeyOf(a).f] >= 0 ==> p.HasLoop(p.faceRegion[KeyOf(a).f])
    requires a == p.ActionFor(KeyOf(a))
    ensures Recorded(p, actions + [a], keys + {KeyOf(a)})
  {
    var actions', keys' := actions + [a], keys + {KeyOf(a)};
    forall k | k in keys' ensures exists i :: 0 <= i < |actions'| && KeyOf(actions'[i]) == k {
      if k == KeyOf(a) {
        assert KeyOf(actions'[|actions|]) == k;
      } else {
        var i :| 0 <= i < |actions| && KeyOf(actions[i]) == k;
        assert KeyOf(actions'[i]) == k;
      }
    }
  }
}
