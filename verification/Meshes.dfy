/** The polyhedral mesh the topology surgery works on: internal faces first, each with an owner
    and a higher-numbered neighbour cell, and derived incidence lists in both directions. */
module Meshes {

  datatype Mesh = Mesh(
    nCells: nat,
    nPoints: nat,
    faceOwner: seq<nat>,
    faceNeighbour: seq<nat>,
    faces: seq<seq<nat>>,
    cells: seq<seq<nat>>,
    cellCells: seq<seq<nat>>,
    edges: seq<(nat, nat)>,
    faceEdges: seq<seq<nat>>,
    edgeFaces: seq<seq<nat>>,
    pointEdges: seq<seq<nat>>,
    pointFaces: seq<seq<nat>>,
    whichPatch: seq<int>)
  {
    function NFaces(): nat { |faces| }

    predicate Internal(f: nat) { f < |faceNeighbour| }
  }

  predicate NoDuplicates<T(==)>(s: seq<T>) {
    forall i, j :: 0 <= i < j < |s| ==> s[i] != s[j]
  }

  ghost function FaceSet(faces: seq<nat>): set<nat> {
    set f | f in faces
  }

  /** The two cells of internal face `f` are `a` and `b`, in either order. */
  predicate Joins(m: Mesh, f: nat, a: int, b: int)
    requires f < |m.faceNeighbour| && f < |m.faceOwner|
  {
    (m.faceOwner[f] == a && m.faceNeighbour[f] == b) || (m.faceOwner[f] == b && m.faceNeighbour[f] == a)
  }

  /** Cell `c` is on one side of face `f`. */
  predicate OnFace(m: Mesh, f: nat, c: int)
    requires f < |m.faceOwner|
  {
    m.faceOwner[f] == c || (f < |m.faceNeighbour| && m.faceNeighbour[f] == c)
  }

  ghost predicate FacesWellFormed(m: Mesh) {
    && |m.faceOwner| == |m.faces|
    && |m.whichPatch| == |m.faces|
    && |m.faceNeighbour| <= |m.faces|
    && (forall f :: 0 <= f < |m.faceOwner| ==> m.faceOwner[f] < m.nCells)
    && (forall f :: 0 <= f < |m.faceNeighbour| ==> m.faceOwner[f] < m.faceNeighbour[f] < m.nCells)
  }

  ghost predicate CellsWellFormed(m: Mesh)
    requires FacesWellFormed(m)
  {
    && |m.cells| == m.nCells
    && |m.cellCells| == m.nCells
    && (forall c, f :: 0 <= c < m.nCells && f in m.cells[c] ==> f < m.NFaces())
    && (forall c, f :: 0 <= c < m.nCells && 0 <= f < m.NFaces() ==> (f in m.cells[c] <==> OnFace(m, f, c)))
    && (forall c, d :: 0 <= c < m.nCells && d in m.cellCells[c] ==> d < m.nCells)
    && (forall f :: 0 <= f < |m.faceNeighbour| ==>
          m.faceNeighbour[f] in m.cellCells[m.faceOwner[f]] && m.faceOwner[f] in m.cellCells[m.faceNeighbour[f]])
  }

  ghost predicate EdgesWellFormed(m: Mesh) {
    && |m.faceEdges| == m.NFaces()
    && |m.edgeFaces| == |m.edges|
    && (forall f, e :: 0 <= f < m.NFaces() && e in m.faceEdges[f] ==> e < |m.edges|)
    && (forall e, f :: 0 <= e < |m.edges| && f in m.edgeFaces[e] ==> f < m.NFaces())
    && (forall f, e :: 0 <= f < m.NFaces() && 0 <= e < |m.edges| ==> (e in m.faceEdges[f] <==> f in m.edgeFaces[e]))
    && (forall f :: 0 <= f < m.NFaces() ==> NoDuplicates(m.faceEdges[f]))
    && (forall e :: 0 <= e < |m.edges| ==> NoDuplicates(m.edgeFaces[e]))
  }

  ghost predicate PointsWellFormed(m: Mesh) {
    && |m.pointEdges| == m.nPoints
    && |m.pointFaces| == m.nPoints
    && (forall f, p :: 0 <= f < m.NFaces() && p in m.faces[f] ==> p < m.nPoints)
    && (forall p, f :: 0 <= p < m.nPoints && f in m.pointFaces[p] ==> f < m.NFaces())
    && (forall p, f :: 0 <= p < m.nPoints && 0 <= f < m.NFaces() ==> (f in m.pointFaces[p] <==> p in m.faces[f]))
    && (forall e :: 0 <= e < |m.edges| ==>
         m.edges[e].0 < m.nPoints && m.edges[e].1 < m.nPoints && m.edges[e].0 != m.edges[e].1)
    && (forall p, e :: 0 <= p < m.nPoints && e in m.pointEdges[p] ==> e < |m.edges|)
    && (forall p, e :: 0 <= p < m.nPoints && 0 <= e < |m.edges| ==>
          (e in m.pointEdges[p] <==> m.edges[e].0 == p || m.edges[e].1 == p))
    && (forall p :: 0 <= p < m.nPoints ==> NoDuplicates(m.pointEdges[p]))
  }

  ghost predicate WellFormed(m: Mesh) {
    FacesWellFormed(m) && CellsWellFormed(m) && EdgesWellFormed(m) && PointsWellFormed(m)
  }
}
