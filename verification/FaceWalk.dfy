/** The face walk of `setRefinement`: the connected components of kept faces across edges that go. */
module FaceWalk {
  import opened Reachability
  import opened Meshes

  /** Everything the walk reads. */
  datatype Walk = Walk(m: Mesh, removedFace: seq<bool>, nFacesPerEdge: seq<int>)
  {
    ghost predicate Valid() {
      FacesWellFormed(m) && EdgesWellFormed(m) && |removedFace| == m.NFaces() && |nFacesPerEdge| == |m.edges|
    }

    ghost predicate Kept(f: int)
      requires Valid()
    {
      0 <= f < m.NFaces() && !removedFace[f]
    }

    predicate Crossable(e: nat)
      requires e < |nFacesPerEdge|
    {
      0 <= nFacesPerEdge[e] <= 2
    }

    /** Kept faces `f` and `g` share an edge that the walk crosses. */
    ghost predicate Adjacent(f: int, g: int)
      requires Valid()
    {
      Kept(f) && Kept(g) && exists e :: e in m.faceEdges[f] && Crossable(e) && g in m.edgeFaces[e]
    }

    ghost function Step(): (int, int) -> bool
      requires Valid()
    {
      (f, g) => Adjacent(f, g)
    }

    /** A chain of kept faces across crossable edges leads from `f` to `g`. */
    ghost predicate Joined(f: int, g: int)
      requires Valid()
    {
      Reaches<int>(Step(), f, g)
    }
  }

  /** What the region numbers mean: -1 removed, -2 a component of its own, otherwise one number for
      each component of two or more faces, with no number unused. */
  ghost predicate FaceComponents(w: Walk, region: seq<int>, nRegions: nat)
    requires w.Valid()
  {
    && |region| == w.m.NFaces()
    && (forall f :: 0 <= f < |region| ==> -2 <= region[f] < nRegions)
    && (forall f :: 0 <= f < |region| ==> (region[f] == -1 <==> w.removedFace[f]))
    && (forall f, g {:trigger w.Joined(f, g)} :: 0 <= f < |region| && 0 <= g < |region| && region[f] >= 0 ==>
          (region[f] == region[g] <==> w.Joined(f, g)))
    && (forall f, g {:trigger w.Joined(f, g)} :: 0 <= f < |region| && region[f] == -2 && w.Joined(f, g) ==> f == g)
    && (forall r :: 0 <= r < nRegions ==> |FacesIn(region, r)| >= 2)
  }

  ghost function FacesIn(region: seq<int>, r: int): set<nat> {
    set f: nat | f < |region| && region[f] == r
  }

  // ---- the recursive walk -------------------------------------------------------------------------

  ghost predicate Extends(w: Walk, orig: seq<int>, cur: seq<int>, newRegion: int)
    requires w.Valid()
  {
    && |orig| == |cur| == w.m.NFaces()
    && forall f :: 0 <= f < |cur| ==>
         cur[f] == orig[f] || (orig[f] == -1 && cur[f] == newRegion && !w.removedFace[f] )
  }

  ghost predicate Rooted(w: Walk, orig: seq<int>, cur: seq<int>, root: int)
    requires w.Valid() && |orig| == |cur| == w.m.NFaces()
  {
    forall f {:trigger w.Joined(root, f)} :: 0 <= f < |cur| && orig[f] == -1 && cur[f] != -1 ==> w.Joined(root, f)
  }

  /** Every newly numbered face off the recursion stack has all its neighbours numbered. */
  ghost predicate Saturated(w: Walk, orig: seq<int>, cur: seq<int>, stack: set<nat>)
    requires w.Valid() && |orig| == |cur| == w.m.NFaces()
  {
    forall f, g {:trigger w.Adjacent(f, g)} ::
      0 <= f < |cur| && f !in stack && orig[f] == -1 && cur[f] != -1 && w.Adjacent(f, g) ==>
      cur[g] != -1
  }

  ghost function Unset(cur: seq<int>): set<nat> {
    set f: nat | f < |cur| && cur[f] == -1
  }

  ghost function Newly(orig: seq<int>, cur: seq<int>): set<nat>
    requires |orig| == |cur|
  {
    set f: nat | f < |cur| && orig[f] == -1 && cur[f] != -1
  }

  /** Every kept face on edge `e` is numbered. */
  ghost predicate EdgeDone(w: Walk, e: nat, cur: seq<int>)
    requires w.Valid() && |cur| == w.m.NFaces() && e < |w.m.edges|
  {
    forall g :: g in w.m.edgeFaces[e] && !w.removedFace[g] ==> cur[g] != -1
  }

  /** The first `upTo` edges of `face` that the walk crosses are done. */
  ghost predicate EdgesDone(w: Walk, face: nat, upTo: nat, cur: seq<int>)
    requires w.Valid() && |cur| == w.m.NFaces() && face < w.m.NFaces() && upTo <= |w.m.faceEdges[face]|
  {
    forall k :: 0 <= k < upTo ==>
      assert w.m.faceEdges[face][k] in w.m.faceEdges[face];
      w.Crossable(w.m.faceEdges[face][k]) ==> EdgeDone(w, w.m.faceEdges[face][k], cur)
  }

  lemma EdgesStayDone(w: Walk, face: nat, upTo: nat, cur: seq<int>, cur': seq<int>)
    requires w.Valid() && |cur| == |cur'| == w.m.NFaces() && face < w.m.NFaces() && upTo <= |w.m.faceEdges[face]|
    requires EdgesDone(w, face, upTo, cur) && Unset(cur') <= Unset(cur)
    ensures EdgesDone(w, face, upTo, cur')
  {
    forall k | 0 <= k < upTo
      && w.Crossable(assert w.m.faceEdges[face][k] in w.m.faceEdges[face]; w.m.faceEdges[face][k])
      ensures EdgeDone(w, w.m.faceEdges[face][k], cur')
    {
      var e := w.m.faceEdges[face][k];
      forall g | g in w.m.edgeFaces[e] && !w.removedFace[g] ensures cur'[g] != -1 {
        assert EdgeDone(w, e, cur) && g !in Unset(cur) && g !in Unset(cur');
      }
    }
  }

  /** The face whose edges are all done can leave the stack. */
  lemma PopSaturated(w: Walk, orig: seq<int>, cur: seq<int>, face: nat, stack: set<nat>)
    requires w.Valid() && |orig| == |cur| == w.m.NFaces() && face < w.m.NFaces()
    requires Saturated(w, orig, cur, stack + {face})
    requires EdgesDone(w, face, |w.m.faceEdges[face]|, cur)
    ensures Saturated(w, orig, cur, stack)
  {
  }

  ghost predicate WalkInvariant(w: Walk, orig: seq<int>, cur: seq<int>, newRegion: int, stack: set<nat>, root: int)
    requires w.Valid()
  {
    Extends(w, orig, cur, newRegion) && Rooted(w, orig, cur, root) && Saturated(w, orig, cur, stack)
  }

  method ChangeFaceRegion(w: Walk, face: nat, newRegion: int, faceRegion: array<int>,
                          ghost orig: seq<int>, ghost stack: set<nat>, ghost root: int)
    returns (nChanged: nat)
    requires w.Valid() && face < w.m.NFaces() == faceRegion.Length && newRegion >= 0
    requires WalkInvariant(w, orig, faceRegion[..], newRegion, stack, root)
    requires !w.removedFace[face] ==> w.Joined(root, face)
    modifies faceRegion
    ensures WalkInvariant(w, orig, faceRegion[..], newRegion, stack, root)
    ensures Unset(faceRegion[..]) <= Unset(old(faceRegion[..]))
    ensures nChanged == |Newly(orig, faceRegion[..])| - |Newly(orig, old(faceRegion[..]))|
    ensures !w.removedFace[face] ==> faceRegion[face] != -1
    decreases Unset(faceRegion[..]), 2
  {
    nChanged := 0;
    if faceRegion[face] == -1 && !w.removedFace[face] {
      ghost var before := faceRegion[..];
      faceRegion[face] := newRegion;
      nChanged := 1;
      assert Newly(orig, faceRegion[..]) == Newly(orig, before) + {face};
      assert face in Unset(before) && face !in Unset(faceRegion[..]);
      var fEdges := w.m.faceEdges[face];
      for i := 0 to |fEdges|
        invariant WalkInvariant(w, orig, faceRegion[..], newRegion, stack + {face}, root)
        invariant Unset(faceRegion[..]) <= Unset(before) - {face}
        invariant nChanged == |Newly(orig, faceRegion[..])| - |Newly(orig, before)|
        invariant EdgesDone(w, face, i, faceRegion[..])
      {
        assert fEdges[i] in w.m.faceEdges[face];
        if w.Crossable(fEdges[i]) {
          ghost var mid := faceRegion[..];
          var n := WalkEdge(w, face, fEdges[i], newRegion, faceRegion, orig, stack + {face}, root);
          nChanged := nChanged + n;
          EdgesStayDone(w, face, i, mid, faceRegion[..]);
        }
      }
      PopSaturated(w, orig, faceRegion[..], face, stack);
    }
  }

  /** Steps from `face` to every face across its edge `e`. */
  method WalkEdge(w: Walk, face: nat, e: nat, newRegion: int, faceRegion: array<int>,
                  ghost orig: seq<int>, ghost stack: set<nat>, ghost root: int)
    returns (nChanged: nat)
    requires w.Valid() && face < w.m.NFaces() == faceRegion.Length && newRegion >= 0
    requires w.Kept(face) && e in w.m.faceEdges[face] && w.Crossable(e) && w.Joined(root, face)
    requires WalkInvariant(w, orig, faceRegion[..], newRegion, stack, root)
    modifies faceRegion
    ensures WalkInvariant(w, orig, faceRegion[..], newRegion, stack, root)
    ensures Unset(faceRegion[..]) <= Unset(old(faceRegion[..]))
    ensures nChanged == |Newly(orig, faceRegion[..])| - |Newly(orig, old(faceRegion[..]))|
    ensures EdgeDone(w, e, faceRegion[..])
    decreases Unset(faceRegion[..]), 3
  {
    nChanged := 0;
    var eFaces := w.m.edgeFaces[e];
    ghost var before := faceRegion[..];
    assert forall k :: 0 <= k < |eFaces| ==> eFaces[k] in w.m.edgeFaces[e];
    for j := 0 to |eFaces|
      invariant WalkInvariant(w, orig, faceRegion[..], newRegion, stack, root)
      invariant Unset(faceRegion[..]) <= Unset(before)
      invariant nChanged == |Newly(orig, faceRegion[..])| - |Newly(orig, before)|
      invariant forall k :: 0 <= k < j ==> w.removedFace[eFaces[k]] || eFaces[k] !in Unset(faceRegion[..])
    {
      assert eFaces[j] in w.m.edgeFaces[e];
      if !w.removedFace[eFaces[j]] {
        assert w.Adjacent(face, eFaces[j]);
        ReachesStep<int>(w.Step(), face, eFaces[j]);
        ReachesTransitive<int>(w.Step(), root, face, eFaces[j]);
      }
      var n := ChangeFaceRegion(w, eFaces[j], newRegion, faceRegion, orig, stack, root);
      nChanged := nChanged + n;
    }
  }

  // ---- the loop over start faces ------------------------------------------------------------------

  /** The numbers handed out so far: whole components only, `nRegions` of them with two faces or more. */
  ghost predicate Numbered(w: Walk, region: seq<int>, nRegions: nat)
    requires w.Valid()
  {
    && |region| == w.m.NFaces()
    && (forall f :: 0 <= f < |region| ==> -2 <= region[f] < nRegions)
    && (forall f :: 0 <= f < |region| && w.removedFace[f] ==> region[f] == -1)
    && (forall f, g {:trigger w.Adjacent(f, g)} :: 0 <= f < |region| && region[f] != -1 && w.Adjacent(f, g) ==>
          region[g] == region[f] && (region[f] == -2 ==> f == g))
    && (forall f, g {:trigger w.Joined(f, g)} ::
          0 <= f < |region| && 0 <= g < |region| && region[f] == region[g] >= 0 ==>
          w.Joined(f, g))
    && (forall r :: 0 <= r < nRegions ==> |FacesIn(region, r)| >= 2)
  }

  lemma AdjacentSymmetric(w: Walk)
    requires w.Valid()
    ensures forall f, g :: w.Adjacent(f, g) ==> w.Adjacent(g, f)
    ensures Symmetric(w.Step())
  {
    forall f, g | w.Adjacent(f, g) ensures w.Adjacent(g, f) {
      var e :| e in w.m.faceEdges[f] && w.Crossable(e) && g in w.m.edgeFaces[e];
      assert e in w.m.faceEdges[g] && f in w.m.edgeFaces[e];
    }
  }

  /** One walk from an unnumbered face numbers exactly its component. */
  lemma WalkNumbersComponent(w: Walk, orig: seq<int>, cur: seq<int>, nRegions: nat, root: nat)
    requires w.Valid() && Numbered(w, orig, nRegions)
    requires WalkInvariant(w, orig, cur, nRegions, {}, root)
    requires w.Kept(root) && orig[root] == -1 && cur[root] == nRegions
    requires |Newly(orig, cur)| != 1
    ensures Numbered(w, cur, nRegions + 1)
  {
    AdjacentSymmetric(w);
    forall f, g {:trigger w.Joined(f, g)} | 0 <= f < |cur| && 0 <= g < |cur| && cur[f] == cur[g] >= 0
      ensures w.Joined(f, g)
    {
      if cur[f] == nRegions {
        assert w.Joined(root, f) && w.Joined(root, g);
        ReachesSymmetric<int>(w.Step(), root, f);
        ReachesTransitive<int>(w.Step(), f, root, g);
      }
    }
    forall r | 0 <= r < nRegions + 1 ensures |FacesIn(cur, r)| >= 2 {
      if r < nRegions {
        assert FacesIn(cur, r) == FacesIn(orig, r);
      } else {
        assert FacesIn(cur, r) == Newly(orig, cur);
        assert root in Newly(orig, cur);
      }
    }
  }

  /** A walk that numbered its start face only: the face is a component of its own. */
  lemma WalkFoundSingle(w: Walk, orig: seq<int>, cur: seq<int>, nRegions: nat, root: nat)
    requires w.Valid() && Numbered(w, orig, nRegions)
    requires WalkInvariant(w, orig, cur, nRegions, {}, root)
    requires w.Kept(root) && orig[root] == -1 && cur[root] == nRegions
    requires |Newly(orig, cur)| == 1
    ensures Numbered(w, cur[root := -2], nRegions)
  {
    OnlyMember(Newly(orig, cur), root);
    assert cur[root := -2] == orig[root := -2] by {
      forall f | 0 <= f < |cur| && f != root ensures cur[f] == orig[f] {
        assert f !in Newly(orig, cur);
      }
    }
    AdjacentSymmetric(w);
    forall g | w.Adjacent(root, g) ensures g == root {
      assert cur[g] != -1;
      assert w.Adjacent(g, root) && orig[g] == -1;
      assert g in Newly(orig, cur);
    }
    SingleNumbered(w, orig, nRegions, root);
  }

  /** One walk from an unnumbered face finds its component, so it returns one exactly if the face is alone in it. */
  lemma {:induction false} WalkFindsComponent(w: Walk, orig: seq<int>, cur: seq<int>, nRegions: nat, root: nat)
    requires w.Valid() && Numbered(w, orig, nRegions)
    requires WalkInvariant(w, orig, cur, nRegions, {}, root)
    requires w.Kept(root) && orig[root] == -1 && cur[root] == nRegions
    ensures forall f: nat :: f in Newly(orig, cur) <==> f < w.m.NFaces() && w.Joined(root, f)
    ensures |Newly(orig, cur)| == 1 <==> forall f: nat :: f < w.m.NFaces() && w.Joined(root, f) ==> f == root
  {
    AdjacentSymmetric(w);
    var found := iset f: int | 0 <= f < |cur| && orig[f] == -1 && cur[f] != -1;
    forall x, y | x in found && w.Step()(x, y) ensures y in found {
      assert w.Adjacent(x, y);
      assert w.Adjacent(y, x);
    }
    forall f: nat | f < w.m.NFaces() && w.Joined(root, f) ensures f in Newly(orig, cur) {
      ReachesStaysIn<int>(w.Step(), found, root, f);
    }
    forall f: nat | f in Newly(orig, cur) ensures f < w.m.NFaces() && w.Joined(root, f) {
    }
    if |Newly(orig, cur)| == 1 {
      OnlyMember(Newly(orig, cur), root);
    }
    if forall f: nat :: f < w.m.NFaces() && w.Joined(root, f) ==> f == root {
      assert Newly(orig, cur) == {root};
    }
  }

  lemma OnlyMember(s: set<nat>, x: nat)
    requires |s| == 1 && x in s
    ensures s == {x}
  {
    assert |s - {x}| == 0;
  }

  lemma SingleNumbered(w: Walk, orig: seq<int>, nRegions: nat, root: nat)
    requires w.Valid() && Numbered(w, orig, nRegions) && w.Kept(root) && orig[root] == -1
    requires forall g :: w.Adjacent(root, g) ==> g == root
    ensures Numbered(w, orig[root := -2], nRegions)
  {
    AdjacentSymmetric(w);
    var reset := orig[root := -2];
    forall r | 0 <= r < nRegions ensures |FacesIn(reset, r)| >= 2 {
      assert FacesIn(reset, r) == FacesIn(orig, r);
    }
  }

  method WalkFaces(w: Walk) returns (faceRegion: array<int>, nRegions: nat)
    requires w.Valid()
    ensures FaceComponents(w, faceRegion[..], nRegions)
  {
    faceRegion := new int[w.m.NFaces()](_ => -1);
    nRegions := 0;
    var startFace := 0;
    while true
      invariant 0 <= startFace <= w.m.NFaces() == faceRegion.Length
      invariant Numbered(w, faceRegion[..], nRegions)
      invariant forall f :: 0 <= f < startFace ==> w.removedFace[f] || faceRegion[f] != -1
      decreases Unset(faceRegion[..])
    {
      while startFace < w.m.NFaces() && (faceRegion[startFace] != -1 || w.removedFace[startFace])
        invariant 0 <= startFace <= w.m.NFaces()
        invariant forall f :: 0 <= f < startFace ==> w.removedFace[f] || faceRegion[f] != -1
      {
        startFace := startFace + 1;
      }
      if startFace == w.m.NFaces() {
        break;
      }
      ghost var orig := faceRegion[..];
      ReachesSelf<int>(w.Step(), startFace);
      var nRegion := ChangeFaceRegion(w, startFace, nRegions, faceRegion, orig, {}, startFace);
      ghost var cur := faceRegion[..];
      assert Newly(orig, orig) == {};
      assert startFace in Unset(orig) && startFace !in Unset(cur);
      if nRegion == 1 {
        WalkFoundSingle(w, orig, cur, nRegions, startFace);
        faceRegion[startFace] := -2;
        assert faceRegion[..] == cur[startFace := -2];
        assert Unset(faceRegion[..]) == Unset(cur);
      } else {
        WalkNumbersComponent(w, orig, cur, nRegions, startFace);
        nRegions := nRegions + 1;
      }
    }
    NumberedGivesComponents(w, faceRegion[..], nRegions);
  }

  lemma NumberedGivesComponents(w: Walk, region: seq<int>, nRegions: nat)
    requires w.Valid() && Numbered(w, region, nRegions)
    requires forall f :: 0 <= f < |region| ==> w.removedFace[f] || region[f] != -1
    ensures FaceComponents(w, region, nRegions)
  {
    forall f, g {:trigger w.Joined(f, g)} | 0 <= f < |region| && region[f] != -1 && w.Joined(f, g)
      ensures 0 <= g < |region| && region[f] == region[g] && (region[f] == -2 ==> f == g)
    {
      var same := iset h: int | 0 <= h < |region| && region[h] == region[f] && (region[f] == -2 ==> h == f);
      ReachesStaysIn<int>(w.Step(), same, f, g);
    }
  }
}
