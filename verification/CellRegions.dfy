/** `compatibleRemoves`: the connected components of the cells along pierced faces, in any order. */
module CellRegions {
  import opened Reachability
  import opened Sequences
  import opened Meshes

  /** How `compatibleRemoves` can stop. Only the first two are ever returned. */
  datatype Verdict = Ok | NotInternalFace(face: nat) | NotLowestNumbered(cell: nat) | LoneCellRegion(region: nat)

  /** Cells `a` and `b` share one of the pierced faces `fs`. */
  ghost function CellLink(m: Mesh, fs: set<nat>): (int, int) -> bool
    requires FacesWellFormed(m)
  {
    (a, b) => exists f :: f in fs && m.Internal(f) && Joins(m, f, a, b)
  }

  /** Cells `a` and `b` are joined by a chain of pierced faces. */
  ghost predicate Linked(m: Mesh, fs: set<nat>, a: int, b: int)
    requires FacesWellFormed(m)
  {
    Reaches<int>(CellLink(m, fs), a, b)
  }

  ghost predicate Touched(m: Mesh, fs: set<nat>, c: int)
    requires FacesWellFormed(m)
  {
    exists f :: f in fs && m.Internal(f) && OnFace(m, f, c)
  }

  /** What a face set says about the final labels, with no reference to the algorithm. */
  ghost predicate ComponentLabels(m: Mesh, fs: set<nat>, region: seq<int>)
    requires FacesWellFormed(m)
  {
    && |region| == m.nCells
    && (forall c {:trigger Touched(m, fs, c)} :: 0 <= c < m.nCells ==> (region[c] != -1 <==> Touched(m, fs, c)))
    && (forall a, b :: 0 <= a < m.nCells && 0 <= b < m.nCells && region[a] != -1 ==>
          (region[a] == region[b] <==> Linked(m, fs, a, b)))
  }

  /** Each region number is dead (no master, no cell) or owned by its lowest cell. */
  ghost predicate LowestMasters(region: seq<int>, master: seq<int>) {
    && (forall c :: 0 <= c < |region| ==> -1 <= region[c] < |master|)
    && (forall r :: 0 <= r < |master| ==>
          master[r] == -1 || (0 <= master[r] < |region| && region[master[r]] == r))
    && (forall c :: 0 <= c < |region| && region[c] != -1 ==> 0 <= master[region[c]] <= c)
  }

  // ---- invariants of the face loop ------------------------------------------------------------

  ghost predicate Complete(m: Mesh, fs: set<nat>, region: seq<int>)
    requires FacesWellFormed(m)
  {
    && |region| == m.nCells
    && (forall f :: f in fs ==> m.Internal(f))
    && (forall f :: f in fs ==> region[m.faceOwner[f]] != -1 && region[m.faceOwner[f]] == region[m.faceNeighbour[f]])
    && (forall c {:trigger Touched(m, fs, c)} :: 0 <= c < m.nCells && region[c] != -1 ==> Touched(m, fs, c))
  }

  ghost predicate Sound(m: Mesh, fs: set<nat>, region: seq<int>)
    requires FacesWellFormed(m)
  {
    && |region| == m.nCells
    && forall a, b {:trigger Linked(m, fs, a, b)} ::
         0 <= a < m.nCells && 0 <= b < m.nCells && region[a] != -1 && region[a] == region[b] ==>
         Linked(m, fs, a, b)
  }

  ghost function Labelled(region: seq<int>): set<nat> {
    set c: nat | c < |region| && region[c] != -1
  }

  /** The labels and masters after the faces `fs`, with `n` region numbers handed out. */
  ghost predicate Regions(m: Mesh, fs: set<nat>, region: seq<int>, master: seq<int>, n: nat)
    requires FacesWellFormed(m)
  {
    && |master| == m.nCells
    && 2 * n <= |Labelled(region)| <= m.nCells
    && Complete(m, fs, region)
    && Sound(m, fs, region)
    && n <= |master|
    && LowestMasters(region, master[..n])
  }

  // ---- flood fill -----------------------------------------------------------------------------

  ghost predicate Renamed(orig: seq<int>, cur: seq<int>, oldRegion: int, newRegion: int) {
    && |orig| == |cur|
    && forall c :: 0 <= c < |cur| ==> cur[c] == orig[c] || (orig[c] == oldRegion && cur[c] == newRegion)
  }

  /** Every renamed cell off the recursion stack has no neighbour left to rename. */
  ghost predicate Saturated(m: Mesh, orig: seq<int>, cur: seq<int>, oldRegion: int, stack: set<nat>)
    requires |orig| == |cur| == m.nCells && FacesWellFormed(m) && CellsWellFormed(m)
  {
    forall c, d ::
      0 <= c < m.nCells && c !in stack && orig[c] == oldRegion && cur[c] != oldRegion && d in m.cellCells[c] ==>
      cur[d] != oldRegion
  }

  ghost function Unvisited(cur: seq<int>, oldRegion: int): set<nat> {
    set c: nat | c < |cur| && cur[c] == oldRegion
  }

  method ChangeCellRegion(m: Mesh, cell: nat, oldRegion: int, newRegion: int, cellRegion: array<int>,
                          ghost orig: seq<int>, ghost stack: set<nat>)
    requires FacesWellFormed(m) && CellsWellFormed(m)
    requires cell < m.nCells == cellRegion.Length && oldRegion != newRegion
    requires Renamed(orig, cellRegion[..], oldRegion, newRegion)
    requires Saturated(m, orig, cellRegion[..], oldRegion, stack)
    modifies cellRegion
    ensures Renamed(orig, cellRegion[..], oldRegion, newRegion)
    ensures Saturated(m, orig, cellRegion[..], oldRegion, stack)
    ensures Unvisited(cellRegion[..], oldRegion) <= Unvisited(old(cellRegion[..]), oldRegion)
    ensures cellRegion[cell] != oldRegion
    decreases Unvisited(cellRegion[..], oldRegion)
  {
    if cellRegion[cell] == oldRegion {
      ghost var before := cellRegion[..];
      cellRegion[cell] := newRegion;
      assert cell in Unvisited(before, oldRegion) && cell !in Unvisited(cellRegion[..], oldRegion);
      var cCells := m.cellCells[cell];
      assert forall k :: 0 <= k < |cCells| ==> cCells[k] in m.cellCells[cell];
      for i := 0 to |cCells|
        invariant Renamed(orig, cellRegion[..], oldRegion, newRegion)
        invariant Saturated(m, orig, cellRegion[..], oldRegion, stack + {cell})
        invariant Unvisited(cellRegion[..], oldRegion) <= Unvisited(before, oldRegion) - {cell}
        invariant forall k :: 0 <= k < i ==> cellRegion[cCells[k]] != oldRegion
      {
        assert cCells[i] in m.cellCells[cell];
        ghost var mid := cellRegion[..];
        ChangeCellRegion(m, cCells[i], oldRegion, newRegion, cellRegion, orig, stack + {cell});
        forall k | 0 <= k < i + 1 ensures cellRegion[cCells[k]] != oldRegion {
          if k < i {
            assert mid[cCells[k]] != oldRegion;
            assert cCells[k] !in Unvisited(cellRegion[..], oldRegion);
          }
        }
      }
      assert cell !in Unvisited(cellRegion[..], oldRegion);
    }
  }

  ghost function Flooded(orig: seq<int>, cur: seq<int>, oldRegion: int): iset<int>
    requires |orig| == |cur|
  {
    iset c: int | 0 <= c < |orig| && orig[c] == oldRegion && cur[c] != oldRegion
  }

  lemma FloodedClosed(m: Mesh, fs: set<nat>, orig: seq<int>, cur: seq<int>, oldRegion: int, a: int, b: int)
    requires FacesWellFormed(m) && CellsWellFormed(m)
    requires |orig| == |cur| == m.nCells
    requires Complete(m, fs, orig)
    requires Saturated(m, orig, cur, oldRegion, {})
    requires a in Flooded(orig, cur, oldRegion) && CellLink(m, fs)(a, b)
    ensures b in Flooded(orig, cur, oldRegion)
  {
    var f :| f in fs && m.Internal(f) && Joins(m, f, a, b);
    assert b in m.cellCells[a];
  }

  /** After a flood started inside a connected region, nothing of that region keeps the old number. */
  lemma FloodCovers(m: Mesh, fs: set<nat>, orig: seq<int>, cur: seq<int>, oldRegion: int, start: nat)
    requires FacesWellFormed(m) && CellsWellFormed(m)
    requires |orig| == |cur| == m.nCells
    requires Complete(m, fs, orig) && Sound(m, fs, orig)
    requires Saturated(m, orig, cur, oldRegion, {})
    requires start < m.nCells && orig[start] == oldRegion != -1 && cur[start] != oldRegion
    ensures forall c :: 0 <= c < m.nCells && orig[c] == oldRegion ==> cur[c] != oldRegion
  {
    var link, done := CellLink(m, fs), Flooded(orig, cur, oldRegion);
    forall a, b | a in done && link(a, b) ensures b in done {
      FloodedClosed(m, fs, orig, cur, oldRegion, a, b);
    }
    assert Closed(link, done);
    forall c | 0 <= c < m.nCells && orig[c] == oldRegion ensures cur[c] != oldRegion {
      assert orig[start] == orig[c];
      assert Linked(m, fs, start, c);
      ReachesStaysIn<int>(link, done, start, c);
    }
  }

  // ---- one pierced face -----------------------------------------------------------------------

  /** The label everything on either side of a face with labels `r0` and `r1` ends up with. */
  function JoinedLabel(r0: int, r1: int, nextRegion: int): int {
    if r0 == -1 then (if r1 == -1 then nextRegion else r1)
    else if r1 == -1 || r0 <= r1 then r0 else r1
  }

  predicate SameSide(old_: seq<int>, own: nat, nei: nat, c: nat)
    requires own < |old_| && nei < |old_| && c < |old_|
  {
    c == own || c == nei || (old_[c] != -1 && (old_[c] == old_[own] || old_[c] == old_[nei]))
  }

  /** `cur` is `old_` with the regions of `own` and `nei` made one region numbered `k`. */
  ghost predicate Joined(old_: seq<int>, cur: seq<int>, own: nat, nei: nat, k: int)
    requires own < |old_| && nei < |old_|
  {
    && |cur| == |old_|
    && forall c :: 0 <= c < |cur| ==> cur[c] == (if SameSide(old_, own, nei, c) then k else old_[c])
  }

  /** The masters after the join: the kept region takes the lowest of the two masters (or the owner). */
  function JoinedMaster(old_: seq<int>, master: seq<int>, own: nat, nei: nat, nextRegion: nat): (r: seq<int>)
    requires own < |old_| && nei < |old_|
    requires -1 <= old_[own] < |master| && -1 <= old_[nei] < |master| && nextRegion < |master|
    ensures |r| == |master|
  {
    var r0, r1 := old_[own], old_[nei];
    if r0 == -1 then
      if r1 == -1 then master[nextRegion := own] else master[r1 := Min(own, master[r1])]
    else if r1 == -1 || r0 == r1 then master
    else if r0 < r1 then master[r1 := -1][r0 := Min(master[r0], master[r1])]
    else master[r0 := -1][r1 := Min(master[r0], master[r1])]
  }

  function Min(a: int, b: int): int { if a < b then a else b }

  /** Giving one label to everything on either side of face `f` keeps labels connected. */
  lemma JoinKeepsSound(m: Mesh, fs: set<nat>, f: nat, old_: seq<int>, cur: seq<int>, k: int)
    requires FacesWellFormed(m) && m.Internal(f)
    requires Sound(m, fs, old_)
    requires Joined(old_, cur, m.faceOwner[f], m.faceNeighbour[f], k) && k != -1
    requires forall c :: 0 <= c < m.nCells && old_[c] == k ==> SameSide(old_, m.faceOwner[f], m.faceNeighbour[f], c)
    ensures Sound(m, fs + {f}, cur)
  {
    var own, nei := m.faceOwner[f], m.faceNeighbour[f];
    var link, link' := CellLink(m, fs), CellLink(m, fs + {f});
    forall x, y | link(x, y) ensures link'(x, y) {
      var g :| g in fs && m.Internal(g) && Joins(m, g, x, y);
      assert g in fs + {f};
    }
    forall c | 0 <= c < m.nCells && cur[c] == k ensures Reaches<int>(link', own, c) && Reaches<int>(link', c, own) {
      JoinReachesOwner(m, fs, f, old_, c);
    }
    forall a, b | 0 <= a < m.nCells && 0 <= b < m.nCells && cur[a] != -1 && cur[a] == cur[b]
      ensures Reaches<int>(link', a, b)
    {
      if cur[a] == k {
        ReachesTransitive<int>(link', a, own, b);
      } else {
        SoundGives(m, fs, old_, a, b);
        ReachesMonotone<int>(link, link', a, b);
      }
    }
  }

  lemma SoundGives(m: Mesh, fs: set<nat>, region: seq<int>, a: int, b: int)
    requires FacesWellFormed(m) && Sound(m, fs, region)
    requires 0 <= a < m.nCells && 0 <= b < m.nCells && region[a] != -1 && region[a] == region[b]
    ensures Linked(m, fs, a, b)
  {
    assert region[a] == region[b];
  }

  lemma JoinReachesOwner(m: Mesh, fs: set<nat>, f: nat, old_: seq<int>, c: nat)
    requires FacesWellFormed(m) && m.Internal(f)
    requires Sound(m, fs, old_) && c < m.nCells
    requires SameSide(old_, m.faceOwner[f], m.faceNeighbour[f], c)
    requires forall x, y :: CellLink(m, fs)(x, y) ==> CellLink(m, fs + {f})(x, y)
    ensures Linked(m, fs + {f}, m.faceOwner[f], c) && Linked(m, fs + {f}, c, m.faceOwner[f])
  {
    var own, nei := m.faceOwner[f], m.faceNeighbour[f];
    var link, link' := CellLink(m, fs), CellLink(m, fs + {f});
    assert Joins(m, f, own, nei) && f in fs + {f};
    ReachesSelf<int>(link', own);
    ReachesStep<int>(link', own, nei);
    ReachesStep<int>(link', nei, own);
    if c != own && c != nei {
      if old_[c] == old_[own] {
        SoundGives(m, fs, old_, own, c);
        SoundGives(m, fs, old_, c, own);
        ReachesMonotone<int>(link, link', own, c);
        ReachesMonotone<int>(link, link', c, own);
      } else {
        SoundGives(m, fs, old_, nei, c);
        SoundGives(m, fs, old_, c, nei);
        ReachesMonotone<int>(link, link', nei, c);
        ReachesMonotone<int>(link, link', c, nei);
        ReachesTransitive<int>(link', own, nei, c);
        ReachesTransitive<int>(link', c, nei, own);
      }
    }
  }

  lemma JoinKeepsComplete(m: Mesh, fs: set<nat>, f: nat, old_: seq<int>, cur: seq<int>, k: int)
    requires FacesWellFormed(m) && m.Internal(f)
    requires Complete(m, fs, old_)
    requires Joined(old_, cur, m.faceOwner[f], m.faceNeighbour[f], k) && k != -1
    ensures Complete(m, fs + {f}, cur)
  {
    forall c | 0 <= c < m.nCells && cur[c] != -1 ensures Touched(m, fs + {f}, c) {
      if old_[c] != -1 {
        assert Touched(m, fs, c);
        var g :| g in fs && m.Internal(g) && OnFace(m, g, c);
        assert g in fs + {f};
      } else {
        assert f in fs + {f} && OnFace(m, f, c);
      }
    }
  }

  lemma SubsetOfRange(s: set<nat>, n: nat)
    requires forall x :: x in s ==> x < n
    ensures |s| <= n
  {
    if n == 0 {
      assert s == {};
    } else {
      SubsetOfRange(s - {n - 1}, n - 1);
    }
  }

  lemma JoinKeepsMasters(old_: seq<int>, cur: seq<int>, master: seq<int>, own: nat, nei: nat, n: nat)
    requires own < nei < |old_| && n < |master|
    requires LowestMasters(old_, master[..n])
    requires Joined(old_, cur, own, nei, JoinedLabel(old_[own], old_[nei], n))
    ensures LowestMasters(cur,
                          JoinedMaster(old_, master, own, nei, n)[..if old_[own] == -1 == old_[nei] then n + 1 else n])
  {
    var r0, r1 := old_[own], old_[nei];
    var n' := if r0 == -1 == r1 then n + 1 else n;
    var master' := JoinedMaster(old_, master, own, nei, n)[..n'];
    forall c | 0 <= c < |cur|
      ensures -1 <= cur[c] < n' && (cur[c] != -1 ==> 0 <= master'[cur[c]] <= c)
    {
      assert -1 <= old_[c] < n;
      assert old_[c] != -1 ==> 0 <= master[..n][old_[c]] <= c;
    }
    forall r | 0 <= r < |master'|
      ensures master'[r] == -1 || (0 <= master'[r] < |cur| && cur[master'[r]] == r)
    {
      if r < n {
        assert master[..n][r] == -1 || old_[master[..n][r]] == r;
      }
    }
  }

  lemma JoinGrowsLabelled(old_: seq<int>, cur: seq<int>, own: nat, nei: nat, k: int)
    requires own < nei < |old_|
    requires Joined(old_, cur, own, nei, k) && k != -1
    ensures Labelled(old_) <= Labelled(cur) && |Labelled(old_)| <= |Labelled(cur)| <= |cur|
    ensures old_[own] == -1 == old_[nei] ==> |Labelled(cur)| >= |Labelled(old_)| + 2
  {
    SubsetOfRange(Labelled(cur), |cur|);
    var grown := Labelled(cur) - Labelled(old_);
    assert Labelled(cur) == Labelled(old_) + grown;
    if old_[own] == -1 == old_[nei] {
      assert {own, nei} + (grown - {own, nei}) == grown;
      assert |grown| == |{own, nei}| + |grown - {own, nei}|;
    }
  }

  function NextRegion(old_: seq<int>, own: nat, nei: nat, n: nat): nat
    requires own < |old_| && nei < |old_|
  {
    if old_[own] == -1 == old_[nei] then n + 1 else n
  }

  /** A region is only opened by two untouched cells, so there is a slot left for its master. */
  lemma RoomForRegion(old_: seq<int>, own: nat, nei: nat, n: nat)
    requires own < nei < |old_| && 2 * n <= |Labelled(old_)|
    ensures NextRegion(old_, own, nei, n) <= |old_|
    ensures old_[own] == -1 == old_[nei] ==> n < |old_|
  {
    SubsetOfRange(Labelled(old_), |old_|);
    if old_[own] == -1 == old_[nei] {
      var s := Labelled(old_);
      SubsetOfRange(s + {own, nei}, |old_|);
      assert |s + {own, nei}| == |s| + |{own, nei}|;
    }
  }

  lemma JoinKeepsRegions(m: Mesh, fs: set<nat>, f: nat, old_: seq<int>, cur: seq<int>, master: seq<int>, n: nat)
    requires FacesWellFormed(m) && m.Internal(f)
    requires Regions(m, fs, old_, master, n) && n < m.nCells
    requires var own, nei := m.faceOwner[f], m.faceNeighbour[f];
             Joined(old_, cur, own, nei, JoinedLabel(old_[own], old_[nei], n))
    ensures var own, nei := m.faceOwner[f], m.faceNeighbour[f];
            Regions(m, fs + {f}, cur, JoinedMaster(old_, master, own, nei, n), NextRegion(old_, own, nei, n))
  {
    var own, nei := m.faceOwner[f], m.faceNeighbour[f];
    var k := JoinedLabel(old_[own], old_[nei], n);
    forall c | 0 <= c < m.nCells && old_[c] == k ensures SameSide(old_, own, nei, c) {
      assert old_[c] < |master[..n]|;
    }
    JoinKeepsSound(m, fs, f, old_, cur, k);
    JoinKeepsComplete(m, fs, f, old_, cur, k);
    JoinKeepsMasters(old_, cur, master, own, nei, n);
    JoinGrowsLabelled(old_, cur, own, nei, k);
  }

  lemma FloodJoins(m: Mesh, fs: set<nat>, old_: seq<int>, cur: seq<int>, own: nat, nei: nat, oldRegion: int,
                   newRegion: int, start: nat)
    requires FacesWellFormed(m) && CellsWellFormed(m)
    requires Complete(m, fs, old_) && Sound(m, fs, old_)
    requires own < m.nCells && nei < m.nCells && start < m.nCells && oldRegion != -1 && newRegion != -1
    requires {old_[own], old_[nei]} == {oldRegion, newRegion} && old_[start] == oldRegion != newRegion
    requires Renamed(old_, cur, oldRegion, newRegion) && Saturated(m, old_, cur, oldRegion, {})
    requires cur[start] != oldRegion
    ensures Joined(old_, cur, own, nei, newRegion)
  {
    FloodCovers(m, fs, old_, cur, oldRegion, start);
    assert old_[own] in {oldRegion, newRegion} && old_[nei] in {oldRegion, newRegion};
    assert oldRegion in {old_[own], old_[nei]} && newRegion in {old_[own], old_[nei]};
  }

  /** The labels when at most one side had a region before. */
  function JoinedPlainly(old_: seq<int>, own: nat, nei: nat, n: nat): seq<int>
    requires own < |old_| && nei < |old_|
  {
    if old_[own] == -1 then
      if old_[nei] == -1 then old_[own := n][nei := n] else old_[own := old_[nei]]
    else if old_[nei] == -1 then old_[nei := old_[own]]
    else old_
  }

  lemma PlainJoins(old_: seq<int>, own: nat, nei: nat, n: nat)
    requires own < |old_| && nei < |old_|
    requires old_[own] == -1 || old_[nei] == -1 || old_[own] == old_[nei]
    ensures Joined(old_, JoinedPlainly(old_, own, nei, n), own, nei, JoinedLabel(old_[own], old_[nei], n))
  {
  }

  /** Both cells of a pierced face carry different regions: keep the lower number, free the other. */
  method MergeRegions(m: Mesh, own: nat, nei: nat, cellRegion: array<int>, ghost fs: set<nat>)
    returns (keptRegion: int, freedRegion: int)
    requires FacesWellFormed(m) && CellsWellFormed(m) && cellRegion.Length == m.nCells
    requires own < m.nCells && nei < m.nCells && cellRegion[own] != cellRegion[nei]
    requires cellRegion[own] != -1 && cellRegion[nei] != -1
    requires Complete(m, fs, cellRegion[..]) && Sound(m, fs, cellRegion[..])
    modifies cellRegion
    ensures Joined(old(cellRegion[..]), cellRegion[..], own, nei, keptRegion)
    ensures keptRegion == Min(old(cellRegion[own]), old(cellRegion[nei]))
    ensures freedRegion == old(cellRegion[own]) + old(cellRegion[nei]) - keptRegion
  {
    ghost var was := cellRegion[..];
    var region0, region1 := cellRegion[own], cellRegion[nei];
    if region0 < region1 {
      ChangeCellRegion(m, nei, region1, region0, cellRegion, was, {});
      FloodJoins(m, fs, was, cellRegion[..], own, nei, region1, region0, nei);
      keptRegion, freedRegion := region0, region1;
    } else {
      ChangeCellRegion(m, own, region0, region1, cellRegion, was, {});
      FloodJoins(m, fs, was, cellRegion[..], own, nei, region0, region1, own);
      keptRegion, freedRegion := region1, region0;
    }
  }

  method Relabel(m: Mesh, own: nat, nei: nat, cellRegion: array<int>, regionMaster: array<int>, nRegions: nat,
                 ghost fs: set<nat>)
    returns (nRegions': nat)
    requires FacesWellFormed(m) && CellsWellFormed(m) && cellRegion.Length == m.nCells
    requires own < nei < m.nCells && cellRegion != regionMaster
    requires Complete(m, fs, cellRegion[..]) && Sound(m, fs, cellRegion[..])
    requires nRegions < regionMaster.Length
    requires -1 <= cellRegion[own] < nRegions && -1 <= cellRegion[nei] < nRegions
    modifies cellRegion, regionMaster
    ensures Joined(old(cellRegion[..]), cellRegion[..], own, nei,
                   JoinedLabel(old(cellRegion[own]), old(cellRegion[nei]), nRegions))
    ensures regionMaster[..] == JoinedMaster(old(cellRegion[..]), old(regionMaster[..]), own, nei, nRegions)
    ensures nRegions' == NextRegion(old(cellRegion[..]), own, nei, nRegions)
  {
    var region0, region1 := cellRegion[own], cellRegion[nei];
    ghost var was, masterWas := cellRegion[..], regionMaster[..];
    nRegions' := nRegions;
    if region0 == -1 || region1 == -1 || region0 == region1 {
      PlainJoins(was, own, nei, nRegions);
    }
    if region0 == -1 {
      if region1 == -1 {
        cellRegion[own] := nRegions;
        cellRegion[nei] := nRegions;
        regionMaster[nRegions] := own;
        nRegions' := nRegions + 1;
      } else {
        cellRegion[own] := region1;
        regionMaster[region1] := Min(own, regionMaster[region1]);
      }
    } else if region1 == -1 {
      cellRegion[nei] := region0;
    } else if region0 != region1 {
      var keptRegion, freedRegion := MergeRegions(m, own, nei, cellRegion, fs);
      var master0, master1 := regionMaster[region0], regionMaster[region1];
      regionMaster[freedRegion] := -1;
      regionMaster[keptRegion] := Min(master0, master1);
      assert regionMaster[..] == masterWas[freedRegion := -1][keptRegion := Min(master0, master1)];
      return;
    }
    assert cellRegion[..] == JoinedPlainly(was, own, nei, nRegions);
  }

  /** Processing face `f` turns the regions of `fs` into the regions of `fs + {f}`. */
  method JoinFace(m: Mesh, f: nat, cellRegion: array<int>, regionMaster: array<int>, nRegions: nat, ghost fs: set<nat>)
    returns (nRegions': nat)
    requires FacesWellFormed(m) && CellsWellFormed(m) && m.Internal(f)
    requires cellRegion != regionMaster
    requires Regions(m, fs, cellRegion[..], regionMaster[..], nRegions)
    modifies cellRegion, regionMaster
    ensures Regions(m, fs + {f}, cellRegion[..], regionMaster[..], nRegions')
  {
    var own, nei := m.faceOwner[f], m.faceNeighbour[f];
    ghost var was, masterWas := cellRegion[..], regionMaster[..];
    RoomForRegion(was, own, nei, nRegions);
    nRegions' := Relabel(m, own, nei, cellRegion, regionMaster, nRegions, fs);
    JoinKeepsRegions(m, fs, f, was, cellRegion[..], masterWas, nRegions);
  }

  // ---- the whole call -------------------------------------------------------------------------

  ghost function CellsOf(region: seq<int>, upTo: nat, r: int): set<nat>
    requires upTo <= |region|
  {
    set c: nat | c < upTo && region[c] == r
  }

  /** A region is opened by two distinct cells, so none ever holds a single one. */
  lemma RegionNotAlone(m: Mesh, fs: set<nat>, region: seq<int>, r: int)
    requires FacesWellFormed(m) && Complete(m, fs, region) && r != -1
    ensures |CellsOf(region, |region|, r)| != 1
  {
    var cs := CellsOf(region, |region|, r);
    if cs != {} {
      var c :| c in cs;
      assert Touched(m, fs, c);
      var f :| f in fs && m.Internal(f) && OnFace(m, f, c);
      assert {m.faceOwner[f], m.faceNeighbour[f]} <= cs;
      assert cs == {m.faceOwner[f], m.faceNeighbour[f]} + (cs - {m.faceOwner[f], m.faceNeighbour[f]});
      assert |cs| == |{m.faceOwner[f], m.faceNeighbour[f]}| + |cs - {m.faceOwner[f], m.faceNeighbour[f]}|;
    }
  }

  lemma CellsOfStep(region: seq<int>, cell: nat)
    requires cell < |region|
    ensures forall r {:trigger CellsOf(region, cell + 1, r)} ::
              |CellsOf(region, cell + 1, r)| == |CellsOf(region, cell, r)| + (if region[cell] == r then 1 else 0)
  {
    forall r
      ensures |CellsOf(region, cell + 1, r)| == |CellsOf(region, cell, r)| + (if region[cell] == r then 1 else 0)
    {
      assert CellsOf(region, cell + 1, r) == CellsOf(region, cell, r) + (if region[cell] == r then {cell} else {});
    }
  }

  /** The two consistency checks after the face loop, on any labels: each region's master is its
      lowest cell, and no region holds exactly one cell. */
  method CheckRegions(cellRegion: seq<int>, regionMaster: seq<int>) returns (v: Verdict)
    requires forall c :: 0 <= c < |cellRegion| ==> -1 <= cellRegion[c] < |regionMaster|
    ensures v.Ok? || v.NotLowestNumbered? || v.LoneCellRegion?
    ensures v.Ok? ==> forall c :: 0 <= c < |cellRegion| && cellRegion[c] != -1 ==> regionMaster[cellRegion[c]] <= c
    ensures v.Ok? ==> forall r :: 0 <= r < |regionMaster| ==> |CellsOf(cellRegion, |cellRegion|, r)| != 1
    ensures v.NotLowestNumbered? ==>
              v.cell < |cellRegion| && cellRegion[v.cell] != -1 && v.cell < regionMaster[cellRegion[v.cell]]
    ensures v.LoneCellRegion? ==>
              v.region < |regionMaster| && |CellsOf(cellRegion, |cellRegion|, v.region)| == 1
  {
    var nCells := new nat[|regionMaster|](_ => 0);
    for cell := 0 to |cellRegion|
      invariant forall r :: 0 <= r < |regionMaster| ==> nCells[r] == |CellsOf(cellRegion, cell, r)|
      invariant forall c :: 0 <= c < cell && cellRegion[c] != -1 ==> regionMaster[cellRegion[c]] <= c
    {
      CellsOfStep(cellRegion, cell);
      var r := cellRegion[cell];
      if r != -1 {
        nCells[r] := nCells[r] + 1;
        if cell < regionMaster[r] {
          return NotLowestNumbered(cell);
        }
      }
    }
    ghost var counts := nCells[..];
    for region := 0 to nCells.Length
      invariant nCells[..] == counts
      invariant forall r :: 0 <= r < region ==> |CellsOf(cellRegion, |cellRegion|, r)| != 1
    {
      if nCells[region] == 1 {
        return LoneCellRegion(region);
      }
    }
    v := Ok;
  }

  lemma RegionsPassChecks(m: Mesh, fs: set<nat>, region: seq<int>)
    requires FacesWellFormed(m) && Complete(m, fs, region)
    ensures forall r :: r != -1 ==> |CellsOf(region, |region|, r)| != 1
  {
    forall r | r != -1 ensures |CellsOf(region, |region|, r)| != 1 {
      RegionNotAlone(m, fs, region, r);
    }
  }

  /** The internal faces with both cells in one region, in increasing order. */
  ghost predicate InnerFaces(m: Mesh, region: seq<int>, upTo: nat, faces: seq<nat>)
    requires FacesWellFormed(m) && |region| == m.nCells
  {
    && (forall i :: 0 <= i < |faces| ==> faces[i] < upTo)
    && (forall i, j :: 0 <= i < j < |faces| ==> faces[i] < faces[j])
    && (forall f :: f in faces ==> m.Internal(f))
    && (forall f :: 0 <= f < upTo && m.Internal(f) ==>
          (f in faces <==> region[m.faceOwner[f]] != -1 && region[m.faceOwner[f]] == region[m.faceNeighbour[f]]))
  }

  method RecountFaces(m: Mesh, cellRegion: seq<int>) returns (allFacesToRemove: seq<nat>)
    requires FacesWellFormed(m) && |cellRegion| == m.nCells
    ensures InnerFaces(m, cellRegion, m.NFaces(), allFacesToRemove)
  {
    allFacesToRemove := [];
    for f := 0 to |m.faceNeighbour|
      invariant InnerFaces(m, cellRegion, f, allFacesToRemove)
    {
      var own, nei := m.faceOwner[f], m.faceNeighbour[f];
      if cellRegion[own] != -1 && cellRegion[own] == cellRegion[nei] {
        allFacesToRemove := allFacesToRemove + [f];
      }
    }
  }

  ghost function LiveRegions(master: seq<int>, upTo: nat): set<nat>
    requires upTo <= |master|
  {
    set r: nat | r < upTo && master[r] != -1
  }

  method CountUsedRegions(regionMaster: seq<int>) returns (nUsed: nat)
    ensures nUsed == |LiveRegions(regionMaster, |regionMaster|)|
  {
    nUsed := 0;
    for i := 0 to |regionMaster|
      invariant nUsed == |LiveRegions(regionMaster, i)|
    {
      assert LiveRegions(regionMaster, i + 1) ==
        LiveRegions(regionMaster, i) + (if regionMaster[i] != -1 then {i} else {});
      if regionMaster[i] != -1 {
        nUsed := nUsed + 1;
      }
    }
  }

  /** The faces between cells that merge: the closure that piercing `fs` stands for. */
  ghost function Pierced(m: Mesh, fs: set<nat>): set<nat>
    requires FacesWellFormed(m)
  {
    set f: nat | f < |m.faceNeighbour| && Touched(m, fs, m.faceOwner[f])
      && Linked(m, fs, m.faceOwner[f], m.faceNeighbour[f])
  }

  lemma LinkSymmetric(m: Mesh, fs: set<nat>)
    requires FacesWellFormed(m)
    ensures Symmetric(CellLink(m, fs))
  {
    forall a, b | CellLink(m, fs)(a, b) ensures CellLink(m, fs)(b, a) {
      var f :| f in fs && m.Internal(f) && Joins(m, f, a, b);
      assert Joins(m, f, b, a);
    }
  }

  /** Labels that agree across the pierced faces are constant along chains of them. */
  lemma LabelsAlongChain(m: Mesh, fs: set<nat>, region: seq<int>, a: int, b: int)
    requires FacesWellFormed(m) && Complete(m, fs, region)
    requires 0 <= a < m.nCells && 0 <= b < m.nCells && region[a] != -1 && Linked(m, fs, a, b)
    ensures region[a] == region[b]
  {
    var same := iset c: int | 0 <= c < m.nCells && region[c] == region[a];
    forall x, y | x in same && CellLink(m, fs)(x, y) ensures y in same {
      var f :| f in fs && m.Internal(f) && Joins(m, f, x, y);
    }
    ReachesStaysIn<int>(CellLink(m, fs), same, a, b);
  }

  /** The loop invariants say exactly that the labels are the connected components. */
  lemma InvariantsGiveComponents(m: Mesh, fs: set<nat>, region: seq<int>)
    requires FacesWellFormed(m) && Complete(m, fs, region) && Sound(m, fs, region)
    ensures ComponentLabels(m, fs, region)
  {
    forall c {:trigger Touched(m, fs, c)} | 0 <= c < m.nCells ensures region[c] != -1 <==> Touched(m, fs, c) {
      if Touched(m, fs, c) {
        var f :| f in fs && m.Internal(f) && OnFace(m, f, c);
      }
    }
    forall a, b | 0 <= a < m.nCells && 0 <= b < m.nCells && region[a] != -1
      ensures region[a] == region[b] <==> Linked(m, fs, a, b)
    {
      if region[a] == region[b] {
        SoundGives(m, fs, region, a, b);
      } else if Linked(m, fs, a, b) {
        LabelsAlongChain(m, fs, region, a, b);
      }
    }
  }

  /** The face loop: stops at the first boundary face, else ends with the regions of all faces. */
  method JoinFaces(m: Mesh, facesToRemove: seq<nat>)
    returns (v: Verdict, nRegions: nat, cellRegion: array<int>, regionMaster: array<int>)
    requires FacesWellFormed(m) && CellsWellFormed(m)
    ensures v.Ok? || v.NotInternalFace?
    ensures v.Ok? ==> Regions(m, FaceSet(facesToRemove), cellRegion[..], regionMaster[..], nRegions)
    ensures v.NotInternalFace? ==> v.face in facesToRemove && !m.Internal(v.face)
  {
    cellRegion := new int[m.nCells](_ => -1);
    regionMaster := new int[m.nCells](_ => -1);
    nRegions := 0;
    assert Labelled(cellRegion[..]) == {};
    for i := 0 to |facesToRemove|
      invariant Regions(m, FaceSet(facesToRemove[..i]), cellRegion[..], regionMaster[..], nRegions)
    {
      var f := facesToRemove[i];
      if !m.Internal(f) {
        return NotInternalFace(f), nRegions, cellRegion, regionMaster;
      }
      nRegions := JoinFace(m, f, cellRegion, regionMaster, nRegions, FaceSet(facesToRemove[..i]));
      assert facesToRemove[..i + 1] == facesToRemove[..i] + [f];
      assert FaceSet(facesToRemove[..i + 1]) == FaceSet(facesToRemove[..i]) + {f};
    }
    assert facesToRemove[..|facesToRemove|] == facesToRemove;
    v := Ok;
  }

  method CompatibleRemoves(m: Mesh, facesToRemove: seq<nat>)
    returns (v: Verdict, nUsedRegions: nat, cellRegion: seq<int>, regionMaster: seq<int>, newFacesToRemove: seq<nat>)
    requires WellFormed(m)
    ensures v.Ok? || v.NotInternalFace?
    ensures v.Ok? <==> forall f :: f in facesToRemove ==> m.Internal(f)
    ensures v.NotInternalFace? ==> v.face in facesToRemove && !m.Internal(v.face)
    ensures v.Ok? ==>
              && ComponentLabels(m, FaceSet(facesToRemove), cellRegion)
              && LowestMasters(cellRegion, regionMaster)
              && InnerFaces(m, cellRegion, m.NFaces(), newFacesToRemove)
              && nUsedRegions == |LiveRegions(regionMaster, |regionMaster|)|
  {
    var nRegions, region, master;
    v, nRegions, region, master := JoinFaces(m, facesToRemove);
    if !v.Ok? {
      return v, 0, [], [], [];
    }
    cellRegion, regionMaster := region[..], master[..nRegions];
    RegionsPassChecks(m, FaceSet(facesToRemove), cellRegion);
    v := CheckRegions(cellRegion, regionMaster);
    assert v.Ok?;
    nUsedRegions := CountUsedRegions(regionMaster);
    newFacesToRemove := RecountFaces(m, cellRegion);
    InvariantsGiveComponents(m, FaceSet(facesToRemove), cellRegion);
  }

  // ---- what the output means ------------------------------------------------------------------

  /** The faces returned are exactly the faces inside components: a function of the SET of input
      faces, so neither their order nor repetitions matter. */
  lemma OutputIsPierced(m: Mesh, fs: set<nat>, region: seq<int>, faces: seq<nat>)
    requires FacesWellFormed(m) && ComponentLabels(m, fs, region) && InnerFaces(m, region, m.NFaces(), faces)
    ensures FaceSet(faces) == Pierced(m, fs)
  {
    forall f: nat | f < |m.faceNeighbour| ensures f in FaceSet(faces) <==> f in Pierced(m, fs) {
      assert region[m.faceOwner[f]] != -1 <==> Touched(m, fs, m.faceOwner[f]);
    }
  }

  lemma PiercedExtensive(m: Mesh, fs: set<nat>)
    requires FacesWellFormed(m) && forall f :: f in fs ==> m.Internal(f)
    ensures fs <= Pierced(m, fs)
  {
    forall f | f in fs ensures f in Pierced(m, fs) {
      assert OnFace(m, f, m.faceOwner[f]) && Joins(m, f, m.faceOwner[f], m.faceNeighbour[f]);
      ReachesStep<int>(CellLink(m, fs), m.faceOwner[f], m.faceNeighbour[f]);
    }
  }

  /** Piercing the closure again joins no further cells. */
  lemma PiercedLinksNothingNew(m: Mesh, fs: set<nat>, a: int, b: int)
    requires FacesWellFormed(m)
    requires Linked(m, Pierced(m, fs), a, b)
    ensures Linked(m, fs, a, b)
  {
    var link := CellLink(m, fs);
    var reached := iset c: int | Linked(m, fs, a, c);
    forall x, y | x in reached && CellLink(m, Pierced(m, fs))(x, y) ensures y in reached {
      var f :| f in Pierced(m, fs) && m.Internal(f) && Joins(m, f, x, y);
      LinkSymmetric(m, fs);
      ReachesSymmetric<int>(link, m.faceOwner[f], m.faceNeighbour[f]);
      ReachesTransitive<int>(link, a, x, y);
    }
    ReachesSelf<int>(link, a);
    ReachesStaysIn<int>(CellLink(m, Pierced(m, fs)), reached, a, b);
  }

  lemma PiercedIdempotent(m: Mesh, fs: set<nat>)
    requires FacesWellFormed(m) && forall f :: f in fs ==> m.Internal(f)
    ensures Pierced(m, Pierced(m, fs)) == Pierced(m, fs)
  {
    PiercedExtensive(m, Pierced(m, fs));
    forall f | f in Pierced(m, Pierced(m, fs)) ensures f in Pierced(m, fs) {
      PiercedTwice(m, fs, f);
    }
  }

  lemma PiercedTwice(m: Mesh, fs: set<nat>, f: nat)
    requires FacesWellFormed(m) && f in Pierced(m, Pierced(m, fs))
    ensures f in Pierced(m, fs)
  {
    var own := m.faceOwner[f];
    PiercedLinksNothingNew(m, fs, own, m.faceNeighbour[f]);
    var g :| g in Pierced(m, fs) && m.Internal(g) && OnFace(m, g, own);
    PiercedTouches(m, fs, g, own);
  }

  lemma PiercedTouches(m: Mesh, fs: set<nat>, g: nat, c: nat)
    requires FacesWellFormed(m) && g in Pierced(m, fs) && OnFace(m, g, c)
    ensures Touched(m, fs, c)
  {
    var own, nei := m.faceOwner[g], m.faceNeighbour[g];
    if c != own {
      var touched := iset d: int | Touched(m, fs, d);
      forall x, y | x in touched && CellLink(m, fs)(x, y) ensures y in touched {
        var f :| f in fs && m.Internal(f) && Joins(m, f, x, y);
        assert OnFace(m, f, y);
      }
      ReachesStaysIn<int>(CellLink(m, fs), touched, own, nei);
    }
  }

  lemma PiercedMonotone(m: Mesh, fs: set<nat>, gs: set<nat>)
    requires FacesWellFormed(m) && fs <= gs
    ensures Pierced(m, fs) <= Pierced(m, gs)
  {
    forall f | f in Pierced(m, fs) ensures f in Pierced(m, gs) {
      var own := m.faceOwner[f];
      var g :| g in fs && m.Internal(g) && OnFace(m, g, own);
      assert g in gs;
      forall x, y | CellLink(m, fs)(x, y) ensures CellLink(m, gs)(x, y) {
        var h :| h in fs && m.Internal(h) && Joins(m, h, x, y);
        assert h in gs;
      }
      ReachesMonotone<int>(CellLink(m, fs), CellLink(m, gs), own, m.faceNeighbour[f]);
    }
  }

  /** Two runs on the same faces, in any order, put the same cells together, pick the same masters and return the same
      list of faces. */
  lemma OrderIndependent(m: Mesh, fs: set<nat>, region: seq<int>, master: seq<int>, faces: seq<nat>,
                         region': seq<int>, master': seq<int>, faces': seq<nat>)
    requires FacesWellFormed(m)
    requires ComponentLabels(m, fs, region) && LowestMasters(region, master) && InnerFaces(m, region, m.NFaces(), faces)
    requires ComponentLabels(m, fs, region') && LowestMasters(region', master')
    requires InnerFaces(m, region', m.NFaces(), faces')
    ensures forall c :: 0 <= c < m.nCells ==> (region[c] == -1 <==> region'[c] == -1)
    ensures forall c :: 0 <= c < m.nCells && region[c] != -1 ==> master[region[c]] == master'[region'[c]]
    ensures faces == faces'
  {
    forall c | 0 <= c < m.nCells ensures region[c] == -1 <==> region'[c] == -1 {
      assert Touched(m, fs, c) || !Touched(m, fs, c);
    }
    forall c | 0 <= c < m.nCells && region[c] != -1 ensures master[region[c]] == master'[region'[c]] {
      SameMaster(m, fs, region, master, region', master', c);
    }
    OutputIsPierced(m, fs, region, faces);
    OutputIsPierced(m, fs, region', faces');
    forall f: nat ensures f in faces <==> f in faces' {
      assert f in FaceSet(faces) <==> f in FaceSet(faces');
    }
    SameList(faces, faces');
  }

  lemma SameMaster(m: Mesh, fs: set<nat>, region: seq<int>, master: seq<int>, region': seq<int>, master': seq<int>,
                   c: nat)
    requires FacesWellFormed(m) && c < m.nCells
    requires ComponentLabels(m, fs, region) && LowestMasters(region, master) && region[c] != -1
    requires ComponentLabels(m, fs, region') && LowestMasters(region', master')
    ensures region'[c] != -1 && master[region[c]] == master'[region'[c]]
  {
    assert Touched(m, fs, c);
    assert region'[c] != -1;
    var a, b := master[region[c]], master'[region'[c]];
    assert region[c] == region[a] <==> Linked(m, fs, c, a);
    assert region'[c] == region'[a] <==> Linked(m, fs, c, a);
    assert region[c] == region[b] <==> Linked(m, fs, c, b);
    assert region'[c] == region'[b] <==> Linked(m, fs, c, b);
  }
}
