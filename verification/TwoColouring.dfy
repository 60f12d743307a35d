/** The breadth-first two-colouring of the face graph, and when its verdict is yes. */
module TwoColouring {
  import opened Reachability
  import opened Ldu
  import opened RedBlackDilu

  predicate JoinedBy(l: Ldu, f: nat, x: int, y: int)
    requires l.Valid() && f < l.NFaces()
  {
    (l.own[f] == x && l.nei[f] == y) || (l.own[f] == y && l.nei[f] == x)
  }

  predicate Neighbours(l: Ldu, x: int, y: int)
    requires l.Valid()
  {
    exists f: nat {:trigger JoinedBy(l, f, x, y)} :: f < l.NFaces() && JoinedBy(l, f, x, y)
  }

  ghost function Steps(l: Ldu): (int, int) -> bool
    requires l.Valid()
  {
    (x, y) => Neighbours(l, x, y)
  }

  /** Every cell can be reached from the first one. */
  ghost predicate FromFirst(l: Ldu)
    requires l.Valid()
  {
    forall c :: 0 <= c < l.n ==> Reaches(Steps(l), 0, c)
  }

  /** Two colours, and no face between cells of one colour. */
  predicate Proper(l: Ldu, colour: seq<int>)
    requires l.Valid()
  {
    && |colour| == l.n
    && (forall c :: 0 <= c < l.n ==> colour[c] == 0 || colour[c] == 1)
    && (forall f :: 0 <= f < l.NFaces() ==> colour[l.own[f]] != colour[l.nei[f]])
  }

  predicate TouchesFrontier(l: Ldu, frontier: seq<nat>, c: int)
    requires l.Valid()
  {
    exists i :: 0 <= i < |frontier| && Neighbours(l, frontier[i], c)
  }

  /** The uncoloured neighbours of the frontier below `k`, in order. */
  function Fresh(l: Ldu, colour: seq<int>, frontier: seq<nat>, k: nat): (r: seq<nat>)
    requires l.Valid() && |colour| == l.n && k <= l.n
  {
    if k == 0 then []
    else
      Fresh(l, colour, frontier, k - 1)
      + if colour[k - 1] < 0 && TouchesFrontier(l, frontier, k - 1) then [k - 1] else []
  }

  lemma {:induction false} FreshIs(l: Ldu, colour: seq<int>, frontier: seq<nat>, k: nat)
    requires l.Valid() && |colour| == l.n && k <= l.n
    ensures var r := Fresh(l, colour, frontier, k);
      && (forall i :: 0 <= i < |r| ==> r[i] < k && colour[r[i]] < 0 && TouchesFrontier(l, frontier, r[i]))
      && (forall c: nat :: c < k && colour[c] < 0 && TouchesFrontier(l, frontier, c) ==> c in r)
  {
    if k > 0 {
      FreshIs(l, colour, frontier, k - 1);
    }
  }

  /** The cells of a list get one colour. */
  function Painted(colour: seq<int>, cells: seq<nat>, paint: int): (r: seq<int>)
    ensures |r| == |colour| && forall c :: 0 <= c < |colour| ==> r[c] == if c in cells then paint else colour[c]
  {
    seq(|colour|, c requires 0 <= c < |colour| => if c in cells then paint else colour[c])
  }

  /** The frontier was coloured last and all alike; behind it everything is finished. */
  ghost predicate Wave(l: Ldu, colour: seq<int>, frontier: seq<nat>, shade: int)
    requires l.Valid()
  {
    && |colour| == l.n > 0 && colour[0] >= 0
    && (forall c :: 0 <= c < l.n ==> -1 <= colour[c] <= 1)
    && (forall i :: 0 <= i < |frontier| ==> frontier[i] < l.n && colour[frontier[i]] == shade) && 0 <= shade <= 1
    && (forall c :: 0 <= c < l.n && colour[c] >= 0 ==> Reaches(Steps(l), 0, c))
  }

  /** All neighbours of a cell behind the frontier are coloured. */
  ghost predicate Finished(l: Ldu, colour: seq<int>, frontier: seq<nat>)
    requires l.Valid() && |colour| == l.n
  {
    forall x, y {:trigger Neighbours(l, x, y)} ::
      0 <= x < l.n && 0 <= y < l.n && colour[x] >= 0 && x !in frontier && Neighbours(l, x, y) ==> colour[y] >= 0
  }

  /** So far the colours are those of any proper colouring that starts alike. */
  ghost predicate Agrees(l: Ldu, colour: seq<int>, p: seq<int>)
    requires l.Valid()
  {
    |colour| == |p| == l.n && forall c :: 0 <= c < l.n && colour[c] >= 0 ==> colour[c] == p[c]
  }

  /** Every proper colouring that starts alike agrees so far. */
  ghost predicate AllAgree(l: Ldu, colour: seq<int>)
    requires l.Valid() && l.n > 0
  {
    forall p {:trigger Proper(l, p)} :: Proper(l, p) && p[0] == 0 ==> Agrees(l, colour, p)
  }

  lemma {:induction false} NextWave(l: Ldu, colour: seq<int>, frontier: seq<nat>, shade: int, next: seq<nat>,
                                    colour': seq<int>)
    requires l.Valid() && Wave(l, colour, frontier, shade) && frontier != []
    requires next == Fresh(l, colour, frontier, l.n) && colour' == Painted(colour, next, 1 - shade)
    ensures Wave(l, colour', next, 1 - shade)
  {
    FreshIs(l, colour, frontier, l.n);
    forall c | 0 <= c < l.n && colour'[c] >= 0 ensures Reaches(Steps(l), 0, c) {
      if c in next {
        var k :| 0 <= k < |next| && next[k] == c;
        var i :| 0 <= i < |frontier| && Neighbours(l, frontier[i], c);
        ReachesStep(Steps(l), frontier[i] as int, c);
        ReachesTransitive(Steps(l), 0, frontier[i] as int, c);
      }
    }
  }

  lemma {:induction false} NextFinished(l: Ldu, colour: seq<int>, frontier: seq<nat>, shade: int, next: seq<nat>,
                                        colour': seq<int>)
    requires l.Valid() && |colour| == l.n && Finished(l, colour, frontier)
    requires next == Fresh(l, colour, frontier, l.n) && colour' == Painted(colour, next, 1 - shade) && 0 <= shade <= 1
    ensures Finished(l, colour', next)
  {
    FreshIs(l, colour, frontier, l.n);
    forall x, y | 0 <= x < l.n && 0 <= y < l.n && colour'[x] >= 0 && x !in next && Neighbours(l, x, y)
      ensures colour'[y] >= 0
    {
      if colour[y] < 0 && x in frontier {
        var i :| 0 <= i < |frontier| && frontier[i] == x;
        assert TouchesFrontier(l, frontier, y);
      }
    }
  }

  /** Across a face, a proper colouring changes. */
  lemma {:induction false} Changes(l: Ldu, p: seq<int>, x: int, y: int)
    requires l.Valid() && Proper(l, p) && Neighbours(l, x, y)
    ensures 0 <= x < l.n && 0 <= y < l.n && p[y] == 1 - p[x]
  {
    var f: nat :| f < l.NFaces() && JoinedBy(l, f, x, y);
  }

  lemma {:induction false} NextAgrees(l: Ldu, colour: seq<int>, frontier: seq<nat>, shade: int, next: seq<nat>,
                                      colour': seq<int>, p: seq<int>)
    requires l.Valid() && Wave(l, colour, frontier, shade) && Proper(l, p) && Agrees(l, colour, p)
    requires next == Fresh(l, colour, frontier, l.n) && colour' == Painted(colour, next, 1 - shade)
    ensures Agrees(l, colour', p)
  {
    FreshIs(l, colour, frontier, l.n);
    forall c | 0 <= c < l.n && colour'[c] >= 0 ensures colour'[c] == p[c] {
      if c in next {
        var k :| 0 <= k < |next| && next[k] == c;
        var i :| 0 <= i < |frontier| && Neighbours(l, frontier[i], c);
        Changes(l, p, frontier[i], c);
      }
    }
  }

  lemma {:induction false} NextAllAgree(l: Ldu, colour: seq<int>, frontier: seq<nat>, shade: int, next: seq<nat>,
                                        colour': seq<int>)
    requires l.Valid() && l.n > 0 && Wave(l, colour, frontier, shade) && AllAgree(l, colour)
    requires next == Fresh(l, colour, frontier, l.n) && colour' == Painted(colour, next, 1 - shade)
    ensures AllAgree(l, colour')
  {
    forall p | Proper(l, p) && p[0] == 0 ensures Agrees(l, colour', p) {
      NextAgrees(l, colour, frontier, shade, next, colour', p);
    }
  }

  /** What is left uncoloured shrinks. */
  ghost function Uncoloured(colour: seq<int>, k: nat): (n: nat)
    requires k <= |colour|
  {
    if k == 0 then 0 else Uncoloured(colour, k - 1) + if colour[k - 1] < 0 then 1 else 0
  }

  lemma {:induction false} FewerUncoloured(colour: seq<int>, colour': seq<int>, k: nat, c: nat)
    requires k <= |colour| == |colour'| && c < |colour| && colour[c] < 0 <= colour'[c]
    requires forall i :: 0 <= i < |colour| && colour'[i] < 0 ==> colour[i] < 0
    ensures Uncoloured(colour', k) + (if c < k then 1 else 0) <= Uncoloured(colour, k)
  {
    if k > 0 {
      FewerUncoloured(colour, colour', k - 1, c);
    }
  }

  /** Finished everywhere: the coloured cells are all that can be reached. */
  lemma {:induction false} AllReachedColoured(l: Ldu, colour: seq<int>, shade: int, c: int)
    requires l.Valid() && Wave(l, colour, [], shade) && Finished(l, colour, []) && Reaches(Steps(l), 0, c)
    ensures 0 <= c < l.n && colour[c] >= 0
  {
    var coloured := iset x | 0 <= x < l.n && colour[x] >= 0;
    forall x, y | x in coloured && Steps(l)(x, y) ensures y in coloured {
      var f: nat :| f < l.NFaces() && JoinedBy(l, f, x, y);
      assert Neighbours(l, x, y);
    }
    ReachesStaysIn(Steps(l), coloured, 0, c);
  }

  /** The verdict: no uncoloured cell and no face between equal colours. */
  predicate Bipartite(l: Ldu, colour: seq<int>)
    requires l.Valid() && |colour| == l.n
  {
    && (forall f :: 0 <= f < l.NFaces() ==> colour[l.own[f]] != colour[l.nei[f]])
    && forall c :: 0 <= c < l.n ==> colour[c] >= 0
  }

  function Flipped(p: seq<int>): (r: seq<int>)
    ensures |r| == |p| && forall c :: 0 <= c < |p| ==> r[c] == 1 - p[c]
  {
    seq(|p|, c requires 0 <= c < |p| => 1 - p[c])
  }

  /** One wave: the fresh neighbours of the frontier get the other colour. */
  method Advance(l: Ldu, colour: seq<int>, frontier: seq<nat>, ghost shade: int)
    returns (colour': seq<int>, next: seq<nat>)
    requires l.Valid() && l.n > 0 && frontier != []
    requires Wave(l, colour, frontier, shade) && Finished(l, colour, frontier) && AllAgree(l, colour)
    ensures |colour'| == |colour|
    ensures Wave(l, colour', next, 1 - shade) && Finished(l, colour', next) && AllAgree(l, colour')
    ensures Uncoloured(colour', |colour|) <= Uncoloured(colour, |colour|)
    ensures next != [] ==> Uncoloured(colour', |colour|) < Uncoloured(colour, |colour|)
  {
    next := Fresh(l, colour, frontier, l.n);
    colour' := Painted(colour, next, 1 - colour[frontier[0]]);
    NextWave(l, colour, frontier, shade, next, colour');
    NextFinished(l, colour, frontier, shade, next, colour');
    NextAllAgree(l, colour, frontier, shade, next, colour');
    NextShrinks(l, colour, frontier, next, 1 - shade);
  }

  lemma {:induction false} NextShrinks(l: Ldu, colour: seq<int>, frontier: seq<nat>, next: seq<nat>, paint: int)
    requires l.Valid() && |colour| == l.n && paint >= 0 && next == Fresh(l, colour, frontier, l.n)
    ensures Uncoloured(Painted(colour, next, paint), |colour|) + (if next == [] then 0 else 1) <=
      Uncoloured(colour, |colour|)
  {
    FreshIs(l, colour, frontier, l.n);
    PaintingShrinks(colour, next, paint);
  }

  lemma {:induction false} PaintingShrinks(colour: seq<int>, cells: seq<nat>, paint: int)
    requires paint >= 0 && forall i :: 0 <= i < |cells| ==> cells[i] < |colour| && colour[cells[i]] < 0
    ensures Uncoloured(Painted(colour, cells, paint), |colour|) + (if cells == [] then 0 else 1) <=
      Uncoloured(colour, |colour|)
  {
    if cells == [] {
      assert Painted(colour, cells, paint) == colour;
    } else {
      assert cells[0] in cells;
      FewerUncoloured(colour, Painted(colour, cells, paint), |colour|, cells[0]);
    }
  }

  lemma {:induction false} FirstWave(l: Ldu, colour: seq<int>)
    requires l.Valid() && |colour| == l.n > 0 && forall c :: 0 <= c < l.n ==> colour[c] == if c == 0 then 0 else -1
    ensures Wave(l, colour, [0], 0) && Finished(l, colour, [0]) && AllAgree(l, colour)
  {
    ReachesSelf(Steps(l), 0);
  }

  /** The loop; it says yes exactly for the meshes that have a proper colouring and hang together. */
  method TwoColour(l: Ldu) returns (colour: seq<int>, bip: bool)
    requires l.Valid() && l.n > 0
    ensures |colour| == l.n
    ensures bip ==> Proper(l, colour) && Coloured(l, colour).Valid() && FromFirst(l)
    ensures bip <==> FromFirst(l) && exists p :: Proper(l, p)
  {
    colour := seq(l.n, c => if c == 0 then 0 else -1);
    var frontier: seq<nat> := [0];
    ghost var shade := 0;
    FirstWave(l, colour);
    while frontier != []
      invariant Wave(l, colour, frontier, shade) && Finished(l, colour, frontier) && AllAgree(l, colour)
      decreases Uncoloured(colour, |colour|), |frontier|
    {
      colour, frontier := Advance(l, colour, frontier, shade);
      shade := 1 - shade;
    }
    bip := Bipartite(l, colour);
    Verdict(l, colour, shade, bip);
  }

  lemma {:induction false} Verdict(l: Ldu, colour: seq<int>, shade: int, bip: bool)
    requires l.Valid() && l.n > 0 && Wave(l, colour, [], shade) && Finished(l, colour, [])
    requires bip == Bipartite(l, colour)
    requires AllAgree(l, colour)
    ensures bip ==> Proper(l, colour) && Coloured(l, colour).Valid() && FromFirst(l)
    ensures bip <==> FromFirst(l) && exists p :: Proper(l, p)
  {
    if FromFirst(l) && exists p :: Proper(l, p) {
      var p :| Proper(l, p);
      var q := if p[0] == 0 then p else Flipped(p);
      assert Proper(l, q) && Agrees(l, colour, q);
      forall c | 0 <= c < l.n ensures colour[c] == q[c] {
        AllReachedColoured(l, colour, shade, c);
      }
    }
  }
}
