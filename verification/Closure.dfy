/** Two fixpoints over what names what, and the one declarative closure both compute. */
module Closure {
  import opened Reachability

  type Name = string

  // ---- what a test script reaches -------------------------------------------------------------------

  /** The files, executables and whole directories that code names. */
  datatype Names = Names(files: set<Name>, exes: set<Name>, trees: set<Name>)

  function Both(a: Names, b: Names): Names { Names(a.files + b.files, a.exes + b.exes, a.trees + b.trees) }

  /** What each script names on its own, which files are scripts, and what path a path stands for. */
  datatype Repo = Repo(direct: Name -> Names, isScript: Name -> bool, real_: Name -> Name)

  ghost function Steps(r: Repo): (Name, Name) -> bool {
    (x, y) => y in r.direct(x).files && r.isScript(y)
  }

  /** Script `from` reaches `to` by way of the scripts in between. */
  ghost predicate Reached(r: Repo, from: Name, to: Name) {
    Reaches<Name>(Steps(r), from, to)
  }

  ghost predicate SomeNames(r: Repo, from: Name, pick: Names -> set<Name>, x: Name) {
    exists s {:trigger Reached(r, from, s)} :: Reached(r, from, s) && x in pick(r.direct(s))
  }

  /** All that any reachable script names. */
  ghost predicate IsClosure(r: Repo, from: Name, n: Names) {
    && (forall x :: x in n.files <==> SomeNames(r, from, (d: Names) => d.files, x))
    && (forall x :: x in n.exes <==> SomeNames(r, from, (d: Names) => d.exes, x))
    && (forall x :: x in n.trees <==> SomeNames(r, from, (d: Names) => d.trees, x))
  }

  lemma {:induction false} OneClosure(r: Repo, from: Name, m: Names, n: Names)
    requires IsClosure(r, from, m) && IsClosure(r, from, n)
    ensures m == n
  {
    assert forall x :: x in m.files <==> x in n.files;
    assert forall x :: x in m.exes <==> x in n.exes;
    assert forall x :: x in m.trees <==> x in n.trees;
  }

  /** The scripts lie in a finite set that naming does not leave. */
  ghost predicate Bounded(r: Repo, all: set<Name>) {
    forall x, y :: x in all && Steps(r)(x, y) ==> y in all
  }

  /** What the scripts in `seen` name, no more and no less. */
  ghost predicate Gathered(r: Repo, seen: set<Name>, n: Names) {
    && (forall x :: x in n.files <==> exists s :: s in seen && x in r.direct(s).files)
    && (forall x :: x in n.exes <==> exists s :: s in seen && x in r.direct(s).exes)
    && (forall x :: x in n.trees <==> exists s :: s in seen && x in r.direct(s).trees)
  }

  /** Everything the worklist holds is reachable, and nothing reachable has been forgotten. */
  ghost predicate Frontier(r: Repo, from: Name, seen: set<Name>, todo: seq<Name>) {
    && (from in seen || from in todo)
    && (forall x :: x in seen || x in todo ==> Reached(r, from, x))
    && (forall x, y :: x in seen && Steps(r)(x, y) ==> y in seen || y in todo)
  }

  lemma {:induction false} SeenIsReached(r: Repo, from: Name, seen: set<Name>)
    requires Frontier(r, from, seen, [])
    ensures forall x :: x in seen <==> Reached(r, from, x)
  {
    forall x | Reached(r, from, x) ensures x in seen {
      ReachesStaysIn(Steps(r), (iset s | s in seen), from, x);
    }
  }

  lemma {:induction false} GatheredIsClosure(r: Repo, from: Name, seen: set<Name>, n: Names)
    requires Frontier(r, from, seen, []) && Gathered(r, seen, n)
    ensures IsClosure(r, from, n)
  {
    SeenIsReached(r, from, seen);
  }

  lemma {:induction false} GatherOne(r: Repo, seen: set<Name>, one: Name, n: Names)
    requires Gathered(r, seen, n)
    ensures Gathered(r, seen + {one}, Both(n, r.direct(one)))
  {
    var m, d := Both(n, r.direct(one)), r.direct(one);
    forall x ensures x in m.files <==> exists s :: s in seen + {one} && x in r.direct(s).files {
      if x in d.files { assert one in seen + {one}; }
    }
    forall x ensures x in m.exes <==> exists s :: s in seen + {one} && x in r.direct(s).exes {
      if x in d.exes { assert one in seen + {one}; }
    }
    forall x ensures x in m.trees <==> exists s :: s in seen + {one} && x in r.direct(s).trees {
      if x in d.trees { assert one in seen + {one}; }
    }
  }

  class ClosureCache {
    const repo: Repo
    var closures: map<Name, Names>

    constructor (repo: Repo)
      ensures this.repo == repo && closures == map[] && Valid()
    {
      this.repo, closures := repo, map[];
    }

    /** A remembered closure is the one a recomputation would give. */
    ghost predicate Valid()
      reads this
    {
      forall p :: p in closures ==> IsClosure(repo, p, closures[p])
    }

    /** New scripts on the worklist, in whatever order the set yields them. */
    method Extend(todo: seq<Name>, files: set<Name>, seen: set<Name>) returns (more: seq<Name>)
      ensures forall x :: x in more <==> x in todo || (x in files && repo.isScript(x) && x !in seen)
    {
      more := todo;
      var left := files;
      while left != {}
        invariant left <= files
        invariant forall x :: x in more <==> x in todo || (x in files - left && repo.isScript(x) && x !in seen)
      {
        var x :| x in left;
        left := left - {x};
        if repo.isScript(x) && x !in seen {
          more := more + [x];
        }
      }
    }

    /** One turn of the worklist loop, on a script not seen before. */
    method Visit(ghost from: Name, ghost before: seq<Name>, one: Name, todo: seq<Name>, seen: set<Name>, n: Names)
      returns (more: seq<Name>, n': Names)
      requires Frontier(repo, from, seen, before) && before == todo + [one] && Gathered(repo, seen, n)
      ensures Frontier(repo, from, seen + {one}, more) && Gathered(repo, seen + {one}, n')
      ensures forall x :: x in more ==> x in todo || Steps(repo)(one, x)
    {
      var d := repo.direct(one);
      GatherOne(repo, seen, one, n);
      n' := Both(n, d);
      more := Extend(todo, d.files, seen + {one});
      StillFrontier(repo, from, seen, before, one, todo, more);
    }

    /** The worklist loop. */
    method Compute(from: Name, ghost all: set<Name>) returns (n: Names)
      requires from in all && Bounded(repo, all)
      ensures IsClosure(repo, from, n)
    {
      n := Names({}, {}, {});
      var seen: set<Name> := {};
      var todo := [from];
      ReachesSelf<Name>(Steps(repo), from);
      while todo != []
        invariant seen <= all && forall x :: x in todo ==> x in all
        invariant Frontier(repo, from, seen, todo) && Gathered(repo, seen, n)
        decreases all - seen, |todo|
      {
        ghost var before := todo;
        var one := todo[|todo| - 1];
        todo := todo[..|todo| - 1];
        assert before == todo + [one] && one in before;
        if one in seen {
          SkipSeen(repo, from, seen, before, one, todo);
          continue;
        }
        todo, n := Visit(from, before, one, todo, seen, n);
        seen := seen + {one};
      }
      GatheredIsClosure(repo, from, seen, n);
    }

    method OfScript(path: Name, ghost all: set<Name>) returns (n: Names)
      requires Valid() && repo.real_(path) in all && Bounded(repo, all)
      modifies this
      ensures Valid() && IsClosure(repo, repo.real_(path), n)
      ensures closures == old(closures)[repo.real_(path) := n]
    {
      var from := repo.real_(path);
      if from in closures {
        assert closures == closures[from := closures[from]];
        return closures[from];
      }
      n := Compute(from, all);
      closures := closures[from := n];
    }
  }

  lemma {:induction false} SkipSeen(r: Repo, from: Name, seen: set<Name>, before: seq<Name>, one: Name, todo: seq<Name>)
    requires Frontier(r, from, seen, before) && before == todo + [one] && one in seen
    ensures Frontier(r, from, seen, todo)
  {
  }

  lemma {:induction false} StillFrontier(r: Repo, from: Name, seen: set<Name>, before: seq<Name>, one: Name,
                                         todo: seq<Name>, more: seq<Name>)
    requires Frontier(r, from, seen, before) && before == todo + [one]
    requires forall x :: x in more <==> x in todo || (x in r.direct(one).files && r.isScript(x) && x !in seen + {one})
    ensures Frontier(r, from, seen + {one}, more)
  {
    assert one in before;
    forall x | x in seen + {one} || x in more ensures Reached(r, from, x) {
      if x !in seen && x != one && x !in todo {
        assert Steps(r)(one, x);
        ReachesStep<Name>(Steps(r), one, x);
        ReachesTransitive<Name>(Steps(r), from, one, x);
      }
    }
    forall x, y | x in seen + {one} && Steps(r)(x, y) ensures y in seen + {one} || y in more {
      if x in seen {
        assert y in seen || y in before;
      }
    }
  }

  // ---- what a configuration reader fills ------------------------------------------------------------

  /** The fields each reader sets itself, and which reader hands its struct on to which. */
  datatype Readers = Readers(names: seq<Name>, sets: map<Name, set<Name>>, hands: set<(Name, Name)>)
  {
    predicate Valid() {
      && (forall i :: 0 <= i < |names| ==> names[i] in sets)
      && (forall f :: f in sets ==> f in names)
    }
  }

  ghost function Handing(r: Readers): (Name, Name) -> bool {
    (x, y) => (x, y) in r.hands && x in r.sets && y in r.sets
  }

  /** Some reader the struct gets to, from `f` on, sets the field. */
  ghost predicate Filled(r: Readers, f: Name, field: Name) {
    exists g {:trigger g in r.sets} :: g in r.sets && Reaches<Name>(Handing(r), f, g) && field in r.sets[g]
  }

  ghost predicate AllFilled(r: Readers, fillers: map<Name, set<Name>>) {
    fillers.Keys == r.sets.Keys && forall f, x :: f in fillers ==> (x in fillers[f] <==> Filled(r, f, x))
  }

  /** No more than is reachable, and at least what was there. */
  ghost predicate Between(r: Readers, fillers: map<Name, set<Name>>) {
    && fillers.Keys == r.sets.Keys
    && (forall f :: f in r.sets ==> r.sets[f] <= fillers[f])
    && (forall f, x :: f in fillers && x in fillers[f] ==> Filled(r, f, x))
  }

  /** The pair of readers asks for nothing more. */
  ghost predicate Settled(r: Readers, fillers: map<Name, set<Name>>, f: Name, g: Name) {
    f in fillers && g in fillers && ((f, g) in r.hands ==> fillers[g] <= fillers[f])
  }

  lemma {:induction false} HandedOn(r: Readers, f: Name, g: Name, x: Name)
    requires Filled(r, g, x) && Handing(r)(f, g)
    ensures Filled(r, f, x)
  {
    var h :| h in r.sets && Reaches<Name>(Handing(r), g, h) && x in r.sets[h];
    ReachesStep<Name>(Handing(r), f, g);
    ReachesTransitive<Name>(Handing(r), f, g, h);
  }

  lemma {:induction false} FilledFrom(r: Readers, fillers: map<Name, set<Name>>, f: Name, g: Name)
    requires Between(r, fillers) && f in fillers && g in fillers && (f, g) in r.hands
    ensures Between(r, fillers[f := fillers[f] + fillers[g]])
  {
    var next := fillers[f := fillers[f] + fillers[g]];
    forall h, x | h in next && x in next[h] ensures Filled(r, h, x) {
      if h == f && x !in fillers[f] {
        FromNext(r, fillers, f, g, x);
      }
    }
  }

  lemma {:induction false} FromNext(r: Readers, fillers: map<Name, set<Name>>, f: Name, g: Name, x: Name)
    requires Between(r, fillers) && f in fillers && g in fillers && (f, g) in r.hands && x in fillers[g]
    ensures Filled(r, f, x)
  {
    assert Filled(r, g, x);
    assert Handing(r)(f, g);
    HandedOn(r, f, g, x);
  }

  /** With every pair settled, whatever is reachable has arrived. */
  lemma {:induction false} SettledIsFilled(r: Readers, fillers: map<Name, set<Name>>)
    requires Between(r, fillers) && forall f, g :: f in fillers && g in fillers ==> Settled(r, fillers, f, g)
    ensures AllFilled(r, fillers)
  {
    forall f, x | f in fillers && Filled(r, f, x) ensures x in fillers[f] {
      var h :| h in r.sets && Reaches<Name>(Handing(r), f, h) && x in r.sets[h];
      Carried(r, fillers, f, h, x);
    }
  }

  lemma {:induction false} Carried(r: Readers, fillers: map<Name, set<Name>>, f: Name, h: Name, x: Name)
    requires Between(r, fillers) && forall f, g :: f in fillers && g in fillers ==> Settled(r, fillers, f, g)
    requires f in fillers && h in fillers && Reaches<Name>(Handing(r), f, h) && x in fillers[h]
    ensures x in fillers[f]
  {
    if x !in fillers[f] {
      var without := iset g | g in fillers && x !in fillers[g];
      forall a, b | a in without && Handing(r)(a, b) ensures b in without {
        assert Settled(r, fillers, a, b);
      }
      ReachesStaysIn(Handing(r), without, f, h);
    }
  }

  /** Every field anyone sets. */
  ghost function AllFields(r: Readers): set<Name> {
    set g, x | g in r.sets && x in r.sets[g] :: x
  }

  ghost function Facts(fillers: map<Name, set<Name>>): set<(Name, Name)> {
    set f, x | f in fillers && x in fillers[f] :: (f, x)
  }

  ghost function AllFacts(r: Readers): set<(Name, Name)> {
    set f, x | f in r.sets && x in AllFields(r) :: (f, x)
  }

  lemma {:induction false} FactsBounded(r: Readers, fillers: map<Name, set<Name>>)
    requires Between(r, fillers)
    ensures Facts(fillers) <= AllFacts(r)
  {
    forall f, x | (f, x) in Facts(fillers) ensures (f, x) in AllFacts(r) {
      assert Filled(r, f, x);
    }
  }

  lemma {:induction false} FactsGrow(fillers: map<Name, set<Name>>, f: Name, more: set<Name>)
    requires f in fillers && !(more <= fillers[f])
    ensures Facts(fillers) < Facts(fillers[f := fillers[f] + more])
  {
    var next := fillers[f := fillers[f] + more];
    var x :| x in more && x !in fillers[f];
    assert (f, x) in Facts(next) && (f, x) !in Facts(fillers);
    forall g, y | (g, y) in Facts(fillers) ensures (g, y) in Facts(next) {
    }
  }

  /** One reader takes over what the readers it hands on to have so far. */
  method TakeOver(r: Readers, fillers: map<Name, set<Name>>, f: Name)
    returns (next: map<Name, set<Name>>, changed: bool)
    requires r.Valid() && Between(r, fillers) && f in fillers
    ensures Between(r, next)
    ensures if changed then Facts(fillers) < Facts(next) else next == fillers && forall g :: g in fillers ==>
      Settled(r, fillers, f, g)
  {
    next, changed := fillers, false;
    for j := 0 to |r.names|
      invariant Between(r, next)
      invariant changed ==> Facts(fillers) < Facts(next)
      invariant !changed ==> next == fillers && forall k :: 0 <= k < j ==> Settled(r, fillers, f, r.names[k])
    {
      var other := r.names[j];
      if other == f || next[other] == {} {
        continue;
      }
      if (f, other) in r.hands && !(next[other] <= next[f]) {
        FilledFrom(r, next, f, other);
        FactsGrow(next, f, next[other]);
        next := next[f := next[f] + next[other]];
        changed := true;
      }
    }
  }

  /** One pass over all readers. */
  method Pass(r: Readers, fillers: map<Name, set<Name>>) returns (next: map<Name, set<Name>>, changed: bool)
    requires r.Valid() && Between(r, fillers)
    ensures Between(r, next)
    ensures changed ==> Facts(fillers) < Facts(next)
    ensures !changed ==> next == fillers && forall f, g :: f in fillers && g in fillers ==> Settled(r, fillers, f, g)
  {
    next, changed := fillers, false;
    for i := 0 to |r.names|
      invariant Between(r, next)
      invariant changed ==> Facts(fillers) < Facts(next)
      invariant !changed ==>
        next == fillers && forall k, g :: 0 <= k < i && g in fillers ==> Settled(r, fillers, r.names[k], g)
    {
      var more;
      next, more := TakeOver(r, next, r.names[i]);
      changed := changed || more;
    }
  }

  /** The round-robin loop: passes until nothing changes. */
  method FillerFunctions(r: Readers) returns (fillers: map<Name, set<Name>>)
    requires r.Valid()
    ensures forall f, x :: f in fillers && x in fillers[f] ==> f in r.sets && Filled(r, f, x)
    ensures forall f, x :: f in r.sets && Filled(r, f, x) ==> f in fillers && x in fillers[f]
    ensures forall f :: f in fillers ==> fillers[f] != {}
  {
    var all := r.sets;
    StartsBetween(r);
    var changed := true;
    while changed
      invariant Between(r, all)
      invariant !changed ==> AllFilled(r, all)
      decreases AllFacts(r) - Facts(all), changed
    {
      ghost var start := all;
      all, changed := Pass(r, all);
      FactsBounded(r, all);
      if changed {
        assert AllFacts(r) - Facts(all) < AllFacts(r) - Facts(start);
      } else {
        SettledIsFilled(r, all);
      }
    }
    fillers := map f | f in all && all[f] != {} :: all[f];
  }

  lemma {:induction false} StartsBetween(r: Readers)
    ensures Between(r, r.sets)
  {
    forall f, x | f in r.sets && x in r.sets[f] ensures Filled(r, f, x) {
      ReachesSelf<Name>(Handing(r), f);
    }
  }
}
