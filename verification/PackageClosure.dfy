/** The package closure of a service implementation and the binding pass that follows
    it (compiler/driver/authoring.rs, compiler/driver/generated_deployment.rs).

    The walk and the binding pass each choose a package for every requirement, the walk
    among the packages loaded so far and the pass among the closure. The main result is
    that they always choose the same one. */
module PackageClosure {
  import opened Wrappers
  import opened Sorting
  import opened Reachability

  datatype Requirement = Requirement(alias: string, id: string, version: string, localAbi: string, build: Option<string>)

  datatype Package = Package(
    id: string, version: string, localAbi: string, build: string, requirements: seq<Requirement>, content: string)

  predicate SameCoordinates(r: Requirement, p: Package) {
    p.id == r.id && p.version == r.version
  }

  /** Coordinates, local ABI and, when pinned, the build agree. */
  predicate Matches(r: Requirement, p: Package) {
    SameCoordinates(r, p) && p.localAbi == r.localAbi && (r.build.Some? ==> r.build.value == p.build)
  }

  /** Where packages come from: those loaded up front, and the store for the others.
      `valid` is the recomputation of canonical identities. */
  datatype Source = Source(loaded: seq<Package>, resolve: (string, string) -> Option<Package>, valid: Package -> bool)

  function AtCoordinates(packages: seq<Package>, r: Requirement): seq<Package> {
    if packages == [] then []
    else (if SameCoordinates(r, packages[0]) then [packages[0]] else []) + AtCoordinates(packages[1..], r)
  }

  function Exact(packages: seq<Package>, r: Requirement): seq<Package> {
    if packages == [] then []
    else (if Matches(r, packages[0]) then [packages[0]] else []) + Exact(packages[1..], r)
  }

  /** The package a requirement selects. A requirement with loaded candidates must match
      exactly one of them; otherwise the store's package must match. */
  function Select(src: Source, r: Requirement): Option<Package> {
    if AtCoordinates(src.loaded, r) == [] then
      match src.resolve(r.id, r.version)
      case None => None
      case Some(p) => if src.valid(p) && Matches(r, p) then Some(p) else None
    else
      var exact := Exact(src.loaded, r);
      if |exact| == 1 && src.valid(exact[0]) then Some(exact[0]) else None
  }

  // ----- What a requirement asks for -----

  /** The package has what the requirement names, field by field. */
  ghost predicate Answers(r: Requirement, p: Package) {
    && p.id == r.id
    && p.version == r.version
    && p.localAbi == r.localAbi
    && forall build :: r.build == Some(build) ==> p.build == build
  }

  /** The package is valid and answers the requirement. Where packages of these coordinates
      have been loaded it is the only one of them that does; otherwise the store gave it. */
  ghost predicate IsChoice(src: Source, r: Requirement, p: Package) {
    && src.valid(p)
    && Answers(r, p)
    && if exists q :: q in src.loaded && q.id == r.id && q.version == r.version
       then exists i :: 0 <= i < |src.loaded| && src.loaded[i] == p &&
              forall j :: 0 <= j < |src.loaded| ==> (Answers(r, src.loaded[j]) <==> j == i)
       else src.resolve(r.id, r.version) == Some(p)
  }

  lemma MatchesExactly(r: Requirement, p: Package)
    ensures Matches(r, p) <==> Answers(r, p)
  {
  }

  lemma {:induction false} ExactNone(packages: seq<Package>, r: Requirement)
    ensures Exact(packages, r) == [] <==> forall j :: 0 <= j < |packages| ==> !Matches(r, packages[j])
  {
    hide Matches;
    if packages != [] {
      ExactNone(packages[1..], r);
      assert forall j :: 1 <= j < |packages| ==> packages[1..][j - 1] == packages[j];
    }
  }

  /** The only package of the list that matches is `p`, at position `i`. */
  ghost predicate OnlyAt(packages: seq<Package>, r: Requirement, p: Package, i: int) {
    0 <= i < |packages| && packages[i] == p && forall j :: 0 <= j < |packages| ==> (Matches(r, packages[j]) <==> j == i)
  }

  lemma {:induction false} ExactOne(packages: seq<Package>, r: Requirement, p: Package)
    ensures Exact(packages, r) == [p] <==> exists i :: OnlyAt(packages, r, p, i)
  {
    hide Matches;
    if packages != [] {
      var rest := packages[1..];
      ExactNone(rest, r);
      assert forall j :: 1 <= j < |packages| ==> rest[j - 1] == packages[j];
      if Matches(r, packages[0]) {
        assert |Exact(packages, r)| == 1 + |Exact(rest, r)| && Exact(packages, r)[0] == packages[0];
        if Exact(rest, r) == [] && packages[0] == p {
          assert OnlyAt(packages, r, p, 0);
        }
        if i :| OnlyAt(packages, r, p, i) {
          assert i == 0;
          forall j | 0 <= j < |rest|
            ensures !Matches(r, rest[j])
          {
            assert packages[j + 1] == rest[j];
          }
          assert Exact(rest, r) == [];
        }
      } else {
        ExactOne(rest, r, p);
        assert Exact(packages, r) == Exact(rest, r);
        if i :| OnlyAt(rest, r, p, i) {
          assert OnlyAt(packages, r, p, i + 1);
        }
        if i :| OnlyAt(packages, r, p, i) {
          assert OnlyAt(rest, r, p, i - 1);
        }
      }
    }
  }

  lemma OnlyAnswer(packages: seq<Package>, r: Requirement, p: Package)
    ensures Exact(packages, r) == [p] <==>
            exists i :: 0 <= i < |packages| && packages[i] == p && forall j :: 0 <= j < |packages| ==> (Answers(r, packages[j]) <==> j == i)
  {
    ExactOne(packages, r, p);
    forall q
      ensures Matches(r, q) <==> Answers(r, q)
    {
      MatchesExactly(r, q);
    }
    hide Matches, Answers, Exact;
    if i :| 0 <= i < |packages| && packages[i] == p && forall j :: 0 <= j < |packages| ==> (Answers(r, packages[j]) <==> j == i) {
      assert OnlyAt(packages, r, p, i);
    }
  }

  /** The selection is the one valid package that answers the requirement. */
  lemma SelectExactly(src: Source, r: Requirement, p: Package)
    ensures Select(src, r) == Some(p) <==> IsChoice(src, r, p)
  {
    FilterMembers(src.loaded, r);
    OnlyAnswer(src.loaded, r, p);
    MatchesExactly(r, p);
    var exact := Exact(src.loaded, r);
    assert exact == [p] ==> p in exact;
    assert AtCoordinates(src.loaded, r) != [] ==> AtCoordinates(src.loaded, r)[0] in AtCoordinates(src.loaded, r);
    assert |exact| == 1 ==> exact == [exact[0]];
    hide Matches, Answers, Exact, AtCoordinates;
  }

  /** A requirement is left open if every package of its coordinates has another local ABI. */
  lemma OtherAbiNotSelected(src: Source, r: Requirement)
    requires forall p :: p in src.loaded && p.id == r.id && p.version == r.version ==> p.localAbi != r.localAbi
    requires forall p :: src.resolve(r.id, r.version) == Some(p) ==> p.localAbi != r.localAbi
    ensures Select(src, r).None?
  {
    if Select(src, r).Some? {
      SelectExactly(src, r, Select(src, r).value);
      hide Select;
      assert false;
    }
  }

  // ----- The graph -----

  function Selected(src: Source, caller: Package): set<Package> {
    set i | 0 <= i < |caller.requirements| && Select(src, caller.requirements[i]).Some? :: Select(src, caller.requirements[i]).value
  }

  predicate AllSelect(src: Source, caller: Package) {
    forall i :: 0 <= i < |caller.requirements| ==> Select(src, caller.requirements[i]).Some?
  }

  ghost function Graph(src: Source): Package -> set<Package> {
    p => Selected(src, p)
  }

  ghost predicate InClosure(src: Source, implementation: Package, p: Package) {
    Reachable(Graph(src), {implementation}, p)
  }

  /** Every package in reach can satisfy all its requirements. */
  ghost predicate Closed(src: Source, implementation: Package) {
    forall p :: InClosure(src, implementation, p) ==> AllSelect(src, p)
  }

  /** A finite pool holds everything the walk can meet. */
  ghost predicate Pool(src: Source, implementation: Package, pool: set<Package>) {
    && implementation in pool
    && (forall p :: p in src.loaded ==> p in pool)
    && (forall id, version :: src.resolve(id, version).Some? ==> src.resolve(id, version).value in pool)
  }

  /** A build id determines the artifact among the packages in reach. */
  ghost predicate UniqueBuilds(src: Source, implementation: Package) {
    forall p, q :: InClosure(src, implementation, p) && InClosure(src, implementation, q) && p.build == q.build ==> p == q
  }

  // ----- The walk's choice -----

  lemma {:induction false} FilterMembers(packages: seq<Package>, r: Requirement)
    ensures forall p :: p in AtCoordinates(packages, r) <==> p in packages && SameCoordinates(r, p)
    ensures forall p :: p in Exact(packages, r) <==> p in packages && Matches(r, p)
  {
    if packages != [] {
      FilterMembers(packages[1..], r);
      assert packages == [packages[0]] + packages[1..];
      hide SameCoordinates, Matches;
    }
  }

  lemma {:induction false} FilterConcat(a: seq<Package>, b: seq<Package>, r: Requirement)
    ensures AtCoordinates(a + b, r) == AtCoordinates(a, r) + AtCoordinates(b, r)
    ensures Exact(a + b, r) == Exact(a, r) + Exact(b, r)
  {
    hide SameCoordinates, Matches;
    if a == [] {
      assert a + b == b;
    } else {
      FilterConcat(a[1..], b, r);
      assert (a + b)[1..] == a[1..] + b && (a + b)[0] == a[0];
      var at := if SameCoordinates(r, a[0]) then [a[0]] else [];
      assert at + (AtCoordinates(a[1..], r) + AtCoordinates(b, r)) == at + AtCoordinates(a[1..], r) + AtCoordinates(b, r);
      var ex := if Matches(r, a[0]) then [a[0]] else [];
      assert ex + (Exact(a[1..], r) + Exact(b, r)) == ex + Exact(a[1..], r) + Exact(b, r);
    }
  }

  /** The packages the walk has fetched from the store: each answers its own coordinates,
      which nothing loaded has, and no two share coordinates. */
  ghost predicate Fetched(src: Source, extra: seq<Package>) {
    && (forall i :: 0 <= i < |extra| ==>
          && src.resolve(extra[i].id, extra[i].version) == Some(extra[i])
          && src.valid(extra[i])
          && (forall p :: p in src.loaded ==> p.id != extra[i].id || p.version != extra[i].version))
    && (forall i, j :: 0 <= i < j < |extra| ==> extra[i].id != extra[j].id || extra[i].version != extra[j].version)
  }

  lemma {:induction false} NothingFetchedAt(src: Source, extra: seq<Package>, r: Requirement)
    requires forall i :: 0 <= i < |extra| ==> !SameCoordinates(r, extra[i])
    ensures AtCoordinates(extra, r) == [] && Exact(extra, r) == []
  {
    if extra != [] {
      NothingFetchedAt(src, extra[1..], r);
    }
  }

  lemma {:induction false} OneFetchedAt(src: Source, extra: seq<Package>, r: Requirement, i: nat)
    requires i < |extra| && SameCoordinates(r, extra[i])
    requires forall j :: 0 <= j < |extra| && j != i ==> !SameCoordinates(r, extra[j])
    ensures AtCoordinates(extra, r) == [extra[i]]
    ensures Exact(extra, r) == if Matches(r, extra[i]) then [extra[i]] else []
  {
    if i == 0 {
      NothingFetchedAt(src, extra[1..], r);
    } else {
      OneFetchedAt(src, extra[1..], r, i - 1);
    }
  }

  /** What the walk finds among its candidates agrees with the selection. */
  lemma {:induction false} CandidatesAgree(src: Source, extra: seq<Package>, r: Requirement)
    requires Fetched(src, extra)
    ensures var candidates := src.loaded + extra;
            AtCoordinates(candidates, r) != [] ==>
              Select(src, r) ==
              (if |Exact(candidates, r)| == 1 && src.valid(Exact(candidates, r)[0]) then Some(Exact(candidates, r)[0]) else None)
    ensures AtCoordinates(src.loaded + extra, r) == [] ==> AtCoordinates(src.loaded, r) == []
  {
    FilterConcat(src.loaded, extra, r);
    FilterMembers(src.loaded, r);
    if AtCoordinates(src.loaded, r) != [] {
      var p := AtCoordinates(src.loaded, r)[0];
      assert p in AtCoordinates(src.loaded, r);
      NothingFetchedAt(src, extra, r);
    } else if i :| 0 <= i < |extra| && SameCoordinates(r, extra[i]) {
      OneFetchedAt(src, extra, r, i);
      NoExactWithoutCoordinates(src.loaded, r);
    } else {
      NothingFetchedAt(src, extra, r);
    }
  }

  lemma {:induction false} NoExactWithoutCoordinates(packages: seq<Package>, r: Requirement)
    requires AtCoordinates(packages, r) == []
    ensures Exact(packages, r) == []
  {
    if packages != [] {
      NoExactWithoutCoordinates(packages[1..], r);
    }
  }

  /** One requirement: search the candidates, else ask the store and remember the answer. */
  method Choose(src: Source, candidates: seq<Package>, ghost extra: seq<Package>, r: Requirement)
    returns (chosen: Option<Package>, candidates': seq<Package>, ghost extra': seq<Package>)
    requires candidates == src.loaded + extra && Fetched(src, extra)
    ensures candidates' == src.loaded + extra' && Fetched(src, extra')
    ensures chosen == Select(src, r)
  {
    candidates', extra' := candidates, extra;
    CandidatesAgree(src, extra, r);
    if AtCoordinates(candidates, r) != [] {
      var exact := Exact(candidates, r);
      if |exact| == 1 && src.valid(exact[0]) {
        return Some(exact[0]), candidates', extra';
      }
      return None, candidates', extra';
    }
    var answer := src.resolve(r.id, r.version);
    if answer.None? || !src.valid(answer.value) || !Matches(r, answer.value) {
      return None, candidates', extra';
    }
    var p := answer.value;
    FilterMembers(candidates, r);
    assert forall q :: q in candidates ==> !SameCoordinates(r, q);
    forall i | 0 <= i < |extra|
      ensures extra[i].id != p.id || extra[i].version != p.version
    {
      assert extra[i] in candidates;
    }
    forall q | q in src.loaded
      ensures q.id != p.id || q.version != p.version
    {
      assert q in candidates;
    }
    candidates', extra' := candidates + [p], extra + [p];
    assert candidates' == src.loaded + extra';
    return Some(p), candidates', extra';
  }

  // ----- The walk -----

  /** The packages met so far, by build, without the implementation. */
  ghost predicate Collected(implementation: Package, found: set<Package>, reachable: map<string, Package>) {
    && (forall b :: b in reachable ==> b != implementation.build && reachable[b].build == b && reachable[b] in found)
    && (forall p :: p in found && p.build != implementation.build ==> p.build in reachable)
  }

  lemma SelectedMatches(src: Source, r: Requirement)
    requires Select(src, r).Some?
    ensures Matches(r, Select(src, r).value)
    ensures Select(src, r).value in src.loaded || src.resolve(r.id, r.version) == Select(src, r)
  {
    FilterMembers(src.loaded, r);
    if AtCoordinates(src.loaded, r) != [] {
      assert Exact(src.loaded, r)[0] in Exact(src.loaded, r);
    }
  }

  /** Adds one selected package to the collection and the queue. */
  method Collect(implementation: Package, p: Package, pending: seq<Package>, reachable: map<string, Package>, ghost found: set<Package>)
    returns (pending': seq<Package>, reachable': map<string, Package>)
    requires Collected(implementation, found, reachable)
    ensures pending' == pending + [p]
    ensures Collected(implementation, found + {p}, reachable')
  {
    reachable' := reachable;
    if p.build != implementation.build && p.build !in reachable {
      reachable' := reachable[p.build := p];
    }
    pending' := pending + [p];
  }

  function SelectedUpTo(src: Source, caller: Package, n: nat): set<Package>
    requires n <= |caller.requirements|
  {
    set i | 0 <= i < n && Select(src, caller.requirements[i]).Some? :: Select(src, caller.requirements[i]).value
  }

  lemma SelectedStep(src: Source, caller: Package, n: nat)
    requires n < |caller.requirements| && Select(src, caller.requirements[n]).Some?
    ensures SelectedUpTo(src, caller, n + 1) == SelectedUpTo(src, caller, n) + {Select(src, caller.requirements[n]).value}
  {
    hide Select;
  }

  /** Resolves every requirement of one caller. */
  method Expand(
    src: Source, implementation: Package, caller: Package, candidates: seq<Package>, ghost extra: seq<Package>,
    pending: seq<Package>, reachable: map<string, Package>, ghost found: set<Package>, ghost pool: set<Package>)
    returns (ok: bool, candidates': seq<Package>, ghost extra': seq<Package>, pending': seq<Package>, reachable': map<string, Package>)
    requires Pool(src, implementation, pool) && found <= pool
    requires candidates == src.loaded + extra && Fetched(src, extra)
    requires Collected(implementation, found, reachable)
    ensures candidates' == src.loaded + extra' && Fetched(src, extra')
    ensures ok <==> AllSelect(src, caller)
    ensures ok ==> ToSet(pending') == ToSet(pending) + Selected(src, caller)
    ensures ok ==> Collected(implementation, found + Selected(src, caller), reachable')
    ensures ok ==> Selected(src, caller) <= pool
  {
    hide Select, Fetched;
    candidates', extra', pending', reachable' := candidates, extra, pending, reachable;
    for i := 0 to |caller.requirements|
      invariant candidates' == src.loaded + extra' && Fetched(src, extra')
      invariant forall j :: 0 <= j < i ==> Select(src, caller.requirements[j]).Some?
      invariant ToSet(pending') == ToSet(pending) + SelectedUpTo(src, caller, i)
      invariant SelectedUpTo(src, caller, i) <= pool
      invariant Collected(implementation, found + SelectedUpTo(src, caller, i), reachable')
    {
      var chosen: Option<Package>;
      chosen, candidates', extra' := Choose(src, candidates', extra', caller.requirements[i]);
      if chosen.None? {
        return false, candidates', extra', pending', reachable';
      }
      SelectedMatches(src, caller.requirements[i]);
      SelectedStep(src, caller, i);
      ghost var seen := found + SelectedUpTo(src, caller, i);
      assert seen <= pool;
      ToSetAppend(pending', chosen.value);
      pending', reachable' := Collect(implementation, chosen.value, pending', reachable', seen);
      assert found + SelectedUpTo(src, caller, i + 1) == seen + {chosen.value};
    }
    assert SelectedUpTo(src, caller, |caller.requirements|) == Selected(src, caller);
    return true, candidates', extra', pending', reachable';
  }

  function Builds(packages: set<Package>): set<string> {
    set p | p in packages :: p.build
  }

  /** `seen` is everything ever queued. A package that shares its build with one expanded
      before is passed over, so the frontier is that of the graph only if builds are unique. */
  ghost predicate WalkInv(
    src: Source, implementation: Package, pool: set<Package>, extra: seq<Package>,
    done: set<Package>, todo: set<Package>, seen: set<Package>, visited: set<string>, reachable: map<string, Package>)
  {
    && done + todo <= seen <= pool
    && (forall p :: p in seen ==> InClosure(src, implementation, p))
    && Fetched(src, extra)
    && Collected(implementation, seen, reachable)
    && visited == Builds(done)
    && (forall p :: p in done ==> AllSelect(src, p))
    && (UniqueBuilds(src, implementation) ==>
          seen == done + todo && Frontier(Graph(src), Anything, {implementation}, done, todo))
  }

  /** What the walk returns: packages in reach other than the implementation, one for each
      build; all of them, if builds are unique. */
  ghost predicate WalkResult(src: Source, implementation: Package, closure: seq<Package>) {
    && (forall p :: p in closure ==> InClosure(src, implementation, p) && p.build != implementation.build)
    && (forall p, q :: p in closure && q in closure && p.build == q.build ==> p == q)
    && (UniqueBuilds(src, implementation) ==>
          forall p :: InClosure(src, implementation, p) && p.build != implementation.build ==> p in closure)
  }

  /** The closure walk terminates on every finite pool. It succeeds if every package in
      reach can satisfy its requirements and, where builds are unique, only then; it returns
      the packages in reach except the implementation, ordered by build. */
  method ClosureWalk(implementation: Package, src: Source, ghost pool: set<Package>) returns (r: Option<seq<Package>>)
    requires Pool(src, implementation, pool)
    ensures Closed(src, implementation) ==> r.Some?
    ensures UniqueBuilds(src, implementation) && r.Some? ==> Closed(src, implementation)
    ensures r.Some? ==> WalkResult(src, implementation, r.value)
    ensures r.Some? ==> forall i, j :: 0 <= i < j < |r.value| ==> StringLess(r.value[i].build, r.value[j].build)
  {
    var candidates := src.loaded;
    ghost var extra: seq<Package>, done: set<Package>, seen := [], {}, {implementation};
    var pending := [implementation];
    var visited: set<string> := {};
    var reachable: map<string, Package> := map[];
    WalkStart(src, implementation, pool);
    assert ToSet(pending) == {implementation};
    hide Pool, WalkInv, Frontier, Graph, AllSelect, Fetched;
    while pending != []
      invariant candidates == src.loaded + extra
      invariant WalkInv(src, implementation, pool, extra, done, ToSet(pending), seen, visited, reachable)
      decreases pool - done, |pending|
    {
      var caller := pending[0];
      ghost var todo := ToSet(pending);
      assert pending == [caller] + pending[1..];
      pending := pending[1..];
      assert todo == ToSet(pending) + {caller};
      WalkParts(src, implementation, pool, extra, done, ToSet(pending), seen, visited, reachable, caller);
      if caller.build in visited {
        SkipVisited(src, implementation, pool, extra, done, ToSet(pending), seen, visited, reachable, caller);
        continue;
      }
      ghost var before := ToSet(pending);
      ghost var extra0, reachable0 := extra, reachable;
      var ok: bool;
      ok, candidates, extra, pending, reachable :=
        Expand(src, implementation, caller, candidates, extra, pending, reachable, seen, pool);
      if !ok {
        return None;
      }
      ExpandInv(src, implementation, pool, extra0, extra, done, before, seen, visited, reachable0, reachable, caller);
      done, visited, seen := done + {caller}, visited + {caller.build}, seen + Selected(src, caller);
    }
    assert ToSet(pending) == {};
    var list := ValuesByBuild(reachable);
    WalkEnd(src, implementation, pool, extra, done, seen, visited, reachable, list);
    return Some(list);
  }

  lemma WalkStart(src: Source, implementation: Package, pool: set<Package>)
    requires Pool(src, implementation, pool)
    ensures WalkInv(src, implementation, pool, [], {}, {implementation}, {implementation}, {}, map[])
  {
    FrontierStart(Graph(src), Anything, {implementation});
    RootsReachable(Graph(src), {implementation});
    hide Frontier, Graph;
    var none: set<Package> := {};
    assert none + {implementation} == {implementation};
  }

  lemma WalkParts(
    src: Source, implementation: Package, pool: set<Package>, extra: seq<Package>,
    done: set<Package>, todo: set<Package>, seen: set<Package>, visited: set<string>, reachable: map<string, Package>, caller: Package)
    requires WalkInv(src, implementation, pool, extra, done, todo + {caller}, seen, visited, reachable)
    ensures InClosure(src, implementation, caller) && caller in pool && seen <= pool
    ensures Fetched(src, extra) && Collected(implementation, seen, reachable)
    ensures forall b :: b in reachable ==> reachable[b].build == b
    ensures caller.build !in visited ==> caller !in done
  {
    hide Frontier, Fetched, AllSelect, InClosure;
    assert caller in done + (todo + {caller});
  }

  lemma SkipVisited(
    src: Source, implementation: Package, pool: set<Package>, extra: seq<Package>,
    done: set<Package>, todo: set<Package>, seen: set<Package>, visited: set<string>, reachable: map<string, Package>, caller: Package)
    requires WalkInv(src, implementation, pool, extra, done, todo + {caller}, seen, visited, reachable) && caller.build in visited
    ensures WalkInv(src, implementation, pool, extra, done, todo, seen, visited, reachable)
  {
    hide Frontier, Fetched, AllSelect, InClosure, Collected;
    var p :| p in done && p.build == caller.build;
    assert p in done + (todo + {caller}) && caller in done + (todo + {caller});
    if UniqueBuilds(src, implementation) {
      assert p == caller;
      FrontierSkip(Graph(src), Anything, {implementation}, done, todo, caller);
      assert done + (todo + {caller}) == done + todo;
    }
  }

  lemma ExpandInv(
    src: Source, implementation: Package, pool: set<Package>, extra0: seq<Package>, extra: seq<Package>,
    done: set<Package>, todo: set<Package>, seen: set<Package>, visited: set<string>,
    reachable0: map<string, Package>, reachable: map<string, Package>, caller: Package)
    requires WalkInv(src, implementation, pool, extra0, done, todo + {caller}, seen, visited, reachable0)
    requires Selected(src, caller) <= pool && Fetched(src, extra) && AllSelect(src, caller)
    requires Collected(implementation, seen + Selected(src, caller), reachable)
    ensures WalkInv(src, implementation, pool, extra, done + {caller}, todo + Selected(src, caller), seen + Selected(src, caller),
                    visited + {caller.build}, reachable)
  {
    hide Frontier, Fetched, AllSelect, Selected, Collected, Graph, Builds, InClosure, UniqueBuilds;
    var next := Selected(src, caller);
    SetAlgebra(done, todo, caller, next);
    assert caller in done + (todo + {caller});
    SelectedReachable(src, implementation, caller);
    if UniqueBuilds(src, implementation) {
      ExpandFrontier(src, implementation, done, todo, caller);
    }
    assert forall p :: p in done + {caller} ==> AllSelect(src, p);
  }

  lemma SelectedReachable(src: Source, implementation: Package, caller: Package)
    requires InClosure(src, implementation, caller)
    ensures forall p :: p in Selected(src, caller) ==> InClosure(src, implementation, p)
  {
    hide Selected;
    EdgesReachable(Graph(src), {implementation}, caller, Selected(src, caller));
  }

  lemma WalkEnd(
    src: Source, implementation: Package, pool: set<Package>, extra: seq<Package>,
    done: set<Package>, seen: set<Package>, visited: set<string>, reachable: map<string, Package>, list: seq<Package>)
    requires WalkInv(src, implementation, pool, extra, done, {}, seen, visited, reachable)
    requires forall p :: p in list <==> p.build in reachable && reachable[p.build] == p
    ensures WalkResult(src, implementation, list)
    ensures UniqueBuilds(src, implementation) ==> Closed(src, implementation)
  {
    hide Frontier, Fetched, AllSelect, Reachable, Builds;
    assert done + {} == done;
    if UniqueBuilds(src, implementation) {
      FrontierComplete(Graph(src), Anything, {implementation}, done);
      forall p | InClosure(src, implementation, p)
        ensures p in done
      {
      }
      hide InClosure, Graph;
      forall p | InClosure(src, implementation, p) && p.build != implementation.build
        ensures p in list
      {
        assert p.build in reachable && reachable[p.build] in seen;
      }
    }
  }

  lemma ExpandFrontier(src: Source, implementation: Package, done: set<Package>, todo: set<Package>, caller: Package)
    requires Frontier(Graph(src), Anything, {implementation}, done, todo + {caller})
    ensures Frontier(Graph(src), Anything, {implementation}, done + {caller}, todo + Selected(src, caller))
  {
    hide Frontier, Selected;
    FrontierExpand(Graph(src), Anything, {implementation}, done, todo, caller, Selected(src, caller));
  }

  lemma SetAlgebra(done: set<Package>, todo: set<Package>, caller: Package, next: set<Package>)
    ensures (done + {caller}) + (todo + next) == done + (todo + {caller}) + next
    ensures Builds(done + {caller}) == Builds(done) + {caller.build}
  {
    forall b | b in Builds(done) + {caller.build}
      ensures b in Builds(done + {caller})
    {
      if b in Builds(done) {
        var p :| p in done && p.build == b;
        assert p in done + {caller};
      } else {
        assert caller in done + {caller};
      }
    }
  }

  /** The values of a map in key order. */
  method ValuesByBuild(m: map<string, Package>) returns (r: seq<Package>)
    requires forall b :: b in m ==> m[b].build == b
    ensures forall p :: p in r <==> p.build in m && m[p.build] == p
    ensures forall i, j :: 0 <= i < j < |r| ==> StringLess(r[i].build, r[j].build)
  {
    hide StrictTotalOrder, StringLess, Arrange;
    StringLessIsOrder();
    ArrangeSorted(m.Keys, StringLess);
    var keys := SortedList(m.Keys, StringLess);
    assert forall i :: 0 <= i < |keys| ==> keys[i] in m;
    r := seq(|keys|, i requires 0 <= i < |keys| => m[keys[i]]);
    ValuesOf(m, keys, r);
  }

  lemma ValuesOf(m: map<string, Package>, keys: seq<string>, r: seq<Package>)
    requires forall b :: b in m ==> m[b].build == b
    requires forall b :: b in keys <==> b in m
    requires |r| == |keys| && forall i :: 0 <= i < |keys| ==> r[i] == m[keys[i]]
    ensures forall p :: p in r <==> p.build in m && m[p.build] == p
  {
    forall p: Package | p.build in m && m[p.build] == p
      ensures p in r
    {
      var i :| 0 <= i < |keys| && keys[i] == p.build;
      assert r[i] == p;
    }
  }

  // ----- The binding pass -----

  datatype Binding = Binding(callerBuild: string, alias: string, package: Package)

  function FindFirst(packages: seq<Package>, r: Requirement): Option<Package> {
    if packages == [] then None
    else if Matches(r, packages[0]) then Some(packages[0])
    else FindFirst(packages[1..], r)
  }

  lemma {:induction false} FindFirstSpec(packages: seq<Package>, r: Requirement)
    ensures FindFirst(packages, r).Some? <==> exists p :: p in packages && Matches(r, p)
    ensures FindFirst(packages, r).Some? ==> FindFirst(packages, r).value in packages && Matches(r, FindFirst(packages, r).value)
  {
    if packages != [] {
      FindFirstSpec(packages[1..], r);
      assert packages == [packages[0]] + packages[1..];
    }
  }

  lemma {:induction false} FindFirstConcat(a: seq<Package>, b: seq<Package>, r: Requirement)
    ensures FindFirst(a + b, r) == if FindFirst(a, r).Some? then FindFirst(a, r) else FindFirst(b, r)
  {
    if a == [] {
      assert a + b == b;
    } else {
      FindFirstConcat(a[1..], b, r);
      assert (a + b)[1..] == a[1..] + b && (a + b)[0] == a[0];
    }
  }

  /** The admitted artifact with the package's build and content. */
  function Admitted(p: Package, implementation: Package, closure: seq<Package>): Option<Package> {
    if p.build == implementation.build then if implementation == p then Some(implementation) else None
    else if p in closure then Some(p)
    else None
  }

  /** `closure` is what the walk returns. */
  ghost predicate IsClosure(src: Source, implementation: Package, closure: seq<Package>) {
    && Closed(src, implementation)
    && forall p :: p in closure <==> InClosure(src, implementation, p) && p.build != implementation.build
  }

  /** No requirement is answered by two packages that are selected. */
  lemma ChoiceUnique(src: Source, r: Requirement, r': Requirement)
    requires Select(src, r).Some? && Select(src, r').Some? && Matches(r, Select(src, r').value)
    ensures Select(src, r) == Select(src, r')
  {
    var p := Select(src, r').value;
    SelectedMatches(src, r');
    FilterMembers(src.loaded, r);
    FilterMembers(src.loaded, r');
    assert forall q :: SameCoordinates(r, q) <==> SameCoordinates(r', q);
    if AtCoordinates(src.loaded, r) != [] {
      var q := AtCoordinates(src.loaded, r)[0];
      assert q in AtCoordinates(src.loaded, r);
      assert q in AtCoordinates(src.loaded, r');
      assert p == Exact(src.loaded, r')[0] && p in Exact(src.loaded, r');
      assert p in Exact(src.loaded, r);
      assert Exact(src.loaded, r) == [Exact(src.loaded, r)[0]];
    } else {
      assert forall q :: q in AtCoordinates(src.loaded, r') ==> q in AtCoordinates(src.loaded, r);
      assert AtCoordinates(src.loaded, r') == [];
    }
  }

  /** A package in the closure other than the implementation was selected by someone in it. */
  lemma {:induction false} SelectedBySomeone(src: Source, implementation: Package, p: Package) returns (caller: Package, i: nat)
    requires InClosure(src, implementation, p) && p != implementation
    ensures InClosure(src, implementation, caller) && i < |caller.requirements| && Select(src, caller.requirements[i]) == Some(p)
  {
    var path :| IsPath(Graph(src), {implementation}, path, p);
    assert |path| > 1;
    caller := path[|path| - 2];
    var before := path[..|path| - 1];
    assert IsPath(Graph(src), {implementation}, before, caller);
    assert path[|path| - 2 + 1] in Graph(src)(caller);
    assert p in Selected(src, caller);
    i :| 0 <= i < |caller.requirements| && Select(src, caller.requirements[i]) == Some(p);
  }

  /** The binding pass finds, for every requirement of every caller in the closure, the
      very package the walk selected for it, and that package has been admitted. */
  lemma BindingAgrees(src: Source, implementation: Package, closure: seq<Package>, caller: Package, i: nat)
    requires UniqueBuilds(src, implementation) && IsClosure(src, implementation, closure)
    requires caller in closure + [implementation] && i < |caller.requirements|
    ensures var r := caller.requirements[i];
            && Select(src, r).Some?
            && FindFirst(closure + [implementation], r) == Select(src, r)
            && Admitted(Select(src, r).value, implementation, closure) == Select(src, r)
  {
    var r := caller.requirements[i];
    hide Select, Matches, FindFirst, Graph, InClosure, UniqueBuilds;
    CallerInClosure(src, implementation, closure, caller);
    assert AllSelect(src, caller);
    var p := Select(src, r).value;
    SelectedMatches(src, r);
    SelectedInClosure(src, implementation, caller, i);
    FindFirstConcat(closure, [implementation], r);
    FindFirstSpec(closure, r);
    FindFirstSpec([implementation], r);
    SameBuild(src, implementation, p);
    if FindFirst(closure, r).Some? {
      var q := FindFirst(closure, r).value;
      var caller', i' := SelectedBySomeone(src, implementation, q);
      ChoiceUnique(src, r, caller'.requirements[i']);
    } else {
      assert p !in closure;
      assert p in [implementation];
    }
  }

  lemma CallerInClosure(src: Source, implementation: Package, closure: seq<Package>, caller: Package)
    requires IsClosure(src, implementation, closure) && caller in closure + [implementation]
    ensures InClosure(src, implementation, caller)
  {
    RootsReachable(Graph(src), {implementation});
  }

  lemma SelectedInClosure(src: Source, implementation: Package, caller: Package, i: nat)
    requires InClosure(src, implementation, caller) && i < |caller.requirements| && Select(src, caller.requirements[i]).Some?
    ensures InClosure(src, implementation, Select(src, caller.requirements[i]).value)
  {
    hide Select;
    EdgeReachable(Graph(src), {implementation}, caller, Select(src, caller.requirements[i]).value);
  }

  lemma SameBuild(src: Source, implementation: Package, p: Package)
    requires UniqueBuilds(src, implementation) && InClosure(src, implementation, p)
    ensures p.build == implementation.build ==> p == implementation
  {
    RootsReachable(Graph(src), {implementation});
  }

  /** One binding per requirement of each caller, in order. */
  function CallerBindings(src: Source, caller: Package, n: nat): seq<Binding>
    requires n <= |caller.requirements| && AllSelect(src, caller)
  {
    if n == 0 then []
    else CallerBindings(src, caller, n - 1)
         + [Binding(caller.build, caller.requirements[n - 1].alias, Select(src, caller.requirements[n - 1]).value)]
  }

  function AllBindings(src: Source, callers: seq<Package>): seq<Binding>
    requires forall p :: p in callers ==> AllSelect(src, p)
  {
    if callers == [] then []
    else AllBindings(src, callers[..|callers| - 1])
         + CallerBindings(src, callers[|callers| - 1], |callers[|callers| - 1].requirements|)
  }

  /** The binding is that of the requirement, and its package the first that answers it. */
  ghost predicate Serves(packages: seq<Package>, b: Binding, caller: Package, r: Requirement) {
    && b.callerBuild == caller.build
    && b.alias == r.alias
    && exists k :: 0 <= k < |packages| && packages[k] == b.package && Answers(r, b.package) &&
         forall j :: 0 <= j < k ==> !Answers(r, packages[j])
  }

  /** No package answers the requirement, or one does that has the implementation's build
      and is not the implementation. */
  ghost predicate Unbound(packages: seq<Package>, implementation: Package, r: Requirement) {
    || (forall p :: p in packages ==> !Answers(r, p))
    || (exists p :: p in packages && Answers(r, p) && p.build == implementation.build && p != implementation)
  }

  lemma {:induction false} FirstAnswer(packages: seq<Package>, r: Requirement)
    requires FindFirst(packages, r).Some?
    ensures exists k :: 0 <= k < |packages| && packages[k] == FindFirst(packages, r).value && Answers(r, packages[k]) &&
              forall j :: 0 <= j < k ==> !Answers(r, packages[j])
  {
    MatchesExactly(r, packages[0]);
    hide Answers;
    if !Matches(r, packages[0]) {
      FirstAnswer(packages[1..], r);
      var k :| 0 <= k < |packages[1..]| && packages[1..][k] == FindFirst(packages[1..], r).value && Answers(r, packages[1..][k]) &&
        forall j :: 0 <= j < k ==> !Answers(r, packages[1..][j]);
      forall j | 0 <= j < k + 1
        ensures !Answers(r, packages[j])
      {
        assert j > 0 ==> packages[j] == packages[1..][j - 1];
      }
      assert packages[k + 1] == packages[1..][k];
    }
  }

  /** Why a requirement cannot be bound. */
  lemma UnboundExactly(implementation: Package, closure: seq<Package>, r: Requirement)
    requires var found := FindFirst(closure + [implementation], r);
             found.None? || Admitted(found.value, implementation, closure).None?
    ensures Unbound(closure + [implementation], implementation, r)
  {
    var packages := closure + [implementation];
    FindFirstSpec(packages, r);
    forall p
      ensures Matches(r, p) <==> Answers(r, p)
    {
      MatchesExactly(r, p);
    }
    hide Matches, Answers;
  }

  ghost predicate HasBinding(packages: seq<Package>, bindings: seq<Binding>, caller: Package, r: Requirement) {
    exists b :: b in bindings && Serves(packages, b, caller, r)
  }

  ghost predicate IsWanted(packages: seq<Package>, b: Binding) {
    exists caller, i :: caller in packages && 0 <= i < |caller.requirements| && Serves(packages, b, caller, caller.requirements[i])
  }

  /** Binds one requirement to the first package that answers it. */
  method BindOne(implementation: Package, closure: seq<Package>, caller: Package, r: Requirement)
    returns (binding: Option<Binding>)
    ensures binding.Some? ==> Serves(closure + [implementation], binding.value, caller, r)
    ensures binding.None? ==> Unbound(closure + [implementation], implementation, r)
    ensures binding == (
      var found := FindFirst(closure + [implementation], r);
      if found.Some? && Admitted(found.value, implementation, closure).Some?
      then Some(Binding(caller.build, r.alias, Admitted(found.value, implementation, closure).value))
      else None)
  {
    hide Answers, FindFirst;
    var found := FindFirst(closure + [implementation], r);
    if found.None? || Admitted(found.value, implementation, closure).None? {
      UnboundExactly(implementation, closure, r);
      return None;
    }
    FirstAnswer(closure + [implementation], r);
    binding := Some(Binding(caller.build, r.alias, Admitted(found.value, implementation, closure).value));
  }

  /** Binds the requirements of one caller, in order. */
  method BindCaller(implementation: Package, closure: seq<Package>, caller: Package, ghost src: Source)
    returns (r: Option<seq<Binding>>)
    ensures r.Some? ==>
              && |r.value| == |caller.requirements|
              && forall i :: 0 <= i < |r.value| ==> Serves(closure + [implementation], r.value[i], caller, caller.requirements[i])
    ensures r.None? ==> exists i ::
              0 <= i < |caller.requirements| && Unbound(closure + [implementation], implementation, caller.requirements[i])
    ensures UniqueBuilds(src, implementation) && IsClosure(src, implementation, closure) && caller in closure + [implementation] ==>
              && AllSelect(src, caller)
              && r == Some(CallerBindings(src, caller, |caller.requirements|))
  {
    hide Select, UniqueBuilds, FindFirst, Admitted, IsClosure, Serves, Unbound;
    ghost var walked := UniqueBuilds(src, implementation) && IsClosure(src, implementation, closure) && caller in closure + [implementation];
    if walked {
      CallerSelects(src, implementation, closure, caller);
    }
    hide AllSelect;
    var bindings: seq<Binding> := [];
    for i := 0 to |caller.requirements|
      invariant |bindings| == i
      invariant walked ==> bindings == CallerBindings(src, caller, i)
      invariant forall k :: 0 <= k < i ==> Serves(closure + [implementation], bindings[k], caller, caller.requirements[k])
    {
      if walked {
        BindingAgrees(src, implementation, closure, caller, i);
      }
      var binding := BindOne(implementation, closure, caller, caller.requirements[i]);
      if binding.None? {
        return None;
      }
      bindings := bindings + [binding.value];
    }
    return Some(bindings);
  }

  /** Binds every requirement of every caller to the first package of the closure that
      answers it, or reports one that cannot be bound. After a walk over packages with unique
      builds it never reports one, and binds each to the package the walk selected. */
  method BindPackages(implementation: Package, closure: seq<Package>, ghost src: Source)
    returns (r: Option<seq<Binding>>)
    ensures r.Some? ==> forall b :: b in r.value ==> IsWanted(closure + [implementation], b)
    ensures r.Some? ==> forall caller, i :: caller in closure + [implementation] && 0 <= i < |caller.requirements| ==>
              HasBinding(closure + [implementation], r.value, caller, caller.requirements[i])
    ensures r.None? ==> exists caller, i :: (
              && caller in closure + [implementation] && 0 <= i < |caller.requirements|
              && Unbound(closure + [implementation], implementation, caller.requirements[i]))
    ensures UniqueBuilds(src, implementation) && IsClosure(src, implementation, closure) ==>
              && (forall p :: p in closure + [implementation] ==> AllSelect(src, p))
              && r == Some(AllBindings(src, closure + [implementation]))
  {
    hide UniqueBuilds, IsClosure, Serves, Unbound, AllSelect, HasBinding, IsWanted, CallerBindings;
    var callers := closure + [implementation];
    ghost var walked := UniqueBuilds(src, implementation) && IsClosure(src, implementation, closure);
    if walked {
      CallersSelect(src, implementation, closure);
    }
    var bindings: seq<Binding> := [];
    for c := 0 to |callers|
      invariant walked ==> bindings == AllBindings(src, callers[..c])
      invariant forall b :: b in bindings ==> IsWanted(callers, b)
      invariant forall k, i :: 0 <= k < c && 0 <= i < |callers[k].requirements| ==> HasBinding(callers, bindings, callers[k], callers[k].requirements[i])
    {
      var caller := callers[c];
      ghost var before := bindings;
      assert caller in callers;
      var bound := BindCaller(implementation, closure, caller, src);
      if bound.None? {
        return None;
      }
      bindings := bindings + bound.value;
      Wanted(callers, caller, bound.value);
      BoundStays(callers, c, before, bindings);
      BoundNow(callers, caller, before, bound.value);
      assert callers[..c + 1][..c] == callers[..c];
    }
    assert callers[..|callers|] == callers;
    AllCallers(callers, bindings);
    return Some(bindings);
  }

  lemma Wanted(callers: seq<Package>, caller: Package, bound: seq<Binding>)
    requires caller in callers && |bound| == |caller.requirements|
    requires forall i :: 0 <= i < |bound| ==> Serves(callers, bound[i], caller, caller.requirements[i])
    ensures forall b :: b in bound ==> IsWanted(callers, b)
  {
    hide Serves;
  }

  lemma BoundNow(callers: seq<Package>, caller: Package, before: seq<Binding>, bound: seq<Binding>)
    requires |bound| == |caller.requirements|
    requires forall i :: 0 <= i < |bound| ==> Serves(callers, bound[i], caller, caller.requirements[i])
    ensures forall i :: 0 <= i < |bound| ==> HasBinding(callers, before + bound, caller, caller.requirements[i])
  {
    hide Serves;
    forall i | 0 <= i < |bound|
      ensures HasBinding(callers, before + bound, caller, caller.requirements[i])
    {
      assert bound[i] in before + bound;
    }
  }

  lemma BoundStays(callers: seq<Package>, c: nat, before: seq<Binding>, after: seq<Binding>)
    requires c < |callers| && before <= after
    requires forall k, i :: 0 <= k < c && 0 <= i < |callers[k].requirements| ==> HasBinding(callers, before, callers[k], callers[k].requirements[i])
    ensures forall k, i :: 0 <= k < c && 0 <= i < |callers[k].requirements| ==> HasBinding(callers, after, callers[k], callers[k].requirements[i])
  {
    hide Serves;
    forall k, i | 0 <= k < c && 0 <= i < |callers[k].requirements|
      ensures HasBinding(callers, after, callers[k], callers[k].requirements[i])
    {
      assert HasBinding(callers, before, callers[k], callers[k].requirements[i]);
      var x :| x in before && Serves(callers, x, callers[k], callers[k].requirements[i]);
      assert x in after;
    }
  }

  lemma AllCallers(callers: seq<Package>, bindings: seq<Binding>)
    requires forall k, i :: 0 <= k < |callers| && 0 <= i < |callers[k].requirements| ==>
               HasBinding(callers, bindings, callers[k], callers[k].requirements[i])
    ensures forall caller, i :: caller in callers && 0 <= i < |caller.requirements| ==>
              HasBinding(callers, bindings, caller, caller.requirements[i])
  {
    hide HasBinding;
  }

  lemma CallersSelect(src: Source, implementation: Package, closure: seq<Package>)
    requires IsClosure(src, implementation, closure)
    ensures forall p :: p in closure + [implementation] ==> AllSelect(src, p)
  {
    forall p | p in closure + [implementation]
      ensures AllSelect(src, p)
    {
      CallerSelects(src, implementation, closure, p);
    }
  }

  lemma CallerSelects(src: Source, implementation: Package, closure: seq<Package>, caller: Package)
    requires IsClosure(src, implementation, closure) && caller in closure + [implementation]
    ensures AllSelect(src, caller)
  {
    CallerInClosure(src, implementation, closure, caller);
  }

  // ----- Shared builds -----

  /** Every requirement in reach is bound to the package it selects. */
  ghost predicate AllBound(src: Source, implementation: Package, closure: seq<Package>) {
    forall caller: Package, i: nat :: InClosure(src, implementation, caller) && i < |caller.requirements| ==>
      FindFirst(closure + [implementation], caller.requirements[i]) == Select(src, caller.requirements[i])
  }

  /** The build preimage leaves out version labels, so two packages can share a build. With
      what the walk returns, every requirement is bound to the package it selects exactly if
      no two packages in reach do. */
  lemma BindingExactly(src: Source, implementation: Package, closure: seq<Package>)
    requires Closed(src, implementation) && WalkResult(src, implementation, closure)
    ensures AllBound(src, implementation, closure) <==> UniqueBuilds(src, implementation)
  {
    hide Select, FindFirst, InClosure, Closed;
    if UniqueBuilds(src, implementation) {
      forall caller: Package, i: nat | InClosure(src, implementation, caller) && i < |caller.requirements|
        ensures FindFirst(closure + [implementation], caller.requirements[i]) == Select(src, caller.requirements[i])
      {
        SameBuild(src, implementation, caller);
        assert caller in closure + [implementation];
        BindingAgrees(src, implementation, closure, caller, i);
      }
    }
    if AllBound(src, implementation, closure) {
      forall p, q | InClosure(src, implementation, p) && InClosure(src, implementation, q) && p.build == q.build
        ensures p == q
      {
        BoundIsListed(src, implementation, closure, p);
        BoundIsListed(src, implementation, closure, q);
      }
    }
  }

  /** A package that some requirement is bound to is listed. */
  lemma BoundIsListed(src: Source, implementation: Package, closure: seq<Package>, p: Package)
    requires AllBound(src, implementation, closure) && InClosure(src, implementation, p)
    ensures p == implementation || p in closure
  {
    if p != implementation {
      var caller, i := SelectedBySomeone(src, implementation, p);
      hide Select, FindFirst, InClosure;
      FindFirstSpec(closure + [implementation], caller.requirements[i]);
    }
  }

  const LIB1 := Package("lib", "1", "abi", "shared", [], "content")
  const LIB2 := Package("lib", "2", "abi", "shared", [], "content")
  const NEEDS1 := Requirement("one", "lib", "1", "abi", None)
  const NEEDS2 := Requirement("two", "lib", "2", "abi", None)
  const APP := Package("app", "1", "abi", "app", [NEEDS1, NEEDS2], "content")
  const RELABELLED := Source([LIB1, LIB2], (id, version) => None, p => true)

  /** A service that needs two labels of one build: the walk succeeds, and whatever it
      returns leaves a requirement without the package it selects. */
  lemma RelabelledUnbound()
    ensures Pool(RELABELLED, APP, {APP, LIB1, LIB2}) && Closed(RELABELLED, APP)
    ensures forall closure :: WalkResult(RELABELLED, APP, closure) ==> !AllBound(RELABELLED, APP, closure)
  {
    RelabelledReach();
    assert Pool(RELABELLED, APP, {APP, LIB1, LIB2});
    hide RELABELLED, Graph, Select;
    forall closure | WalkResult(RELABELLED, APP, closure)
      ensures !AllBound(RELABELLED, APP, closure)
    {
      BindingExactly(RELABELLED, APP, closure);
    }
  }

  lemma RelabelledSelects()
    ensures Select(RELABELLED, NEEDS1) == Some(LIB1) && Select(RELABELLED, NEEDS2) == Some(LIB2)
    ensures Selected(RELABELLED, APP) == {LIB1, LIB2} && AllSelect(RELABELLED, APP)
    ensures Selected(RELABELLED, LIB1) == {} && Selected(RELABELLED, LIB2) == {}
  {
    assert [LIB1] + [LIB2] == RELABELLED.loaded;
    FilterConcat([LIB1], [LIB2], NEEDS1);
    FilterConcat([LIB1], [LIB2], NEEDS2);
    FilterOne(LIB1, NEEDS1);
    FilterOne(LIB2, NEEDS1);
    FilterOne(LIB1, NEEDS2);
    FilterOne(LIB2, NEEDS2);
    LabelsDiffer();
    hide AtCoordinates, Exact;
    assert Select(RELABELLED, NEEDS1) == Some(LIB1) && Select(RELABELLED, NEEDS2) == Some(LIB2);
    hide Select;
    assert APP.requirements[0] == NEEDS1 && APP.requirements[1] == NEEDS2;
  }

  lemma FilterOne(p: Package, r: Requirement)
    ensures AtCoordinates([p], r) == if SameCoordinates(r, p) then [p] else []
    ensures Exact([p], r) == if Matches(r, p) then [p] else []
  {
    assert [p][1..] == [];
  }

  lemma LabelsDiffer()
    ensures SameCoordinates(NEEDS1, LIB1) && Matches(NEEDS1, LIB1) && !SameCoordinates(NEEDS1, LIB2)
    ensures SameCoordinates(NEEDS2, LIB2) && Matches(NEEDS2, LIB2) && !SameCoordinates(NEEDS2, LIB1)
  {
    assert "1"[0] != "2"[0];
  }

  lemma RelabelledReach()
    ensures Closed(RELABELLED, APP) && !UniqueBuilds(RELABELLED, APP)
  {
    RelabelledSelects();
    var g := Graph(RELABELLED);
    assert g(APP) == {LIB1, LIB2} && g(LIB1) == {} && g(LIB2) == {};
    hide RELABELLED, Graph, Selected, Select;
    RootsReachable(g, {APP});
    EdgeReachable(g, {APP}, APP, LIB1);
    EdgeReachable(g, {APP}, APP, LIB2);
    ReachableInClosedSet(g, {APP}, iset{APP, LIB1, LIB2});
    assert InClosure(RELABELLED, APP, LIB1) && InClosure(RELABELLED, APP, LIB2);
    assert forall p :: InClosure(RELABELLED, APP, p) ==> AllSelect(RELABELLED, p);
  }

  // ----- What a successful walk and binding mean -----

  /** Every requirement of every package in reach is answered by a package in reach. */
  ghost predicate AllAnswered(src: Source, implementation: Package) {
    forall caller, i :: InClosure(src, implementation, caller) && 0 <= i < |caller.requirements| ==>
      exists p :: InClosure(src, implementation, p) && IsChoice(src, caller.requirements[i], p)
  }

  /** The walk over packages with unique builds succeeds exactly in that case. */
  lemma ClosedExactly(src: Source, implementation: Package)
    ensures Closed(src, implementation) <==> AllAnswered(src, implementation)
  {
    hide InClosure, Select, IsChoice;
    if Closed(src, implementation) {
      forall caller: Package, i | InClosure(src, implementation, caller) && 0 <= i < |caller.requirements|
        ensures exists p :: InClosure(src, implementation, p) && IsChoice(src, caller.requirements[i], p)
      {
        assert AllSelect(src, caller);
        var p := Select(src, caller.requirements[i]).value;
        SelectExactly(src, caller.requirements[i], p);
        SelectedInClosure(src, implementation, caller, i);
      }
    }
    if AllAnswered(src, implementation) {
      forall caller, i | InClosure(src, implementation, caller) && 0 <= i < |caller.requirements|
        ensures Select(src, caller.requirements[i]).Some?
      {
        var p :| InClosure(src, implementation, p) && IsChoice(src, caller.requirements[i], p);
        SelectExactly(src, caller.requirements[i], p);
      }
    }
  }

  /** A package that is in reach is there because some package in reach asks for it. */
  lemma ReachAsked(src: Source, implementation: Package, p: Package) returns (caller: Package, i: nat)
    requires InClosure(src, implementation, p) && p != implementation
    ensures InClosure(src, implementation, caller) && i < |caller.requirements| && IsChoice(src, caller.requirements[i], p)
  {
    caller, i := SelectedBySomeone(src, implementation, p);
    SelectExactly(src, caller.requirements[i], p);
  }

  /** Every package of the requirement's coordinates has another local ABI. */
  ghost predicate OtherAbis(src: Source, r: Requirement) {
    && (forall p :: p in src.loaded && p.id == r.id && p.version == r.version ==> p.localAbi != r.localAbi)
    && (forall p :: src.resolve(r.id, r.version) == Some(p) ==> p.localAbi != r.localAbi)
  }

  lemma OtherAbiOpen(src: Source, implementation: Package, caller: Package, i: nat)
    requires InClosure(src, implementation, caller) && i < |caller.requirements| && OtherAbis(src, caller.requirements[i])
    ensures !Closed(src, implementation)
  {
    OtherAbiNotSelected(src, caller.requirements[i]);
    hide Select, InClosure;
    assert !AllSelect(src, caller);
  }

  /** One such requirement in reach makes the walk fail. */
  method OtherAbiFails(implementation: Package, src: Source, ghost pool: set<Package>, ghost caller: Package, ghost i: nat)
    returns (r: Option<seq<Package>>)
    requires Pool(src, implementation, pool) && UniqueBuilds(src, implementation)
    requires InClosure(src, implementation, caller) && i < |caller.requirements| && OtherAbis(src, caller.requirements[i])
    ensures r.None?
  {
    r := ClosureWalk(implementation, src, pool);
    OtherAbiOpen(src, implementation, caller, i);
  }
}
