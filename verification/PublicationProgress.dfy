/** What a publisher that returns has achieved: its records are in the store, and each of
    its pointers named them at some moment of the run, one after another. */
module PublicationProgress {
  import opened Wrappers
  import opened Publication

  // ----- What was achieved so far -----

  /** The pointer had this target in some state up to `i`. */
  ghost predicate WasAt(run: seq<State>, i: nat, key: PointerKey, t: Target, j: nat) {
    j <= i < |run| && Current(run[j].store, key) == Some(t)
  }

  /** All moves were made by state `i`, in this order. */
  ghost predicate Done(run: seq<State>, i: nat, moves: seq<Move>)
    decreases |moves|
  {
    moves == [] ||
    var last := moves[|moves| - 1];
    exists j :: WasAt(run, i, last.key, last.candidate, j) && Done(run, j, moves[..|moves| - 1])
  }

  ghost predicate PackageStored(s: Store, plan: Plan) {
    PackageAt(plan.package) in s.records && s.records[PackageAt(plan.package)] == PackageRecord(plan.package, plan.parts)
  }

  /** A deployment of the plan's own service, run by its own package. */
  ghost predicate DeploymentFor(plan: Plan, d: Record) {
    && d.DeploymentRecord?
    && plan.service == Some(d.uses)
    && d.implementation == plan.package
    && d.deployment.serviceId == d.uses.serviceId && d.deployment.version == d.uses.version
  }

  ghost predicate DeploymentStored(s: Store, plan: Plan, d: Option<Record>) {
    && (d.Some? <==> plan.service.Some?)
    && (d.Some? ==>
          && DeploymentFor(plan, d.value)
          && HasContract(s, plan.service.value)
          && DeploymentAt(d.value.deployment) in s.records && s.records[DeploymentAt(d.value.deployment)] == d.value)
  }

  /** Some of the plan's moves have been made and these are left. */
  ghost predicate Underway(run: seq<State>, i: nat, plan: Plan, left: seq<Move>)
    requires i < |run|
  {
    && PackageStored(run[i].store, plan)
    && exists d: Option<Record>, made: seq<Move> ::
         DeploymentStored(run[i].store, plan, d) && Moves(plan, d) == made + left && Done(run, i, made)
  }

  /** The seeder has seen no pointer, or one that names its candidate. */
  ghost predicate Looked(run: seq<State>, i: nat, candidate: PackageRef) {
    exists j: nat :: j <= i < |run| && Seen(run, j, candidate)
  }

  ghost predicate Seen(run: seq<State>, j: nat, candidate: PackageRef) {
    j < |run| && Current(run[j].store, PackagePointer(candidate.id, candidate.version)) in {None, Some(ToPackage(candidate))}
  }

  ghost predicate Progress(run: seq<State>, i: nat, c: Client)
    requires i < |run|
  {
    var s := run[i].store;
    match c
    case WritingContract(plan, _) => PackageStored(s, plan) && plan.service.Some?
    case Resolving(plan, _) => PackageStored(s, plan) && plan.service.Some? && HasContract(s, plan.service.value)
    case WritingDeployment(plan, d) => PackageStored(s, plan) && DeploymentFor(plan, d) && HasContract(s, plan.service.value)
    case Swinging(plan, moves) => Underway(run, i, plan, moves)
    case Swapping(plan, moves, _) => Underway(run, i, plan, moves)
    case Published(plan) => Underway(run, i, plan, [])
    case SeedingParts(candidate, _, _, _) => Looked(run, i, candidate)
    case SeedingPackage(candidate, _, _) => Looked(run, i, candidate)
    case SeedSwapping(candidate) => Looked(run, i, candidate)
    case SeedChecking(candidate) => Looked(run, i, candidate)
    case Seeded(candidate) => Looked(run, i, candidate)
    case _ => true
  }

  // ----- Time passes -----

  lemma {:induction false} DoneLater(run: seq<State>, i: nat, j: nat, moves: seq<Move>)
    requires i <= j < |run| && Done(run, i, moves)
    ensures Done(run, j, moves)
  {
    if moves != [] {
      var last := moves[|moves| - 1];
      var k :| WasAt(run, i, last.key, last.candidate, k) && Done(run, k, moves[..|moves| - 1]);
      assert WasAt(run, j, last.key, last.candidate, k);
    }
  }

  lemma StoredLater(s: Store, s': Store, plan: Plan)
    requires Grows(s, s')
    ensures PackageStored(s, plan) ==> PackageStored(s', plan)
    ensures forall d :: DeploymentStored(s, plan, d) ==> DeploymentStored(s', plan, d)
    ensures forall r :: HasContract(s, r) ==> HasContract(s', r)
  {
  }

  lemma UnderwayLater(run: seq<State>, i: nat, plan: Plan, left: seq<Move>)
    requires i + 1 < |run| && Grows(run[i].store, run[i + 1].store) && Underway(run, i, plan, left)
    ensures Underway(run, i + 1, plan, left)
  {
    StoredLater(run[i].store, run[i + 1].store, plan);
    var d: Option<Record>, made: seq<Move> :|
      DeploymentStored(run[i].store, plan, d) && Moves(plan, d) == made + left && Done(run, i, made);
    DoneLater(run, i, i + 1, made);
  }

  lemma ProgressLater(run: seq<State>, i: nat, c: Client)
    requires i + 1 < |run| && Grows(run[i].store, run[i + 1].store) && Progress(run, i, c)
    ensures Progress(run, i + 1, c)
  {
    match c
    case WritingContract(plan, _) => StoredLater(run[i].store, run[i + 1].store, plan);
    case Resolving(plan, _) => StoredLater(run[i].store, run[i + 1].store, plan);
    case WritingDeployment(plan, d) => StoredLater(run[i].store, run[i + 1].store, plan);
    case Swinging(plan, moves) => UnderwayLater(run, i, plan, moves);
    case Swapping(plan, moves, _) => UnderwayLater(run, i, plan, moves);
    case Published(plan) => UnderwayLater(run, i, plan, []);
    case _ =>
      LookedLater(run, i);
  }

  lemma LookedLater(run: seq<State>, i: nat)
    requires i + 1 < |run|
    ensures forall candidate :: Looked(run, i, candidate) ==> Looked(run, i + 1, candidate)
  {
  }

  // ----- Steps -----

  /** The package is written before anything else is. */
  lemma Started(run: seq<State>, i: nat, plan: Plan, d: Option<Record>)
    requires i < |run| && PackageStored(run[i].store, plan) && DeploymentStored(run[i].store, plan, d)
    ensures Underway(run, i, plan, Moves(plan, d))
  {
    assert Moves(plan, d) == [] + Moves(plan, d);
    assert Done(run, i, []);
  }

  lemma DoneMore(run: seq<State>, i: nat, made: seq<Move>, move: Move)
    requires i + 1 < |run| && Done(run, i, made) && Current(run[i + 1].store, move.key) == Some(move.candidate)
    ensures Done(run, i + 1, made + [move])
  {
    hide Current;
    DoneLater(run, i, i + 1, made);
    var made' := made + [move];
    assert made'[..|made'| - 1] == made && made'[|made'| - 1] == move;
    assert WasAt(run, i + 1, move.key, move.candidate, i + 1) && Done(run, i + 1, made'[..|made'| - 1]);
  }

  /** A swap makes the first move that is left. */
  lemma Moved(run: seq<State>, i: nat, plan: Plan, moves: seq<Move>)
    requires i + 1 < |run| && moves != [] && Underway(run, i, plan, moves)
    requires Grows(run[i].store, run[i + 1].store)
    requires Current(run[i + 1].store, moves[0].key) == Some(moves[0].candidate)
    ensures Underway(run, i + 1, plan, moves[1..])
  {
    StoredLater(run[i].store, run[i + 1].store, plan);
    hide Moves, DeploymentStored, PackageStored, Done, Grows, Current;
    var d: Option<Record>, made: seq<Move> :|
      DeploymentStored(run[i].store, plan, d) && Moves(plan, d) == made + moves && Done(run, i, made);
    DoneMore(run, i, made, moves[0]);
    Regroup(made, moves);
    var made' := made + [moves[0]];
    assert DeploymentStored(run[i + 1].store, plan, d) && Moves(plan, d) == made' + moves[1..] && Done(run, i + 1, made');
  }

  lemma Regroup(made: seq<Move>, moves: seq<Move>)
    requires moves != []
    ensures made + moves == (made + [moves[0]]) + moves[1..]
  {
  }

  lemma StepProgresses(run: seq<State>, i: nat, c: Client, c': Client)
    requires i + 1 < |run| && Grows(run[i].store, run[i + 1].store) && Progress(run, i, c)
    requires ClientStep(run[i].store, c, run[i + 1].store, c')
    ensures Progress(run, i + 1, c')
  {
    hide ClientStep, Progress, Grows;
    if IsSeeder(c) {
      SeederProgresses(run, i, c, c');
    } else {
      PublisherProgresses(run, i, c, c');
    }
  }

  lemma SeederProgresses(run: seq<State>, i: nat, c: Client, c': Client)
    requires i + 1 < |run| && Progress(run, i, c) && IsSeeder(c)
    requires ClientStep(run[i].store, c, run[i + 1].store, c')
    ensures Progress(run, i + 1, c')
  {
    hide HasPackage, HasContract, HasDeployment, HasTarget, ReadOk;
    if c.Seeding? {
      assert Seen(run, i, c.candidate);
    }
    LookedLater(run, i);
    SameCandidate(run[i].store, c, run[i + 1].store, c');
    hide ClientStep;
  }

  lemma PublisherProgresses(run: seq<State>, i: nat, c: Client, c': Client)
    requires i + 1 < |run| && Grows(run[i].store, run[i + 1].store) && Progress(run, i, c) && !IsSeeder(c)
    requires ClientStep(run[i].store, c, run[i + 1].store, c')
    ensures Progress(run, i + 1, c')
  {
    var s, s' := run[i].store, run[i + 1].store;
    hide HasPackage, HasDeployment, ReadOk, Moves;
    match c
    case WritingPackage(plan, known) =>
      if plan.service.None? {
        assert DeploymentStored(s', plan, None);
        Started(run, i + 1, plan, None);
      }
    case WritingContract(plan, known) =>
      StoredLater(s, s', plan);
    case Resolving(plan, known) =>
      StoredLater(s, s', plan);
    case WritingDeployment(plan, d) =>
      StoredLater(s, s', plan);
      assert DeploymentStored(s', plan, Some(d));
      Started(run, i + 1, plan, Some(d));
    case Swinging(plan, moves) =>
      UnderwayLater(run, i, plan, moves);
    case Swapping(plan, moves, expected) =>
      Moved(run, i, plan, moves);
    case _ =>
      NoProgressYet(s, c, s', c');
  }

  lemma NoProgressYet(s: Store, c: Client, s': Store, c': Client)
    requires (c.Loading? || c.WritingParts? || !Running(c)) && ClientStep(s, c, s', c')
    ensures c'.Loading? || c'.WritingParts? || c'.WritingPackage?
  {
  }

  lemma SameCandidate(s: Store, c: Client, s': Store, c': Client)
    requires IsSeeder(c) && ClientStep(s, c, s', c')
    ensures IsSeeder(c') && !c'.Seeding? && c'.candidate == c.candidate
  {
  }

  lemma NextGrows(a: State, b: State)
    requires Inv(a) && Next(a, b)
    ensures Grows(a.store, b.store)
  {
    hide ClientStep, ReleaseStep, Consistent, ClientInv, Fresh, Running;
    if id :| Steps(a, b, id) {
      ClientStepKeepsInv(a.store, a.clients[id], b.store, b.clients[id]);
    } else if b.clients == a.clients && ReleaseStep(a.store, b.store) {
      ReleaseKeepsConsistent(a.store, b.store);
    } else {
      assert b.store == a.store;
      Stutter(a.store);
    }
  }

  lemma {:induction false} RunProgresses(run: seq<State>, i: nat, id: nat)
    requires IsRun(run) && i < |run| && id in run[i].clients
    ensures Progress(run, i, run[i].clients[id])
  {
    if i > 0 {
      var a, b := run[i - 1], run[i];
      RunKeepsInv(run, i - 1);
      assert StepTo(run, i);
      NextGrows(a, b);
      ClientBefore(a, b, id);
      hide Inv, Next, ClientStep, Progress, Grows, Consistent;
      if id in a.clients {
        RunProgresses(run, i - 1, id);
        if b.clients[id] == a.clients[id] {
          ProgressLater(run, i - 1, a.clients[id]);
        } else if b.clients[id].Failed? {
          Nothing(run, i, b.clients[id]);
        } else {
          StepProgresses(run, i - 1, a.clients[id], b.clients[id]);
        }
      } else {
        Nothing(run, i, b.clients[id]);
      }
    }
  }

  lemma Nothing(run: seq<State>, i: nat, c: Client)
    requires i < |run| && (Fresh(c) || c.Failed?)
    ensures Progress(run, i, c)
  {
  }

  /** What can have happened to one client in one step of the system. */
  lemma ClientBefore(a: State, b: State, id: nat)
    requires Next(a, b) && id in b.clients
    ensures id in a.clients ==>
              || b.clients[id] == a.clients[id]
              || b.clients[id].Failed?
              || ClientStep(a.store, a.clients[id], b.store, b.clients[id])
    ensures id !in a.clients ==> Fresh(b.clients[id])
  {
    hide ClientStep, ReleaseStep, Fresh, Running;
  }

  // ----- Main results -----

  /** In every state of every run, each pointer names a record of its own kind and coordinates. */
  lemma PointersName(run: seq<State>, i: nat, key: PointerKey)
    requires IsRun(run) && i < |run| && key in run[i].store.pointers
    ensures var s, t := run[i].store, run[i].store.pointers[key];
            match key
            case PackagePointer(id, version) =>
              t.ToPackage? && t.package.id == id && t.package.version == version && HasPackage(s, t.package)
            case ContractPointer(serviceId, version) =>
              t.ToContract? && t.contract.serviceId == serviceId && t.contract.version == version && HasContract(s, t.contract)
            case DeploymentPointer(serviceId, version) =>
              t.ToDeployment? && t.deployment.serviceId == serviceId && t.deployment.version == version && HasDeployment(s, t.deployment)
            case ReleasePointer(_, serviceId, version) =>
              t.ToDeployment? && t.deployment.serviceId == serviceId && t.deployment.version == version && HasDeployment(s, t.deployment)
  {
    RunKeepsInv(run, i);
    hide HasPackage, HasContract, HasDeployment, IsRun, RecordSupported, ClientInv;
    assert HasTarget(run[i].store, run[i].store.pointers[key]) && PointsToOwn(key, run[i].store.pointers[key]);
  }

  /** A publisher that returns has written its own package, and a pointer to it if it was to. */
  lemma PackagePublished(run: seq<State>, i: nat, id: nat)
    requires IsRun(run) && i < |run| && id in run[i].clients && run[i].clients[id].Published?
    ensures var plan, s := run[i].clients[id].plan, run[i].store;
            && PackageAt(plan.package) in s.records
            && s.records[PackageAt(plan.package)] == PackageRecord(plan.package, plan.parts)
            && (plan.publishPointer ==>
                  exists j :: WasAt(run, i, PackagePointer(plan.package.id, plan.package.version), ToPackage(plan.package), j))
  {
    RunProgresses(run, i, id);
    var plan := run[i].clients[id].plan;
    var d: Option<Record>, made: seq<Move> :|
      DeploymentStored(run[i].store, plan, d) && Moves(plan, d) == made + [] && Done(run, i, made);
    assert made + [] == made;
    hide IsRun, DeploymentStored;
    if plan.publishPointer {
      assert made[|made| - 1] == Move(PackageKey(plan.package), ToPackage(plan.package));
      hide Moves;
      var j :| WasAt(run, i, made[|made| - 1].key, made[|made| - 1].candidate, j);
    }
  }

  /** A publisher of a service that returns has stored the contract and a deployment of that
      contract by its own package. If it was to move pointers, then the contract pointer, the
      deployment pointer, the release pointer and the package pointer named them, in this order. */
  lemma ServicePublished(run: seq<State>, i: nat, id: nat) returns (d: Record)
    requires IsRun(run) && i < |run| && id in run[i].clients && run[i].clients[id].Published?
    requires run[i].clients[id].plan.service.Some?
    ensures var plan, s := run[i].clients[id].plan, run[i].store;
            var c := plan.service.value;
            && HasContract(s, c)
            && d.DeploymentRecord? && d.uses == c && d.implementation == plan.package
            && d.deployment.serviceId == c.serviceId && d.deployment.version == c.version
            && DeploymentAt(d.deployment) in s.records && s.records[DeploymentAt(d.deployment)] == d
    ensures var plan := run[i].clients[id].plan;
            var c := plan.service.value;
            plan.publishPointer ==>
              exists i1, i2, i3, i4 ::
                && WasAt(run, i, PackagePointer(plan.package.id, plan.package.version), ToPackage(plan.package), i4)
                && WasAt(run, i4, ReleasePointer(plan.profile, c.serviceId, c.version), ToDeployment(d.deployment), i3)
                && WasAt(run, i3, DeploymentPointer(c.serviceId, c.version), ToDeployment(d.deployment), i2)
                && WasAt(run, i2, ContractPointer(c.serviceId, c.version), ToContract(c), i1)
  {
    RunProgresses(run, i, id);
    var plan := run[i].clients[id].plan;
    var generated: Option<Record>, made: seq<Move> :|
      DeploymentStored(run[i].store, plan, generated) && Moves(plan, generated) == made + [] && Done(run, i, made);
    assert made + [] == made;
    d := generated.value;
    hide IsRun, HasContract;
    if plan.publishPointer {
      var c := plan.service.value;
      var m1 := Move(ContractPointer(c.serviceId, c.version), ToContract(c));
      var m2 := Move(DeploymentPointer(c.serviceId, c.version), ToDeployment(d.deployment));
      var m3 := Move(ReleasePointer(plan.profile, c.serviceId, c.version), ToDeployment(d.deployment));
      var m4 := Move(PackageKey(plan.package), ToPackage(plan.package));
      assert made == [m1, m2, m3, m4];
      hide Moves, DeploymentStored;
      assert made[..3] == [m1, m2, m3] && made[..3][..2] == [m1, m2] && made[..3][..2][..1] == [m1];
      var i4 :| WasAt(run, i, m4.key, m4.candidate, i4) && Done(run, i4, [m1, m2, m3]);
      assert [m1, m2, m3][..2] == [m1, m2];
      var i3 :| WasAt(run, i4, m3.key, m3.candidate, i3) && Done(run, i3, [m1, m2]);
      assert [m1, m2][..1] == [m1];
      var i2 :| WasAt(run, i3, m2.key, m2.candidate, i2) && Done(run, i2, [m1]);
      var i1 :| WasAt(run, i2, m1.key, m1.candidate, i1);
    }
  }

  /** A publisher expects of a pointer what it read there right before, so its swap goes
      through unless the pointer has moved since. */
  lemma {:induction false} ReadBeforeSwap(run: seq<State>, i: nat, id: nat) returns (j: nat)
    requires IsRun(run) && i < |run| && id in run[i].clients && run[i].clients[id].Swapping?
    ensures j < i && run[i].clients[id].moves != []
    ensures run[i].clients[id].expected == Current(run[j].store, run[i].clients[id].moves[0].key)
    ensures forall k :: j < k <= i ==> id in run[k].clients && run[k].clients[id] == run[i].clients[id]
    ensures Current(run[i].store, run[i].clients[id].moves[0].key) == Current(run[j].store, run[i].clients[id].moves[0].key) ==>
              CompareAndSwap(run[i].store, run[i].clients[id].moves[0].key, run[i].clients[id].expected,
                             run[i].clients[id].moves[0].candidate).Some?
    decreases i
  {
    assert StepTo(run, i);
    ClientBefore(run[i - 1], run[i], id);
    var c := run[i].clients[id];
    if id in run[i - 1].clients && run[i - 1].clients[id] == c {
      j := ReadBeforeSwap(run, i - 1, id);
    } else {
      j := i - 1;
      SwappingFrom(run[j].store, run[j].clients[id], run[i].store, c);
    }
    SwapFailsOnlyOnMismatch(run, i, id);
  }

  lemma SwappingFrom(s: Store, c: Client, s': Store, c': Client)
    requires ClientStep(s, c, s', c') && c'.Swapping?
    ensures c'.moves != [] && c'.expected == Current(s, c'.moves[0].key)
  {
  }

  /** A seeder writes nothing before it has seen no pointer at its coordinate, or its own. */
  lemma SeederLooked(run: seq<State>, i: nat, id: nat)
    requires IsRun(run) && i < |run| && id in run[i].clients && IsSeeder(run[i].clients[id]) && !run[i].clients[id].Seeding?
    ensures Looked(run, i, run[i].clients[id].candidate)
  {
    RunProgresses(run, i, id);
  }
}
