/** Concurrent publication into the canonical artifact store
    (compiler/driver/authoring.rs over deployment/src/storage).

    The store holds immutable records and pointers that move by compare-and-swap. Any
    number of publishers and std seeders run at once; each read, write and swap is one
    atomic step, and a client may crash or fail between any two steps. */
module Publication {
  import opened Wrappers

  // ----- The store -----

  datatype PackageRef = PackageRef(id: string, version: string, build: string, localAbi: string)

  datatype ContractRef = ContractRef(serviceId: string, version: string, protocol: string)

  datatype DeploymentRef = DeploymentRef(serviceId: string, version: string, revision: string, identity: string)

  datatype Path =
    | PartPath(name: string)
    | PackagePath(id: string, version: string, build: string)
    | ContractPath(serviceId: string, version: string, protocol: string)
    | DeploymentPath(serviceId: string, version: string, revision: string, identity: string)

  /** A part is a File IR, bytecode, schema or resource record a package refers to. */
  datatype Record =
    | PartRecord(bytes: string)
    | PackageRecord(package: PackageRef, parts: map<string, string>)
    | ContractRecord(contract: ContractRef)
    | DeploymentRecord(deployment: DeploymentRef, uses: ContractRef, implementation: PackageRef, bindings: set<PackageRef>)

  datatype PointerKey =
    | PackagePointer(id: string, version: string)
    | ContractPointer(serviceId: string, version: string)
    | DeploymentPointer(serviceId: string, version: string)
    | ReleasePointer(profile: string, serviceId: string, version: string)

  datatype Target = ToPackage(package: PackageRef) | ToContract(contract: ContractRef) | ToDeployment(deployment: DeploymentRef)

  datatype Store = Store(records: map<Path, Record>, pointers: map<PointerKey, Target>)

  function PackageAt(r: PackageRef): Path { PackagePath(r.id, r.version, r.build) }

  function ContractAt(r: ContractRef): Path { ContractPath(r.serviceId, r.version, r.protocol) }

  function DeploymentAt(r: DeploymentRef): Path { DeploymentPath(r.serviceId, r.version, r.revision, r.identity) }

  /** The record of a package exists and carries the exact reference; the local ABI is
      part of the reference but not of the path. */
  predicate HasPackage(s: Store, r: PackageRef) {
    PackageAt(r) in s.records && s.records[PackageAt(r)].PackageRecord? && s.records[PackageAt(r)].package == r
  }

  predicate HasContract(s: Store, r: ContractRef) {
    ContractAt(r) in s.records && s.records[ContractAt(r)] == ContractRecord(r)
  }

  predicate HasDeployment(s: Store, r: DeploymentRef) {
    DeploymentAt(r) in s.records && s.records[DeploymentAt(r)].DeploymentRecord? && s.records[DeploymentAt(r)].deployment == r
  }

  predicate HasPart(s: Store, name: string, bytes: string) {
    PartPath(name) in s.records && s.records[PartPath(name)] == PartRecord(bytes)
  }

  predicate HasTarget(s: Store, t: Target) {
    match t
    case ToPackage(r) => HasPackage(s, r)
    case ToContract(r) => HasContract(s, r)
    case ToDeployment(r) => HasDeployment(s, r)
  }

  function Current(s: Store, key: PointerKey): Option<Target> {
    if key in s.pointers then Some(s.pointers[key]) else None
  }

  /** Writing a record: the same bytes again are fine, different ones are a conflict. */
  function Write(s: Store, path: Path, r: Record): Option<Store> {
    if path !in s.records then Some(s.(records := s.records[path := r]))
    else if s.records[path] == r then Some(s)
    else None
  }

  /** Reading a pointer also reads the record it names. */
  predicate ReadOk(s: Store, key: PointerKey) {
    key in s.pointers ==> HasTarget(s, s.pointers[key])
  }

  /** A swap first reads the candidate's record, then compares under the lock. */
  function CompareAndSwap(s: Store, key: PointerKey, expected: Option<Target>, candidate: Target): Option<Store> {
    if HasTarget(s, candidate) && Current(s, key) == expected
    then Some(s.(pointers := s.pointers[key := candidate]))
    else None
  }

  // ----- Clients -----

  /** What one publishing run has compiled. */
  datatype Plan = Plan(
    package: PackageRef,
    parts: map<string, string>,
    service: Option<ContractRef>,
    publishPointer: bool,
    profile: string)

  datatype Move = Move(key: PointerKey, candidate: Target)

  datatype Client =
    // Publishers: `known` are the package records read from the store so far.
    | Loading(plan: Plan, known: set<PackageRef>)
    | WritingParts(plan: Plan, known: set<PackageRef>, left: set<string>)
    | WritingPackage(plan: Plan, known: set<PackageRef>)
    | WritingContract(plan: Plan, known: set<PackageRef>)
    | Resolving(plan: Plan, known: set<PackageRef>)
    | WritingDeployment(plan: Plan, generated: Record)
    | Swinging(plan: Plan, moves: seq<Move>)
    | Swapping(plan: Plan, moves: seq<Move>, expected: Option<Target>)
    | Published(plan: Plan)
    // Seeders.
    | Seeding(candidate: PackageRef, parts: map<string, string>)
    | SeedingParts(candidate: PackageRef, parts: map<string, string>, left: set<string>, present: bool)
    | SeedingPackage(candidate: PackageRef, parts: map<string, string>, present: bool)
    | SeedSwapping(candidate: PackageRef)
    | SeedChecking(candidate: PackageRef)
    | Seeded(candidate: PackageRef)
    // A client that crashed, or returned an error.
    | Failed

  function PackageKey(r: PackageRef): PointerKey { PackagePointer(r.id, r.version) }

  /** The pointers a publisher swings, in order. */
  function Moves(plan: Plan, generated: Option<Record>): seq<Move>
    requires generated.Some? ==> generated.value.DeploymentRecord?
  {
    if !plan.publishPointer then []
    else
      var package := [Move(PackageKey(plan.package), ToPackage(plan.package))];
      match generated
      case None => package
      case Some(d) =>
        [Move(ContractPointer(d.uses.serviceId, d.uses.version), ToContract(d.uses)),
         Move(DeploymentPointer(d.deployment.serviceId, d.deployment.version), ToDeployment(d.deployment)),
         Move(ReleasePointer(plan.profile, d.deployment.serviceId, d.deployment.version), ToDeployment(d.deployment))]
        + package
  }

  /** The deployment generated for a service binds packages the run has read, or the
      implementation it has just written. */
  predicate Generated(plan: Plan, known: set<PackageRef>, d: Record) {
    && d.DeploymentRecord?
    && plan.service == Some(d.uses)
    && d.implementation == plan.package
    && d.deployment.serviceId == d.uses.serviceId && d.deployment.version == d.uses.version
    && d.bindings <= known + {plan.package}
  }

  /** One step of one client, changing the store from `s` to `s'`. */
  ghost predicate ClientStep(s: Store, c: Client, s': Store, c': Client) {
    match c
    case Loading(plan, known) =>
      || (s' == s && ReadsPackage(s, plan, known, c', (k) => Loading(plan, k)))
      || (s' == s && c' == WritingParts(plan, known, plan.parts.Keys))
    case WritingParts(plan, known, left) =>
      if left == {} then s' == s && c' == WritingPackage(plan, known)
      else exists name :: name in left && name in plan.parts
             && Write(s, PartPath(name), PartRecord(plan.parts[name])) == Some(s')
             && c' == WritingParts(plan, known, left - {name})
    case WritingPackage(plan, known) =>
      && Write(s, PackageAt(plan.package), PackageRecord(plan.package, plan.parts)) == Some(s')
      && c' == (if plan.service.Some? then WritingContract(plan, known) else Swinging(plan, Moves(plan, None)))
    case WritingContract(plan, known) =>
      && plan.service.Some?
      && Write(s, ContractAt(plan.service.value), ContractRecord(plan.service.value)) == Some(s')
      && c' == Resolving(plan, known)
    case Resolving(plan, known) =>
      && s' == s
      && (|| ReadsPackage(s, plan, known, c', (k) => Resolving(plan, k))
          || (c'.WritingDeployment? && c'.plan == plan && Generated(plan, known, c'.generated)))
    case WritingDeployment(plan, d) =>
      && d.DeploymentRecord?
      && Write(s, DeploymentAt(d.deployment), d) == Some(s')
      && c' == Swinging(plan, Moves(plan, Some(d)))
    case Swinging(plan, moves) =>
      && s' == s
      && (if moves == [] then c' == Published(plan)
          else ReadOk(s, moves[0].key) && c' == Swapping(plan, moves, Current(s, moves[0].key)))
    case Swapping(plan, moves, expected) =>
      && moves != []
      && CompareAndSwap(s, moves[0].key, expected, moves[0].candidate) == Some(s')
      && c' == Swinging(plan, moves[1..])
    case Seeding(candidate, parts) =>
      && s' == s && ReadOk(s, PackageKey(candidate))
      && Current(s, PackageKey(candidate)) in {None, Some(ToPackage(candidate))}
      && c' == SeedingParts(candidate, parts, parts.Keys, Current(s, PackageKey(candidate)).Some?)
    case SeedingParts(candidate, parts, left, present) =>
      if left == {} then s' == s && c' == SeedingPackage(candidate, parts, present)
      else exists name :: name in left && name in parts
             && Write(s, PartPath(name), PartRecord(parts[name])) == Some(s')
             && c' == SeedingParts(candidate, parts, left - {name}, present)
    case SeedingPackage(candidate, parts, present) =>
      && Write(s, PackageAt(candidate), PackageRecord(candidate, parts)) == Some(s')
      && c' == (if present then Seeded(candidate) else SeedSwapping(candidate))
    case SeedSwapping(candidate) =>
      (match CompareAndSwap(s, PackageKey(candidate), None, ToPackage(candidate))
       case Some(swapped) => s' == swapped && c' == Seeded(candidate)
       case None => s' == s && HasPackage(s, candidate) && c' == SeedChecking(candidate))
    case SeedChecking(candidate) =>
      s' == s && ReadOk(s, PackageKey(candidate)) && Current(s, PackageKey(candidate)) == Some(ToPackage(candidate)) && c' == Seeded(candidate)
    case _ => false
  }

  /** A publisher reads one package pointer and its record. */
  ghost predicate ReadsPackage(s: Store, plan: Plan, known: set<PackageRef>, c': Client, next: set<PackageRef> -> Client) {
    exists r :: Current(s, PackageKey(r)) == Some(ToPackage(r)) && HasPackage(s, r) && c' == next(known + {r})
  }

  datatype State = State(store: Store, clients: map<nat, Client>)

  predicate Fresh(c: Client) {
    (c.Loading? && c.known == {}) || c.Seeding?
  }

  /** One step of the whole system: a client steps, crashes or arrives, or the release
      tool replaces or removes a release pointer. */
  ghost predicate Next(a: State, b: State) {
    || (exists id :: Steps(a, b, id))
    || (b.store == a.store && exists id :: id in a.clients && Running(a.clients[id]) && b.clients == a.clients[id := Failed])
    || (b.store == a.store && exists id: nat, c :: id !in a.clients && Fresh(c) && b.clients == a.clients[id := c])
    || (b.clients == a.clients && ReleaseStep(a.store, b.store))
  }

  ghost predicate Steps(a: State, b: State, id: nat) {
    && id in a.clients && id in b.clients
    && b.clients == a.clients[id := b.clients[id]]
    && ClientStep(a.store, a.clients[id], b.store, b.clients[id])
  }

  predicate Running(c: Client) {
    !c.Published? && !c.Seeded? && !c.Failed?
  }

  ghost predicate ReleaseStep(s: Store, s': Store) {
    && s'.records == s.records
    && exists profile, d: DeploymentRef :: var key := ReleasePointer(profile, d.serviceId, d.version);
         || (HasDeployment(s, d) && s'.pointers == s.pointers[key := ToDeployment(d)])
         || s'.pointers == s.pointers - {key}
  }

  ghost predicate IsRun(run: seq<State>) {
    && run != []
    && Consistent(run[0].store) && run[0].clients == map[]
    && forall i :: 0 < i < |run| ==> StepTo(run, i)
  }

  ghost predicate StepTo(run: seq<State>, i: nat)
    requires 0 < i < |run|
  {
    Next(run[i - 1], run[i])
  }

  // ----- Nothing dangles -----

  /** `t` is a record of the kind and coordinates that `key` is for. */
  predicate PointsToOwn(key: PointerKey, t: Target) {
    match (key, t)
    case (PackagePointer(id, version), ToPackage(r)) => r.id == id && r.version == version
    case (ContractPointer(serviceId, version), ToContract(r)) => r.serviceId == serviceId && r.version == version
    case (DeploymentPointer(serviceId, version), ToDeployment(r)) => r.serviceId == serviceId && r.version == version
    case (ReleasePointer(_, serviceId, version), ToDeployment(r)) => r.serviceId == serviceId && r.version == version
    case _ => false
  }

  /** Every pointer names an existing record of its own kind and coordinates, every
      deployment's contract, implementation and bound packages exist, and so does every
      part of a package. */
  ghost predicate Consistent(s: Store) {
    && (forall key :: key in s.pointers ==> HasTarget(s, s.pointers[key]) && PointsToOwn(key, s.pointers[key]))
    && (forall p :: p in s.records ==> RecordSupported(s, s.records[p]))
  }

  ghost predicate RecordSupported(s: Store, r: Record) {
    match r
    case PackageRecord(_, parts) => forall name :: name in parts ==> HasPart(s, name, parts[name])
    case DeploymentRecord(_, uses, implementation, bindings) =>
      && HasContract(s, uses)
      && HasPackage(s, implementation)
      && forall b :: b in bindings ==> HasPackage(s, b)
    case _ => true
  }

  ghost predicate HasAll(s: Store, known: set<PackageRef>) {
    forall r :: r in known ==> HasPackage(s, r)
  }

  ghost predicate HasParts(s: Store, parts: map<string, string>, left: set<string>) {
    forall name :: name in parts && name !in left ==> HasPart(s, name, parts[name])
  }

  ghost predicate MovesReady(s: Store, moves: seq<Move>) {
    forall i :: 0 <= i < |moves| ==> HasTarget(s, moves[i].candidate) && PointsToOwn(moves[i].key, moves[i].candidate)
  }

  /** What a client can rely on at each of its steps. */
  ghost predicate ClientInv(s: Store, c: Client) {
    match c
    case Loading(_, known) => HasAll(s, known)
    case WritingParts(plan, known, left) => HasAll(s, known) && HasParts(s, plan.parts, left)
    case WritingPackage(plan, known) => HasAll(s, known) && HasParts(s, plan.parts, {})
    case WritingContract(plan, known) => HasAll(s, known) && HasPackage(s, plan.package)
    case Resolving(plan, known) =>
      HasAll(s, known) && HasPackage(s, plan.package) && plan.service.Some? && HasContract(s, plan.service.value)
    case WritingDeployment(plan, d) => d.DeploymentRecord? && RecordSupported(s, d) && HasPackage(s, plan.package)
    case Swinging(_, moves) => MovesReady(s, moves)
    case Swapping(_, moves, _) => MovesReady(s, moves)
    case SeedingParts(_, parts, left, _) => HasParts(s, parts, left)
    case SeedingPackage(_, parts, _) => HasParts(s, parts, {})
    case SeedSwapping(candidate) => HasPackage(s, candidate)
    case SeedChecking(candidate) => HasPackage(s, candidate)
    case _ => true
  }

  ghost predicate Inv(x: State) {
    && Consistent(x.store)
    && forall id :: id in x.clients ==> ClientInv(x.store, x.clients[id])
  }

  /** Records are never changed or removed. */
  ghost predicate Grows(s: Store, s': Store) {
    forall p :: p in s.records ==> p in s'.records && s'.records[p] == s.records[p]
  }

  lemma GrowsKeeps(s: Store, s': Store)
    requires Grows(s, s')
    ensures forall r :: HasPackage(s, r) ==> HasPackage(s', r)
    ensures forall r :: HasContract(s, r) ==> HasContract(s', r)
    ensures forall r :: HasDeployment(s, r) ==> HasDeployment(s', r)
    ensures forall t :: HasTarget(s, t) ==> HasTarget(s', t)
    ensures forall name, bytes :: HasPart(s, name, bytes) ==> HasPart(s', name, bytes)
  {
  }

  lemma ClientInvGrows(s: Store, s': Store, c: Client)
    requires Grows(s, s') && ClientInv(s, c)
    ensures ClientInv(s', c)
  {
    GrowsKeeps(s, s');
    hide HasPackage, HasContract, HasDeployment, HasTarget, HasPart, Grows;
  }

  lemma WriteKeepsConsistent(s: Store, path: Path, r: Record, s': Store)
    requires Consistent(s) && Write(s, path, r) == Some(s') && RecordSupported(s, r)
    ensures Grows(s, s') && Consistent(s')
    ensures path in s'.records && s'.records[path] == r
  {
    GrowsKeeps(s, s');
    hide HasPackage, HasContract, HasDeployment, HasTarget, HasPart, Grows;
  }

  lemma SwapKeepsConsistent(s: Store, key: PointerKey, expected: Option<Target>, candidate: Target, s': Store)
    requires Consistent(s) && PointsToOwn(key, candidate) && CompareAndSwap(s, key, expected, candidate) == Some(s')
    ensures Grows(s, s') && Consistent(s') && Current(s', key) == Some(candidate)
  {
    GrowsKeeps(s, s');
    hide HasPackage, HasContract, HasDeployment, HasTarget, HasPart, Grows;
  }

  predicate IsSeeder(c: Client) {
    c.Seeding? || c.SeedingParts? || c.SeedingPackage? || c.SeedSwapping? || c.SeedChecking? || c.Seeded?
  }

  lemma PublisherStepKeepsInv(s: Store, c: Client, s': Store, c': Client)
    requires Consistent(s) && ClientInv(s, c) && ClientStep(s, c, s', c') && !IsSeeder(c)
    ensures Grows(s, s') && Consistent(s') && ClientInv(s', c')
  {
    hide HasPackage, HasContract, HasDeployment, HasPart, Consistent, Grows;
    match c
    case WritingParts(plan, known, left) =>
      if left != {} {
        var name :| name in left && name in plan.parts
             && Write(s, PartPath(name), PartRecord(plan.parts[name])) == Some(s')
             && c' == WritingParts(plan, known, left - {name});
        PartWritten(s, name, plan.parts[name], s');
      } else {
        Stutter(s);
      }
    case WritingPackage(plan, known) =>
      PackageWritten(s, plan.package, plan.parts, s');
    case WritingContract(plan, known) =>
      ContractWritten(s, plan.service.value, s');
    case WritingDeployment(plan, d) =>
      DeploymentWritten(s, d, s');
    case Swapping(plan, moves, expected) =>
      SwapKeepsConsistent(s, moves[0].key, expected, moves[0].candidate, s');
      GrowsKeeps(s, s');
    case _ =>
      Stutter(s);
  }

  lemma SeederStepKeepsInv(s: Store, c: Client, s': Store, c': Client)
    requires Consistent(s) && ClientInv(s, c) && ClientStep(s, c, s', c') && IsSeeder(c)
    ensures Grows(s, s') && Consistent(s') && ClientInv(s', c')
  {
    hide HasPackage, HasContract, HasDeployment, HasPart, Consistent, Grows;
    match c
    case SeedingParts(candidate, parts, left, present) =>
      if left != {} {
        var name :| name in left && name in parts
             && Write(s, PartPath(name), PartRecord(parts[name])) == Some(s')
             && c' == SeedingParts(candidate, parts, left - {name}, present);
        PartWritten(s, name, parts[name], s');
      } else {
        Stutter(s);
      }
    case SeedingPackage(candidate, parts, present) =>
      PackageWritten(s, candidate, parts, s');
    case SeedSwapping(candidate) =>
      var swapped := CompareAndSwap(s, PackageKey(candidate), None, ToPackage(candidate));
      if swapped.Some? {
        SwapKeepsConsistent(s, PackageKey(candidate), None, ToPackage(candidate), s');
      } else {
        Stutter(s);
      }
    case _ =>
      Stutter(s);
  }

  /** A client's own step keeps the store consistent and its own invariant. */
  lemma ClientStepKeepsInv(s: Store, c: Client, s': Store, c': Client)
    requires Consistent(s) && ClientInv(s, c) && ClientStep(s, c, s', c')
    ensures Grows(s, s') && Consistent(s') && ClientInv(s', c')
  {
    hide ClientStep, ClientInv, Consistent, Grows;
    if IsSeeder(c) {
      SeederStepKeepsInv(s, c, s', c');
    } else {
      PublisherStepKeepsInv(s, c, s', c');
    }
  }

  lemma Stutter(s: Store)
    ensures Grows(s, s)
  {
  }

  lemma PartWritten(s: Store, name: string, bytes: string, s': Store)
    requires Consistent(s) && Write(s, PartPath(name), PartRecord(bytes)) == Some(s')
    ensures Grows(s, s') && Consistent(s') && HasPart(s', name, bytes)
    ensures forall r :: HasPackage(s, r) ==> HasPackage(s', r)
    ensures forall n, b :: HasPart(s, n, b) ==> HasPart(s', n, b)
  {
    WriteKeepsConsistent(s, PartPath(name), PartRecord(bytes), s');
    GrowsKeeps(s, s');
  }

  lemma PackageWritten(s: Store, r: PackageRef, parts: map<string, string>, s': Store)
    requires Consistent(s) && HasParts(s, parts, {}) && Write(s, PackageAt(r), PackageRecord(r, parts)) == Some(s')
    ensures Grows(s, s') && Consistent(s') && HasPackage(s', r)
    ensures forall r' :: HasPackage(s, r') ==> HasPackage(s', r')
  {
    WriteKeepsConsistent(s, PackageAt(r), PackageRecord(r, parts), s');
    GrowsKeeps(s, s');
  }

  lemma ContractWritten(s: Store, r: ContractRef, s': Store)
    requires Consistent(s) && Write(s, ContractAt(r), ContractRecord(r)) == Some(s')
    ensures Grows(s, s') && Consistent(s') && HasContract(s', r)
    ensures forall r' :: HasPackage(s, r') ==> HasPackage(s', r')
  {
    WriteKeepsConsistent(s, ContractAt(r), ContractRecord(r), s');
    GrowsKeeps(s, s');
  }

  lemma DeploymentWritten(s: Store, d: Record, s': Store)
    requires Consistent(s) && d.DeploymentRecord? && RecordSupported(s, d)
    requires Write(s, DeploymentAt(d.deployment), d) == Some(s')
    ensures Grows(s, s') && Consistent(s') && HasDeployment(s', d.deployment) && HasContract(s', d.uses)
    ensures forall r' :: HasPackage(s, r') ==> HasPackage(s', r')
  {
    WriteKeepsConsistent(s, DeploymentAt(d.deployment), d, s');
    GrowsKeeps(s, s');
  }

  lemma ReleaseKeepsConsistent(s: Store, s': Store)
    requires Consistent(s) && ReleaseStep(s, s')
    ensures Grows(s, s') && Consistent(s')
  {
    GrowsKeeps(s, s');
    GrowsKeeps(s', s);
    hide HasPackage, HasContract, HasPart, Grows, HasDeployment;
    assert forall key :: key in s'.pointers ==> HasTarget(s, s'.pointers[key]) && PointsToOwn(key, s'.pointers[key]);
  }

  /** Every step of the system keeps the invariant, whoever takes it. */
  lemma NextKeepsInv(a: State, b: State)
    requires Inv(a) && Next(a, b)
    ensures Inv(b)
  {
    hide ClientStep, ReleaseStep, Consistent, ClientInv, Fresh, Running;
    if id :| Steps(a, b, id) {
      ClientStepKeepsInv(a.store, a.clients[id], b.store, b.clients[id]);
      forall other | other in b.clients
        ensures ClientInv(b.store, b.clients[other])
      {
        if other != id {
          ClientInvGrows(a.store, b.store, a.clients[other]);
        }
      }
    } else if b.clients == a.clients && ReleaseStep(a.store, b.store) {
      ReleaseKeepsConsistent(a.store, b.store);
      forall id | id in b.clients
        ensures ClientInv(b.store, b.clients[id])
      {
        ClientInvGrows(a.store, b.store, a.clients[id]);
      }
    } else {
      assert b.store == a.store;
      if id :| id in a.clients && Running(a.clients[id]) && b.clients == a.clients[id := Failed] {
        FreshInv(a.store, Failed);
      } else {
        var id, c :| id !in a.clients && Fresh(c) && b.clients == a.clients[id := c];
        FreshInv(a.store, c);
      }
    }
  }

  lemma FreshInv(s: Store, c: Client)
    requires Fresh(c) || c.Failed?
    ensures ClientInv(s, c)
  {
  }

  lemma {:induction false} RunKeepsInv(run: seq<State>, i: nat)
    requires IsRun(run) && i < |run|
    ensures Inv(run[i])
  {
    if i > 0 {
      RunKeepsInv(run, i - 1);
      assert StepTo(run, i);
      NextKeepsInv(run[i - 1], run[i]);
    }
  }

  /** In every interleaving of any number of publishers and seeders, with crashes and
      failed swaps anywhere, nothing ever dangles. */
  lemma PublicationSafe(run: seq<State>)
    requires IsRun(run)
    ensures forall i :: 0 <= i < |run| ==> Consistent(run[i].store)
  {
    forall i | 0 <= i < |run|
      ensures Consistent(run[i].store)
    {
      RunKeepsInv(run, i);
    }
  }

  /** The record a pointer is about to name always exists already, so a swap is refused
      only because another client has moved the pointer. */
  lemma SwapFailsOnlyOnMismatch(run: seq<State>, i: nat, id: nat)
    requires IsRun(run) && i < |run| && id in run[i].clients
    ensures var c, s := run[i].clients[id], run[i].store;
            && (c.Swapping? && c.moves != [] ==>
                  (CompareAndSwap(s, c.moves[0].key, c.expected, c.moves[0].candidate).None? <==>
                   Current(s, c.moves[0].key) != c.expected))
            && (c.SeedSwapping? ==>
                  (CompareAndSwap(s, PackageKey(c.candidate), None, ToPackage(c.candidate)).None? <==>
                   Current(s, PackageKey(c.candidate)).Some?))
  {
    RunKeepsInv(run, i);
    assert ClientInv(run[i].store, run[i].clients[id]);
    hide IsRun, HasPackage, HasContract, HasDeployment, Consistent;
  }

  // ----- Std seeders agree -----

  /** No publisher moves the package pointer at this coordinate. */
  ghost predicate LeavesAlone(c: Client, key: PointerKey) {
    match c
    case Loading(plan, _) => PackageKey(plan.package) != key || !plan.publishPointer
    case WritingParts(plan, _, _) => PackageKey(plan.package) != key || !plan.publishPointer
    case WritingPackage(plan, _) => PackageKey(plan.package) != key || !plan.publishPointer
    case WritingContract(plan, _) => PackageKey(plan.package) != key || !plan.publishPointer
    case Resolving(plan, _) => PackageKey(plan.package) != key || !plan.publishPointer
    case WritingDeployment(plan, _) => PackageKey(plan.package) != key || !plan.publishPointer
    case Swinging(_, moves) => forall i :: 0 <= i < |moves| ==> moves[i].key != key
    case Swapping(_, moves, _) => forall i :: 0 <= i < |moves| ==> moves[i].key != key
    case _ => true
  }

  /** Seeders that have seen their candidate installed can rely on the pointer. */
  ghost predicate SeederInv(s: Store, c: Client, key: PointerKey) {
    match c
    case SeedingParts(candidate, _, _, present) =>
      PackageKey(candidate) == key && present ==> Current(s, key) == Some(ToPackage(candidate))
    case SeedingPackage(candidate, _, present) =>
      PackageKey(candidate) == key && present ==> Current(s, key) == Some(ToPackage(candidate))
    case Seeded(candidate) => PackageKey(candidate) == key ==> Current(s, key) == Some(ToPackage(candidate))
    case _ => true
  }

  ghost predicate SeedInv(x: State, key: PointerKey) {
    forall id :: id in x.clients ==> LeavesAlone(x.clients[id], key) && SeederInv(x.store, x.clients[id], key)
  }

  /** The pointer, once set, stays. */
  ghost predicate PointerKept(s: Store, s': Store, key: PointerKey) {
    Current(s, key).Some? ==> Current(s', key) == Current(s, key)
  }

  lemma ClientStepKeepsPointer(s: Store, c: Client, s': Store, c': Client, key: PointerKey)
    requires key.PackagePointer? && ClientStep(s, c, s', c') && LeavesAlone(c, key) && SeederInv(s, c, key)
    ensures PointerKept(s, s', key) && LeavesAlone(c', key) && SeederInv(s', c', key)
  {
    if IsSeeder(c) {
      SeederStepKeepsPointer(s, c, s', c', key);
    } else {
      PublisherStepKeepsPointer(s, c, s', c', key);
    }
  }

  lemma PublisherStepKeepsPointer(s: Store, c: Client, s': Store, c': Client, key: PointerKey)
    requires key.PackagePointer? && ClientStep(s, c, s', c') && LeavesAlone(c, key) && SeederInv(s, c, key) && !IsSeeder(c)
    ensures PointerKept(s, s', key) && LeavesAlone(c', key) && SeederInv(s', c', key)
  {
    hide HasPackage, HasContract, HasDeployment, HasTarget, ReadOk, Generated;
    match c
    case WritingParts(plan, known, left) =>
      if left != {} {
        var name :| name in left && name in plan.parts
             && Write(s, PartPath(name), PartRecord(plan.parts[name])) == Some(s')
             && c' == WritingParts(plan, known, left - {name});
      }
    case Swapping(_, moves, _) =>
      assert moves[0].key != key;
    case _ =>
  }

  lemma SeederStepKeepsPointer(s: Store, c: Client, s': Store, c': Client, key: PointerKey)
    requires key.PackagePointer? && ClientStep(s, c, s', c') && SeederInv(s, c, key) && IsSeeder(c)
    ensures PointerKept(s, s', key) && LeavesAlone(c', key) && SeederInv(s', c', key)
  {
    hide HasPackage, HasContract, HasDeployment, HasTarget, ReadOk;
    match c
    case SeedingParts(candidate, parts, left, present) =>
      if left != {} {
        var name :| name in left && name in parts
             && Write(s, PartPath(name), PartRecord(parts[name])) == Some(s')
             && c' == SeedingParts(candidate, parts, left - {name}, present);
      }
    case _ =>
  }

  /** Packages at this coordinate are published by seeders only. */
  ghost predicate SeedersOnly(run: seq<State>, key: PointerKey) {
    forall i, id :: 0 <= i < |run| && id in run[i].clients && run[i].clients[id].Loading? ==> LeavesAlone(run[i].clients[id], key)
  }

  lemma NextKeepsSeedInv(a: State, b: State, key: PointerKey)
    requires key.PackagePointer? && SeedInv(a, key) && Next(a, b)
    requires forall id :: id in b.clients && b.clients[id].Loading? ==> LeavesAlone(b.clients[id], key)
    ensures SeedInv(b, key) && PointerKept(a.store, b.store, key)
  {
    hide ClientStep, SeederInv, LeavesAlone;
    if id :| Steps(a, b, id) {
      ClientStepKeepsPointer(a.store, a.clients[id], b.store, b.clients[id], key);
      forall other | other in b.clients
        ensures SeederInv(b.store, b.clients[other], key)
      {
        if other != id {
          SeederInvKept(a.store, b.store, b.clients[other], key);
        }
      }
    } else if b.clients == a.clients && ReleaseStep(a.store, b.store) {
      ReleaseKeepsPointer(a.store, b.store, key);
      forall id | id in b.clients
        ensures SeederInv(b.store, b.clients[id], key)
      {
        SeederInvKept(a.store, b.store, b.clients[id], key);
      }
    } else {
      assert b.store == a.store;
      forall c | Fresh(c) || c.Failed?
        ensures SeederInv(b.store, c, key) && (c.Loading? || LeavesAlone(c, key))
      {
        FreshSeeds(b.store, c, key);
      }
    }
  }

  lemma ReleaseKeepsPointer(s: Store, s': Store, key: PointerKey)
    requires key.PackagePointer? && ReleaseStep(s, s')
    ensures PointerKept(s, s', key)
  {
  }

  lemma FreshSeeds(s: Store, c: Client, key: PointerKey)
    requires Fresh(c) || c.Failed?
    ensures SeederInv(s, c, key) && (c.Loading? || LeavesAlone(c, key))
  {
  }

  lemma SeederInvKept(s: Store, s': Store, c: Client, key: PointerKey)
    requires SeederInv(s, c, key) && PointerKept(s, s', key)
    ensures SeederInv(s', c, key)
  {
  }

  lemma {:induction false} RunKeepsSeedInv(run: seq<State>, key: PointerKey, i: nat)
    requires IsRun(run) && key.PackagePointer? && SeedersOnly(run, key) && i < |run|
    ensures SeedInv(run[i], key)
  {
    if i > 0 {
      RunKeepsSeedInv(run, key, i - 1);
      assert StepTo(run, i);
      NextKeepsSeedInv(run[i - 1], run[i], key);
    }
  }

  lemma {:induction false} PointerStays(run: seq<State>, key: PointerKey, i: nat, j: nat)
    requires IsRun(run) && key.PackagePointer? && SeedersOnly(run, key) && i <= j < |run|
    requires Current(run[i].store, key).Some?
    ensures Current(run[j].store, key) == Current(run[i].store, key)
    decreases j
  {
    hide Next, LeavesAlone, SeedInv, Consistent;
    if i < j {
      PointerStays(run, key, i, j - 1);
      RunKeepsSeedInv(run, key, j - 1);
      assert StepTo(run, j);
      NextKeepsSeedInv(run[j - 1], run[j], key);
    }
  }

  /** After a seeder has returned Ok, its pointer names its candidate ever after. */
  lemma SeededForever(run: seq<State>, i: nat, j: nat, id: nat)
    requires IsRun(run) && i <= j < |run| && id in run[i].clients && run[i].clients[id].Seeded?
    requires SeedersOnly(run, PackageKey(run[i].clients[id].candidate))
    ensures var candidate := run[i].clients[id].candidate;
            Current(run[j].store, PackageKey(candidate)) == Some(ToPackage(candidate))
  {
    var key := PackageKey(run[i].clients[id].candidate);
    RunKeepsSeedInv(run, key, i);
    assert SeederInv(run[i].store, run[i].clients[id], key);
    PointerStays(run, key, i, j);
  }

  /** Two seeders of one coordinate that both return Ok had the same candidate, whenever
      in the run each of them returned. */
  lemma SeedersAgree(run: seq<State>, i: nat, a: nat, j: nat, b: nat)
    requires IsRun(run) && i < |run| && j < |run|
    requires a in run[i].clients && run[i].clients[a].Seeded?
    requires b in run[j].clients && run[j].clients[b].Seeded?
    requires PackageKey(run[i].clients[a].candidate) == PackageKey(run[j].clients[b].candidate)
    requires SeedersOnly(run, PackageKey(run[i].clients[a].candidate))
    ensures run[i].clients[a].candidate == run[j].clients[b].candidate
  {
    var last := if i <= j then j else i;
    SeededForever(run, i, last, a);
    SeededForever(run, j, last, b);
  }
}
