/** Paths of records and pointers (artifact-identity/src/ecosystem_paths.rs): every path
    built from valid parts is a relative path and says what it was built from. */
module RecordPaths {
  import opened Wrappers
  import opened StoragePaths
  import opened Strings

  datatype IdentityKind =
    | PackageBuild | LocalAbi | SchemaIndexIdentity | SchemaTypeIdentity | FileIrIdentity | BytecodeIdentity
    | ProtocolIdentity | DeploymentIdentity

  function Prefix(kind: IdentityKind): string {
    match kind
    case PackageBuild => "skiff-package-build-v14:sha256"
    case LocalAbi => "skiff-package-local-abi-v7:sha256"
    case SchemaIndexIdentity => "skiff-package-schema-index-v1:sha256"
    case SchemaTypeIdentity => "skiff-package-schema-type-v2:sha256"
    case FileIrIdentity => "skiff-file-ir-v15:sha256"
    case BytecodeIdentity => "skiff-bytecode-image-v5:sha256"
    case ProtocolIdentity => "skiff-service-protocol-v6:sha256"
    case DeploymentIdentity => "skiff-deployment-artifact-v4:sha256"
  }

  function HashOf(value: string, kind: IdentityKind): Option<string> {
    IdentityHash(value, Prefix(kind))
  }

  datatype PackageRef = PackageRef(id: string, version: string, build: string, localAbi: string)

  datatype Reference =
    | PackageArtifact(package: PackageRef)
    | SchemaIndex(packageId: string, identity: string)
    | SchemaType(packageId: string, identity: string)
    | FileIrRecord(package: PackageRef, identity: string, declared: Option<string>)
    | BytecodeRecord(package: PackageRef, identity: string, declared: Option<string>)
    | ResourceRecord(package: PackageRef, sha256: string, declared: Option<string>)
    | ContractRecord(serviceId: string, version: string, identity: string)
    | DeploymentRecord(serviceId: string, version: string, revision: string, identity: string)
    | PackagePointer(packageId: string, version: string)
    | ContractPointer(serviceId: string, version: string)
    | DeploymentPointer(serviceId: string, version: string)
    | ReleasePointer(profile: string, serviceId: string, version: string)

  /** A path, an error, or a failed expectation. */
  datatype Result = Path(path: string) | Refused | Panic

  // ----- Relative paths -----

  predicate WindowsDrive(path: string) {
    |path| > 1 && path[1] == ':' && (Lower(path[0]) || 'A' <= path[0] <= 'Z')
  }

  predicate IsRelative(path: string) {
    && path != "" && path[0] != '/' && !WindowsDrive(path) && '\\' !in path
    && Steps(Split(path, '/'))
  }

  function Parse(path: string): Result {
    if IsRelative(path) then Path(path) else Refused
  }

  // ----- Building paths -----

  function PackagePath(p: PackageRef): Result {
    match (CoordinateSegment(p.id), SafeSegment(p.version), HashOf(p.build, PackageBuild), HashOf(p.localAbi, LocalAbi))
    case (Some(id), Some(version), Some(build), Some(_)) =>
      Parse(Join([Text(Records), Text(PackageArtifacts), id, version, build, Text(PackageJson)]))
    case _ => Refused
  }

  /** A path beside the package record: its last part gives way to `tail`. */
  function BesidePackage(p: PackageRef, hash: Option<string>, directory: Word, suffix: string, declared: Option<string>): Result {
    match PackagePath(p)
    case Path(path) =>
      (match hash
       case None => Refused
       case Some(hash) =>
         match StripSuffix(path, Text(PackageJson))
         case None => Panic
         case Some(base) =>
           var canonical := base + Text(directory) + "/" + hash + suffix;
           if declared.Some? && (!IsRelative(declared.value) || declared.value != canonical) then Refused
           else Parse(canonical))
    case failed => failed
  }

  function PathOf(r: Reference): Result {
    match r
    case PackageArtifact(package) => PackagePath(package)
    case SchemaIndex(packageId, identity) =>
      Flat([Records, PackageSchemaIndexes], [CoordinateSegment(packageId)], HashOf(identity, SchemaIndexIdentity))
    case SchemaType(packageId, identity) =>
      Flat([Records, PackageSchemaTypes], [CoordinateSegment(packageId)], HashOf(identity, SchemaTypeIdentity))
    case FileIrRecord(package, identity, declared) =>
      BesidePackage(package, HashOf(identity, FileIrIdentity), FileIr, ".json", declared)
    case BytecodeRecord(package, identity, declared) =>
      BesidePackage(package, HashOf(identity, BytecodeIdentity), Bytecode, ".json", declared)
    case ResourceRecord(package, sha256, declared) =>
      BesidePackage(package, if ValidSha256(sha256) then Some(sha256) else None, Resources, ".blob", declared)
    case ContractRecord(serviceId, version, identity) =>
      Flat([Records, ServiceContracts], [CoordinateSegment(serviceId), SafeSegment(version)], HashOf(identity, ProtocolIdentity))
    case DeploymentRecord(serviceId, version, revision, identity) =>
      Flat([Records, ServiceDeployments], [CoordinateSegment(serviceId), SafeSegment(version), SafeSegment(revision)],
           HashOf(identity, DeploymentIdentity))
    case PackagePointer(packageId, version) =>
      Flat([Pointers, PackageArtifacts], [CoordinateSegment(packageId)], SafeSegment(version))
    case ContractPointer(serviceId, version) =>
      Flat([Pointers, ServiceContracts], [CoordinateSegment(serviceId)], SafeSegment(version))
    case DeploymentPointer(serviceId, version) =>
      Flat([Pointers, ServiceDeployments], [CoordinateSegment(serviceId)], SafeSegment(version))
    case ReleasePointer(profile, serviceId, version) =>
      Flat([Pointers, Releases], [SafeSegment(profile), CoordinateSegment(serviceId)], SafeSegment(version))
  }

  /** Fixed words, checked parts, and a checked file name ending in ".json". */
  function Flat(words: seq<Word>, parts: seq<Option<string>>, leaf: Option<string>): Result {
    if leaf.None? || !AllSome(parts) then Refused
    else Parse(Join(FlatParts(words, parts, leaf.value)))
  }

  predicate AllSome(parts: seq<Option<string>>) {
    forall i :: 0 <= i < |parts| ==> parts[i].Some?
  }

  lemma AllSomeLists()
    ensures forall a :: AllSome([a]) <==> a.Some?
    ensures forall a, b :: AllSome([a, b]) <==> a.Some? && b.Some?
    ensures forall a, b, c :: AllSome([a, b, c]) <==> a.Some? && b.Some? && c.Some?
  {
    forall a
      ensures AllSome([a]) <==> a.Some?
    {
      assert [a][0] == a;
    }
    forall a, b
      ensures AllSome([a, b]) <==> a.Some? && b.Some?
    {
      assert [a, b][0] == a && [a, b][1] == b;
    }
    forall a, b, c
      ensures AllSome([a, b, c]) <==> a.Some? && b.Some? && c.Some?
    {
      assert [a, b, c][0] == a && [a, b, c][1] == b && [a, b, c][2] == c;
    }
  }

  function FlatParts(words: seq<Word>, parts: seq<Option<string>>, leaf: string): (r: seq<string>)
    requires AllSome(parts)
    ensures |r| == |words| + |parts| + 1
  {
    seq(|words|, i requires 0 <= i < |words| => Text(words[i]))
    + seq(|parts|, i requires 0 <= i < |parts| => parts[i].value) + [leaf + ".json"]
  }

  // ----- Reading paths -----

  function Identity(kind: IdentityKind, hash: string): string {
    Prefix(kind) + ":" + hash
  }

  function WithoutSuffix(s: string, suffix: string): string {
    match StripSuffix(s, suffix)
    case Some(base) => base
    case None => s
  }

  function ReadPackage(parts: seq<string>): PackageRef
    requires |parts| >= 5
  {
    PackageRef(ReadCoordinate(parts[2]), parts[3], Identity(PackageBuild, parts[4]), "")
  }

  function ReadRecord(parts: seq<string>): Option<Reference>
    requires |parts| >= 4
  {
    var n := |parts|;
    var leaf := WithoutSuffix(parts[n - 1], ".json");
    if parts[1] == Text(PackageArtifacts) && n == 6 then Some(PackageArtifact(ReadPackage(parts)))
    else if parts[1] == Text(PackageArtifacts) && n == 7 then
      if parts[5] == Text(FileIr) then Some(FileIrRecord(ReadPackage(parts), Identity(FileIrIdentity, leaf), None))
      else if parts[5] == Text(Bytecode) then Some(BytecodeRecord(ReadPackage(parts), Identity(BytecodeIdentity, leaf), None))
      else Some(ResourceRecord(ReadPackage(parts), WithoutSuffix(parts[6], ".blob"), None))
    else if parts[1] == Text(PackageSchemaIndexes) then Some(SchemaIndex(ReadCoordinate(parts[2]), Identity(SchemaIndexIdentity, leaf)))
    else if parts[1] == Text(PackageSchemaTypes) then Some(SchemaType(ReadCoordinate(parts[2]), Identity(SchemaTypeIdentity, leaf)))
    else if parts[1] == Text(ServiceContracts) then
      Some(ContractRecord(ReadCoordinate(parts[2]), parts[3], Identity(ProtocolIdentity, leaf)))
    else if parts[1] == Text(ServiceDeployments) && n == 6 then
      Some(DeploymentRecord(ReadCoordinate(parts[2]), parts[3], parts[4], Identity(DeploymentIdentity, leaf)))
    else None
  }

  function ReadPointer(parts: seq<string>): Option<Reference>
    requires |parts| >= 4
  {
    var leaf := WithoutSuffix(parts[|parts| - 1], ".json");
    if parts[1] == Text(PackageArtifacts) then Some(PackagePointer(ReadCoordinate(parts[2]), leaf))
    else if parts[1] == Text(ServiceContracts) then Some(ContractPointer(ReadCoordinate(parts[2]), leaf))
    else if parts[1] == Text(ServiceDeployments) then Some(DeploymentPointer(ReadCoordinate(parts[2]), leaf))
    else Some(ReleasePointer(parts[2], ReadCoordinate(parts[3]), leaf))
  }

  function ReadParts(parts: seq<string>): Option<Reference> {
    if |parts| < 4 then None
    else if parts[0] == Text(Records) then ReadRecord(parts)
    else ReadPointer(parts)
  }

  function ReadPath(path: string): Option<Reference> {
    ReadParts(Split(path, '/'))
  }

  /** What of a reference is in its path: all but the local ABI and the declared path. */
  function InPath(r: Reference): Reference {
    match r
    case PackageArtifact(package) => PackageArtifact(package.(localAbi := ""))
    case FileIrRecord(package, identity, _) => FileIrRecord(package.(localAbi := ""), identity, None)
    case BytecodeRecord(package, identity, _) => BytecodeRecord(package.(localAbi := ""), identity, None)
    case ResourceRecord(package, sha256, _) => ResourceRecord(package.(localAbi := ""), sha256, None)
    case _ => r
  }

  // ----- Valid references -----

  predicate ValidPackage(p: PackageRef) {
    && CoordinateSegment(p.id).Some? && SafeSegment(p.version).Some?
    && HashOf(p.build, PackageBuild).Some? && HashOf(p.localAbi, LocalAbi).Some?
  }

  predicate ValidParts(r: Reference) {
    match r
    case PackageArtifact(package) => ValidPackage(package)
    case SchemaIndex(packageId, identity) => CoordinateSegment(packageId).Some? && HashOf(identity, SchemaIndexIdentity).Some?
    case SchemaType(packageId, identity) => CoordinateSegment(packageId).Some? && HashOf(identity, SchemaTypeIdentity).Some?
    case FileIrRecord(package, identity, _) => ValidPackage(package) && HashOf(identity, FileIrIdentity).Some?
    case BytecodeRecord(package, identity, _) => ValidPackage(package) && HashOf(identity, BytecodeIdentity).Some?
    case ResourceRecord(package, sha256, _) => ValidPackage(package) && ValidSha256(sha256)
    case ContractRecord(serviceId, version, identity) =>
      CoordinateSegment(serviceId).Some? && SafeSegment(version).Some? && HashOf(identity, ProtocolIdentity).Some?
    case DeploymentRecord(serviceId, version, revision, identity) =>
      CoordinateSegment(serviceId).Some? && SafeSegment(version).Some? && SafeSegment(revision).Some? && HashOf(identity, DeploymentIdentity).Some?
    case PackagePointer(packageId, version) => CoordinateSegment(packageId).Some? && SafeSegment(version).Some?
    case ContractPointer(serviceId, version) => CoordinateSegment(serviceId).Some? && SafeSegment(version).Some?
    case DeploymentPointer(serviceId, version) => CoordinateSegment(serviceId).Some? && SafeSegment(version).Some?
    case ReleasePointer(profile, serviceId, version) =>
      SafeSegment(profile).Some? && CoordinateSegment(serviceId).Some? && SafeSegment(version).Some?
  }

  function Declared(r: Reference): Option<string> {
    match r
    case FileIrRecord(_, _, declared) => declared
    case BytecodeRecord(_, _, declared) => declared
    case ResourceRecord(_, _, declared) => declared
    case _ => None
  }

  /** The parts of the path of a valid reference. */
  function PartsOf(r: Reference): seq<string>
    requires ValidParts(r)
  {
    match r
    case PackageArtifact(p) => PackageParts(p) + [Text(PackageJson)]
    case SchemaIndex(id, identity) =>
      [Text(Records), Text(PackageSchemaIndexes), CoordinateSegment(id).value, HashOf(identity, SchemaIndexIdentity).value + ".json"]
    case SchemaType(id, identity) =>
      [Text(Records), Text(PackageSchemaTypes), CoordinateSegment(id).value, HashOf(identity, SchemaTypeIdentity).value + ".json"]
    case FileIrRecord(p, identity, _) => PackageParts(p) + [Text(FileIr), HashOf(identity, FileIrIdentity).value + ".json"]
    case BytecodeRecord(p, identity, _) => PackageParts(p) + [Text(Bytecode), HashOf(identity, BytecodeIdentity).value + ".json"]
    case ResourceRecord(p, sha256, _) => PackageParts(p) + [Text(Resources), sha256 + ".blob"]
    case ContractRecord(id, version, identity) =>
      [Text(Records), Text(ServiceContracts), CoordinateSegment(id).value, version, HashOf(identity, ProtocolIdentity).value + ".json"]
    case DeploymentRecord(id, version, revision, identity) =>
      [Text(Records), Text(ServiceDeployments), CoordinateSegment(id).value, version, revision,
       HashOf(identity, DeploymentIdentity).value + ".json"]
    case PackagePointer(id, version) =>
      [Text(Pointers), Text(PackageArtifacts), CoordinateSegment(id).value, version + ".json"]
    case ContractPointer(id, version) =>
      [Text(Pointers), Text(ServiceContracts), CoordinateSegment(id).value, version + ".json"]
    case DeploymentPointer(id, version) =>
      [Text(Pointers), Text(ServiceDeployments), CoordinateSegment(id).value, version + ".json"]
    case ReleasePointer(profile, id, version) =>
      [Text(Pointers), Text(Releases), profile, CoordinateSegment(id).value, version + ".json"]
  }

  function PackageParts(p: PackageRef): seq<string>
    requires ValidPackage(p)
  {
    [Text(Records), Text(PackageArtifacts), CoordinateSegment(p.id).value, p.version, HashOf(p.build, PackageBuild).value]
  }

  lemma SafeLists()
    ensures forall id :: CoordinateSegment(id).Some? ==> SafePart(CoordinateSegment(id).value)
    ensures forall v :: SafeSegment(v).Some? ==> SafeSegment(v).value == v && SafePart(v) && SafePart(v + ".json")
    ensures forall v, kind :: HashOf(v, kind).Some? ==>
              SafePart(HashOf(v, kind).value) && SafePart(HashOf(v, kind).value + ".json")
    ensures forall h :: ValidSha256(h) ==> SafePart(h + ".blob")
    ensures forall w :: SafePart(Text(w))
  {
    hide SafePart;
    forall id | CoordinateSegment(id).Some?
      ensures SafePart(CoordinateSegment(id).value)
    {
      CoordinateSafe(id);
    }
    forall v | SafeSegment(v).Some?
      ensures SafePart(v) && SafePart(v + ".json")
    {
      SegmentSafe(v);
    }
    forall v, kind | HashOf(v, kind).Some?
      ensures SafePart(HashOf(v, kind).value) && SafePart(HashOf(v, kind).value + ".json")
    {
      HashSafe(HashOf(v, kind).value);
    }
    forall h | ValidSha256(h)
      ensures SafePart(h + ".blob")
    {
      HashSafe(h);
    }
    forall w
      ensures SafePart(Text(w))
    {
      WordSafe(w);
    }
  }

  lemma PartsSafe(r: Reference)
    requires ValidParts(r)
    ensures PartsOf(r) != [] && forall i :: 0 <= i < |PartsOf(r)| ==> SafePart(PartsOf(r)[i])
  {
    SafeLists();
    hide SafePart, Text, CoordinateSegment, SafeSegment, HashOf, ValidSha256;
  }

  lemma {:induction false} JoinChars(parts: seq<string>)
    requires parts != [] && forall i :: 0 <= i < |parts| ==> SafePart(parts[i])
    ensures '\\' !in Join(parts) && ':' !in Join(parts) && Join(parts) != "" && Join(parts)[0] != '/'
  {
    if |parts| > 1 {
      JoinChars(parts[1..]);
    }
  }

  /** No part steps out of its directory. */
  predicate Steps(parts: seq<string>) {
    forall i :: 0 <= i < |parts| ==> parts[i] != "" && parts[i] != "." && parts[i] != ".."
  }

  lemma SafeSteps(parts: seq<string>)
    requires forall i :: 0 <= i < |parts| ==> SafePart(parts[i])
    ensures Steps(parts) && forall i :: 0 <= i < |parts| ==> '/' !in parts[i]
  {
  }

  /** Safe parts joined are a relative path. */
  lemma JoinIsRelative(parts: seq<string>)
    requires parts != [] && forall i :: 0 <= i < |parts| ==> SafePart(parts[i])
    ensures IsRelative(Join(parts)) && Split(Join(parts), '/') == parts
  {
    JoinChars(parts);
    SafeSteps(parts);
    hide SafePart, Join, Split, Steps;
    SplitJoin(parts);
    var path := Join(parts);
    assert |path| > 1 ==> path[1] in path;
  }

  /** Joining with one more word and file name in place of the record's name. */
  lemma BesideJoin(base: seq<string>, name: string, directory: string, leaf: string)
    requires base != []
    ensures StripSuffix(Join(base + [name]), name).Some?
    ensures StripSuffix(Join(base + [name]), name).value + directory + "/" + leaf == Join(base + [directory, leaf])
  {
    JoinAppend(base, name);
    JoinAppend(base, directory);
    JoinAppend(base + [directory], leaf);
    hide Join;
    assert base + [directory] + [leaf] == base + [directory, leaf];
    var whole := Join(base + [name]);
    assert whole[|whole| - |name|..] == name;
    assert whole[..|whole| - |name|] == Join(base) + "/";
  }

  lemma PackagePathIs(p: PackageRef)
    ensures PackagePath(p) == if ValidPackage(p) then Path(Join(PackageParts(p) + [Text(PackageJson)])) else Refused
  {
    if ValidPackage(p) {
      PartsSafe(PackageArtifact(p));
      var parts := PackageParts(p) + [Text(PackageJson)];
      JoinIsRelative(parts);
      hide Join, Text, CoordinateSegment, HashOf, IsRelative;
      assert parts == [Text(Records), Text(PackageArtifacts), CoordinateSegment(p.id).value, p.version, HashOf(p.build, PackageBuild).value, Text(PackageJson)];
    }
  }

  lemma BesideIs(r: Reference, p: PackageRef, hash: Option<string>, directory: Word, suffix: string, declared: Option<string>)
    requires ValidParts(r) <==> ValidPackage(p) && hash.Some?
    requires ValidParts(r) ==> PartsOf(r) == PackageParts(p) + [Text(directory), hash.value + suffix]
    ensures BesidePackage(p, hash, directory, suffix, declared) ==
      if ValidParts(r) && (declared.None? || declared.value == Join(PartsOf(r))) then Path(Join(PartsOf(r))) else Refused
  {
    PackagePathIs(p);
    if ValidPackage(p) && hash.Some? {
      PartsSafe(r);
      hide ValidParts, PartsOf, ValidPackage, PackageParts, Text, IsRelative, PackagePath;
      JoinIsRelative(PartsOf(r));
      BesideJoin(PackageParts(p), Text(PackageJson), Text(directory), hash.value + suffix);
      hide StripSuffix, Join;
      var base := StripSuffix(Join(PackageParts(p) + [Text(PackageJson)]), Text(PackageJson)).value;
      assert base + Text(directory) + "/" + hash.value + suffix == base + Text(directory) + "/" + (hash.value + suffix);
    }
  }

  lemma FlatIs(r: Reference, words: seq<Word>, parts: seq<Option<string>>, leaf: Option<string>)
    requires ValidParts(r) <==> leaf.Some? && AllSome(parts)
    requires ValidParts(r) ==> PartsOf(r) == FlatParts(words, parts, leaf.value)
    ensures Flat(words, parts, leaf) == if ValidParts(r) then Path(Join(PartsOf(r))) else Refused
  {
    if ValidParts(r) {
      PartsSafe(r);
      hide ValidParts, PartsOf, Join, IsRelative, FlatParts;
      JoinIsRelative(PartsOf(r));
    }
  }

  /** A path is built from every reference with valid parts whose declared path, if any, is
      that path; nothing else is accepted and no expectation fails. */
  lemma PathBuilt(r: Reference)
    ensures PathOf(r) ==
      if ValidParts(r) && (Declared(r).None? || Declared(r).value == Join(PartsOf(r))) then Path(Join(PartsOf(r))) else Refused
  {
    hide CoordinateSegment, SafeSegment, HashOf, ValidSha256, Text, Join, Flat, BesidePackage, PackagePath;
    SafeSegmentsSame();
    AllSomeLists();
    match r
    case PackageArtifact(p) =>
      PackagePathIs(p);
    case FileIrRecord(p, identity, declared) =>
      BesideIs(r, p, HashOf(identity, FileIrIdentity), FileIr, ".json", declared);
    case BytecodeRecord(p, identity, declared) =>
      BesideIs(r, p, HashOf(identity, BytecodeIdentity), Bytecode, ".json", declared);
    case ResourceRecord(p, sha256, declared) =>
      BesideIs(r, p, if ValidSha256(sha256) then Some(sha256) else None, Resources, ".blob", declared);
    case SchemaIndex(id, identity) =>
      FlatIs(r, [Records, PackageSchemaIndexes], [CoordinateSegment(id)], HashOf(identity, SchemaIndexIdentity));
    case SchemaType(id, identity) =>
      FlatIs(r, [Records, PackageSchemaTypes], [CoordinateSegment(id)], HashOf(identity, SchemaTypeIdentity));
    case ContractRecord(id, version, identity) =>
      FlatIs(r, [Records, ServiceContracts], [CoordinateSegment(id), SafeSegment(version)], HashOf(identity, ProtocolIdentity));
    case DeploymentRecord(id, version, revision, identity) =>
      FlatIs(r, [Records, ServiceDeployments], [CoordinateSegment(id), SafeSegment(version), SafeSegment(revision)],
             HashOf(identity, DeploymentIdentity));
    case PackagePointer(id, version) =>
      FlatIs(r, [Pointers, PackageArtifacts], [CoordinateSegment(id)], SafeSegment(version));
    case ContractPointer(id, version) =>
      FlatIs(r, [Pointers, ServiceContracts], [CoordinateSegment(id)], SafeSegment(version));
    case DeploymentPointer(id, version) =>
      FlatIs(r, [Pointers, ServiceDeployments], [CoordinateSegment(id)], SafeSegment(version));
    case ReleasePointer(profile, id, version) =>
      FlatIs(r, [Pointers, Releases], [SafeSegment(profile), CoordinateSegment(id)], SafeSegment(version));
  }

  lemma SafeSegmentsSame()
    ensures forall v :: SafeSegment(v).Some? ==> SafeSegment(v).value == v
  {
  }

  lemma ReadFacts()
    ensures forall id :: CoordinateSegment(id).Some? ==> ReadCoordinate(CoordinateSegment(id).value) == id
    ensures forall v, kind :: HashOf(v, kind).Some? ==> Identity(kind, HashOf(v, kind).value) == v
    ensures forall s :: WithoutSuffix(s + ".json", ".json") == s
    ensures forall s :: WithoutSuffix(s + ".blob", ".blob") == s
    ensures forall v, w :: Text(v) == Text(w) ==> v == w
  {
    forall id | CoordinateSegment(id).Some?
      ensures ReadCoordinate(CoordinateSegment(id).value) == id
    {
      CoordinateSafe(id);
    }
    forall v, w
      ensures Text(v) == Text(w) ==> v == w
    {
      WordsDiffer(v, w);
    }
    forall s: string, suffix: string
      ensures WithoutSuffix(s + suffix, suffix) == s
    {
      assert (s + suffix)[|s|..] == suffix && (s + suffix)[..|s|] == s;
    }
    HashesRead();
  }

  lemma HashesRead()
    ensures forall v, kind :: HashOf(v, kind).Some? ==> Identity(kind, HashOf(v, kind).value) == v
  {
    hide Prefix;
  }

  lemma PackagePartsRead(r: Reference)
    requires ValidParts(r) && (r.PackageArtifact? || r.FileIrRecord? || r.BytecodeRecord? || r.ResourceRecord?)
    ensures ReadParts(PartsOf(r)) == Some(InPath(r))
  {
    ReadFacts();
    hide CoordinateSegment, SafeSegment, HashOf, ValidSha256, Text, ReadCoordinate, Identity, WithoutSuffix;
    var parts := PartsOf(r);
    assert ReadPackage(parts) == r.package.(localAbi := "");
    hide ReadPackage;
    assert ReadParts(parts) == ReadRecord(parts);
  }

  lemma RecordPartsRead(r: Reference)
    requires ValidParts(r) && (r.SchemaIndex? || r.SchemaType? || r.ContractRecord? || r.DeploymentRecord?)
    ensures ReadParts(PartsOf(r)) == Some(InPath(r))
  {
    ReadFacts();
    hide CoordinateSegment, SafeSegment, HashOf, ValidSha256, Text, ReadCoordinate, Identity, WithoutSuffix;
    assert ReadParts(PartsOf(r)) == ReadRecord(PartsOf(r));
  }

  lemma PointerPartsRead(r: Reference)
    requires ValidParts(r) && (r.PackagePointer? || r.ContractPointer? || r.DeploymentPointer? || r.ReleasePointer?)
    ensures ReadParts(PartsOf(r)) == Some(InPath(r))
  {
    ReadFacts();
    hide CoordinateSegment, SafeSegment, HashOf, ValidSha256, Text, ReadCoordinate, Identity, WithoutSuffix;
    assert ReadParts(PartsOf(r)) == ReadPointer(PartsOf(r));
  }

  lemma PartsRead(r: Reference)
    requires ValidParts(r)
    ensures ReadParts(PartsOf(r)) == Some(InPath(r))
  {
    hide ValidParts, PartsOf, ReadParts, InPath;
    match r
    case PackageArtifact(_) => PackagePartsRead(r);
    case FileIrRecord(_, _, _) => PackagePartsRead(r);
    case BytecodeRecord(_, _, _) => PackagePartsRead(r);
    case ResourceRecord(_, _, _) => PackagePartsRead(r);
    case SchemaIndex(_, _) => RecordPartsRead(r);
    case SchemaType(_, _) => RecordPartsRead(r);
    case ContractRecord(_, _, _) => RecordPartsRead(r);
    case DeploymentRecord(_, _, _, _) => RecordPartsRead(r);
    case PackagePointer(_, _) => PointerPartsRead(r);
    case ContractPointer(_, _) => PointerPartsRead(r);
    case DeploymentPointer(_, _) => PointerPartsRead(r);
    case ReleasePointer(_, _, _) => PointerPartsRead(r);
  }

  /** A path tells its family and every field that is in it. */
  lemma PathReads(r: Reference)
    requires PathOf(r).Path?
    ensures IsRelative(PathOf(r).path) && ReadPath(PathOf(r).path) == Some(InPath(r))
  {
    PathBuilt(r);
    hide PathOf;
    PartsSafe(r);
    PartsRead(r);
    hide ValidParts, PartsOf, ReadParts, IsRelative, Join;
    JoinIsRelative(PartsOf(r));
  }

  /** References share a path only if they agree on everything that is in paths. */
  lemma PathsDiffer(a: Reference, b: Reference)
    requires PathOf(a).Path? && PathOf(a) == PathOf(b)
    ensures InPath(a) == InPath(b)
  {
    PathReads(a);
    PathReads(b);
  }
}
