# Skiff: identity, publication and configuration, verified

Skiff compiles packages and services into immutable artifacts that are named by
identities. This project models the parts of the compiler and its tools on which those
identities and their publication rest, and proves that they do what they are for.

- **Actor implementation identity** (`ActorIdentity`, `ActorInvariance`,
  `ActorSelfContained`, `ActorCode`, `ActorPreimages`). Two worklists find the executables,
  constants and types an actor reaches, and a tree rewrite replaces table positions by
  (module, name) keys. The preimage is exactly what is reachable; neither table order, unit
  order nor unreachable code shows in it, and everything else that is code does.
- **Gateway schemas** (`GatewaySchema`, `GatewayMeaning`, `GatewayRaw`, `GatewaySurface`,
  `GatewayReader`). The normaliser is a normal form: it keeps the accepted values, makes
  equal exactly what is the same schema, is idempotent, and the reader accepts exactly what
  it can produce.
- **Publication** (`Publication`, `PublicationProgress`). Any number of publishers and std
  seeders run against a store of immutable records and compare-and-swap pointers, and crash
  anywhere; nothing ever dangles, every pointer names a record of its own kind and
  coordinates, a publisher that returns has moved each of its pointers to its own record,
  and seeders that succeed agree.
- **Package closure and binding** (`PackageClosure`). The walk that collects packages and
  the pass that binds them choose independently and always choose alike, and what they
  choose is what the requirement asks for.
- **Generated files** (`CodegenTransaction`). A transaction over a small file system, with
  any operations failing, leaves every target all old or all new.
- **Schema records, templates, keys** (`SchemaGraph`, `TemplateMatch`, `NominalKey`). A
  depth-first search that accepts exactly the closed acyclic graphs; matching that returns
  the one solution; a key encoding with a decoder that inverts it both ways.
- **Configuration and JSON** (`ConfigMerge`, `JsonOverlay`, `CanonicalJson`,
  `VersionLabels`).
- **Profiling counters** (`Counters`, `CounterWindows`) and **stored paths**
  (`StoragePaths`, `RecordPaths`).

`Sorting` and `Reachability` hold the shared theory of orders and of worklists over
graphs, `Strings` that of splitting and joining; `JsonValues`, `ByteStrings` and
`Wrappers` hold shared data types.

Conventions. A byte sort key is a value of an arbitrary strict total order, so results
hold for every such order; a hash is left out and its input, the preimage, is compared
instead. An error whose only content is a message is `None`; where the kind of error
matters it is an alternative of the result. Objects whose member order cannot be observed
are maps. Loops over maps and sets that the source iterates in key order take their
elements in any order where that cannot be observed.

## Where the code differs from a first reading

- The preimage of an actor is not always self-contained. A call's metadata is free JSON: an
  object in it that has the shape of a local executable reference is renamed although the
  worklist never follows it (`ActorSelfContained.MetadataEscapes`), and one that already has
  the shape of a renamed reference is left as it is (`ActorSelfContained.MetadataPoses`).
  `ActorSelfContained.SelfContainedExactly` shows that nothing else goes wrong.
- The build identity of a package leaves out its version label and those of its
  requirements, so two packages in reach can share a build. A list with one package per
  build, as the walk returns it, then leaves some requirement without its package, and only
  then (`PackageClosure.BindingExactly`; `PackageClosure.RelabelledUnbound` is an example).
- Which object type the JSON library uses depends on its `preserve_order` feature. The
  crates of the compiler switch it on; `canonical-json/Cargo.toml` (line 9) and
  `artifact-identity/Cargo.toml` (line 10) by themselves do not, save for their own tests.
  Insertion-ordered objects move their last member into the gap of a removed one, so
  stripping version labels can disorder an object in canonical form
  (`VersionLabels.StripDisorders`); sorted objects close the gap. `VersionLabels.StripCommutes`
  says, from the keys of the input alone, when stripping and canonicalising can be exchanged.
  Identities never depend on it, because canonicalisation comes after stripping
  (`VersionLabels.IdentityIgnoresLabels`).
- The float 2^63 becomes the integer 2^63 - 1 (`CanonicalJson.NumberValueKept`).
- An overlay keeps null members inside objects that it puts in whole, so it is neither the
  merge patch of RFC 7396 nor idempotent in general (`JsonOverlay.InsertedNull`);
  `JsonOverlay.OverlayIsMergePatch` and `JsonOverlay.OverlayIdempotent` give the exact
  condition, which is the same for both.
- The byte budget for profile stacks skips a stack that does not fit and goes on, although
  the comment on it speaks of cutting from the low end (`Counters.BudgetIsNoPrefix`).
  `Counters.KeptPrefixExactly` says when it is such a cut.
- After a rollback that failed, the cleanup still removes the backup of a target that could
  not be put back. Every target stays all old or all new, but the old contents of that one
  target are then gone (`CodegenTransaction.BackupLost`); `CodegenTransaction.OldContentsKept`
  says for every run exactly when that happens.

## Model

| member | source | states |
|---|---|---|
| ActorIdentity.ActorPreimage | artifact-identity/src/actor.rs:137-285 | The worklist algorithm terminates and computes the declarative preimage: it fails exactly when a lookup on a declaration reachable from the roots fails, and otherwise lists the reachable executables, constants and types in key order |
| ActorIdentity.WalkCode | artifact-identity/src/actor.rs:195-224 | The two-queue loop ends with exactly the executables and constants reachable from the roots, and fails exactly when a reachable declaration's references do not resolve |
| ActorIdentity.WalkTypes | artifact-identity/src/actor.rs:251-266 | The type worklist ends with exactly the types reachable from the listed code, types of types included |
| ActorIdentity.PushReferences | artifact-identity/src/actor.rs:213-224 | The expression loop pushes exactly the direct callees and loaded constants of one declaration, or fails when one does not resolve |
| ActorIdentity.EmitAll | artifact-identity/src/actor.rs:226-250 | Serialising and rewriting the listed code yields one entry each and collects exactly the types mentioned |
| ActorIdentity.BuildIndex | artifact-identity/src/actor.rs:287-298 | Units are indexed by module path; a second unit for a module fails |
| ActorIdentity.ListReachable | artifact-identity/src/actor.rs:195-276 | All three walks together succeed exactly when every reachable declaration can be resolved and rewritten, and list exactly the reachable ones |
| ActorPreimages.PreimageExactly | artifact-identity/src/actor.rs:137-285 | Said of the units' own fields: there is a preimage exactly if module paths are distinct, the first actor of the name implements just its public methods, and every declaration in reach is the only one of its name with all its positions resolved; it then holds the ABI identity, the named roots, and each declaration in reach once, rewritten, ordered by module and name |
| ActorPreimages.PreimagesAlike | artifact-identity/src/actor.rs:137-285 | Two preimages are equal if and only if ABI identity and roots agree and both actors reach the same declarations with the same code |
| ActorPreimages.EdgesExactly | artifact-identity/src/actor.rs:420-587 | A declaration leads to exactly the executables it calls directly, the constants it loads and the types mentioned anywhere in it, left-out members included |
| ActorPreimages.SoundExactly | artifact-identity/src/actor.rs:300-418 | A declaration can be processed exactly if it is the only one of its name and every position in it names something |
| ActorCode.RewrittenAlike | artifact-identity/src/actor.rs:441-544 | Two values are rewritten to the same value if and only if they are the same code: equal scalars, arrays item by item, references to one key (or objects already shaped like one), other objects member by member without source spans and actor method implementations |
| ActorCode.RewrittenExactly | artifact-identity/src/actor.rs:441-544 | The rewrite succeeds exactly if every reference in sight names a declaration and no constant load is without an index |
| ActorCode.InertStays | artifact-identity/src/actor.rs:441-544 | A value without references and left-out members is rewritten to itself |
| ActorCode.DeclAlike | artifact-identity/src/actor.rs:226-266 | Serialised declarations of one kind and name are the same code exactly if their expressions, calls and other fields are |
| ActorInvariance.PreimageIgnoresOrder | artifact-identity/src/actor.rs:137-285 | For every consistent permutation of the executable, constant and type tables and every reordering of the units, both runs fail or both give the same preimage |
| ActorInvariance.PreimageRenumbered | artifact-identity/src/actor.rs:137-285 | The same for a renumbering of indexed units alone |
| ActorInvariance.NormaliseMoved | artifact-identity/src/actor.rs:441-544 | The tree rewrite cancels a renumbering of the kind-tagged nodes |
| ActorInvariance.TypeRefsMoved | artifact-identity/src/actor.rs:546-587 | The type collector finds the same keys after a renumbering |
| ActorInvariance.DeclValueMoved | artifact-identity/src/actor.rs:226-266 | Renumbering a declaration and serialising it commute |
| ActorInvariance.NodeMoved | artifact-identity/src/actor.rs:300-439 | A declaration has the same successors, the same rewritten value and the same failures after a renumbering |
| ActorInvariance.IndexUnitsPermutation | artifact-identity/src/actor.rs:287-298 | The index does not depend on the order of the units, nor does its failure |
| ActorInvariance.PreimageIgnoresUnreachable | artifact-identity/src/actor.rs:195-276 | Added units, appended declarations and changed unreachable bodies leave a successful preimage as it was |
| ActorInvariance.PreimageAndFailureIgnoreUnreachable | artifact-identity/src/actor.rs:195-276 | With the same tables of names, changing what the actor does not reach changes neither the preimage nor the failure to have one |
| ActorSelfContained.SelfContainedExactly | artifact-identity/src/actor.rs:226-285 | Every canonical reference in the preimage names a listed declaration if and only if, in every reachable declaration, each executable or constant reference that the worklist does not follow and each object that already looks like a renamed reference names a reachable declaration |
| ActorSelfContained.RefsAreSites | artifact-identity/src/actor.rs:441-544 | The canonical references of a rewritten value are exactly the sites that were rewritten and the objects that had that shape before |
| ActorSelfContained.TypeSitesCollected | artifact-identity/src/actor.rs:546-587 | Every type the rewrite renames has been collected |
| ActorSelfContained.DeclSites | artifact-identity/src/actor.rs:420-544 | The rewrite sites of a declaration are its followed references and those in the rest of its value |
| ActorSelfContained.MetadataEscapes | artifact-identity/src/actor.rs:457-492 | A concrete actor whose preimage refers to an executable that is not listed, because a builtin call's metadata looks like a local executable |
| ActorSelfContained.MetadataPoses | artifact-identity/src/actor.rs:441-544 | A concrete actor whose preimage refers to an executable that exists nowhere, because the metadata looks like a renamed reference already |
| GatewaySurface.NormaliseSchema | artifact-identity/src/gateway.rs:215-268 | The recursive normaliser with its loops computes the specified normal form, errors included |
| GatewaySurface.NormaliseUnion | artifact-identity/src/gateway.rs:270-310 | Union normalisation flattens, extracts null, sorts and rejects duplicates as specified |
| GatewaySurface.CollectUnionMember | artifact-identity/src/gateway.rs:312-346 | One branch adds its members and at most one null in all |
| GatewaySurface.CollectBranches | artifact-identity/src/gateway.rs:278-283 | The branch loop collects all members in order and fails on a second null-bearing branch |
| GatewaySurface.HasAdjacentDuplicate | artifact-identity/src/gateway.rs:284-291 | Looking at neighbours in sorted order finds exactly the duplicates |
| GatewaySurface.CheckRequired | artifact-identity/src/gateway.rs:229-242 | The loop accepts exactly the lists of valid, declared names without repetition |
| GatewaySchema.NormaliseCanonical | artifact-identity/src/gateway.rs:215-346 | Every output is canonical |
| GatewaySchema.CanonicalFixed | artifact-identity/src/gateway.rs:97-107 | Canonical schemas are left as they are, so normalising again never fails |
| GatewaySchema.NormaliseIdempotent | artifact-identity/src/gateway.rs:97-107 | Normalising twice is normalising once |
| GatewaySchema.FixedPointsAreImages | artifact-identity/src/gateway.rs:89-107 | The fixed points are exactly the outputs and exactly the canonical schemas |
| GatewayRaw.NormalisableExactly | artifact-identity/src/gateway.rs:215-400 | The normaliser accepts exactly the raw schemas with proper field names, required names that are declared and not repeated, and unions that are not empty, allow null in at most one branch and repeat no alternative |
| GatewayRaw.SameNormalForm | artifact-identity/src/gateway.rs:215-346 | Two raw schemas have one normal form if and only if they have the same alternatives in any order and nesting, recursively, and null in both or neither |
| GatewayMeaning.NormalisePreservesMeaning | artifact-identity/src/gateway.rs:215-346 | A JSON value is accepted after normalisation if and only if it was accepted before, however scalars are read |
| GatewayMeaning.UnionByFlattening | artifact-identity/src/gateway.rs:270-336 | Success and result of a union depend only on the multiset of flattened members and the number of null-bearing branches |
| GatewayMeaning.UnionOrderIrrelevant | artifact-identity/src/gateway.rs:270-310 | Reordering the branches changes neither success nor result |
| GatewayMeaning.UnionGroupingIrrelevant | artifact-identity/src/gateway.rs:312-346 | Grouping a non-empty run of branches into a nested union changes neither success nor result |
| GatewayMeaning.StructuredInvariant | artifact-identity/src/gateway.rs:462-477 | The structured-parameters test answers the same before and after normalisation |
| GatewayMeaning.StructuredAcceptsOnlyContainers | artifact-identity/src/gateway.rs:454-477 | A schema that passes accepts only objects and arrays |
| GatewayMeaning.StructuredExactly | artifact-identity/src/gateway.rs:462-477 | The test passes exactly the schemas all of whose accepted values are objects or arrays |
| GatewaySurface.SortedSetSpec | artifact-identity/src/gateway.rs:191-213 | Sorting and deduplicating keeps the set of elements and is idempotent |
| GatewaySurface.ReaderAcceptsImage | artifact-identity/src/gateway.rs:52-107 | The reader accepts a surface if and only if some producer could have written it |
| GatewayReader.ReaderExactly | artifact-identity/src/gateway.rs:97-107 | The reader accepts exactly the surfaces whose schemas are canonical, whose lists are strictly in wire-name order, and whose fields obey the rules of their family |
| GatewayReader.ProducerExactly | artifact-identity/src/gateway.rs:52-87 | The producer accepts exactly the surfaces whose schemas can be normalised and whose fields obey the same rules in any order and repetition |
| GatewayReader.SurfaceKept | artifact-identity/src/gateway.rs:52-87 | Each part of the output is the same part of the input: the same schema in canonical form, accepting the same values under every codec; the same sources, frames and profiles, in order and once; the same adapter and dispatch mode |
| GatewayReader.SourceOrder | artifact-model/src/gateway.rs:160-172 | Sources are ordered as their wire names are |
| GatewaySurface.JsonRpcParamsStructured | artifact-identity/src/gateway.rs:427-460 | The parameters of an accepted JSON-RPC surface are objects or arrays, and the compiler's early check agrees |
| Publication.PublicationSafe | compiler/driver/authoring.rs:281-405 | In every interleaving with crashes and failed swaps, every pointer names an existing record of its own kind and coordinates, every deployment's contract, implementation and bound packages exist, and so do the parts of every package |
| PublicationProgress.PointersName | deployment/src/storage/pointers.rs:158-264 | In every reachable state a package, contract, deployment or release pointer names a stored record of that kind with the id and version of the pointer |
| PublicationProgress.PackagePublished | compiler/driver/authoring.rs:281-389 | A publisher that has returned has stored its own package with its parts, and if it was to publish, the package pointer named it in some earlier state |
| PublicationProgress.ServicePublished | compiler/driver/authoring.rs:286-389 | A publisher of a service that has returned has stored the contract and a deployment of it by its own package, and if it was to publish, the contract, deployment, release and package pointers named them, in this order |
| PublicationProgress.ReadBeforeSwap | compiler/driver/authoring.rs:328-384 | A publisher expects of a pointer what it read there in its previous step, so its swap goes through unless the pointer has moved since |
| PublicationProgress.SeederLooked | compiler/driver/authoring.rs:430-446 | A seeder that writes has seen no pointer at its coordinate, or its own |
| Publication.NextKeepsInv | compiler/driver/authoring.rs:281-473 | Every step of every client keeps the store consistent and each client's knowledge true |
| Publication.SwapFailsOnlyOnMismatch | deployment/src/storage/pointers.rs:175-264 | A swap of a client is refused exactly when another client has moved the pointer |
| Publication.SwapKeepsConsistent | deployment/src/storage/pointers.rs:368-391 | A swap keeps the store consistent and installs its candidate |
| Publication.WriteKeepsConsistent | deployment/src/storage/io.rs:67-114 | Writing a supported record keeps all records and consistency |
| Publication.SeededForever | compiler/driver/authoring.rs:430-473 | After a seeder returns Ok its pointer names its candidate in every later state, if only seeders publish at that coordinate |
| Publication.SeedersAgree | compiler/driver/authoring.rs:430-473 | Two seeders of one coordinate that both return Ok had the same candidate |
| PackageClosure.ClosureWalk | compiler/driver/authoring.rs:679-740 | The walk terminates on every finite source and succeeds if every package in reach can satisfy its requirements; it returns packages in reach other than the implementation, one per build, in build order. If no two packages in reach share a build, it succeeds only then and returns all of them |
| PackageClosure.SelectExactly | compiler/driver/authoring.rs:692-797 | A requirement selects a package exactly if it is valid, has the id, version, local ABI and pinned build asked for, and is the only such package loaded, or the store's where none of its coordinates is loaded |
| PackageClosure.ClosedExactly | compiler/driver/authoring.rs:679-740 | The condition for the walk's success is that every requirement in reach is answered, field by field, by a package in reach |
| PackageClosure.OtherAbiFails | compiler/driver/authoring.rs:763-797 | A requirement in reach whose coordinates hold only packages of other local ABIs makes the walk fail |
| PackageClosure.Choose | compiler/driver/authoring.rs:692-727 | Searching the candidates and else asking the store gives the same package at every point of the walk |
| PackageClosure.Expand | compiler/driver/authoring.rs:689-735 | One caller's requirements queue and collect exactly the packages they select, or fail when one selects none |
| PackageClosure.CandidatesAgree | compiler/driver/authoring.rs:690-727 | What was fetched earlier never changes what a later requirement selects |
| PackageClosure.BindingAgrees | compiler/driver/generated_deployment.rs:318-398 | If no two packages in reach share a build, the binding pass finds for every requirement in the closure the package the walk selected, and it has been admitted |
| PackageClosure.BindPackages | compiler/driver/generated_deployment.rs:318-369 | Each binding belongs to a requirement of a caller with its build and alias and holds the first package of the closure with the requirement's id, version, local ABI and pinned build, and every requirement has one; a failure names a requirement that no package answers. After a walk over unique builds it never fails and binds each requirement to the package the walk selected |
| PackageClosure.ChoiceUnique | compiler/driver/authoring.rs:786-797 | A requirement answered by the package that another selects selects that package too |
| PackageClosure.BindingExactly | compiler/driver/generated_deployment.rs:318-398 | With what the walk returns, every requirement in reach is bound to the package it selects if and only if no two packages in reach share a build |
| PackageClosure.RelabelledUnbound | artifact-identity/src/package_artifact/projection.rs:138-150 | A concrete source with two labels of one build: the walk succeeds, and whatever it may return leaves a requirement unbound |
| CodegenTransaction.Generate | compiler/driver/platform_error_projection_codegen.rs:148-177 | For every schedule of failing operations each target holds its full old or full new contents after every operation, and at the end the flags say which. Ok if and only if all targets are new and the cleanup succeeded; the error itself if and only if there are targets, none is new and the cleanup succeeded; a rollback error otherwise. The cleanup succeeds exactly if no removal fails; a failure before publication leaves every target; every old inode keeps a name exactly under a stated condition; which targets stay new is read off the schedule |
| CodegenTransaction.StageAll | compiler/driver/platform_error_projection_codegen.rs:200-204 | Staging writes a full temporary file per output and touches no target; a failure loses track of at most one file |
| CodegenTransaction.BackupAll | compiler/driver/platform_error_projection_codegen.rs:205-214 | Every target that existed is linked to a backup, or the failure leaves all targets alone |
| CodegenTransaction.PublishAll | compiler/driver/platform_error_projection_codegen.rs:215-236 | Publication moves all targets, or takes all back and returns the error itself, or returns a rollback error exactly if some target stays new and some does not; which ones is read off the schedule |
| CodegenTransaction.Rollback | compiler/driver/platform_error_projection_codegen.rs:239-259 | Takes back in reverse order, going on after a failure; a target stays published exactly if its own operation failed, and it succeeds exactly when none does |
| CodegenTransaction.CleanupAll | compiler/driver/platform_error_projection_codegen.rs:261-283 | Removes every temporary file in turn, going on after a failure; it succeeds exactly if no removal fails, and loses track of exactly the files whose removal did |
| CodegenTransaction.WriteNewFile | compiler/driver/platform_error_projection_codegen.rs:285-300 | Creates a file of exactly the bytes, exactly if its name is free and creating, writing and syncing succeed, or leaves at most that file behind |
| CodegenTransaction.CleanedUp | compiler/driver/platform_error_projection_codegen.rs:148-177 | Once cleaned up, every name but the targets and lost temporary files is bound as at the start, to the same bytes |
| CodegenTransaction.KeptInodes | compiler/driver/platform_error_projection_codegen.rs:239-283 | Once cleaned up, an inode from the start has a name if and only if one of its names is not a target left new, or a backup of one of its names could not be removed |
| CodegenTransaction.OldContentsKept | compiler/driver/platform_error_projection_codegen.rs:239-283 | A target that existed, with no other hard link, keeps its old contents under some name if and only if it is not left published or its backup could not be removed |
| CodegenTransaction.BackupLost | compiler/driver/platform_error_projection_codegen.rs:239-283 | A schedule in which the second publication and the first taking back fail: one target is new, one old, and the old contents of the new one are gone |
| CodegenTransaction.PublishInv | compiler/driver/platform_error_projection_codegen.rs:215-234 | Renaming a staged file onto its target keeps the transaction's invariant |
| CodegenTransaction.RestoreInv | compiler/driver/platform_error_projection_codegen.rs:241-252 | Renaming the backup back restores the very inode the target had |
| CodegenTransaction.WithdrawInv | compiler/driver/platform_error_projection_codegen.rs:241-252 | Removing a target that did not exist restores its absence |
| SchemaGraph.ValidateRecords | artifact-identity/src/contract.rs:117-147 | Accepts exactly the collections that are closed with matching owners and keys, free of cycles, and named by their derived identities; a rejection names a real fault |
| SchemaGraph.Visit | artifact-identity/src/contract.rs:396-437 | The search terminates and completes a record together with everything it refers to, or reports a cycle, missing record or mismatch that is there |
| SchemaGraph.CollectTypeRefs | artifact-identity/src/contract.rs:509-540 | The collector appends exactly the references that occur inside a type |
| SchemaGraph.CollectDescriptorRefs | artifact-identity/src/contract.rs:463-494 | The same for a whole descriptor |
| SchemaGraph.MentionsExactly | artifact-identity/src/contract.rs:463-540 | A reference occurs in a descriptor exactly if putting another in its place changes the descriptor |
| SchemaGraph.StackCycle | artifact-identity/src/contract.rs:405-409 | Meeting a record that is being visited closes a cycle through it |
| SchemaGraph.CompleteNode | artifact-identity/src/contract.rs:434-436 | A record all of whose references are complete lies on no cycle |
| TemplateMatch.MatchSignature | artifact-model/src/callable_registry.rs:122-195 | Success returns the one substitution that makes all parameters and results instances of their templates; a type mismatch means there is none; a validated signature has no unbound parameter and no ordinal out of range |
| TemplateMatch.MatchType | artifact-model/src/callable_registry.rs:352-417 | The slots filled afterwards stand for exactly the solutions that agree with the earlier slots, and fill exactly the parameters in use; failure means there is no solution |
| TemplateMatch.ValidateSignature | artifact-model/src/callable_registry.rs:229-272 | Accepts exactly the signatures with parallel vectors, value modes, matching plans, at most one result, and every declared parameter used and no other |
| TemplateMatch.VisitType | artifact-model/src/callable_registry.rs:274-293 | Marks exactly the parameters a template uses and fails exactly on one out of range |
| TemplateMatch.SolutionUnique | artifact-model/src/callable_registry.rs:261-272 | A validated signature has at most one solution |
| TemplateMatch.InstantiateIsInstance | artifact-model/src/callable_registry.rs:352-417 | Putting a substitution into a template gives an instance of it |
| TemplateMatch.InstanceIsInstantiate | artifact-model/src/callable_registry.rs:372-390 | Where no part can be spelled in two ways, that is the only instance |
| TemplateMatch.InstanceExactly | artifact-model/src/callable_registry.rs:352-417 | The instances of a template are the types that spell it out: a builtin by name and arguments, a nullable type also in its own form, a package symbol by owner, path and a non-empty ABI, bare or applied to nothing |
| NominalKey.SourceAnchorKey | artifact-identity/src/semantic.rs:139-161 | The buffer loop writes the specified key |
| NominalKey.WriteFramed | artifact-identity/src/semantic.rs:174-178 | A frame is the low 32 bits of the length, the bytes, and a zero |
| NominalKey.DecodeBack | artifact-identity/src/semantic.rs:8-41 | A decoder gives back the whole tree of anchors and type arguments from its key, and whatever follows it, for lengths below 2^32 |
| NominalKey.DecodeForth | artifact-identity/src/semantic.rs:139-178 | The decoder accepts nothing but keys of such trees |
| NominalKey.KeyPrefixFree | artifact-identity/src/semantic.rs:8-41 | One key is a prefix of another only if the ids are equal |
| NominalKey.ReadKeyBack | artifact-identity/src/semantic.rs:139-161 | A single key gives back its name, anchor and framed arguments |
| ConfigMerge.Canonicalize | artifact-model/src/compile_requirements.rs:117-151 | Succeeds exactly when nothing is blank and no path is asked for with two types, and then gives the least upper bound at each path, in path order; each error names a real fault |
| ConfigMerge.MergeAccess | artifact-model/src/compile_requirements.rs:153-209 | Merging is the least access covering both, and fails exactly when none covers both |
| ConfigMerge.MergeIgnoresOrder | artifact-model/src/compile_requirements.rs:117-151 | Success and result depend only on the set of requirements, not on order or repetition |
| ConfigMerge.MergeIdempotent | artifact-model/src/compile_requirements.rs:117-151 | A merged list merges again, to itself |
| ConfigMerge.MergeGroups | artifact-model/src/compile_requirements.rs:117-209 | Merging parts and then the results is merging everything at once |
| ConfigMerge.MergePreservesSatisfaction | config-snapshot-tooling/src/projection.rs:143-178 | A config satisfies the raw requirements if and only if it satisfies the merged ones |
| ConfigMerge.ValidateRequirements | config-snapshot-tooling/src/projection.rs:143-230 | The checking loop accepts exactly the configs that satisfy every requirement |
| ConfigMerge.ValueAtPath | config-snapshot-tooling/src/projection.rs:180-201 | The cursor finds what descending along the path's segments finds |
| ConfigMerge.LookupExactly | config-snapshot-tooling/src/projection.rs:180-201 | A path is found exactly if its segments lead to a value member by member, and is below a non-object exactly if they lead to one before the last |
| ConfigMerge.HasTypeExactly | config-snapshot-tooling/src/projection.rs:203-230 | The type names each kind of value has |
| Strings.SplitExactly | config-snapshot-tooling/src/projection.rs:180-188 | The segments of a path are the one way of taking it apart at every dot |
| JsonOverlay.Overlay | config-snapshot-tooling/src/source.rs:40-55 | The in-place overlay equals the recursive pointwise merge, in any order of members |
| JsonOverlay.OverlayIsMergePatch | config-snapshot-tooling/src/source.rs:177-192 | The overlay is the merge patch of section 2 of RFC 7396 if and only if no object it inserts has a null member |
| JsonOverlay.OverlayIdempotent | config-snapshot-tooling/src/source.rs:177-192 | Laying a file over twice changes nothing more if and only if the same condition holds |
| JsonOverlay.NullFreeInsertsNoNulls | config-snapshot-tooling/src/source.rs:40-55 | An overlay without null members meets the condition over every base |
| JsonOverlay.InsertedNull | config-snapshot-tooling/src/source.rs:177-192 | A concrete overlay whose second application changes the result of the first, and which is not the merge patch |
| CanonicalJson.CanonicalValue | canonical-json/src/lib.rs:8-26 | The loops compute the canonical form |
| CanonicalJson.CanonicalExactly | canonical-json/src/lib.rs:8-26 | Two values have one canonical form if and only if they differ only in member order and the form of numbers |
| CanonicalJson.CanonicalIdempotent | canonical-json/src/lib.rs:8-26 | Canonicalising twice is canonicalising once |
| CanonicalJson.CanonicalFixed | canonical-json/src/lib.rs:8-26 | The values left alone are exactly those with sorted members and canonical numbers throughout |
| CanonicalJson.NumberValueKept | canonical-json/src/lib.rs:28-46 | Every number but the float 2^63 keeps its value; that one becomes 2^63 - 1 |
| CanonicalJson.NumbersMeet | canonical-json/src/lib.rs:28-46 | When two numbers get one form, for all pairs |
| VersionLabels.RemoveLabels | artifact-identity/src/identity_labels.rs:17-34 | The in-place removal computes the stripped value, for both ways in which objects give up a member |
| VersionLabels.StripMeaningOf | artifact-identity/src/identity_labels.rs:17-34 | Stripping removes the three labels at every depth and nothing else |
| VersionLabels.CanonicalKeysStay | artifact-identity/src/identity_labels.rs:24-28 | The keys of one canonical object are still sorted after the removals if and only if that condition holds of its keys |
| VersionLabels.IdentityIgnoresLabels | artifact-identity/src/identity_labels.rs:8-15 | Stripped canonical forms are equal if and only if the values differ only in labels, member order and number form |
| VersionLabels.StripCommutes | artifact-identity/src/identity_labels.rs:17-34 | Stripping commutes with canonicalisation up to member order always; outright if and only if objects are sorted ones or, in every object not removed with a label, at most one other key comes after the smallest label, or two that an earlier removal turns round first |
| VersionLabels.StripDisorders | artifact-identity/src/identity_labels.rs:24-28 | A canonical object that stripping puts out of order |
| Counters.FunctionTable.RecordFunctionUnits | profiling/src/lib.rs:234-253 | Recording in a shard is recording in one flat map, with saturation and the first writer's name |
| Counters.FunctionTable.FunctionUnitsSnapshot | profiling/src/lib.rs:256-267 | A snapshot that nothing interleaves is the flat map's units |
| Counters.FunctionTable.FunctionUnitsDiff | profiling/src/lib.rs:274-288 | Lists every key that gained exactly once, largest gain first, then by name |
| Counters.FunctionTable.CollectFunctions | profiling/src/lib.rs:500-522 | The shares add up to at most the window's CPU time and, untruncated and without overflow, fall short by less than the number of functions |
| Counters.SharesSum | profiling/src/lib.rs:507-519 | The arithmetic of those two bounds |
| Counters.KeepWithinBudget | profiling/src/lib.rs:480-490 | The loop keeps the specified stacks, cut to the limit and within the budget, for stacks that together fit in 64 bits |
| Counters.KeptGreedy | profiling/src/lib.rs:482-489 | A stack is kept if and only if its bytes fit beside those of the stacks kept before it |
| Counters.KeptPrefixExactly | profiling/src/lib.rs:480-490 | The kept stacks are a prefix if and only if no stack from the first one whose running cost exceeds the budget on fits beside those before it |
| Counters.BudgetIsNoPrefix | profiling/src/lib.rs:482-489 | Two stacks of which the first is dropped and the second kept |
| CounterWindows.RunKeepsInv | profiling/src/lib.rs:234-267 | In every interleaving of recordings with reads of single shards, every snapshot holds what had been recorded when each shard was read |
| CounterWindows.CountedOnce | profiling/src/lib.rs:309-415 | No recording is counted in two windows |
| CounterWindows.WindowReportsCounted | profiling/src/lib.rs:274-288 | What a window reports for a key is at most what was recorded between its two reads, and exactly that below saturation |
| CounterWindows.WindowsReportAtMostTable | profiling/src/lib.rs:309-415 | All windows together report no more for a key than its counter holds |
| StoragePaths.StorageSegmentDecodes | artifact-identity/src/artifact_coordinates.rs:3-42 | Every valid publication id can be read back from its storage segment |
| StoragePaths.StorageRoundTrip | artifact-identity/src/artifact_coordinates.rs:3-6 | The tilde form can be read back if and only if no dot is followed by a dot or a slash |
| StoragePaths.CoordinateRoundTrip | artifact-identity/src/ecosystem_paths.rs:244-262 | A coordinate can be read back from its segment, which has no slash |
| RecordPaths.PathBuilt | artifact-identity/src/ecosystem_paths.rs:50-233 | A path is built from every reference with valid parts and a matching declared path; it always parses as relative, and no fixed suffix is ever missing |
| RecordPaths.PathReads | artifact-identity/src/ecosystem_paths.rs:50-233 | A path tells its family and every field that is in it |
| RecordPaths.PathsDiffer | artifact-identity/src/ecosystem_paths.rs:50-233 | References of any families share a path only if they agree on everything that is in paths |
| RecordPaths.JoinIsRelative | artifact-identity/src/artifact_path.rs:29-47 | Checked parts joined by slashes are a relative path and can be split again |

## Left out

- SHA-256, hex framing and the JSON byte writer: identities are compared as preimages, and sort keys are values of an arbitrary strict total order.
- UTF-8: strings are sequences of characters, or in `NominalKey` the bytes they are encoded as; that UTF-8 is injective and keeps code point order is taken for granted.
- Error messages: an error is `None` or its kind, and which of several faults is reported first matters only where a result says so.
- ActorIdentity.ActorPreimage: the ABI and method identities and the serialised form of declarations outside the renamed nodes are arbitrary JSON fields; statement spans stay in the preimage, so nothing is claimed about source positions.
- ActorInvariance.PreimageIgnoresOrder: interface method-table indices and service-call indices stay positional, as in the source, and are not renumbered.
- GatewayReader.ReaderExactly: the error projection, the JSON-RPC profile and the shape versions of a surface have one value each and are left out.
- Publication.PublicationSafe: the actor routing projection that a publisher also writes, the directory layout, temporary files and locks of the store, and the contents of records beyond their references.
- Publication.SeededForever: assumes that no publisher moves the pointer at the seeded coordinate; a publisher that does can replace it.
- PackageClosure.ClosureWalk: recomputing a candidate's canonical identities is an arbitrary predicate, and answers of the store do not change during a walk. Where two packages in reach share a build, it is left open which of them the walk passes over.
- CodegenTransaction.Generate: rendering, resolving and creating the output directories, and the existence check of each target come before the transaction; a failing operation other than a write has no effect; a crash of the process itself is not modelled beyond the state after each operation.
- CodegenTransaction.OldContentsKept: a target that other hard links share is covered by `CodegenTransaction.KeptInodes`, which counts all names of an inode.
- SchemaGraph.ValidateRecords: deriving an identity, with its own checks on descriptors, is an arbitrary partial function.
- TemplateMatch.MatchSignature: the lifecycle check of transfer plans that follows matching, and the conversion of native signatures.
- NominalKey.KeyPrefixFree: lengths of 2^32 and more, where the cast to 32 bits wraps.
- ConfigMerge.Canonicalize: which strings count as blank is an arbitrary predicate.
- `project_deployment` around `validate_requirements` in `config-snapshot-tooling/src/projection.rs`: bookkeeping over unique ids.
- JsonOverlay.Overlay: the order of members in the result, and the split of the merged file into package partitions.
- CanonicalJson.NumbersMeet: floats are reals, so negative zero is zero.
- Counters.FunctionTable.RecordFunctionUnits: the hash of a name is an arbitrary function; poisoned locks are taken over as in the source.
- Counters.KeepWithinBudget: nothing is claimed of stacks that take more than 2^64 - 1 bytes together, where the running count could wrap; folding, truncating and counting stacks is left out, and so are thread shares.
- CounterWindows.CountedOnce: clock readings, sleeping and the start times of windows.
- RecordPaths.PathBuilt: that a declared path is trimmed or spelled differently is not considered; it must equal the built one.
- Resolving paths against a directory, git and permission checks, YAML and command-line parsing, deployment normalisation and validation, static tables, and stack sampling.
