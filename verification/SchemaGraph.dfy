/** Validation of a collection of package schema records: identity, closure and the rule
    that references form no cycle (artifact-identity/src/contract.rs). */
module SchemaGraph {
  import opened Wrappers

  type TypeId = string

  /** Fields of a record are listed in key order. */
  datatype TypeRef =
    | Builtin(name: string, arguments: seq<TypeRef>)
    | PackageSchema(ref: SchemaRef)
    | AnyInterface(interface: TypeRef, arguments: seq<TypeRef>)
    | TypeParam(name: string)
    | Record(fields: seq<(string, TypeRef)>)
    | StructuralUnion(variants: seq<TypeRef>)
    | Nullable(inner: TypeRef)
    | Literal(text: string)

  datatype SchemaRef = SchemaRef(packageId: string, stableKey: string, id: TypeId)

  datatype CallbackOperation = CallbackOperation(parameters: seq<TypeRef>, result: TypeRef)

  datatype Descriptor =
    | RecordType(fields: seq<(string, TypeRef)>)
    | UnionType(variants: seq<TypeRef>)
    | DiscriminatedUnion(discriminator: string, branches: seq<(string, TypeRef)>)
    | Representation(target: TypeRef)
    | Alias(target: TypeRef)
    | Enumeration(names: seq<string>)
    | CallbackInterface(operations: seq<(string, CallbackOperation)>)

  datatype CanonicalDescriptor = CanonicalDescriptor(typeParams: seq<string>, descriptor: Descriptor)

  datatype SchemaRecord = SchemaRecord(packageId: string, stableKey: string, id: TypeId, canonical: CanonicalDescriptor)

  type Records = map<TypeId, SchemaRecord>

  /** How an identity is derived; it fails on inputs the identity rejects. */
  type Derive = (string, string, CanonicalDescriptor) -> Option<TypeId>

  // ----- References -----

  /** The immediate parts of a type. */
  function Parts(ty: TypeRef): seq<TypeRef> {
    match ty
    case Builtin(_, arguments) => arguments
    case AnyInterface(interface, arguments) => [interface] + arguments
    case Record(fields) => Values(fields)
    case StructuralUnion(variants) => variants
    case Nullable(inner) => [inner]
    case _ => []
  }

  function Values<T>(fields: seq<(string, T)>): (values: seq<T>)
    ensures |values| == |fields| && forall i :: 0 <= i < |fields| ==> values[i] == fields[i].1
  {
    seq(|fields|, i requires 0 <= i < |fields| => fields[i].1)
  }

  /** The types a descriptor is made of. */
  function Roots(d: Descriptor): seq<TypeRef> {
    match d
    case RecordType(fields) => Values(fields)
    case UnionType(variants) => variants
    case DiscriminatedUnion(_, branches) => Values(branches)
    case Representation(target) => [target]
    case Alias(target) => [target]
    case Enumeration(_) => []
    case CallbackInterface(operations) => OperationTypes(operations)
  }

  function OperationTypes(operations: seq<(string, CallbackOperation)>): seq<TypeRef> {
    if operations == [] then []
    else operations[0].1.parameters + [operations[0].1.result] + OperationTypes(operations[1..])
  }

  /** A reference is somewhere inside a type. */
  ghost predicate Occurs(r: SchemaRef, ty: TypeRef) {
    ty == PackageSchema(r) || exists i :: 0 <= i < |Parts(ty)| && Occurs(r, Parts(ty)[i])
  }

  ghost predicate Mentions(d: Descriptor, r: SchemaRef) {
    AnyOccurs(r, Roots(d))
  }

  ghost predicate AnyOccurs(r: SchemaRef, types: seq<TypeRef>) {
    exists i :: 0 <= i < |types| && Occurs(r, types[i])
  }

  lemma OccursInside(ty: TypeRef)
    ensures forall r :: Occurs(r, ty) <==> ty == PackageSchema(r) || AnyOccurs(r, Parts(ty))
  {
  }

  method CollectTypeRefs(ty: TypeRef, out: seq<SchemaRef>) returns (out': seq<SchemaRef>)
    ensures out <= out'
    ensures forall r :: r in out' <==> r in out || Occurs(r, ty)
    decreases ty, 1
  {
    hide Occurs, AnyOccurs;
    OccursInside(ty);
    match ty {
      case PackageSchema(ref) =>
        NoParts();
        out' := out + [ref];
      case Builtin(_, arguments) =>
        out' := CollectAll(arguments, out, ty);
      case StructuralUnion(variants) =>
        out' := CollectAll(variants, out, ty);
      case Record(fields) =>
        out' := CollectAll(Values(fields), out, ty);
      case AnyInterface(interface, arguments) =>
        out' := CollectTypeRefs(interface, out);
        out' := CollectAll(arguments, out', ty);
        AnyOccursHead(interface, arguments);
      case Nullable(inner) =>
        out' := CollectTypeRefs(inner, out);
        NoParts();
        AnyOccursHead(inner, []);
        assert [inner] + [] == [inner];
      case TypeParam(_) =>
        NoParts();
        out' := out;
      case Literal(_) =>
        NoParts();
        out' := out;
    }
  }

  lemma NoParts()
    ensures forall r :: !AnyOccurs(r, [])
  {
  }

  lemma AnyOccursHead(first: TypeRef, rest: seq<TypeRef>)
    ensures forall r :: AnyOccurs(r, [first] + rest) <==> Occurs(r, first) || AnyOccurs(r, rest)
  {
    hide Occurs;
    forall r
      ensures AnyOccurs(r, [first] + rest) <==> Occurs(r, first) || AnyOccurs(r, rest)
    {
      AnyOccursAppend(r, [first], rest);
      assert AnyOccurs(r, [first]) <==> Occurs(r, [first][0]);
    }
  }

  method CollectDescriptorRefs(d: Descriptor, out: seq<SchemaRef>) returns (out': seq<SchemaRef>)
    ensures out <= out'
    ensures forall r :: r in out' <==> r in out || Mentions(d, r)
  {
    hide Occurs;
    out' := out;
    match d {
      case RecordType(fields) =>
        out' := CollectAll(Values(fields), out', Builtin("", Values(fields)));
      case UnionType(variants) =>
        out' := CollectAll(variants, out', Builtin("", variants));
      case DiscriminatedUnion(_, branches) =>
        out' := CollectAll(Values(branches), out', Builtin("", Values(branches)));
      case Representation(target) =>
        out' := CollectAll([target], out', Builtin("", [target]));
      case Alias(target) =>
        out' := CollectAll([target], out', Builtin("", [target]));
      case CallbackInterface(operations) =>
        out' := CollectOperations(operations, out');
      case Enumeration(_) =>
    }
  }

  /** Collects from a list of types, all of them below `parent`. */
  method CollectAll(types: seq<TypeRef>, out: seq<SchemaRef>, ghost parent: TypeRef) returns (out': seq<SchemaRef>)
    requires forall i :: 0 <= i < |types| ==> types[i] < parent
    ensures out <= out'
    ensures forall r :: r in out' <==> r in out || AnyOccurs(r, types)
    decreases parent, 0
  {
    hide Occurs;
    out' := out;
    for i := 0 to |types|
      invariant out <= out'
      invariant forall r :: r in out' <==> r in out || exists j :: 0 <= j < i && Occurs(r, types[j])
    {
      out' := CollectTypeRefs(types[i], out');
    }
  }

  method CollectOperations(operations: seq<(string, CallbackOperation)>, out: seq<SchemaRef>) returns (out': seq<SchemaRef>)
    ensures out <= out'
    ensures forall r :: r in out' <==> r in out || AnyOccurs(r, OperationTypes(operations))
  {
    hide Occurs;
    out' := out;
    assert operations[..0] == [];
    for i := 0 to |operations|
      invariant out <= out'
      invariant forall r :: r in out' <==> r in out || AnyOccurs(r, OperationTypes(operations[..i]))
    {
      out' := CollectAll(operations[i].1.parameters, out', Builtin("", operations[i].1.parameters));
      out' := CollectTypeRefs(operations[i].1.result, out');
      OperationTypesStep(operations, i);
    }
    assert operations[..|operations|] == operations;
  }

  lemma AnyOccursAppend(r: SchemaRef, a: seq<TypeRef>, b: seq<TypeRef>)
    ensures AnyOccurs(r, a + b) <==> AnyOccurs(r, a) || AnyOccurs(r, b)
  {
    hide Occurs;
    if AnyOccurs(r, a) {
      var i :| 0 <= i < |a| && Occurs(r, a[i]);
      assert (a + b)[i] == a[i];
    }
    if AnyOccurs(r, b) {
      var i :| 0 <= i < |b| && Occurs(r, b[i]);
      assert (a + b)[|a| + i] == b[i];
    }
  }

  lemma {:induction false} OperationTypesAppend(a: seq<(string, CallbackOperation)>, o: (string, CallbackOperation))
    ensures OperationTypes(a + [o]) == OperationTypes(a) + o.1.parameters + [o.1.result]
  {
    if a == [] {
      assert a + [o] == [o];
    } else {
      OperationTypesAppend(a[1..], o);
      assert (a + [o])[1..] == a[1..] + [o];
    }
  }

  lemma OperationTypesStep(operations: seq<(string, CallbackOperation)>, i: nat)
    requires i < |operations|
    ensures forall r :: AnyOccurs(r, OperationTypes(operations[..i + 1])) <==>
      AnyOccurs(r, OperationTypes(operations[..i])) || AnyOccurs(r, operations[i].1.parameters) || Occurs(r, operations[i].1.result)
  {
    hide Occurs;
    var o := operations[i];
    var before := OperationTypes(operations[..i]);
    assert operations[..i + 1] == operations[..i] + [o];
    OperationTypesAppend(operations[..i], o);
    forall r
      ensures AnyOccurs(r, OperationTypes(operations[..i + 1])) <==>
        AnyOccurs(r, before) || AnyOccurs(r, o.1.parameters) || Occurs(r, o.1.result)
    {
      AnyOccursAppend(r, before + o.1.parameters, [o.1.result]);
      AnyOccursAppend(r, before, o.1.parameters);
      assert AnyOccurs(r, [o.1.result]) <==> Occurs(r, [o.1.result][0]);
    }
  }

  // ----- What occurs -----

  /** The type with one reference put in place of another. */
  function Replace(ty: TypeRef, r: SchemaRef, other: SchemaRef): TypeRef {
    match ty
    case PackageSchema(ref) => PackageSchema(if ref == r then other else ref)
    case Builtin(name, arguments) =>
      Builtin(name, seq(|arguments|, i requires 0 <= i < |arguments| => Replace(arguments[i], r, other)))
    case AnyInterface(interface, arguments) =>
      AnyInterface(Replace(interface, r, other), seq(|arguments|, i requires 0 <= i < |arguments| => Replace(arguments[i], r, other)))
    case Record(fields) =>
      Record(seq(|fields|, i requires 0 <= i < |fields| => (fields[i].0, Replace(fields[i].1, r, other))))
    case StructuralUnion(variants) =>
      StructuralUnion(seq(|variants|, i requires 0 <= i < |variants| => Replace(variants[i], r, other)))
    case Nullable(inner) => Nullable(Replace(inner, r, other))
    case _ => ty
  }

  function ReplaceAll(types: seq<TypeRef>, r: SchemaRef, other: SchemaRef): (s: seq<TypeRef>)
    ensures |s| == |types| && forall i :: 0 <= i < |s| ==> s[i] == Replace(types[i], r, other)
  {
    seq(|types|, i requires 0 <= i < |types| => Replace(types[i], r, other))
  }

  function ReplaceFields(fields: seq<(string, TypeRef)>, r: SchemaRef, other: SchemaRef): (s: seq<(string, TypeRef)>)
    ensures |s| == |fields| && forall i :: 0 <= i < |s| ==> s[i] == (fields[i].0, Replace(fields[i].1, r, other))
  {
    seq(|fields|, i requires 0 <= i < |fields| => (fields[i].0, Replace(fields[i].1, r, other)))
  }

  function ReplaceOperations(operations: seq<(string, CallbackOperation)>, r: SchemaRef, other: SchemaRef)
    : (s: seq<(string, CallbackOperation)>)
    ensures |s| == |operations|
    ensures forall i :: 0 <= i < |s| ==>
      s[i] == (operations[i].0, CallbackOperation(ReplaceAll(operations[i].1.parameters, r, other), Replace(operations[i].1.result, r, other)))
  {
    seq(|operations|, i requires 0 <= i < |operations| =>
      (operations[i].0, CallbackOperation(ReplaceAll(operations[i].1.parameters, r, other), Replace(operations[i].1.result, r, other))))
  }

  function ReplaceIn(d: Descriptor, r: SchemaRef, other: SchemaRef): Descriptor {
    match d
    case RecordType(fields) => RecordType(ReplaceFields(fields, r, other))
    case UnionType(variants) => UnionType(ReplaceAll(variants, r, other))
    case DiscriminatedUnion(name, branches) => DiscriminatedUnion(name, ReplaceFields(branches, r, other))
    case Representation(target) => Representation(Replace(target, r, other))
    case Alias(target) => Alias(Replace(target, r, other))
    case Enumeration(names) => Enumeration(names)
    case CallbackInterface(operations) => CallbackInterface(ReplaceOperations(operations, r, other))
  }

  ghost predicate Untouched(types: seq<TypeRef>, r: SchemaRef, other: SchemaRef) {
    forall i :: 0 <= i < |types| ==> Replace(types[i], r, other) == types[i]
  }

  lemma PartsReplaced(ty: TypeRef, r: SchemaRef, other: SchemaRef)
    requires !ty.PackageSchema?
    ensures Replace(ty, r, other) == ty <==> Untouched(Parts(ty), r, other)
  {
    var t := Replace(ty, r, other);
    match ty
    case Builtin(name, arguments) =>
      ListReplaced(arguments, t.arguments, r, other);
    case AnyInterface(interface, arguments) =>
      ListReplaced(arguments, t.arguments, r, other);
      HeadUntouched(interface, arguments, r, other);
    case Record(fields) =>
      FieldsReplaced(fields, t.fields, r, other);
    case StructuralUnion(variants) =>
      ListReplaced(variants, t.variants, r, other);
    case Nullable(inner) =>
      HeadUntouched(inner, [], r, other);
      assert [inner] + [] == [inner];
    case _ =>
  }

  lemma HeadUntouched(first: TypeRef, rest: seq<TypeRef>, r: SchemaRef, other: SchemaRef)
    ensures Untouched([first] + rest, r, other) <==> Replace(first, r, other) == first && Untouched(rest, r, other)
  {
    hide Replace;
    var all := [first] + rest;
    assert all[0] == first;
    assert forall i :: 0 <= i < |rest| ==> rest[i] == all[i + 1];
    assert forall i :: 1 <= i < |all| ==> all[i] == rest[i - 1];
  }

  lemma ListReplaced(types: seq<TypeRef>, s: seq<TypeRef>, r: SchemaRef, other: SchemaRef)
    requires |s| == |types| && forall i :: 0 <= i < |s| ==> s[i] == Replace(types[i], r, other)
    ensures s == types <==> Untouched(types, r, other)
  {
    hide Replace;
    if s == types {
      assert forall i :: 0 <= i < |types| ==> s[i] == types[i];
    }
  }

  lemma FieldsReplaced(fields: seq<(string, TypeRef)>, s: seq<(string, TypeRef)>, r: SchemaRef, other: SchemaRef)
    requires |s| == |fields| && forall i :: 0 <= i < |s| ==> s[i] == (fields[i].0, Replace(fields[i].1, r, other))
    ensures s == fields <==> Untouched(Values(fields), r, other)
  {
    hide Replace;
    if s == fields {
      forall i | 0 <= i < |fields|
        ensures Replace(Values(fields)[i], r, other) == Values(fields)[i]
      {
        assert s[i] == fields[i];
      }
    }
    if forall i :: 0 <= i < |fields| ==> Replace(Values(fields)[i], r, other) == Values(fields)[i] {
      forall i | 0 <= i < |fields|
        ensures s[i] == fields[i]
      {
        assert Values(fields)[i] == fields[i].1;
      }
    }
  }

  /** A reference occurs in a type exactly if putting another in its place changes the type. */
  lemma {:induction false} OccursExactly(ty: TypeRef, r: SchemaRef, other: SchemaRef)
    requires other != r
    ensures Occurs(r, ty) <==> Replace(ty, r, other) != ty
  {
    forall i | 0 <= i < |Parts(ty)|
      ensures Occurs(r, Parts(ty)[i]) <==> Replace(Parts(ty)[i], r, other) != Parts(ty)[i]
    {
      OccursExactly(Parts(ty)[i], r, other);
    }
    if !ty.PackageSchema? {
      PartsReplaced(ty, r, other);
      hide Replace, Parts;
    }
  }

  lemma ListChanges(types: seq<TypeRef>, r: SchemaRef, other: SchemaRef)
    requires other != r
    ensures AnyOccurs(r, types) <==> ReplaceAll(types, r, other) != types
  {
    forall i | 0 <= i < |types|
      ensures Occurs(r, types[i]) <==> Replace(types[i], r, other) != types[i]
    {
      OccursExactly(types[i], r, other);
    }
    hide Occurs, Replace;
    if ReplaceAll(types, r, other) == types {
      assert forall i :: 0 <= i < |types| ==> ReplaceAll(types, r, other)[i] == types[i];
    }
  }

  lemma FieldsChange(fields: seq<(string, TypeRef)>, r: SchemaRef, other: SchemaRef)
    ensures ReplaceFields(fields, r, other) == fields <==> ReplaceAll(Values(fields), r, other) == Values(fields)
  {
    FieldsReplaced(fields, ReplaceFields(fields, r, other), r, other);
    ListReplaced(Values(fields), ReplaceAll(Values(fields), r, other), r, other);
    hide Replace;
  }

  lemma {:induction false} OperationsChange(operations: seq<(string, CallbackOperation)>, r: SchemaRef, other: SchemaRef)
    requires other != r
    ensures AnyOccurs(r, OperationTypes(operations)) <==> ReplaceOperations(operations, r, other) != operations
  {
    hide Occurs, Replace;
    if operations != [] {
      var o, rest := operations[0], operations[1..];
      OperationsChange(rest, r, other);
      OccursExactly(o.1.result, r, other);
      ListChanges(o.1.parameters, r, other);
      AnyOccursAppend(r, o.1.parameters + [o.1.result], OperationTypes(rest));
      AnyOccursAppend(r, o.1.parameters, [o.1.result]);
      assert AnyOccurs(r, [o.1.result]) <==> Occurs(r, [o.1.result][0]);
      OperationsSplit(operations, r, other);
    }
  }

  lemma OperationsSplit(operations: seq<(string, CallbackOperation)>, r: SchemaRef, other: SchemaRef)
    requires operations != []
    ensures ReplaceOperations(operations, r, other) == operations <==>
            && ReplaceAll(operations[0].1.parameters, r, other) == operations[0].1.parameters
            && Replace(operations[0].1.result, r, other) == operations[0].1.result
            && ReplaceOperations(operations[1..], r, other) == operations[1..]
  {
    hide Replace;
    var s := ReplaceOperations(operations, r, other);
    assert s[1..] == ReplaceOperations(operations[1..], r, other);
    assert s == [s[0]] + s[1..] && operations == [operations[0]] + operations[1..];
    assert operations[0] == (operations[0].0, CallbackOperation(operations[0].1.parameters, operations[0].1.result));
  }

  /** A descriptor mentions a reference exactly if putting another in its place changes it. */
  lemma MentionsExactly(d: Descriptor, r: SchemaRef, other: SchemaRef)
    requires other != r
    ensures Mentions(d, r) <==> ReplaceIn(d, r, other) != d
  {
    ListChanges(Roots(d), r, other);
    match d
    case RecordType(fields) => FieldsChange(fields, r, other);
    case DiscriminatedUnion(_, branches) => FieldsChange(branches, r, other);
    case Representation(target) => assert Roots(d)[0] == target;
    case Alias(target) => assert Roots(d)[0] == target;
    case CallbackInterface(operations) => OperationsChange(operations, r, other);
    case _ =>
  }

  // ----- The graph -----

  ghost predicate RefersTo(records: Records, from: TypeId, r: SchemaRef) {
    from in records && Mentions(records[from].canonical.descriptor, r)
  }

  ghost predicate Edge(records: Records, from: TypeId, to: TypeId) {
    exists r :: RefersTo(records, from, r) && r.id == to
  }

  /** Step `i` of a walk follows an edge. */
  ghost predicate Follows(records: Records, walk: seq<TypeId>, i: int) {
    0 <= i < |walk| - 1 && Edge(records, walk[i], walk[i + 1])
  }

  ghost predicate IsWalk(records: Records, walk: seq<TypeId>) {
    walk != [] && forall i :: 0 <= i < |walk| - 1 ==> Follows(records, walk, i)
  }

  ghost predicate IsCycle(records: Records, walk: seq<TypeId>) {
    |walk| > 1 && IsWalk(records, walk) && walk[0] == walk[|walk| - 1]
  }

  ghost predicate Acyclic(records: Records) {
    forall walk :: !IsCycle(records, walk)
  }

  ghost predicate Resolves(records: Records, r: SchemaRef) {
    r.id in records && records[r.id].packageId == r.packageId && records[r.id].stableKey == r.stableKey
  }

  /** Every reference names a record with the same owner and stable key. */
  ghost predicate Closed(records: Records) {
    forall from, r :: RefersTo(records, from, r) ==> Resolves(records, r)
  }

  ghost predicate Identified(derive: Derive, records: Records) {
    forall id :: id in records ==>
      records[id].id == id && derive(records[id].packageId, records[id].stableKey, records[id].canonical) == Some(id)
  }

  // ----- The search -----

  datatype Verdict = Valid | Cycle(at: TypeId) | Missing(ref: SchemaRef) | Mismatch(ref: SchemaRef) | WrongIdentity(id: TypeId) | NoRecord(id: TypeId)

  /** The fault a verdict names is there. */
  ghost predicate Justified(derive: Derive, records: Records, v: Verdict) {
    match v
    case Valid => true
    case Cycle(at) => exists walk :: IsCycle(records, walk) && walk[0] == at
    case Missing(r) => r.id !in records && exists from :: RefersTo(records, from, r)
    case Mismatch(r) => r.id in records && !Resolves(records, r) && exists from :: RefersTo(records, from, r)
    case WrongIdentity(id) =>
      id in records && (records[id].id != id || derive(records[id].packageId, records[id].stableKey, records[id].canonical) != Some(id))
    case NoRecord(id) => id !in records
  }

  /** The completed nodes: nothing leads out of them and no cycle starts in them. */
  ghost predicate Complete(records: Records, complete: set<TypeId>) {
    && (forall k :: k in complete ==> k in records)
    && (forall k, r :: k in complete && RefersTo(records, k, r) ==> Resolves(records, r) && r.id in complete)
    && (forall walk :: IsCycle(records, walk) ==> walk[0] !in complete)
  }

  /** The nodes being visited are those on a walk to the current one. */
  ghost predicate OnStack(records: Records, visiting: set<TypeId>, stack: seq<TypeId>) {
    && (forall k :: k in visiting <==> k in stack)
    && (stack != [] ==> IsWalk(records, stack))
  }

  lemma {:induction false} WalkStays(records: Records, complete: set<TypeId>, walk: seq<TypeId>, k: nat)
    requires Complete(records, complete) && IsWalk(records, walk) && walk[0] in complete && k < |walk|
    ensures walk[k] in complete
  {
    if k > 0 {
      WalkStays(records, complete, walk, k - 1);
      assert Follows(records, walk, k - 1);
    }
  }

  lemma WalkTail(records: Records, walk: seq<TypeId>, k: nat)
    requires IsWalk(records, walk) && k < |walk|
    ensures IsWalk(records, walk[k..])
  {
    forall i | 0 <= i < |walk[k..]| - 1
      ensures Follows(records, walk[k..], i)
    {
      assert Follows(records, walk, k + i);
    }
  }

  lemma WalkExtend(records: Records, walk: seq<TypeId>, to: TypeId)
    requires IsWalk(records, walk) && Edge(records, walk[|walk| - 1], to)
    ensures IsWalk(records, walk + [to])
  {
    forall i | 0 <= i < |walk + [to]| - 1
      ensures Follows(records, walk + [to], i)
    {
      if i < |walk| - 1 {
        assert Follows(records, walk, i);
      }
    }
  }

  /** Meeting a node that is being visited closes a cycle. */
  lemma StackCycle(records: Records, visiting: set<TypeId>, stack: seq<TypeId>, id: TypeId)
    requires OnStack(records, visiting, stack) && id in visiting && stack != [] && Edge(records, stack[|stack| - 1], id)
    ensures exists walk :: IsCycle(records, walk) && walk[0] == id
  {
    var k :| 0 <= k < |stack| && stack[k] == id;
    WalkTail(records, stack, k);
    WalkExtend(records, stack[k..], id);
    assert IsCycle(records, stack[k..] + [id]);
  }

  /** A node all of whose references are complete can be completed. */
  lemma CompleteNode(records: Records, complete: set<TypeId>, id: TypeId)
    requires Complete(records, complete) && id in records && id !in complete
    requires forall r :: RefersTo(records, id, r) ==> Resolves(records, r) && r.id in complete
    ensures Complete(records, complete + {id})
  {
    forall walk | IsCycle(records, walk)
      ensures walk[0] !in complete + {id}
    {
      if walk[0] == id {
        assert Follows(records, walk, 0);
        WalkTail(records, walk, 1);
        assert walk[1..][0] in complete;
        WalkStays(records, complete, walk[1..], |walk| - 2);
      }
    }
  }

  method Visit(
    records: Records, id: TypeId, visiting: set<TypeId>, complete: set<TypeId>, ghost derive: Derive, ghost stack: seq<TypeId>)
    returns (verdict: Verdict, visiting': set<TypeId>, complete': set<TypeId>)
    requires Complete(records, complete) && OnStack(records, visiting, stack) && visiting !! complete
    requires stack != [] ==> Edge(records, stack[|stack| - 1], id)
    ensures Justified(derive, records, verdict) && !verdict.WrongIdentity?
    ensures verdict.NoRecord? ==> id !in records
    ensures verdict.Valid? ==> Complete(records, complete') && id in complete' && complete <= complete'
    ensures verdict.Valid? ==> visiting' == visiting && visiting !! complete'
    decreases records.Keys - visiting, 1
  {
    hide RefersTo, Resolves, IsCycle, IsWalk;
    visiting', complete' := visiting, complete;
    if id in complete {
      return Valid, visiting, complete;
    }
    if id in visiting {
      StackCycle(records, visiting, stack, id);
      return Cycle(id), visiting, complete;
    }
    visiting' := visiting + {id};
    if id !in records {
      return NoRecord(id), visiting', complete;
    }
    var children := CollectDescriptorRefs(records[id].canonical.descriptor, []);
    ChildrenAre(records, id, children);
    ghost var stack' := stack + [id];
    Push(records, visiting, stack, id);
    for i := 0 to |children|
      invariant Complete(records, complete') && visiting' == visiting + {id} && visiting' !! complete'
      invariant complete <= complete'
      invariant forall j :: 0 <= j < i ==> Resolves(records, children[j]) && children[j].id in complete'
    {
      var r := children[i];
      if r.id !in records {
        return Missing(r), visiting', complete';
      }
      if records[r.id].packageId != r.packageId || records[r.id].stableKey != r.stableKey {
        ResolvesExactly(records, r);
        return Mismatch(r), visiting', complete';
      }
      ResolvesExactly(records, r);
      assert id in records.Keys - visiting && id !in records.Keys - visiting';
      verdict, visiting', complete' := Visit(records, r.id, visiting', complete', derive, stack');
      if !verdict.Valid? {
        return;
      }
    }
    CompleteNode(records, complete', id);
    visiting' := visiting' - {id};
    complete' := complete' + {id};
    verdict := Valid;
  }

  lemma ChildrenAre(records: Records, id: TypeId, children: seq<SchemaRef>)
    requires id in records
    requires forall r :: r in children <==> Mentions(records[id].canonical.descriptor, r)
    ensures forall r :: RefersTo(records, id, r) <==> r in children
    ensures forall i :: 0 <= i < |children| ==> RefersTo(records, id, children[i]) && Edge(records, id, children[i].id)
  {
    hide Mentions;
  }

  lemma ResolvesExactly(records: Records, r: SchemaRef)
    requires r.id in records
    ensures Resolves(records, r) <==> records[r.id].packageId == r.packageId && records[r.id].stableKey == r.stableKey
  {
  }

  lemma Push(records: Records, visiting: set<TypeId>, stack: seq<TypeId>, id: TypeId)
    requires OnStack(records, visiting, stack) && (stack != [] ==> Edge(records, stack[|stack| - 1], id))
    ensures OnStack(records, visiting + {id}, stack + [id])
  {
    if stack == [] {
      assert stack + [id] == [id];
      assert IsWalk(records, [id]);
    } else {
      WalkExtend(records, stack, id);
    }
  }

  /** A collection is accepted exactly if it is closed, free of cycles and every record
      stands under its own derived identity; a rejection names a real fault. */
  method ValidateRecords(derive: Derive, records: Records) returns (verdict: Verdict)
    ensures verdict.Valid? <==> Closed(records) && Acyclic(records) && Identified(derive, records)
    ensures Justified(derive, records, verdict) && !verdict.NoRecord?
  {
    hide RefersTo, Resolves, IsCycle;
    var visiting, complete := {}, {};
    assert Complete(records, {});
    var left := records.Keys;
    while left != {}
      invariant left <= records.Keys && records.Keys - left <= complete
      invariant visiting == {} && Complete(records, complete)
      decreases left
    {
      var id :| id in left;
      verdict, visiting, complete := Visit(records, id, visiting, complete, derive, []);
      if !verdict.Valid? {
        FaultRejects(derive, records, verdict);
        return;
      }
      left := left - {id};
    }
    AllComplete(records, complete);
    left := records.Keys;
    while left != {}
      invariant left <= records.Keys
      invariant forall id :: id in records && id !in left ==>
        records[id].id == id && derive(records[id].packageId, records[id].stableKey, records[id].canonical) == Some(id)
      decreases left
    {
      var id :| id in left;
      var record := records[id];
      if record.id != id || derive(record.packageId, record.stableKey, record.canonical) != Some(id) {
        return WrongIdentity(id);
      }
      left := left - {id};
    }
    verdict := Valid;
  }

  lemma FaultRejects(derive: Derive, records: Records, v: Verdict)
    requires Justified(derive, records, v) && !v.Valid? && !v.NoRecord?
    ensures !(Closed(records) && Acyclic(records) && Identified(derive, records))
  {
    hide RefersTo, IsCycle;
  }

  lemma AllComplete(records: Records, complete: set<TypeId>)
    requires Complete(records, complete) && records.Keys <= complete
    ensures Closed(records) && Acyclic(records)
  {
    forall walk
      ensures !IsCycle(records, walk)
    {
      assert IsCycle(records, walk) ==> Follows(records, walk, 0);
    }
  }
}
