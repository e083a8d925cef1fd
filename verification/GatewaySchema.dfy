/** External schemas of gateway entries and their normal form
    (artifact-identity/src/gateway.rs).

    Union branches are sorted by their canonical bytes. The model takes any strict
    total order `lt` on schemas in place of the byte order; distinct schemas have
    distinct bytes, so equal keys and equal schemas coincide. */
module GatewaySchema {
  import opened Wrappers
  import opened JsonValues
  import opened Sorting

  datatype Schema =
    | NullSchema
    | StringSchema
    | NumberSchema
    | IntegerSchema
    | BooleanSchema
    | BytesSchema
    | StringLiteral(value: string)
    | Array(element: Schema)
    | Record(fields: map<string, Schema>, required: seq<string>)
    | ClosedUnion(branches: seq<Schema>)
    | Nullable(inner: Schema)

  type SchemaOrder = (Schema, Schema) -> bool

  // ----- Field names -----

  predicate IsControl(c: char) {
    c as int < 0x20 || 0x7f <= c as int <= 0x9f
  }

  predicate IsWhitespace(c: char) {
    var n := c as int;
    || 0x09 <= n <= 0x0d || n == 0x20 || n == 0x85 || n == 0xa0 || n == 0x1680
    || 0x2000 <= n <= 0x200a || n == 0x2028 || n == 0x2029 || n == 0x202f || n == 0x205f || n == 0x3000
  }

  /** Non-empty, trimmed and free of control characters. */
  predicate ValidFieldName(name: string) {
    && name != []
    && !IsWhitespace(name[0]) && !IsWhitespace(name[|name| - 1])
    && forall i :: 0 <= i < |name| ==> !IsControl(name[i])
  }

  /** Every required name is a valid, declared field and is required once. */
  predicate RequiredOk(fields: map<string, Schema>, required: seq<string>) {
    && (forall i :: 0 <= i < |required| ==> ValidFieldName(required[i]) && required[i] in fields)
    && (forall i, j :: 0 <= i < j < |required| ==> required[i] != required[j])
  }

  // ----- Normalisation as a function -----

  /** What a normalised branch adds to the members of its union. */
  function Members(s: Schema): seq<Schema> {
    match s
    case NullSchema => []
    case Nullable(ClosedUnion(branches)) => branches
    case Nullable(inner) => [inner]
    case ClosedUnion(branches) => branches
    case _ => [s]
  }

  function Nulls(s: Schema): nat {
    if s.NullSchema? || s.Nullable? then 1 else 0
  }

  function AllMembers(branches: seq<Schema>): seq<Schema> {
    if branches == [] then [] else Members(branches[0]) + AllMembers(branches[1..])
  }

  function NullCount(branches: seq<Schema>): nat {
    if branches == [] then 0 else Nulls(branches[0]) + NullCount(branches[1..])
  }

  /** The union of the given members, with null when `nulls` is one. Repeated members
      and repeated nullability are errors. */
  function Assemble(members: seq<Schema>, nulls: nat, lt: SchemaOrder): Option<Schema> {
    var sorted := Sort(members, lt);
    if nulls > 1 || !NoDuplicates(sorted) then None
    else if |sorted| == 0 then if nulls == 1 then Some(NullSchema) else None
    else Some(Join(sorted, nulls))
  }

  function Join(sorted: seq<Schema>, nulls: nat): Schema
    requires sorted != []
  {
    var base := if |sorted| == 1 then sorted[0] else ClosedUnion(sorted);
    if nulls == 1 then Nullable(base) else base
  }

  function WithNull(inner: Schema): Schema {
    if inner.NullSchema? || inner.Nullable? then inner else Nullable(inner)
  }

  function Normalise(s: Schema, lt: SchemaOrder): Option<Schema> {
    match s
    case Array(element) =>
      (match Normalise(element, lt)
       case Some(e) => Some(Array(e))
       case None => None)
    case Record(fields, required) =>
      if (forall k :: k in fields ==> ValidFieldName(k) && Normalise(fields[k], lt).Some?) && RequiredOk(fields, required)
      then Some(Record(map k | k in fields :: Normalise(fields[k], lt).value, Sort(required, StringLess)))
      else None
    case ClosedUnion(branches) =>
      if branches != [] && forall i :: 0 <= i < |branches| ==> Normalise(branches[i], lt).Some? then
        var normalised := seq(|branches|, i requires 0 <= i < |branches| => Normalise(branches[i], lt).value);
        Assemble(AllMembers(normalised), NullCount(normalised), lt)
      else None
    case Nullable(inner) =>
      (match Normalise(inner, lt)
       case Some(t) => Some(WithNull(t))
       case None => None)
    case _ => Some(s)
  }

  // ----- The normal form, defined without the normaliser -----

  predicate Plain(s: Schema) {
    !s.NullSchema? && !s.Nullable? && !s.ClosedUnion?
  }

  /** No redundant nullability, unions flat, non-trivial and strictly ordered, required
      names strictly ordered. */
  ghost predicate Canonical(s: Schema, lt: SchemaOrder) {
    match s
    case Array(element) => Canonical(element, lt)
    case Record(fields, required) =>
      && (forall k :: k in fields ==> ValidFieldName(k) && Canonical(fields[k], lt))
      && (forall i :: 0 <= i < |required| ==> required[i] in fields)
      && StrictlySorted(required, StringLess)
    case ClosedUnion(branches) =>
      && |branches| >= 2
      && (forall i :: 0 <= i < |branches| ==> Plain(branches[i]) && Canonical(branches[i], lt))
      && StrictlySorted(branches, lt)
    case Nullable(inner) => !inner.NullSchema? && !inner.Nullable? && Canonical(inner, lt)
    case _ => true
  }

  ghost predicate AllPlain(members: seq<Schema>, lt: SchemaOrder) {
    forall m :: m in members ==> Plain(m) && Canonical(m, lt)
  }

  /** When assembly succeeds and what comes out. */
  lemma AssembleSpec(members: seq<Schema>, nulls: nat, lt: SchemaOrder)
    requires StrictTotalOrder(lt)
    ensures Assemble(members, nulls, lt).Some? <==> nulls <= 1 && NoDuplicates(members) && (members != [] || nulls == 1)
    ensures Assemble(members, nulls, lt).Some? ==> StrictlySorted(Sort(members, lt), lt)
  {
    var sorted := Sort(members, lt);
    SortSorted(members, lt);
    NoDuplicatesMultiset(members);
    NoDuplicatesMultiset(sorted);
    StrictlySortedIsSorted(sorted, lt);
  }

  lemma {:induction false} JoinParts(sorted: seq<Schema>, nulls: nat, lt: SchemaOrder)
    requires sorted != [] && nulls <= 1 && StrictlySorted(sorted, lt)
    requires forall i :: 0 <= i < |sorted| ==> Plain(sorted[i]) && Canonical(sorted[i], lt)
    ensures Canonical(Join(sorted, nulls), lt) && Members(Join(sorted, nulls)) == sorted && Nulls(Join(sorted, nulls)) == nulls
  {
    hide StrictlySorted;
    if |sorted| >= 2 {
      UnionCanonical(sorted, lt);
    }
  }

  lemma SortPlain(members: seq<Schema>, lt: SchemaOrder)
    requires AllPlain(members, lt)
    ensures forall i :: 0 <= i < |members| ==> Plain(Sort(members, lt)[i]) && Canonical(Sort(members, lt)[i], lt)
  {
    var sorted := Sort(members, lt);
    forall i | 0 <= i < |sorted|
      ensures Plain(sorted[i]) && Canonical(sorted[i], lt)
    {
      assert sorted[i] in multiset(sorted);
      assert sorted[i] in members;
    }
  }

  /** An assembled union is canonical and gives back the members and the null it was
      made from. */
  lemma {:induction false} AssembleParts(members: seq<Schema>, nulls: nat, lt: SchemaOrder)
    requires StrictTotalOrder(lt) && AllPlain(members, lt)
    requires Assemble(members, nulls, lt).Some?
    ensures var t := Assemble(members, nulls, lt).value;
            Canonical(t, lt) && multiset(Members(t)) == multiset(members) && Nulls(t) == nulls
  {
    AssembleSpec(members, nulls, lt);
    SortPlain(members, lt);
    hide StrictTotalOrder, StrictlySorted, NoDuplicates, Plain, AllPlain;
    if members != [] {
      JoinParts(Sort(members, lt), nulls, lt);
    }
  }

  lemma {:induction false} UnionCanonical(sorted: seq<Schema>, lt: SchemaOrder)
    requires |sorted| >= 2 && StrictlySorted(sorted, lt)
    requires forall i :: 0 <= i < |sorted| ==> Plain(sorted[i]) && Canonical(sorted[i], lt)
    ensures Canonical(ClosedUnion(sorted), lt) && Canonical(Nullable(ClosedUnion(sorted)), lt)
  {
    hide StrictlySorted, Plain;
    assert Canonical(ClosedUnion(sorted), lt);
  }

  lemma CanonicalMembers(s: Schema, lt: SchemaOrder)
    requires Canonical(s, lt)
    ensures AllPlain(Members(s), lt)
    ensures Members(s) != [] || Nulls(s) == 1
  {
  }

  ghost predicate AllCanonical(branches: seq<Schema>, lt: SchemaOrder) {
    forall i :: 0 <= i < |branches| ==> Canonical(branches[i], lt)
  }

  lemma {:induction false} AllMembersPlain(branches: seq<Schema>, lt: SchemaOrder)
    requires AllCanonical(branches, lt)
    ensures AllPlain(AllMembers(branches), lt)
    ensures branches != [] ==> AllMembers(branches) != [] || NullCount(branches) >= 1
  {
    if branches != [] {
      CanonicalMembers(branches[0], lt);
      AllMembersPlain(branches[1..], lt);
    }
  }

  function NormaliseAll(branches: seq<Schema>, lt: SchemaOrder): (r: seq<Schema>)
    requires AllNormalise(branches, lt)
    ensures |r| == |branches|
    ensures forall i :: 0 <= i < |r| ==> r[i] == Normalise(branches[i], lt).value
  {
    seq(|branches|, i requires 0 <= i < |branches| => Normalise(branches[i], lt).value)
  }

  predicate AllNormalise(branches: seq<Schema>, lt: SchemaOrder) {
    forall i :: 0 <= i < |branches| ==> Normalise(branches[i], lt).Some?
  }

  lemma UnionNormalise(branches: seq<Schema>, lt: SchemaOrder)
    ensures Normalise(ClosedUnion(branches), lt) ==
            if branches != [] && AllNormalise(branches, lt)
            then Assemble(AllMembers(NormaliseAll(branches, lt)), NullCount(NormaliseAll(branches, lt)), lt)
            else None
  {
    if branches != [] && AllNormalise(branches, lt) {
      assert NormaliseAll(branches, lt) == seq(|branches|, i requires 0 <= i < |branches| => Normalise(branches[i], lt).value);
    }
  }

  /** The output of the normaliser is in normal form. */
  lemma {:induction false} NormaliseCanonical(s: Schema, lt: SchemaOrder)
    requires StrictTotalOrder(lt) && Normalise(s, lt).Some?
    ensures Canonical(Normalise(s, lt).value, lt)
  {
    hide StrictTotalOrder, StrictlySorted, Sorted;
    match s
    case Array(element) => NormaliseCanonical(element, lt);
    case Record(fields, required) =>
      forall k | k in fields
        ensures Canonical(Normalise(fields[k], lt).value, lt)
      {
        NormaliseCanonical(fields[k], lt);
      }
      RequiredSorted(fields, required);
    case ClosedUnion(branches) =>
      UnionNormalise(branches, lt);
      var normalised := NormaliseAll(branches, lt);
      forall i | 0 <= i < |branches|
        ensures Canonical(normalised[i], lt)
      {
        NormaliseCanonical(branches[i], lt);
      }
      AllMembersPlain(normalised, lt);
      AssembleParts(AllMembers(normalised), NullCount(normalised), lt);
    case Nullable(inner) => NormaliseCanonical(inner, lt);
    case _ =>
  }

  lemma RequiredSorted(fields: map<string, Schema>, required: seq<string>)
    requires RequiredOk(fields, required)
    ensures StrictlySorted(Sort(required, StringLess), StringLess)
    ensures forall i :: 0 <= i < |required| ==> Sort(required, StringLess)[i] in fields
  {
    StringLessIsOrder();
    var sorted := Sort(required, StringLess);
    SortSorted(required, StringLess);
    NoDuplicatesMultiset(required);
    NoDuplicatesMultiset(sorted);
    StrictlySortedIsSorted(sorted, StringLess);
    forall i | 0 <= i < |sorted|
      ensures sorted[i] in fields
    {
      assert sorted[i] in multiset(sorted);
      assert sorted[i] in required;
    }
  }

  lemma {:induction false} PlainMembers(branches: seq<Schema>)
    requires forall i :: 0 <= i < |branches| ==> Plain(branches[i])
    ensures AllMembers(branches) == branches && NullCount(branches) == 0
  {
    if branches != [] {
      PlainMembers(branches[1..]);
    }
  }

  lemma {:induction false} UnionFixed(branches: seq<Schema>, lt: SchemaOrder)
    requires StrictTotalOrder(lt) && Canonical(ClosedUnion(branches), lt)
    requires forall i :: 0 <= i < |branches| ==> Normalise(branches[i], lt) == Some(branches[i])
    ensures Normalise(ClosedUnion(branches), lt) == Some(ClosedUnion(branches))
  {
    UnionNormalise(branches, lt);
    hide StrictTotalOrder, StrictlySorted, Sorted, Normalise;
    assert NormaliseAll(branches, lt) == branches;
    PlainMembers(branches);
    StrictlySortedIsSorted(branches, lt);
    SortFixpoint(branches, lt);
    AssembleSpec(branches, 0, lt);
  }

  lemma {:induction false} RecordFixed(fields: map<string, Schema>, required: seq<string>, lt: SchemaOrder)
    requires Canonical(Record(fields, required), lt)
    requires forall k :: k in fields ==> Normalise(fields[k], lt) == Some(fields[k])
    ensures Normalise(Record(fields, required), lt) == Some(Record(fields, required))
  {
    StringLessIsOrder();
    hide StrictTotalOrder, StringLess;
    StrictlySortedIsSorted(required, StringLess);
    SortFixpoint(required, StringLess);
    assert RequiredOk(fields, required);
    hide StrictlySorted, Sorted, Sort, RequiredOk, ValidFieldName;
    assert Normalise(Record(fields, required), lt).value.fields == fields;
  }

  /** A schema in normal form is left as it is. */
  lemma {:induction false} CanonicalFixed(s: Schema, lt: SchemaOrder)
    requires StrictTotalOrder(lt) && Canonical(s, lt)
    ensures Normalise(s, lt) == Some(s)
  {
    hide StrictTotalOrder, StrictlySorted, Sorted;
    match s
    case Array(element) => CanonicalFixed(element, lt);
    case Record(fields, required) =>
      forall k | k in fields
        ensures Normalise(fields[k], lt) == Some(fields[k])
      {
        CanonicalFixed(fields[k], lt);
      }
      RecordFixed(fields, required, lt);
    case ClosedUnion(branches) =>
      forall i | 0 <= i < |branches|
        ensures Normalise(branches[i], lt) == Some(branches[i])
      {
        CanonicalFixed(branches[i], lt);
      }
      UnionFixed(branches, lt);
    case Nullable(inner) => CanonicalFixed(inner, lt);
    case _ =>
  }

  /** Normalising twice is normalising once, and the second time never fails. */
  lemma NormaliseIdempotent(s: Schema, lt: SchemaOrder)
    requires StrictTotalOrder(lt) && Normalise(s, lt).Some?
    ensures Normalise(Normalise(s, lt).value, lt) == Normalise(s, lt)
  {
    NormaliseCanonical(s, lt);
    CanonicalFixed(Normalise(s, lt).value, lt);
  }

  /** Fixed points, normal forms and outputs of the normaliser are the same schemas. */
  lemma FixedPointsAreImages(s: Schema, lt: SchemaOrder)
    requires StrictTotalOrder(lt)
    ensures Canonical(s, lt) <==> Normalise(s, lt) == Some(s)
    ensures Canonical(s, lt) <==> exists raw :: Normalise(raw, lt) == Some(s)
  {
    if Canonical(s, lt) {
      CanonicalFixed(s, lt);
    }
    if raw :| Normalise(raw, lt) == Some(s) {
      NormaliseCanonical(raw, lt);
    }
  }
}
