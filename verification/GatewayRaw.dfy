/** Which raw schemas the normaliser accepts and which of them it makes equal, said of the
    raw schemas themselves. */
module GatewayRaw {
  import opened Wrappers
  import opened Sorting
  import opened GatewaySchema
  import opened GatewayMeaning

  // ----- Parts of a raw schema -----

  /** The alternatives other than null, however deeply unions and nullability are nested. */
  function Alternatives(s: Schema): (r: seq<Schema>)
    ensures forall m :: m in r ==> (m == s || m < s) && Plain(m)
    decreases s, 1
  {
    match s
    case NullSchema => []
    case Nullable(inner) => Alternatives(inner)
    case ClosedUnion(branches) => AllAlternatives(branches, s)
    case _ => [s]
  }

  function AllAlternatives(branches: seq<Schema>, ghost parent: Schema): (r: seq<Schema>)
    requires forall i :: 0 <= i < |branches| ==> branches[i] < parent
    ensures forall m :: m in r ==> m < parent && Plain(m)
    decreases parent, 0, |branches|
  {
    if branches == [] then [] else Alternatives(branches[0]) + AllAlternatives(branches[1..], parent)
  }

  /** How many branches allow null. */
  function NullBranches(s: Schema): nat
    decreases s, 1
  {
    match s
    case NullSchema => 1
    case Nullable(_) => 1
    case ClosedUnion(branches) => AllNullBranches(branches, s)
    case _ => 0
  }

  function AllNullBranches(branches: seq<Schema>, ghost parent: Schema): nat
    requires forall i :: 0 <= i < |branches| ==> branches[i] < parent
    decreases parent, 0, |branches|
  {
    if branches == [] then 0 else NullBranches(branches[0]) + AllNullBranches(branches[1..], parent)
  }

  // ----- The same schema -----

  /** The same alternatives, in any order and nesting, and null in both or in neither. */
  ghost predicate SameSchema(a: Schema, b: Schema)
    decreases a, 1
  {
    && (NullBranches(a) == 0 <==> NullBranches(b) == 0)
    && (forall m :: m in Alternatives(a) ==> exists n :: n in Alternatives(b) && SameAlternative(m, n))
    && (forall n :: n in Alternatives(b) ==> exists m :: m in Alternatives(a) && SameAlternative(m, n))
  }

  ghost predicate SameAlternative(a: Schema, b: Schema)
    decreases a, 0
  {
    match (a, b)
    case (Array(e), Array(f)) => SameSchema(e, f)
    case (Record(fields, required), Record(fields', required')) =>
      && fields.Keys == fields'.Keys
      && (forall name :: name in fields && name in fields' ==> SameSchema(fields[name], fields'[name]))
      && (forall name :: name in required <==> name in required')
    case _ => a == b
  }

  // ----- What can be normalised -----

  function TrimStart(s: string): string {
    if s != "" && IsWhitespace(s[0]) then TrimStart(s[1..]) else s
  }

  function TrimEnd(s: string): string {
    if s != "" && IsWhitespace(s[|s| - 1]) then TrimEnd(s[..|s| - 1]) else s
  }

  predicate FieldName(name: string) {
    && name != ""
    && TrimEnd(TrimStart(name)) == name
    && forall c :: c in name ==> !IsControl(c)
  }

  /** Field names are proper, required names are declared fields without repetition, unions
      are not empty, allow null at most once and repeat no alternative. */
  ghost predicate Normalisable(s: Schema) {
    match s
    case Array(element) => Normalisable(element)
    case Record(fields, required) =>
      && (forall name :: name in fields ==> FieldName(name) && Normalisable(fields[name]))
      && (forall name :: name in required ==> name in fields)
      && (forall i, j :: 0 <= i < j < |required| ==> required[i] != required[j])
    case ClosedUnion(branches) =>
      && branches != []
      && (forall i :: 0 <= i < |branches| ==> Normalisable(branches[i]))
      && NullBranches(s) <= 1
      && Distinct(Alternatives(s))
    case Nullable(inner) => Normalisable(inner)
    case _ => true
  }

  ghost predicate Distinct(members: seq<Schema>) {
    forall i, j :: 0 <= i < j < |members| ==> !SameAlternative(members[i], members[j])
  }

  lemma TrimmedStart(s: string)
    ensures TrimStart(s) == s <==> s == "" || !IsWhitespace(s[0])
    ensures |TrimStart(s)| <= |s|
  {
    TrimStartShorter(s);
  }

  lemma {:induction false} TrimStartShorter(s: string)
    ensures |TrimStart(s)| <= |s| && (s != "" && IsWhitespace(s[0]) ==> |TrimStart(s)| < |s|)
  {
    if s != "" && IsWhitespace(s[0]) {
      TrimStartShorter(s[1..]);
    }
  }

  lemma {:induction false} TrimEndShorter(s: string)
    ensures |TrimEnd(s)| <= |s| && (s != "" && IsWhitespace(s[|s| - 1]) ==> |TrimEnd(s)| < |s|)
  {
    if s != "" && IsWhitespace(s[|s| - 1]) {
      TrimEndShorter(s[..|s| - 1]);
    }
  }

  lemma FieldNameExactly(name: string)
    ensures ValidFieldName(name) <==> FieldName(name)
  {
    TrimmedStart(name);
    TrimStartShorter(name);
    TrimEndShorter(TrimStart(name));
    TrimEndShorter(name);
    hide IsWhitespace, IsControl;
    assert forall c :: c in name <==> exists i :: 0 <= i < |name| && name[i] == c;
  }

  // ----- The parts survive normalisation -----

  ghost predicate AllNormal(members: seq<Schema>, lt: SchemaOrder) {
    forall m :: m in members ==> Normalise(m, lt).Some?
  }

  ghost function Normals(members: seq<Schema>, lt: SchemaOrder): (r: seq<Schema>)
    requires AllNormal(members, lt)
    ensures |r| == |members| && forall i :: 0 <= i < |r| ==> r[i] == Normalise(members[i], lt).value
  {
    seq(|members|, i requires 0 <= i < |members| => Normalise(members[i], lt).value)
  }

  lemma NormalsConcat(a: seq<Schema>, b: seq<Schema>, lt: SchemaOrder)
    requires AllNormal(a, lt) && AllNormal(b, lt)
    ensures AllNormal(a + b, lt) && Normals(a + b, lt) == Normals(a, lt) + Normals(b, lt)
  {
    hide Normalise;
  }

  /** The members and the null of the normal form are those of the raw schema. */
  ghost predicate PartsKept(s: Schema, lt: SchemaOrder)
    requires Normalise(s, lt).Some?
  {
    var t := Normalise(s, lt).value;
    && AllNormal(Alternatives(s), lt)
    && multiset(Members(t)) == multiset(Normals(Alternatives(s), lt))
    && Nulls(t) == NullBranches(s)
  }

  lemma {:induction false} PartsOf(s: Schema, lt: SchemaOrder)
    requires StrictTotalOrder(lt) && Normalise(s, lt).Some?
    ensures PartsKept(s, lt)
  {
    hide PartsKept, StrictTotalOrder;
    match s
    case NullSchema =>
      NullPart(lt);
    case Nullable(inner) =>
      PartsOf(inner, lt);
      NullablePart(inner, lt);
    case ClosedUnion(branches) =>
      forall i | 0 <= i < |branches|
        ensures PartsKept(branches[i], lt)
      {
        PartsOf(branches[i], lt);
      }
      UnionPart(branches, lt);
    case _ =>
      LeafPart(s, lt);
  }

  lemma NullPart(lt: SchemaOrder)
    ensures PartsKept(NullSchema, lt)
  {
    assert Normals([], lt) == [];
  }

  lemma UnionPart(branches: seq<Schema>, lt: SchemaOrder)
    requires StrictTotalOrder(lt) && Normalise(ClosedUnion(branches), lt).Some?
    requires AllNormalise(branches, lt) && forall i :: 0 <= i < |branches| ==> PartsKept(branches[i], lt)
    ensures PartsKept(ClosedUnion(branches), lt)
  {
    var s := ClosedUnion(branches);
    UnionNormalise(branches, lt);
    var normalised := NormaliseAll(branches, lt);
    BranchParts(branches, s, lt);
    NormaliseAllCanonical(branches, lt);
    AllMembersPlain(normalised, lt);
    AssembleParts(AllMembers(normalised), NullCount(normalised), lt);
    assert Alternatives(s) == AllAlternatives(branches, s) && NullBranches(s) == AllNullBranches(branches, s);
    hide Normalise, StrictTotalOrder, Assemble, AllMembers, NullCount, AllAlternatives, AllNullBranches, Canonical, AllNormal;
  }

  lemma WithNullParts(t: Schema)
    ensures Members(WithNull(t)) == Members(t) && Nulls(WithNull(t)) == 1
  {
  }

  lemma NullablePart(inner: Schema, lt: SchemaOrder)
    requires Normalise(inner, lt).Some? && PartsKept(inner, lt)
    ensures PartsKept(Nullable(inner), lt)
  {
    var t := Normalise(inner, lt).value;
    WithNullParts(t);
    assert Normalise(Nullable(inner), lt) == Some(WithNull(t));
    assert Alternatives(Nullable(inner)) == Alternatives(inner) && NullBranches(Nullable(inner)) == 1;
    hide Normalise, Members, Nulls, WithNull, Alternatives;
  }

  lemma LeafPart(s: Schema, lt: SchemaOrder)
    requires Plain(s) && Normalise(s, lt).Some?
    ensures PartsKept(s, lt)
  {
    hide Sort, RequiredOk, ValidFieldName;
    var t := Normalise(s, lt).value;
    assert Alternatives(s) == [s] && Members(t) == [t];
    assert Normals([s], lt) == [t];
  }

  /** The branches' members together. */
  lemma {:induction false} BranchParts(branches: seq<Schema>, parent: Schema, lt: SchemaOrder)
    requires forall i :: 0 <= i < |branches| ==> branches[i] < parent
    requires AllNormalise(branches, lt) && forall i :: 0 <= i < |branches| ==> PartsKept(branches[i], lt)
    ensures AllNormal(AllAlternatives(branches, parent), lt)
    ensures multiset(AllMembers(NormaliseAll(branches, lt))) == multiset(Normals(AllAlternatives(branches, parent), lt))
    ensures NullCount(NormaliseAll(branches, lt)) == AllNullBranches(branches, parent)
  {
    if branches != [] {
      var head, rest := branches[0], branches[1..];
      BranchParts(rest, parent, lt);
      assert PartsKept(head, lt);
      NormalsConcat(Alternatives(head), AllAlternatives(rest, parent), lt);
      assert NormaliseAll(branches, lt)[1..] == NormaliseAll(rest, lt);
    } else {
      assert Normals([], lt) == [];
    }
  }

  // ----- Equal normal forms -----

  lemma CanonicalDistinct(t: Schema, lt: SchemaOrder)
    requires StrictTotalOrder(lt) && Canonical(t, lt)
    ensures StrictlySorted(Members(t), lt)
  {
  }

  /** A canonical schema is determined by the set of its members and its null. */
  lemma CanonicalFromParts(x: Schema, y: Schema, lt: SchemaOrder)
    requires StrictTotalOrder(lt) && Canonical(x, lt) && Canonical(y, lt)
    ensures x == y <==> ToSet(Members(x)) == ToSet(Members(y)) && Nulls(x) == Nulls(y)
  {
    CanonicalDistinct(x, lt);
    CanonicalDistinct(y, lt);
    if ToSet(Members(x)) == ToSet(Members(y)) && Nulls(x) == Nulls(y) {
      StrictlySortedSetUnique(Members(x), Members(y), lt);
      hide StrictTotalOrder, StrictlySorted;
      RebuiltFromParts(x, lt);
      RebuiltFromParts(y, lt);
    }
  }

  lemma RebuiltFromParts(t: Schema, lt: SchemaOrder)
    requires Canonical(t, lt)
    ensures t == if Members(t) == [] then NullSchema else Join(Members(t), Nulls(t))
  {
    hide StrictlySorted;
  }

  /** The schema is the normal form of one of these. */
  ghost predicate Stems(x: Schema, members: seq<Schema>, lt: SchemaOrder) {
    exists m :: m in members && Normalise(m, lt) == Some(x)
  }

  lemma NormalsStem(members: seq<Schema>, lt: SchemaOrder)
    requires AllNormal(members, lt)
    ensures forall x :: x in Normals(members, lt) <==> Stems(x, members, lt)
  {
    hide Normalise;
    var normals := Normals(members, lt);
    forall x
      ensures x in normals <==> Stems(x, members, lt)
    {
      if m :| m in members && Normalise(m, lt) == Some(x) {
        var i :| 0 <= i < |members| && members[i] == m;
        assert normals[i] == x;
      }
      if x in normals {
        var i :| 0 <= i < |normals| && normals[i] == x;
        assert members[i] in members && Normalise(members[i], lt) == Some(x);
      }
    }
  }

  lemma SameElements(a: seq<Schema>, b: seq<Schema>)
    requires multiset(a) == multiset(b)
    ensures forall x :: x in a <==> x in b
  {
    assert forall x :: x in a <==> x in multiset(a);
    assert forall x :: x in b <==> x in multiset(b);
  }

  /** The members of the normal form are the normal forms of the alternatives. */
  lemma MembersStem(s: Schema, lt: SchemaOrder)
    requires StrictTotalOrder(lt) && Normalise(s, lt).Some?
    ensures AllNormal(Alternatives(s), lt)
    ensures forall x :: x in Members(Normalise(s, lt).value) <==> Stems(x, Alternatives(s), lt)
  {
    PartsOf(s, lt);
    NormalsStem(Alternatives(s), lt);
    SameElements(Members(Normalise(s, lt).value), Normals(Alternatives(s), lt));
    hide Normalise, Members, Alternatives, StrictTotalOrder, Stems, Normals;
  }

  /** Each of the ones has the same normal form as some of the others. */
  ghost predicate Covered(members: seq<Schema>, others: seq<Schema>, lt: SchemaOrder) {
    forall m :: m in members ==> exists n :: n in others && Normalise(m, lt) == Normalise(n, lt)
  }

  lemma CoveredStems(members: seq<Schema>, others: seq<Schema>, lt: SchemaOrder)
    requires AllNormal(members, lt) && AllNormal(others, lt)
    ensures Covered(members, others, lt) <==> forall x :: Stems(x, members, lt) ==> Stems(x, others, lt)
  {
    hide Normalise;
    if Covered(members, others, lt) {
      forall x | Stems(x, members, lt)
        ensures Stems(x, others, lt)
      {
        var m :| m in members && Normalise(m, lt) == Some(x);
        var n :| n in others && Normalise(m, lt) == Normalise(n, lt);
      }
    }
    if forall x :: Stems(x, members, lt) ==> Stems(x, others, lt) {
      forall m | m in members
        ensures exists n :: n in others && Normalise(m, lt) == Normalise(n, lt)
      {
        assert Stems(Normalise(m, lt).value, members, lt);
        assert Stems(Normalise(m, lt).value, others, lt);
      }
    }
  }

  lemma SetsByStems(x: seq<Schema>, y: seq<Schema>, members: seq<Schema>, others: seq<Schema>, lt: SchemaOrder)
    requires forall z :: z in x <==> Stems(z, members, lt)
    requires forall z :: z in y <==> Stems(z, others, lt)
    ensures ToSet(x) == ToSet(y) <==>
            && (forall z :: Stems(z, members, lt) ==> Stems(z, others, lt))
            && (forall z :: Stems(z, others, lt) ==> Stems(z, members, lt))
  {
    hide Stems;
    assert forall z :: z in ToSet(x) <==> z in x;
    assert forall z :: z in ToSet(y) <==> z in y;
    hide ToSet;
  }

  lemma SameMembersExactly(a: Schema, b: Schema, lt: SchemaOrder)
    requires StrictTotalOrder(lt) && Normalise(a, lt).Some? && Normalise(b, lt).Some?
    ensures ToSet(Members(Normalise(a, lt).value)) == ToSet(Members(Normalise(b, lt).value)) <==>
            Covered(Alternatives(a), Alternatives(b), lt) && Covered(Alternatives(b), Alternatives(a), lt)
  {
    hide Normalise, Members, Alternatives, StrictTotalOrder, Stems, Covered, AllNormal, ToSet;
    MembersStem(a, lt);
    MembersStem(b, lt);
    SetsByStems(Members(Normalise(a, lt).value), Members(Normalise(b, lt).value), Alternatives(a), Alternatives(b), lt);
    CoveredStems(Alternatives(a), Alternatives(b), lt);
    CoveredStems(Alternatives(b), Alternatives(a), lt);
  }

  lemma CoveredSame(a: Schema, b: Schema, lt: SchemaOrder)
    requires forall m, n :: m in Alternatives(a) && n in Alternatives(b) ==> (Normalise(m, lt) == Normalise(n, lt) <==> SameAlternative(m, n))
    ensures SameSchema(a, b) <==>
            && (NullBranches(a) == 0 <==> NullBranches(b) == 0)
            && Covered(Alternatives(a), Alternatives(b), lt) && Covered(Alternatives(b), Alternatives(a), lt)
  {
    hide Normalise, Alternatives, SameAlternative, NullBranches;
  }

  /** Two raw schemas have one normal form exactly if they are the same schema. */
  lemma {:induction false} SameNormalForm(a: Schema, b: Schema, lt: SchemaOrder)
    requires StrictTotalOrder(lt) && Normalise(a, lt).Some? && Normalise(b, lt).Some?
    ensures Normalise(a, lt) == Normalise(b, lt) <==> SameSchema(a, b)
    decreases a, 1
  {
    hide Normalise, StrictTotalOrder, Members, Canonical, Alternatives, SameAlternative, SameSchema, Covered, Normals, PartsKept, ToSet;
    MembersStem(a, lt);
    MembersStem(b, lt);
    forall m, n | m in Alternatives(a) && n in Alternatives(b)
      ensures Normalise(m, lt) == Normalise(n, lt) <==> SameAlternative(m, n)
    {
      SameAlternativeForm(m, n, lt);
    }
    CoveredSame(a, b, lt);
    SameByParts(a, b, lt);
  }

  lemma SameByParts(a: Schema, b: Schema, lt: SchemaOrder)
    requires StrictTotalOrder(lt) && Normalise(a, lt).Some? && Normalise(b, lt).Some?
    ensures Normalise(a, lt) == Normalise(b, lt) <==>
            && (NullBranches(a) == 0 <==> NullBranches(b) == 0)
            && Covered(Alternatives(a), Alternatives(b), lt) && Covered(Alternatives(b), Alternatives(a), lt)
  {
    PartsOf(a, lt);
    PartsOf(b, lt);
    SameMembersExactly(a, b, lt);
    hide Normalise, StrictTotalOrder, Members, Canonical, Alternatives, Covered, Normals, ToSet;
    NormaliseCanonical(a, lt);
    NormaliseCanonical(b, lt);
    CanonicalFromParts(Normalise(a, lt).value, Normalise(b, lt).value, lt);
    NullsAgree(Normalise(a, lt).value);
    NullsAgree(Normalise(b, lt).value);
  }

  lemma NullsAgree(t: Schema)
    ensures Nulls(t) <= 1
  {
  }

  lemma {:induction false} SameAlternativeForm(a: Schema, b: Schema, lt: SchemaOrder)
    requires StrictTotalOrder(lt) && Plain(a) && Plain(b) && Normalise(a, lt).Some? && Normalise(b, lt).Some?
    ensures Normalise(a, lt) == Normalise(b, lt) <==> SameAlternative(a, b)
    decreases a, 0
  {
    hide SameSchema, StrictTotalOrder;
    match (a, b)
    case (Array(e), Array(f)) =>
      SameNormalForm(e, f, lt);
    case (Record(fields, required), Record(fields', required')) =>
      forall name | name in fields && name in fields'
        ensures Normalise(fields[name], lt) == Normalise(fields'[name], lt) <==> SameSchema(fields[name], fields'[name])
      {
        SameNormalForm(fields[name], fields'[name], lt);
      }
      SameRecords(fields, required, fields', required', lt);
    case _ =>
  }

  /** What a record becomes. */
  lemma RecordNormal(fields: map<string, Schema>, required: seq<string>, lt: SchemaOrder)
    requires Normalise(Record(fields, required), lt).Some?
    ensures var t := Normalise(Record(fields, required), lt).value;
            && t.Record?
            && t.fields.Keys == fields.Keys
            && (forall name :: name in fields ==> Normalise(fields[name], lt) == Some(t.fields[name]))
            && StrictlySorted(t.required, StringLess)
            && (forall name :: name in t.required <==> name in required)
  {
    RequiredSorted(fields, required);
    SortMembers(required, StringLess);
    hide Sort, RequiredOk, ValidFieldName, StringLess, StrictlySorted;
  }

  lemma SameRecords(fields: map<string, Schema>, required: seq<string>, fields': map<string, Schema>, required': seq<string>, lt: SchemaOrder)
    requires Normalise(Record(fields, required), lt).Some? && Normalise(Record(fields', required'), lt).Some?
    ensures Normalise(Record(fields, required), lt) == Normalise(Record(fields', required'), lt) <==>
            && fields.Keys == fields'.Keys
            && (forall name :: name in fields && name in fields' ==> Normalise(fields[name], lt) == Normalise(fields'[name], lt))
            && (forall name :: name in required <==> name in required')
  {
    RecordNormal(fields, required, lt);
    RecordNormal(fields', required', lt);
    StringLessIsOrder();
    hide Normalise, StrictTotalOrder, StrictlySorted, StringLess;
    var t, t' := Normalise(Record(fields, required), lt).value, Normalise(Record(fields', required'), lt).value;
    if && fields.Keys == fields'.Keys
       && (forall name :: name in fields && name in fields' ==> Normalise(fields[name], lt) == Normalise(fields'[name], lt))
       && (forall name :: name in required <==> name in required') {
      assert t.fields == t'.fields;
      assert ToSet(t.required) == ToSet(t'.required);
      StrictlySortedSetUnique(t.required, t'.required, StringLess);
    }
  }

  // ----- Success -----

  /** The normaliser accepts exactly those raw schemas. */
  lemma {:induction false} NormalisableExactly(s: Schema, lt: SchemaOrder)
    requires StrictTotalOrder(lt)
    ensures Normalise(s, lt).Some? <==> Normalisable(s)
  {
    hide StrictTotalOrder;
    match s
    case Array(element) => NormalisableExactly(element, lt);
    case Nullable(inner) => NormalisableExactly(inner, lt);
    case Record(fields, required) =>
      forall name | name in fields
        ensures Normalise(fields[name], lt).Some? <==> Normalisable(fields[name])
        ensures ValidFieldName(name) <==> FieldName(name)
      {
        NormalisableExactly(fields[name], lt);
        FieldNameExactly(name);
      }
      RecordNormalisable(fields, required, lt);
    case ClosedUnion(branches) =>
      forall i | 0 <= i < |branches|
        ensures Normalise(branches[i], lt).Some? <==> Normalisable(branches[i])
      {
        NormalisableExactly(branches[i], lt);
      }
      UnionNormalise(branches, lt);
      if branches != [] && AllNormalise(branches, lt) {
        UnionNormalisable(branches, lt);
      }
    case _ =>
  }

  lemma RecordNormalisable(fields: map<string, Schema>, required: seq<string>, lt: SchemaOrder)
    requires forall name :: name in fields ==>
      (ValidFieldName(name) <==> FieldName(name)) && (Normalise(fields[name], lt).Some? <==> Normalisable(fields[name]))
    ensures Normalise(Record(fields, required), lt).Some? <==> Normalisable(Record(fields, required))
  {
    hide Sort, ValidFieldName, FieldName;
    assert forall name :: name in required <==> exists i :: 0 <= i < |required| && required[i] == name;
  }

  lemma UnionNormalisable(branches: seq<Schema>, lt: SchemaOrder)
    requires StrictTotalOrder(lt) && branches != [] && AllNormalise(branches, lt)
    ensures Assemble(AllMembers(NormaliseAll(branches, lt)), NullCount(NormaliseAll(branches, lt)), lt).Some? <==>
            NullBranches(ClosedUnion(branches)) <= 1 && Distinct(Alternatives(ClosedUnion(branches)))
  {
    var s, normalised := ClosedUnion(branches), NormaliseAll(branches, lt);
    forall i | 0 <= i < |branches|
      ensures PartsKept(branches[i], lt)
    {
      PartsOf(branches[i], lt);
    }
    BranchParts(branches, s, lt);
    NormaliseAllCanonical(branches, lt);
    AllMembersPlain(normalised, lt);
    AssembleSpec(AllMembers(normalised), NullCount(normalised), lt);
    assert Alternatives(s) == AllAlternatives(branches, s) && NullBranches(s) == AllNullBranches(branches, s);
    var normals := Normals(Alternatives(s), lt);
    NoDuplicatesMultiset(AllMembers(normalised));
    NoDuplicatesMultiset(normals);
    DistinctExactly(Alternatives(s), lt);
    hide Assemble, StrictTotalOrder, Normalise, AllMembers, NullCount, Distinct, NoDuplicates, Alternatives, NullBranches, PartsKept, Canonical;
  }

  lemma DistinctExactly(members: seq<Schema>, lt: SchemaOrder)
    requires StrictTotalOrder(lt) && AllNormal(members, lt) && forall m :: m in members ==> Plain(m)
    ensures NoDuplicates(Normals(members, lt)) <==> Distinct(members)
  {
    forall i, j | 0 <= i < j < |members|
      ensures Normalise(members[i], lt) == Normalise(members[j], lt) <==> SameAlternative(members[i], members[j])
    {
      assert members[i] in members && members[j] in members;
      SameAlternativeForm(members[i], members[j], lt);
    }
    hide Normalise, SameAlternative, StrictTotalOrder;
    var normals := Normals(members, lt);
    assert forall i :: 0 <= i < |members| ==> members[i] in members && Some(normals[i]) == Normalise(members[i], lt);
  }
}
