/** The normaliser preserves what a schema accepts, does not see how a union was
    written down, and does not change whether parameters are structured. */
module GatewayMeaning {
  import opened Wrappers
  import opened JsonValues
  import opened Sorting
  import opened GatewaySchema

  // ----- Accepted values -----

  /** How the codec reads scalar schemas, and whether it lets an object carry members
      its schema does not declare. Every result holds for all choices of both. */
  datatype Codec = Codec(scalar: (Schema, Json) -> bool, open: bool)

  ghost predicate Accepts(s: Schema, v: Json, codec: Codec)
    decreases s
  {
    match s
    case NullSchema => v.Null?
    case Array(element) => v.Arr? && forall i :: 0 <= i < |v.items| ==> Accepts(element, v.items[i], codec)
    case Record(fields, required) =>
      && v.Obj?
      && (forall name :: name in required ==> name in v.fields)
      && (forall k :: k in v.fields && k in fields ==> Accepts(fields[k], v.fields[k], codec))
      && (forall k :: k in v.fields && k !in fields ==> codec.open)
    case ClosedUnion(branches) => exists i :: 0 <= i < |branches| && Accepts(branches[i], v, codec)
    case Nullable(inner) => v.Null? || Accepts(inner, v, codec)
    case _ => codec.scalar(s, v)
  }

  ghost predicate SomeAccepts(branches: seq<Schema>, v: Json, codec: Codec) {
    exists i :: 0 <= i < |branches| && Accepts(branches[i], v, codec)
  }

  lemma {:induction false} MembersAccept(s: Schema, v: Json, codec: Codec)
    ensures Accepts(s, v, codec) <==> (Nulls(s) == 1 && v.Null?) || SomeAccepts(Members(s), v, codec)
  {
    match s
    case Nullable(ClosedUnion(branches)) =>
      assert Accepts(s, v, codec) <==> v.Null? || SomeAccepts(branches, v, codec);
    case Nullable(inner) =>
      assert Members(s)[0] == inner;
    case ClosedUnion(branches) =>
    case NullSchema =>
    case _ =>
      assert Members(s)[0] == s;
  }

  lemma SomeAcceptsConcat(a: seq<Schema>, b: seq<Schema>, v: Json, codec: Codec)
    ensures SomeAccepts(a + b, v, codec) <==> SomeAccepts(a, v, codec) || SomeAccepts(b, v, codec)
  {
    hide Accepts;
    if i :| 0 <= i < |a| && Accepts(a[i], v, codec) {
      assert (a + b)[i] == a[i];
    }
    if i :| 0 <= i < |b| && Accepts(b[i], v, codec) {
      assert (a + b)[|a| + i] == b[i];
    }
  }

  lemma {:induction false} AllMembersAccept(branches: seq<Schema>, v: Json, codec: Codec)
    ensures SomeAccepts(branches, v, codec) <==>
            (NullCount(branches) >= 1 && v.Null?) || SomeAccepts(AllMembers(branches), v, codec)
  {
    if branches != [] {
      var head, rest := branches[0], branches[1..];
      MembersAccept(head, v, codec);
      AllMembersAccept(rest, v, codec);
      SomeAcceptsConcat([head], rest, v, codec);
      SomeAcceptsConcat(Members(head), AllMembers(rest), v, codec);
      assert branches == [head] + rest;
      assert SomeAccepts([head], v, codec) <==> Accepts([head][0], v, codec);
    }
  }

  lemma SomeAcceptsSort(members: seq<Schema>, lt: SchemaOrder, v: Json, codec: Codec)
    ensures SomeAccepts(Sort(members, lt), v, codec) <==> SomeAccepts(members, v, codec)
  {
    hide Accepts;
    var sorted := Sort(members, lt);
    if i :| 0 <= i < |members| && Accepts(members[i], v, codec) {
      assert members[i] in multiset(members) && members[i] in multiset(sorted);
      var j :| 0 <= j < |sorted| && sorted[j] == members[i];
    }
    if i :| 0 <= i < |sorted| && Accepts(sorted[i], v, codec) {
      assert sorted[i] in multiset(sorted) && sorted[i] in multiset(members);
      var j :| 0 <= j < |members| && members[j] == sorted[i];
    }
  }

  lemma {:induction false} AssembleAccepts(members: seq<Schema>, nulls: nat, lt: SchemaOrder, v: Json, codec: Codec)
    requires Assemble(members, nulls, lt).Some?
    ensures Accepts(Assemble(members, nulls, lt).value, v, codec) <==>
            (nulls == 1 && v.Null?) || SomeAccepts(members, v, codec)
  {
    var sorted := Sort(members, lt);
    SomeAcceptsSort(members, lt, v, codec);
    hide Sort, NoDuplicates;
    if |sorted| == 1 {
      assert SomeAccepts(sorted, v, codec) <==> Accepts(sorted[0], v, codec);
    } else if |sorted| >= 2 {
      assert Accepts(ClosedUnion(sorted), v, codec) <==> SomeAccepts(sorted, v, codec);
    }
  }

  /** Normalisation preserves meaning: a value is accepted after exactly when before. */
  lemma {:induction false} NormalisePreservesMeaning(s: Schema, lt: SchemaOrder, v: Json, codec: Codec)
    requires Normalise(s, lt).Some?
    ensures Accepts(Normalise(s, lt).value, v, codec) <==> Accepts(s, v, codec)
    decreases s
  {
    match s
    case Array(element) =>
      if v.Arr? {
        forall i | 0 <= i < |v.items|
          ensures Accepts(Normalise(element, lt).value, v.items[i], codec) <==> Accepts(element, v.items[i], codec)
        {
          NormalisePreservesMeaning(element, lt, v.items[i], codec);
        }
      }
    case Record(fields, required) =>
      if v.Obj? {
        forall k | k in v.fields && k in fields
          ensures Accepts(Normalise(fields[k], lt).value, v.fields[k], codec) <==> Accepts(fields[k], v.fields[k], codec)
        {
          NormalisePreservesMeaning(fields[k], lt, v.fields[k], codec);
        }
        RecordAccepts(fields, required, lt, v, codec);
      }
    case ClosedUnion(branches) =>
      forall i | 0 <= i < |branches|
        ensures Accepts(Normalise(branches[i], lt).value, v, codec) <==> Accepts(branches[i], v, codec)
      {
        NormalisePreservesMeaning(branches[i], lt, v, codec);
      }
      UnionAccepts(branches, lt, v, codec);
    case Nullable(inner) => NormalisePreservesMeaning(inner, lt, v, codec);
    case _ =>
  }

  lemma {:induction false} RecordAccepts(fields: map<string, Schema>, required: seq<string>, lt: SchemaOrder, v: Json, codec: Codec)
    requires Normalise(Record(fields, required), lt).Some? && v.Obj?
    requires forall k :: k in v.fields && k in fields ==>
               (Accepts(Normalise(fields[k], lt).value, v.fields[k], codec) <==> Accepts(fields[k], v.fields[k], codec))
    ensures Accepts(Normalise(Record(fields, required), lt).value, v, codec) <==> Accepts(Record(fields, required), v, codec)
  {
    SortMembers(required, StringLess);
    hide Sort, RequiredOk, ValidFieldName;
  }

  lemma {:induction false} UnionAccepts(branches: seq<Schema>, lt: SchemaOrder, v: Json, codec: Codec)
    requires Normalise(ClosedUnion(branches), lt).Some?
    requires AllNormalise(branches, lt)
    requires forall i :: 0 <= i < |branches| ==>
               (Accepts(Normalise(branches[i], lt).value, v, codec) <==> Accepts(branches[i], v, codec))
    ensures Accepts(Normalise(ClosedUnion(branches), lt).value, v, codec) <==> Accepts(ClosedUnion(branches), v, codec)
  {
    UnionNormalise(branches, lt);
    var normalised := NormaliseAll(branches, lt);
    assert Accepts(ClosedUnion(branches), v, codec) <==> SomeAccepts(branches, v, codec);
    assert SomeAccepts(normalised, v, codec) <==> SomeAccepts(branches, v, codec) by {
      hide Accepts;
      if i :| 0 <= i < |branches| && Accepts(branches[i], v, codec) {
        assert Accepts(normalised[i], v, codec);
      }
      if i :| 0 <= i < |normalised| && Accepts(normalised[i], v, codec) {
        assert Accepts(branches[i], v, codec);
      }
    }
    AllMembersAccept(normalised, v, codec);
    AssembleAccepts(AllMembers(normalised), NullCount(normalised), lt, v, codec);
    hide Accepts, Normalise;
  }

  // ----- Unions do not show how they were written -----

  lemma {:induction false} AllMembersConcat(a: seq<Schema>, b: seq<Schema>)
    ensures AllMembers(a + b) == AllMembers(a) + AllMembers(b)
    ensures NullCount(a + b) == NullCount(a) + NullCount(b)
  {
    if a == [] {
      assert a + b == b;
    } else {
      AllMembersConcat(a[1..], b);
      assert (a + b)[1..] == a[1..] + b && (a + b)[0] == a[0];
      hide Members;
      assert Members(a[0]) + (AllMembers(a[1..]) + AllMembers(b)) == Members(a[0]) + AllMembers(a[1..]) + AllMembers(b);
    }
  }

  lemma {:induction false} AllMembersPermutation(a: seq<Schema>, b: seq<Schema>)
    requires multiset(a) == multiset(b)
    ensures multiset(AllMembers(a)) == multiset(AllMembers(b)) && NullCount(a) == NullCount(b)
  {
    if a == [] {
      assert |multiset(b)| == |b|;
    } else {
      var i := PermutationHead(a, b);
      var front, back := b[..i], b[i + 1..];
      AllMembersPermutation(a[1..], front + back);
      AllMembersConcat(front + [b[i]], back);
      AllMembersConcat(front, [b[i]]);
      AllMembersConcat(front, back);
      hide Members;
      SingleMembers(b[i]);
    }
  }

  /** The assembled union depends on the members only as a multiset. */
  lemma AssemblePermutation(a: seq<Schema>, b: seq<Schema>, nulls: nat, lt: SchemaOrder)
    requires StrictTotalOrder(lt) && multiset(a) == multiset(b)
    ensures Assemble(a, nulls, lt) == Assemble(b, nulls, lt)
  {
    SortPermutation(a, b, lt);
  }

  /** The flattened form of a union: what each normalised branch contributes. */
  ghost function Flattened(branches: seq<Schema>, lt: SchemaOrder): Option<(multiset<Schema>, nat)> {
    if branches != [] && AllNormalise(branches, lt)
    then Some((multiset(AllMembers(NormaliseAll(branches, lt))), NullCount(NormaliseAll(branches, lt))))
    else None
  }

  /** Two unions with the same flattened members and the same number of null-bearing
      branches normalise alike, in success and in result. */
  lemma UnionByFlattening(a: seq<Schema>, b: seq<Schema>, lt: SchemaOrder)
    requires StrictTotalOrder(lt) && Flattened(a, lt) == Flattened(b, lt)
    ensures Normalise(ClosedUnion(a), lt) == Normalise(ClosedUnion(b), lt)
  {
    UnionNormalise(a, lt);
    UnionNormalise(b, lt);
    if Flattened(a, lt).Some? {
      AssemblePermutation(AllMembers(NormaliseAll(a, lt)), AllMembers(NormaliseAll(b, lt)), NullCount(NormaliseAll(a, lt)), lt);
    }
  }

  lemma {:induction false} NormaliseAllPermutation(a: seq<Schema>, b: seq<Schema>, lt: SchemaOrder)
    requires multiset(a) == multiset(b)
    ensures AllNormalise(a, lt) <==> AllNormalise(b, lt)
    ensures AllNormalise(a, lt) ==> multiset(NormaliseAll(a, lt)) == multiset(NormaliseAll(b, lt))
  {
    hide Normalise;
    if a == [] {
      assert |multiset(b)| == |b|;
    } else {
      var i := PermutationHead(a, b);
      var front, back := b[..i], b[i + 1..];
      assert a == [a[0]] + a[1..];
      NormaliseAllPermutation(a[1..], front + back, lt);
      NormaliseSplit([a[0]], a[1..], lt);
      NormaliseSplit(front + [b[i]], back, lt);
      NormaliseSplit(front, [b[i]], lt);
      NormaliseSplit(front, back, lt);
    }
  }

  lemma NormaliseSplit(a: seq<Schema>, b: seq<Schema>, lt: SchemaOrder)
    ensures AllNormalise(a + b, lt) <==> AllNormalise(a, lt) && AllNormalise(b, lt)
    ensures AllNormalise(a + b, lt) ==> NormaliseAll(a + b, lt) == NormaliseAll(a, lt) + NormaliseAll(b, lt)
  {
    hide Normalise;
    if AllNormalise(a + b, lt) {
      forall i | 0 <= i < |a|
        ensures Normalise(a[i], lt).Some?
      {
        assert (a + b)[i] == a[i];
      }
      forall i | 0 <= i < |b|
        ensures Normalise(b[i], lt).Some?
      {
        assert (a + b)[|a| + i] == b[i];
      }
    }
  }

  /** Reordering branches changes nothing. */
  lemma UnionOrderIrrelevant(a: seq<Schema>, b: seq<Schema>, lt: SchemaOrder)
    requires StrictTotalOrder(lt) && multiset(a) == multiset(b)
    ensures Normalise(ClosedUnion(a), lt) == Normalise(ClosedUnion(b), lt)
  {
    NormaliseAllPermutation(a, b, lt);
    assert |multiset(a)| == |a| && |multiset(b)| == |b|;
    if a != [] && AllNormalise(a, lt) {
      AllMembersPermutation(NormaliseAll(a, lt), NormaliseAll(b, lt));
    }
    UnionByFlattening(a, b, lt);
  }

  /** Grouping a non-empty run of branches into a nested union changes nothing. With
      the previous lemma this covers every regrouping. */
  lemma {:induction false} UnionGroupingIrrelevant(group: seq<Schema>, rest: seq<Schema>, lt: SchemaOrder)
    requires StrictTotalOrder(lt) && group != []
    ensures Normalise(ClosedUnion([ClosedUnion(group)] + rest), lt) == Normalise(ClosedUnion(group + rest), lt)
  {
    hide Normalise, StrictTotalOrder, Assemble, AllMembers, NullCount, AllCanonical, AllNormalise;
    var nested := ClosedUnion(group);
    UnionNormalise(group, lt);
    UnionNormalise(group + rest, lt);
    UnionNormalise([nested] + rest, lt);
    NormaliseSplit(group, rest, lt);
    NormaliseSplit([nested], rest, lt);
    NormaliseSingle(nested, lt);
    if AllNormalise(group, lt) && AllNormalise(rest, lt) {
      var g, r := NormaliseAll(group, lt), NormaliseAll(rest, lt);
      AllMembersConcat(g, r);
      NormaliseAllCanonical(group, lt);
      if Normalise(nested, lt).Some? {
        NestedParts(nested, g, r, lt);
      } else {
        NestedFails(g, r, lt);
      }
    }
  }

  lemma NormaliseSingle(s: Schema, lt: SchemaOrder)
    ensures AllNormalise([s], lt) <==> Normalise(s, lt).Some?
    ensures Normalise(s, lt).Some? ==> NormaliseAll([s], lt) == [Normalise(s, lt).value]
  {
    hide Normalise;
    assert [s][0] == s;
  }

  lemma NormaliseAllCanonical(branches: seq<Schema>, lt: SchemaOrder)
    requires StrictTotalOrder(lt) && AllNormalise(branches, lt)
    ensures AllCanonical(NormaliseAll(branches, lt), lt)
  {
    hide StrictTotalOrder, Normalise, Canonical;
    forall i | 0 <= i < |branches|
      ensures Canonical(NormaliseAll(branches, lt)[i], lt)
    {
      NormaliseCanonical(branches[i], lt);
    }
  }

  lemma {:induction false} NestedFails(g: seq<Schema>, r: seq<Schema>, lt: SchemaOrder)
    requires StrictTotalOrder(lt) && AllCanonical(g, lt) && g != []
    requires Assemble(AllMembers(g), NullCount(g), lt).None?
    ensures Assemble(AllMembers(g) + AllMembers(r), NullCount(g) + NullCount(r), lt).None?
  {
    AllMembersPlain(g, lt);
    AssembleSpec(AllMembers(g), NullCount(g), lt);
    AssembleSpec(AllMembers(g) + AllMembers(r), NullCount(g) + NullCount(r), lt);
    hide Assemble, StrictTotalOrder, AllMembers, NullCount, NoDuplicates, AllPlain, AllCanonical, Sort, StrictlySorted;
    if NoDuplicates(AllMembers(g) + AllMembers(r)) {
      NoDuplicatesPrefix(AllMembers(g), AllMembers(r));
    }
  }

  lemma NoDuplicatesPrefix(a: seq<Schema>, b: seq<Schema>)
    requires NoDuplicates(a + b)
    ensures NoDuplicates(a)
  {
    forall i, j | 0 <= i < j < |a|
      ensures a[i] != a[j]
    {
      assert (a + b)[i] == a[i] && (a + b)[j] == a[j];
    }
  }

  lemma {:induction false} SingleMembers(t: Schema)
    ensures AllMembers([t]) == Members(t) && NullCount([t]) == Nulls(t)
  {
    hide Members;
    assert [t][1..] == [] && AllMembers([]) == [] && NullCount([]) == 0;
  }

  lemma {:induction false} NestedParts(nested: Schema, g: seq<Schema>, r: seq<Schema>, lt: SchemaOrder)
    requires StrictTotalOrder(lt) && AllCanonical(g, lt)
    requires Normalise(nested, lt).Some? && Normalise(nested, lt) == Assemble(AllMembers(g), NullCount(g), lt)
    ensures var whole := [Normalise(nested, lt).value] + r;
            Assemble(AllMembers(whole), NullCount(whole), lt) ==
            Assemble(AllMembers(g) + AllMembers(r), NullCount(g) + NullCount(r), lt)
  {
    hide Normalise, Assemble, StrictTotalOrder, Canonical, Members, Sort;
    AllMembersPlain(g, lt);
    AssembleParts(AllMembers(g), NullCount(g), lt);
    hide AllPlain, AllCanonical, AllMembers, NullCount;
    ReplaceByParts(Normalise(nested, lt).value, AllMembers(g), NullCount(g), r, lt);
  }

  /** A branch counts like any members and nulls it stands for. */
  lemma {:induction false} ReplaceByParts(t: Schema, members: seq<Schema>, nulls: nat, r: seq<Schema>, lt: SchemaOrder)
    requires StrictTotalOrder(lt) && multiset(Members(t)) == multiset(members) && Nulls(t) == nulls
    ensures Assemble(AllMembers([t] + r), NullCount([t] + r), lt) ==
            Assemble(members + AllMembers(r), nulls + NullCount(r), lt)
  {
    hide Assemble, StrictTotalOrder, Members;
    AllMembersConcat([t], r);
    SingleMembers(t);
    hide AllMembers, NullCount;
    AssemblePermutation(Members(t) + AllMembers(r), members + AllMembers(r), nulls + NullCount(r), lt);
  }

  // ----- Structured parameters -----

  /** Parameters of a JSON-RPC request must be an object or an array. */
  predicate Structured(s: Schema) {
    match s
    case Record(_, _) => true
    case Array(_) => true
    case ClosedUnion(branches) => branches != [] && forall i :: 0 <= i < |branches| ==> Structured(branches[i])
    case _ => false
  }

  ghost predicate AllStructured(branches: seq<Schema>) {
    forall s :: s in branches ==> Structured(s)
  }

  lemma {:induction false} MembersStructured(s: Schema, lt: SchemaOrder)
    requires Canonical(s, lt)
    ensures Structured(s) <==> Nulls(s) == 0 && AllStructured(Members(s))
  {
    if s.ClosedUnion? {
      assert forall i :: 0 <= i < |s.branches| ==> s.branches[i] in s.branches;
    } else if Plain(s) {
      assert Members(s) == [s];
    }
  }

  lemma {:induction false} AllMembersStructured(branches: seq<Schema>, lt: SchemaOrder)
    requires AllCanonical(branches, lt)
    ensures AllStructured(branches) <==> NullCount(branches) == 0 && AllStructured(AllMembers(branches))
  {
    hide Structured;
    if branches != [] {
      MembersStructured(branches[0], lt);
      AllMembersStructured(branches[1..], lt);
      assert branches == [branches[0]] + branches[1..];
      hide Members, Nulls;
      assert forall s :: s in branches <==> s == branches[0] || s in branches[1..];
      assert forall s :: s in AllMembers(branches) <==> s in Members(branches[0]) || s in AllMembers(branches[1..]);
    }
  }

  lemma {:induction false} AssembleStructured(members: seq<Schema>, nulls: nat, lt: SchemaOrder)
    requires Assemble(members, nulls, lt).Some?
    ensures Structured(Assemble(members, nulls, lt).value) <==> nulls == 0 && AllStructured(members)
  {
    var sorted := Sort(members, lt);
    SortMembers(members, lt);
    assert AllStructured(sorted) <==> AllStructured(members);
    hide Sort, NoDuplicates;
    assert forall i :: 0 <= i < |sorted| ==> sorted[i] in sorted;
    if |sorted| == 1 {
      assert sorted == [sorted[0]];
    }
  }

  /** The check gives the same answer before and after normalisation, so the compiler's
      early check and the check on the normalised surface never disagree. */
  lemma {:induction false} StructuredInvariant(s: Schema, lt: SchemaOrder)
    requires StrictTotalOrder(lt) && Normalise(s, lt).Some?
    ensures Structured(Normalise(s, lt).value) <==> Structured(s)
  {
    hide StrictTotalOrder;
    match s
    case ClosedUnion(branches) =>
      UnionNormalise(branches, lt);
      var normalised := NormaliseAll(branches, lt);
      forall i | 0 <= i < |branches|
        ensures Structured(normalised[i]) <==> Structured(branches[i])
      {
        StructuredInvariant(branches[i], lt);
      }
      NormaliseAllCanonical(branches, lt);
      AllMembersStructured(normalised, lt);
      AssembleStructured(AllMembers(normalised), NullCount(normalised), lt);
      hide Normalise, Assemble, AllCanonical, AllMembers, NullCount;
      assert AllStructured(normalised) <==> Structured(s);
    case _ =>
  }

  /** A structured schema accepts only objects and arrays. */
  lemma {:induction false} StructuredAcceptsOnlyContainers(s: Schema, v: Json, codec: Codec)
    requires Structured(s) && Accepts(s, v, codec)
    ensures v.Obj? || v.Arr?
  {
    if s.ClosedUnion? {
      var i :| 0 <= i < |s.branches| && Accepts(s.branches[i], v, codec);
      StructuredAcceptsOnlyContainers(s.branches[i], v, codec);
    }
  }

  predicate Scalar(s: Schema) {
    !s.NullSchema? && !s.Array? && !s.Record? && !s.ClosedUnion? && !s.Nullable?
  }

  /** Every scalar schema accepts some value that is neither an object nor an array. */
  ghost predicate ScalarsInhabited(codec: Codec) {
    forall s :: Scalar(s) ==> exists v: Json :: codec.scalar(s, v) && !v.Obj? && !v.Arr?
  }

  ghost function ScalarWitness(s: Schema, codec: Codec): (v: Json)
    requires Scalar(s) && ScalarsInhabited(codec)
    ensures codec.scalar(s, v) && !v.Obj? && !v.Arr?
  {
    var v: Json :| codec.scalar(s, v) && !v.Obj? && !v.Arr?;
    v
  }

  /** A value a normalisable schema accepts, unstructured when the schema allows it. */
  ghost function Witness(s: Schema, lt: SchemaOrder, codec: Codec): (v: Json)
    requires ScalarsInhabited(codec) && Normalise(s, lt).Some?
    ensures Accepts(s, v, codec)
    ensures !Structured(s) ==> !v.Obj? && !v.Arr?
    decreases s
  {
    match s
    case NullSchema => Null
    case Nullable(_) => Null
    case Array(_) => Arr([])
    case Record(fields, required) => Obj(map k | k in fields && k in required :: Witness(fields[k], lt, codec))
    case ClosedUnion(branches) =>
      if exists i :: 0 <= i < |branches| && !Structured(branches[i]) then
        var i :| 0 <= i < |branches| && !Structured(branches[i]);
        Witness(branches[i], lt, codec)
      else Witness(branches[0], lt, codec)
    case _ => ScalarWitness(s, codec)
  }

  /** The check is exact: it passes precisely the schemas whose accepted values are all
      objects or arrays. */
  lemma StructuredExactly(s: Schema, lt: SchemaOrder, codec: Codec)
    requires ScalarsInhabited(codec) && Normalise(s, lt).Some?
    ensures Structured(s) <==> forall v :: Accepts(s, v, codec) ==> v.Obj? || v.Arr?
  {
    if Structured(s) {
      forall v | Accepts(s, v, codec)
        ensures v.Obj? || v.Arr?
      {
        StructuredAcceptsOnlyContainers(s, v, codec);
      }
    } else {
      var v := Witness(s, lt, codec);
      assert Accepts(s, v, codec);
    }
  }
}
