/** Protocol surfaces of gateway entries: the producer normalises, the reader accepts a
    surface only when it is already its own normal form
    (artifact-identity/src/gateway.rs). */
module GatewaySurface {
  import opened Wrappers
  import opened Sorting
  import opened GatewaySchema
  import opened GatewayMeaning

  // ----- The normaliser as it runs -----

  /** Adds one normalised branch to the members collected so far. */
  method CollectUnionMember(branch: Schema, members: seq<Schema>, hasNull: bool)
    returns (ok: bool, members': seq<Schema>, hasNull': bool)
    ensures ok <==> (if hasNull then 1 else 0) + Nulls(branch) <= 1
    ensures ok ==> members' == members + Members(branch)
    ensures ok ==> (hasNull' <==> (if hasNull then 1 else 0) + Nulls(branch) == 1)
  {
    members', hasNull' := members, hasNull;
    match branch {
      case NullSchema =>
        if hasNull {
          return false, members', hasNull';
        }
        hasNull' := true;
      case Nullable(inner) =>
        if hasNull {
          return false, members', hasNull';
        }
        hasNull' := true;
        members' := members + if inner.ClosedUnion? then inner.branches else [inner];
      case ClosedUnion(branches) =>
        members' := members + branches;
      case _ =>
        members' := members + [branch];
    }
    ok := true;
  }

  method HasAdjacentDuplicate(sorted: seq<Schema>, ghost lt: SchemaOrder) returns (found: bool)
    requires StrictTotalOrder(lt) && Sorted(sorted, lt)
    ensures found <==> !NoDuplicates(sorted)
  {
    if |sorted| == 0 {
      return false;
    }
    for i := 1 to |sorted|
      invariant forall j, k :: 0 <= j < k < i && k < |sorted| ==> sorted[j] != sorted[k]
    {
      if sorted[i - 1] == sorted[i] {
        return true;
      }
      forall j | 0 <= j < i
        ensures sorted[j] != sorted[i]
      {
        if j < i - 1 {
          assert sorted[j] != sorted[i - 1];
          assert lt(sorted[j], sorted[i - 1]);
        }
      }
    }
    return false;
  }

  /** Normalises the branches one by one, collecting members and nullability. */
  method CollectBranches(branches: seq<Schema>, lt: SchemaOrder) returns (r: Option<(seq<Schema>, bool)>)
    requires StrictTotalOrder(lt)
    ensures r.Some? ==> AllNormalise(branches, lt) && r.value.0 == AllMembers(NormaliseAll(branches, lt))
    ensures r.Some? ==> NullCount(NormaliseAll(branches, lt)) == if r.value.1 then 1 else 0
    ensures r.None? ==> !AllNormalise(branches, lt) || NullCount(NormaliseAll(branches, lt)) > 1
    decreases ClosedUnion(branches), 0
  {
    hide StrictTotalOrder, Normalise, Assemble;
    var members: seq<Schema>, hasNull := [], false;
    for i := 0 to |branches|
      invariant AllNormalise(branches[..i], lt)
      invariant members == AllMembers(NormaliseAll(branches[..i], lt))
      invariant NullCount(NormaliseAll(branches[..i], lt)) == if hasNull then 1 else 0
    {
      assert branches[..i + 1] == branches[..i] + [branches[i]];
      NormaliseSplit(branches[..i], [branches[i]], lt);
      NormaliseSingle(branches[i], lt);
      var branch := NormaliseSchema(branches[i], lt);
      if branch.None? {
        assert !AllNormalise(branches, lt);
        return None;
      }
      AllMembersConcat(NormaliseAll(branches[..i], lt), [branch.value]);
      SingleMembers(branch.value);
      var ok: bool;
      ok, members, hasNull := CollectUnionMember(branch.value, members, hasNull);
      if !ok {
        TooManyNulls(branches, i + 1, lt);
        return None;
      }
    }
    assert branches[..|branches|] == branches;
    return Some((members, hasNull));
  }

  method NormaliseUnion(branches: seq<Schema>, lt: SchemaOrder) returns (r: Option<Schema>)
    requires StrictTotalOrder(lt)
    ensures r == Normalise(ClosedUnion(branches), lt)
    decreases ClosedUnion(branches), 1
  {
    UnionNormalise(branches, lt);
    if branches == [] {
      return None;
    }
    var collected := CollectBranches(branches, lt);
    hide Normalise, AllNormalise, StrictTotalOrder;
    if collected.None? {
      return None;
    }
    var (members, hasNull) := collected.value;
    var sorted := Sort(members, lt);
    SortSorted(members, lt);
    var duplicate := HasAdjacentDuplicate(sorted, lt);
    if duplicate {
      return None;
    }
    if |sorted| == 0 {
      return if hasNull then Some(NullSchema) else None;
    }
    return Some(Join(sorted, if hasNull then 1 else 0));
  }

  lemma {:induction false} TooManyNulls(branches: seq<Schema>, n: nat, lt: SchemaOrder)
    requires n <= |branches| && AllNormalise(branches[..n], lt) && NullCount(NormaliseAll(branches[..n], lt)) > 1
    ensures AllNormalise(branches, lt) ==> NullCount(NormaliseAll(branches, lt)) > 1
  {
    hide Normalise;
    assert branches == branches[..n] + branches[n..];
    NormaliseSplit(branches[..n], branches[n..], lt);
    if AllNormalise(branches, lt) {
      AllMembersConcat(NormaliseAll(branches[..n], lt), NormaliseAll(branches[n..], lt));
    }
  }

  method NormaliseFields(fields: map<string, Schema>, lt: SchemaOrder, ghost whole: Schema)
    returns (r: Option<map<string, Schema>>)
    requires StrictTotalOrder(lt)
    requires forall k :: k in fields ==> fields[k] < whole
    ensures r.Some? <==> forall k :: k in fields ==> ValidFieldName(k) && Normalise(fields[k], lt).Some?
    ensures r.Some? ==> r.value == map k | k in fields :: Normalise(fields[k], lt).value
    decreases whole, 0
  {
    var result: map<string, Schema> := map[];
    var left := fields.Keys;
    while left != {}
      invariant left <= fields.Keys
      invariant result.Keys == fields.Keys - left
      invariant forall k :: k in result ==> ValidFieldName(k) && Normalise(fields[k], lt) == Some(result[k])
      decreases left
    {
      hide Normalise, StrictTotalOrder;
      var name :| name in left;
      if !ValidFieldName(name) {
        return None;
      }
      var field := NormaliseSchema(fields[name], lt);
      if field.None? {
        return None;
      }
      result := result[name := field.value];
      left := left - {name};
    }
    return Some(result);
  }

  method CheckRequired(fields: map<string, Schema>, required: seq<string>) returns (ok: bool)
    ensures ok <==> RequiredOk(fields, required)
  {
    var seen: set<string> := {};
    for i := 0 to |required|
      invariant seen == ToSet(required[..i])
      invariant RequiredOk(fields, required[..i])
    {
      assert required[..i + 1] == required[..i] + [required[i]];
      if !ValidFieldName(required[i]) || required[i] !in fields {
        return false;
      }
      if required[i] in seen {
        var j :| 0 <= j < i && required[..i][j] == required[i];
        assert required[j] == required[i];
        return false;
      }
      forall j | 0 <= j < i
        ensures required[j] != required[i]
      {
        assert required[..i][j] == required[j];
      }
      ToSetAppend(required[..i], required[i]);
      seen := seen + {required[i]};
    }
    assert required[..|required|] == required;
    return true;
  }

  /** The recursive normaliser with its loops computes the specified normal form. */
  method NormaliseSchema(s: Schema, lt: SchemaOrder) returns (r: Option<Schema>)
    requires StrictTotalOrder(lt)
    ensures r == Normalise(s, lt)
    decreases s, 2
  {
    match s {
      case Array(element) =>
        var e := NormaliseSchema(element, lt);
        return if e.Some? then Some(Array(e.value)) else None;
      case Record(fields, required) =>
        var normalised := NormaliseFields(fields, lt, s);
        var ok := CheckRequired(fields, required);
        hide ValidFieldName, RequiredOk, StrictTotalOrder, Sort;
        if normalised.Some? && ok {
          assert Normalise(s, lt).value.fields == normalised.value;
        }
        return if normalised.Some? && ok then Some(Record(normalised.value, Sort(required, StringLess))) else None;
      case ClosedUnion(branches) =>
        r := NormaliseUnion(branches, lt);
      case Nullable(inner) =>
        var t := NormaliseSchema(inner, lt);
        return if t.Some? then Some(WithNull(t.value)) else None;
      case _ =>
        return Some(s);
    }
  }

  // ----- Sources, frames and profiles -----

  datatype Source =
    | HttpRequest | HttpBody | HttpContext
    | ConnectRequest | JsonRpcParams | ConnectionId | BusinessIdentity | CloseCode | CloseReason

  datatype Frame = TextFrame | BinaryFrame

  datatype Profile = JsonRpcText

  function SourceName(s: Source): string {
    match s
    case HttpRequest => "http.request"
    case HttpBody => "http.body"
    case HttpContext => "http.context"
    case ConnectRequest => "websocket." + "connectRequest"
    case JsonRpcParams => "websocket." + "jsonRpcParams"
    case ConnectionId => "websocket." + "connectionId"
    case BusinessIdentity => "websocket." + "businessIdentity"
    case CloseCode => "websocket." + "closeCode"
    case CloseReason => "websocket." + "closeReason"
  }

  predicate SourceLess(a: Source, b: Source) { StringLess(SourceName(a), SourceName(b)) }

  function FrameName(f: Frame): string { if f.TextFrame? then "text" else "binary" }

  predicate FrameLess(a: Frame, b: Frame) { StringLess(FrameName(a), FrameName(b)) }

  function ProfileName(p: Profile): string {
    match p
    case JsonRpcText => "jsonrpc-2.0-text"
  }

  predicate ProfileLess(a: Profile, b: Profile) { StringLess(ProfileName(a), ProfileName(b)) }

  lemma NamesOrder()
    ensures StrictTotalOrder(SourceLess) && StrictTotalOrder(FrameLess) && StrictTotalOrder(ProfileLess)
  {
    StringLessIsOrder();
    forall a, b | SourceName(a) == SourceName(b)
      ensures a == b
    {
      assert |SourceName(a)| == |SourceName(b)| && SourceName(a)[5] == SourceName(b)[5];
    }
    forall a, b | FrameName(a) == FrameName(b)
      ensures a == b
    {
      assert |FrameName(a)| == |FrameName(b)|;
    }
    forall a, b | ProfileName(a) == ProfileName(b)
      ensures a == b
    {
    }
    hide StringLess, SourceName, FrameName, ProfileName;
  }

  /** Drops each element equal to the one before it. */
  function Dedup<T(==)>(s: seq<T>): seq<T> {
    if |s| <= 1 then s
    else if s[0] == s[1] then Dedup(s[1..])
    else [s[0]] + Dedup(s[1..])
  }

  function SortedSet<T(==)>(s: seq<T>, lt: (T, T) -> bool): seq<T> {
    Dedup(Sort(s, lt))
  }

  lemma {:induction false} DedupSorted<T(!new)>(s: seq<T>, lt: (T, T) -> bool)
    requires StrictTotalOrder(lt) && Sorted(s, lt)
    ensures StrictlySorted(Dedup(s), lt) && ToSet(Dedup(s)) == ToSet(s)
    ensures s != [] ==> Dedup(s) != [] && Dedup(s)[0] == s[0]
  {
    if |s| > 1 {
      DedupSorted(s[1..], lt);
      var rest := Dedup(s[1..]);
      assert s == [s[0]] + s[1..];
      if s[0] != s[1] {
        forall x | x in rest
          ensures lt(s[0], x)
        {
          assert x in ToSet(rest) && x in ToSet(s[1..]);
          var j :| 0 <= j < |s[1..]| && s[1..][j] == x;
          assert lt(s[0], s[1]) && (j == 0 || !lt(s[j + 1], s[1]));
        }
        assert ToSet([s[0]] + rest) == {s[0]} + ToSet(rest);
        assert ToSet([s[0]] + s[1..]) == {s[0]} + ToSet(s[1..]);
      }
    }
  }

  /** Sorting and deduplicating lists each element once, in order. */
  lemma SortedSetSpec<T(!new)>(s: seq<T>, lt: (T, T) -> bool)
    requires StrictTotalOrder(lt)
    ensures StrictlySorted(SortedSet(s, lt), lt) && ToSet(SortedSet(s, lt)) == ToSet(s)
    ensures SortedSet(SortedSet(s, lt), lt) == SortedSet(s, lt)
  {
    SortSorted(s, lt);
    SortMembers(s, lt);
    DedupSorted(Sort(s, lt), lt);
    var r := SortedSet(s, lt);
    SortSorted(r, lt);
    SortMembers(r, lt);
    DedupSorted(Sort(r, lt), lt);
    hide StrictTotalOrder, StrictlySorted, Sort, Sorted, Dedup;
    StrictlySortedSetUnique(SortedSet(r, lt), r, lt);
  }

  // ----- Surfaces -----

  datatype AdapterKind = TypedJson | RawHttp | ConnectAdapter | JsonRpcAdapter | ClosedAdapter

  datatype DispatchMode = Unary | ServerStream

  datatype Surface =
    | Http(
        adapterKind: AdapterKind,
        dispatchMode: DispatchMode,
        externalSources: seq<Source>,
        requestBody: Option<Schema>,
        response: Option<Schema>,
        streamItem: Option<Schema>)
    | Connect(
        externalSources: seq<Source>,
        downlinkFrames: seq<Frame>,
        rpcProfiles: seq<Profile>,
        closeSources: seq<Source>)
    | JsonRpc(
        dispatchMode: DispatchMode,
        externalSources: seq<Source>,
        paramsSchema: Schema,
        resultSchema: Schema)

  predicate HttpOk(s: Surface)
    requires s.Http?
  {
    && HttpContext !in s.externalSources
    && match s.adapterKind
       case TypedJson =>
         && (forall i :: 0 <= i < |s.externalSources| ==> s.externalSources[i] == HttpRequest || s.externalSources[i] == HttpBody)
         && HttpBody in s.externalSources
         && s.requestBody.Some?
         && (s.dispatchMode == Unary ==> s.response.Some? && s.streamItem.None?)
         && (s.dispatchMode == ServerStream ==> s.response.None? && s.streamItem.Some?)
       case RawHttp =>
         && s.externalSources == [HttpRequest]
         && s.requestBody.None? && s.response.None?
         && (s.dispatchMode == ServerStream <==> s.streamItem.Some?)
       case _ => false
  }

  predicate SurfaceOk(s: Surface) {
    match s
    case Http(_, _, _, _, _, _) => HttpOk(s)
    case Connect(sources, frames, profiles, closeSources) =>
      && sources == [ConnectRequest, ConnectionId]
      && frames == [BinaryFrame, TextFrame]
      && profiles == [JsonRpcText]
      && forall i :: 0 <= i < |closeSources| ==> closeSources[i] in {ConnectionId, CloseCode, CloseReason, BusinessIdentity}
    case JsonRpc(mode, sources, params, _) =>
      && mode == Unary
      && JsonRpcParams in sources
      && (forall i :: 0 <= i < |sources| ==> sources[i] in {JsonRpcParams, ConnectionId, BusinessIdentity})
      && Structured(params)
  }

  function NormaliseOptional(s: Option<Schema>, lt: SchemaOrder): Option<Option<Schema>> {
    match s
    case None => Some(None)
    case Some(schema) =>
      (match Normalise(schema, lt)
       case None => None
       case Some(t) => Some(Some(t)))
  }

  function NormaliseParts(s: Surface, lt: SchemaOrder): Option<Surface> {
    match s
    case Http(kind, mode, sources, body, response, item) =>
      (match (NormaliseOptional(body, lt), NormaliseOptional(response, lt), NormaliseOptional(item, lt))
       case (Some(b), Some(r), Some(i)) => Some(Http(kind, mode, SortedSet(sources, SourceLess), b, r, i))
       case _ => None)
    case Connect(sources, frames, profiles, closeSources) =>
      Some(Connect(SortedSet(sources, SourceLess), SortedSet(frames, FrameLess),
                   SortedSet(profiles, ProfileLess), SortedSet(closeSources, SourceLess)))
    case JsonRpc(mode, sources, params, result) =>
      (match (Normalise(params, lt), Normalise(result, lt))
       case (Some(p), Some(r)) => Some(JsonRpc(mode, SortedSet(sources, SourceLess), p, r))
       case _ => None)
  }

  /** The producer: normalise every part, then check the surface. */
  function NormaliseSurface(s: Surface, lt: SchemaOrder): Option<Surface> {
    match NormaliseParts(s, lt)
    case None => None
    case Some(t) => if SurfaceOk(t) then Some(t) else None
  }

  /** The reader: accept only what the producer would leave alone. */
  predicate ReaderAccepts(s: Surface, lt: SchemaOrder) {
    NormaliseSurface(s, lt) == Some(s)
  }

  lemma OptionalIdempotent(s: Option<Schema>, lt: SchemaOrder)
    requires StrictTotalOrder(lt) && NormaliseOptional(s, lt).Some?
    ensures NormaliseOptional(NormaliseOptional(s, lt).value, lt) == NormaliseOptional(s, lt)
  {
    if s.Some? {
      NormaliseIdempotent(s.value, lt);
    }
  }

  lemma PartsIdempotent(s: Surface, lt: SchemaOrder)
    requires StrictTotalOrder(lt) && NormaliseParts(s, lt).Some?
    ensures NormaliseParts(NormaliseParts(s, lt).value, lt) == NormaliseParts(s, lt)
  {
    NamesOrder();
    hide StrictTotalOrder, Normalise, SortedSet;
    SortedSetSpec(s.externalSources, SourceLess);
    match s
    case Http(_, _, _, body, response, item) =>
      OptionalIdempotent(body, lt);
      OptionalIdempotent(response, lt);
      OptionalIdempotent(item, lt);
    case Connect(_, frames, profiles, closeSources) =>
      SortedSetSpec(frames, FrameLess);
      SortedSetSpec(profiles, ProfileLess);
      SortedSetSpec(closeSources, SourceLess);
    case JsonRpc(_, _, params, result) =>
      NormaliseIdempotent(params, lt);
      NormaliseIdempotent(result, lt);
  }

  /** The reader accepts exactly what some producer could have written. */
  lemma ReaderAcceptsImage(s: Surface, lt: SchemaOrder)
    requires StrictTotalOrder(lt)
    ensures ReaderAccepts(s, lt) <==> exists raw :: NormaliseSurface(raw, lt) == Some(s)
  {
    if raw :| NormaliseSurface(raw, lt) == Some(s) {
      PartsIdempotent(raw, lt);
      hide StrictTotalOrder, NormaliseParts, SurfaceOk;
    }
  }

  /** A JSON-RPC surface that the reader accepts has parameters every accepted value of
      which is an object or an array (section 4.2 of the JSON-RPC 2.0 Specification),
      and the compiler's check on the raw schema agrees with the reader's. */
  lemma JsonRpcParamsStructured(raw: Schema, s: Surface, lt: SchemaOrder)
    requires StrictTotalOrder(lt) && ReaderAccepts(s, lt) && s.JsonRpc?
    requires Normalise(raw, lt) == Some(s.paramsSchema)
    ensures Structured(raw)
    ensures forall v, codec :: Accepts(raw, v, codec) ==> v.Obj? || v.Arr?
  {
    StructuredInvariant(raw, lt);
    forall v, codec | Accepts(raw, v, codec)
      ensures v.Obj? || v.Arr?
    {
      StructuredAcceptsOnlyContainers(raw, v, codec);
    }
  }
}
