/** What the producer does to each part of a surface, and which surfaces producer and
    reader accept, said of their fields. */
module GatewayReader {
  import opened Wrappers
  import opened JsonValues
  import opened Sorting
  import opened GatewaySchema
  import opened GatewayMeaning
  import opened GatewayRaw
  import opened GatewaySurface

  // ----- The order of sources -----

  /** Sources in the order of their wire names. */
  function Rank(s: Source): nat {
    match s
    case HttpBody => 0
    case HttpContext => 1
    case HttpRequest => 2
    case BusinessIdentity => 3
    case CloseCode => 4
    case CloseReason => 5
    case ConnectRequest => 6
    case ConnectionId => 7
    case JsonRpcParams => 8
  }

  function Following(s: Source): Source {
    match s
    case HttpBody => HttpContext
    case HttpContext => HttpRequest
    case HttpRequest => BusinessIdentity
    case BusinessIdentity => CloseCode
    case CloseCode => CloseReason
    case CloseReason => ConnectRequest
    case ConnectRequest => ConnectionId
    case _ => JsonRpcParams
  }

  lemma {:induction false} LessAfter(prefix: string, a: string, b: string)
    requires a != "" && b != "" && a[0] < b[0]
    ensures StringLess(prefix + a, prefix + b)
  {
    if prefix == "" {
      assert prefix + a == a && prefix + b == b;
    } else {
      LessAfter(prefix[1..], a, b);
      assert (prefix + a)[1..] == prefix[1..] + a && (prefix + b)[1..] == prefix[1..] + b;
    }
  }

  lemma NextBody()
    ensures SourceLess(HttpBody, HttpContext)
  {
    LessAfter("http.", "body", "context");
    hide StringLess;
    assert "http." + "body" == "http.body" && "http." + "context" == "http.context";
  }

  lemma NextContext()
    ensures SourceLess(HttpContext, HttpRequest)
  {
    LessAfter("http.", "context", "request");
    hide StringLess;
    assert "http." + "context" == "http.context" && "http." + "request" == "http.request";
  }

  lemma NextFamily()
    ensures SourceLess(HttpRequest, BusinessIdentity)
  {
    assert "http.request"[0] < "websocket."[0];
  }

  lemma NextWebSocket()
    ensures SourceLess(BusinessIdentity, CloseCode) && SourceLess(CloseReason, ConnectRequest) && SourceLess(ConnectionId, JsonRpcParams)
  {
    LessAfter("websocket.", "businessIdentity", "closeCode");
    LessInside("websocket.", "closeReason", "connectRequest", 1);
    LessAfter("websocket.", "connectionId", "jsonRpcParams");
    hide StringLess;
  }

  lemma NextClose()
    ensures SourceLess(CloseCode, CloseReason)
  {
    LessInside("websocket.", "closeCode", "closeReason", 5);
    hide StringLess;
  }

  lemma NextConnect()
    ensures SourceLess(ConnectRequest, ConnectionId)
  {
    LessInside("websocket.", "connectRequest", "connectionId", 7);
    hide StringLess;
  }

  lemma Parts(prefix: string, a: string, n: nat)
    requires n <= |a|
    ensures (prefix + a[..n]) + a[n..] == prefix + a
  {
    assert a[..n] + a[n..] == a;
  }

  /** The names part at character `n` after the prefix. */
  lemma LessInside(prefix: string, a: string, b: string, n: nat)
    requires n < |a| && n < |b| && a[..n] == b[..n] && a[n] < b[n]
    ensures StringLess(prefix + a, prefix + b)
  {
    hide StringLess;
    LessAfter(prefix + a[..n], a[n..], b[n..]);
    Parts(prefix, a, n);
    Parts(prefix, b, n);
  }

  lemma NextName(s: Source)
    requires s != JsonRpcParams
    ensures SourceLess(s, Following(s))
  {
    hide SourceLess;
    NextBody();
    NextContext();
    NextFamily();
    NextWebSocket();
    NextClose();
    NextConnect();
  }

  lemma {:induction false} RankLess(a: Source, b: Source)
    requires Rank(a) < Rank(b)
    ensures SourceLess(a, b)
    decreases Rank(b) - Rank(a)
  {
    hide StringLess, SourceName, SourceLess, FrameLess, ProfileLess;
    NextName(a);
    NamesOrder();
    if Following(a) != b {
      RankLess(Following(a), b);
    }
  }

  lemma SourceOrder(a: Source, b: Source)
    ensures SourceLess(a, b) <==> Rank(a) < Rank(b)
  {
    hide StringLess, SourceName, SourceLess, FrameLess, ProfileLess;
    NamesOrder();
    if Rank(a) < Rank(b) {
      RankLess(a, b);
    } else if Rank(b) < Rank(a) {
      RankLess(b, a);
    }
  }

  ghost predicate InOrder(sources: seq<Source>) {
    forall i, j :: 0 <= i < j < |sources| ==> Rank(sources[i]) < Rank(sources[j])
  }

  lemma InOrderExactly(sources: seq<Source>)
    ensures StrictlySorted(sources, SourceLess) <==> InOrder(sources)
  {
    forall a, b
      ensures SourceLess(a, b) <==> Rank(a) < Rank(b)
    {
      SourceOrder(a, b);
    }
    hide SourceLess, Rank;
  }

  // ----- What normalisation keeps -----

  /** The same schema in normal form: it accepts the same values under every codec. */
  ghost predicate SchemaKept(raw: Schema, t: Schema, lt: SchemaOrder) {
    Canonical(t, lt) && SameSchema(raw, t) && forall v, codec :: Accepts(t, v, codec) <==> Accepts(raw, v, codec)
  }

  ghost predicate OptionalKept(raw: Option<Schema>, t: Option<Schema>, lt: SchemaOrder) {
    (raw.Some? <==> t.Some?) && (raw.Some? && t.Some? ==> SchemaKept(raw.value, t.value, lt))
  }

  ghost predicate SourcesKept(raw: seq<Source>, t: seq<Source>) {
    InOrder(t) && forall s :: s in t <==> s in raw
  }

  /** Each part of the surface is the same part of the input. */
  ghost predicate Kept(raw: Surface, t: Surface, lt: SchemaOrder) {
    match (raw, t)
    case (Http(kind, mode, sources, body, response, item), Http(kind', mode', sources', body', response', item')) =>
      && kind' == kind && mode' == mode && SourcesKept(sources, sources')
      && OptionalKept(body, body', lt) && OptionalKept(response, response', lt) && OptionalKept(item, item', lt)
    case (Connect(sources, frames, profiles, closeSources), Connect(sources', frames', profiles', closeSources')) =>
      && SourcesKept(sources, sources') && SourcesKept(closeSources, closeSources')
      && (forall f :: f in frames' <==> f in frames)
      && (forall p :: p in profiles' <==> p in profiles)
      && frames' in {[], [BinaryFrame], [TextFrame], [BinaryFrame, TextFrame]} && profiles' in {[], [JsonRpcText]}
    case (JsonRpc(mode, sources, params, result), JsonRpc(mode', sources', params', result')) =>
      && mode' == mode && SourcesKept(sources, sources')
      && SchemaKept(params, params', lt) && SchemaKept(result, result', lt)
    case _ => false
  }

  lemma SchemaPart(raw: Schema, lt: SchemaOrder)
    requires StrictTotalOrder(lt) && Normalise(raw, lt).Some?
    ensures SchemaKept(raw, Normalise(raw, lt).value, lt)
  {
    hide StrictTotalOrder, SameSchema, Accepts;
    var t := Normalise(raw, lt).value;
    NormaliseCanonical(raw, lt);
    NormaliseIdempotent(raw, lt);
    SameNormalForm(raw, t, lt);
    forall v, codec
      ensures Accepts(t, v, codec) <==> Accepts(raw, v, codec)
    {
      NormalisePreservesMeaning(raw, lt, v, codec);
    }
  }

  lemma OptionalPart(raw: Option<Schema>, lt: SchemaOrder)
    requires StrictTotalOrder(lt) && NormaliseOptional(raw, lt).Some?
    ensures OptionalKept(raw, NormaliseOptional(raw, lt).value, lt)
  {
    hide StrictTotalOrder, SchemaKept, Normalise;
    if raw.Some? {
      SchemaPart(raw.value, lt);
    }
  }

  lemma SourcesPart(raw: seq<Source>)
    ensures SourcesKept(raw, SortedSet(raw, SourceLess))
  {
    NamesOrder();
    SortedSetSpec(raw, SourceLess);
    InOrderExactly(SortedSet(raw, SourceLess));
    hide StrictTotalOrder, SortedSet, StrictlySorted, SourceLess, InOrder;
    ToSetMembers(raw, SortedSet(raw, SourceLess));
  }

  lemma ToSetMembers<T>(a: seq<T>, b: seq<T>)
    ensures ToSet(a) == ToSet(b) <==> forall x :: x in b <==> x in a
  {
    assert forall x :: x in a <==> x in ToSet(a);
    assert forall x :: x in b <==> x in ToSet(b);
  }

  lemma FrameOrder(a: Frame, b: Frame)
    ensures FrameLess(a, b) <==> a == BinaryFrame && b == TextFrame
  {
    NamesOrder();
    assert "binary"[0] < "text"[0];
    hide StrictTotalOrder, SourceLess, ProfileLess;
  }

  lemma FrameChain(a: Frame, b: Frame, c: Frame)
    ensures !(FrameLess(a, b) && FrameLess(b, c))
  {
    FrameOrder(a, b);
    FrameOrder(b, c);
    hide FrameLess;
  }

  lemma FrameLists(t: seq<Frame>)
    requires StrictlySorted(t, FrameLess)
    ensures t in {[], [BinaryFrame], [TextFrame], [BinaryFrame, TextFrame]}
  {
    forall a, b
      ensures FrameLess(a, b) <==> a == BinaryFrame && b == TextFrame
    {
      FrameOrder(a, b);
    }
    hide FrameLess;
    if |t| >= 3 {
      FrameChain(t[0], t[1], t[2]);
      assert false;
    }
    if |t| == 2 {
      assert FrameLess(t[0], t[1]);
      assert t == [t[0], t[1]];
    } else if |t| == 1 {
      assert t == [t[0]];
    }
  }

  lemma FramesPart(raw: seq<Frame>)
    ensures var t := SortedSet(raw, FrameLess);
            (forall f :: f in t <==> f in raw) && t in {[], [BinaryFrame], [TextFrame], [BinaryFrame, TextFrame]}
  {
    hide SortedSet, FrameLess, StrictTotalOrder, SourceLess, ProfileLess, StrictlySorted, ToSet;
    NamesOrder();
    SortedSetSpec(raw, FrameLess);
    ToSetMembers(raw, SortedSet(raw, FrameLess));
    FrameLists(SortedSet(raw, FrameLess));
  }

  lemma OneProfile(p: Profile)
    ensures p == JsonRpcText
  {
  }

  lemma ProfileLists(t: seq<Profile>)
    requires StrictlySorted(t, ProfileLess)
    ensures t in {[], [JsonRpcText]}
  {
    NamesOrder();
    hide ProfileLess, SourceLess, FrameLess;
    if |t| >= 2 {
      OneProfile(t[0]);
      OneProfile(t[1]);
      assert false;
    }
    if |t| == 1 {
      OneProfile(t[0]);
      assert t == [t[0]];
    }
  }

  lemma ProfilesPart(raw: seq<Profile>)
    ensures var t := SortedSet(raw, ProfileLess);
            (forall p :: p in t <==> p in raw) && t in {[], [JsonRpcText]}
  {
    hide SortedSet, FrameLess, StrictTotalOrder, SourceLess, ProfileLess, StrictlySorted, ToSet;
    NamesOrder();
    SortedSetSpec(raw, ProfileLess);
    ToSetMembers(raw, SortedSet(raw, ProfileLess));
    ProfileLists(SortedSet(raw, ProfileLess));
  }

  /** The producer keeps every part of a surface. */
  lemma SurfaceKept(raw: Surface, lt: SchemaOrder)
    requires StrictTotalOrder(lt) && NormaliseSurface(raw, lt).Some?
    ensures Kept(raw, NormaliseSurface(raw, lt).value, lt)
  {
    hide StrictTotalOrder, Normalise, SortedSet, SourcesKept, SchemaKept, OptionalKept, NormaliseOptional, SurfaceOk;
    SourcesPart(raw.externalSources);
    match raw
    case Http(_, _, _, body, response, item) =>
      OptionalPart(body, lt);
      OptionalPart(response, lt);
      OptionalPart(item, lt);
    case Connect(_, frames, profiles, closeSources) =>
      SourcesPart(closeSources);
      FramesPart(frames);
      ProfilesPart(profiles);
    case JsonRpc(_, _, params, result) =>
      SchemaPart(params, lt);
      SchemaPart(result, lt);
  }

  // ----- What is accepted -----

  ghost predicate CanonicalOptional(s: Option<Schema>, lt: SchemaOrder) {
    s.Some? ==> Canonical(s.value, lt)
  }

  /** Accepts objects and arrays only, for a schema in normal form. */
  predicate ContainersOnly(s: Schema) {
    || s.Record? || s.Array?
    || (s.ClosedUnion? && forall i :: 0 <= i < |s.branches| ==> s.branches[i].Record? || s.branches[i].Array?)
  }

  predicate CloseSource(s: Source) {
    s == ConnectionId || s == CloseCode || s == CloseReason || s == BusinessIdentity
  }

  predicate CallSource(s: Source) {
    s == JsonRpcParams || s == ConnectionId || s == BusinessIdentity
  }

  /** A surface a reader takes: schemas in normal form, lists strictly in order, and the
      contents that its family asks for. */
  ghost predicate Readable(s: Surface, lt: SchemaOrder) {
    match s
    case Http(kind, mode, sources, body, response, item) =>
      && CanonicalOptional(body, lt) && CanonicalOptional(response, lt) && CanonicalOptional(item, lt)
      && (kind.TypedJson? || kind.RawHttp?)
      && (kind.TypedJson? ==>
            && (sources == [HttpBody] || sources == [HttpBody, HttpRequest])
            && body.Some?
            && (if mode.Unary? then response.Some? && item.None? else response.None? && item.Some?))
      && (kind.RawHttp? ==>
            && sources == [HttpRequest]
            && body.None? && response.None?
            && (if mode.Unary? then item.None? else item.Some?))
    case Connect(sources, frames, profiles, closeSources) =>
      && sources == [ConnectRequest, ConnectionId]
      && frames == [BinaryFrame, TextFrame]
      && profiles == [JsonRpcText]
      && InOrder(closeSources)
      && (forall s :: s in closeSources ==> CloseSource(s))
    case JsonRpc(mode, sources, params, result) =>
      && mode.Unary?
      && InOrder(sources)
      && JsonRpcParams in sources
      && (forall s :: s in sources ==> CallSource(s))
      && Canonical(params, lt) && Canonical(result, lt) && ContainersOnly(params)
  }

  /** A surface a producer takes: schemas that can be normalised, and the same contents in
      any order and repetition. */
  ghost predicate Producible(s: Surface) {
    match s
    case Http(kind, mode, sources, body, response, item) =>
      && (body.Some? ==> Normalisable(body.value))
      && (response.Some? ==> Normalisable(response.value))
      && (item.Some? ==> Normalisable(item.value))
      && (kind.TypedJson? || kind.RawHttp?)
      && (kind.TypedJson? ==>
            && HttpBody in sources && (forall s :: s in sources ==> s == HttpBody || s == HttpRequest)
            && body.Some?
            && (if mode.Unary? then response.Some? && item.None? else response.None? && item.Some?))
      && (kind.RawHttp? ==>
            && HttpRequest in sources && (forall s :: s in sources ==> s == HttpRequest)
            && body.None? && response.None?
            && (if mode.Unary? then item.None? else item.Some?))
    case Connect(sources, frames, profiles, closeSources) =>
      && (forall s :: s in sources <==> s == ConnectRequest || s == ConnectionId)
      && BinaryFrame in frames && TextFrame in frames
      && JsonRpcText in profiles
      && (forall s :: s in closeSources ==> CloseSource(s))
    case JsonRpc(mode, sources, params, result) =>
      && mode.Unary?
      && JsonRpcParams in sources
      && (forall s :: s in sources ==> CallSource(s))
      && Normalisable(params) && Normalisable(result)
      && NullBranches(params) == 0 && (forall m :: m in Alternatives(params) ==> m.Record? || m.Array?)
  }

  lemma {:induction false} SortedSetFixed<T(!new)>(s: seq<T>, lt: (T, T) -> bool)
    requires StrictTotalOrder(lt)
    ensures SortedSet(s, lt) == s <==> StrictlySorted(s, lt)
  {
    SortedSetSpec(s, lt);
    hide SortedSet;
    if StrictlySorted(s, lt) {
      StrictlySortedSetUnique(SortedSet(s, lt), s, lt);
    }
  }

  lemma OptionalFixed(s: Option<Schema>, lt: SchemaOrder)
    requires StrictTotalOrder(lt)
    ensures NormaliseOptional(s, lt) == Some(s) <==> CanonicalOptional(s, lt)
  {
    hide StrictTotalOrder, Normalise, Canonical;
    if s.Some? {
      FixedPointsAreImages(s.value, lt);
    }
  }

  lemma SourcesFixed(sources: seq<Source>)
    ensures SortedSet(sources, SourceLess) == sources <==> InOrder(sources)
  {
    hide StrictTotalOrder, SourceLess, FrameLess, ProfileLess, StrictlySorted, SortedSet, InOrder;
    NamesOrder();
    SortedSetFixed(sources, SourceLess);
    InOrderExactly(sources);
  }

  lemma ThirdSource(sources: seq<Source>, a: Source, b: Source)
    requires InOrder(sources) && |sources| >= 3
    ensures exists s :: s in sources && s != a && s != b
  {
    var x, y, z := sources[0], sources[1], sources[2];
    assert x in sources && y in sources && z in sources;
    assert Rank(x) < Rank(y) < Rank(z);
  }

  lemma SecondSource(sources: seq<Source>, a: Source)
    requires InOrder(sources) && |sources| >= 2
    ensures exists s :: s in sources && s != a
  {
    var x, y := sources[0], sources[1];
    assert x in sources && y in sources;
    assert Rank(x) < Rank(y);
  }

  /** Lists of at most two sources, in order, are given by their elements. */
  lemma TwoSources(sources: seq<Source>, a: Source, b: Source)
    requires InOrder(sources) && Rank(a) < Rank(b) && forall s :: s in sources ==> s == a || s == b
    ensures sources in {[], [a], [b], [a, b]}
  {
    assert forall i :: 0 <= i < |sources| ==> sources[i] in sources;
    if |sources| >= 3 {
      ThirdSource(sources, a, b);
      assert false;
    } else if |sources| == 2 {
      assert sources == [sources[0], sources[1]];
    } else if |sources| == 1 {
      assert sources == [sources[0]];
    }
  }

  lemma StructuredCanonical(s: Schema, lt: SchemaOrder)
    requires Canonical(s, lt)
    ensures Structured(s) <==> ContainersOnly(s)
  {
    if s.ClosedUnion? {
      forall i | 0 <= i < |s.branches|
        ensures Structured(s.branches[i]) <==> s.branches[i].Record? || s.branches[i].Array?
      {
        assert Plain(s.branches[i]);
      }
    }
  }

  lemma {:induction false} StructuredRaw(s: Schema)
    requires Normalisable(s)
    ensures Structured(s) <==> NullBranches(s) == 0 && forall m :: m in Alternatives(s) ==> m.Record? || m.Array?
  {
    match s
    case NullSchema =>
    case Nullable(_) =>
    case ClosedUnion(branches) =>
      forall i | 0 <= i < |branches|
        ensures Structured(branches[i]) <==>
                NullBranches(branches[i]) == 0 && forall m :: m in Alternatives(branches[i]) ==> m.Record? || m.Array?
      {
        StructuredRaw(branches[i]);
      }
      BranchesRaw(branches, s);
      assert branches != [];
      hide AllAlternatives, AllNullBranches, Normalisable;
    case _ =>
      LeafRaw(s);
  }

  lemma LeafRaw(s: Schema)
    requires Plain(s)
    ensures Structured(s) <==> NullBranches(s) == 0 && forall m :: m in Alternatives(s) ==> m.Record? || m.Array?
  {
    assert Alternatives(s) == [s] && s in [s];
  }

  lemma {:induction false} BranchesRaw(branches: seq<Schema>, parent: Schema)
    requires forall i :: 0 <= i < |branches| ==> branches[i] < parent
    requires forall i :: 0 <= i < |branches| ==>
      (Structured(branches[i]) <==>
        NullBranches(branches[i]) == 0 && forall m :: m in Alternatives(branches[i]) ==> m.Record? || m.Array?)
    ensures (forall i :: 0 <= i < |branches| ==> Structured(branches[i])) <==>
            AllNullBranches(branches, parent) == 0 && forall m :: m in AllAlternatives(branches, parent) ==> m.Record? || m.Array?
  {
    hide Structured, NullBranches, Alternatives;
    if branches != [] {
      BranchesRaw(branches[1..], parent);
      assert forall i :: 0 <= i < |branches| - 1 ==> branches[1..][i] == branches[i + 1];
      assert (forall i :: 0 <= i < |branches| ==> Structured(branches[i])) <==>
             Structured(branches[0]) && forall i :: 0 <= i < |branches| - 1 ==> Structured(branches[1..][i]) by {
        assert forall i :: 1 <= i < |branches| ==> branches[i] == branches[1..][i - 1];
      }
      assert forall m :: m in AllAlternatives(branches, parent) <==> m in Alternatives(branches[0]) || m in AllAlternatives(branches[1..], parent);
    }
  }

  // ----- The reader -----

  lemma HttpReadable(s: Surface, lt: SchemaOrder)
    requires StrictTotalOrder(lt) && s.Http?
    ensures ReaderAccepts(s, lt) <==> Readable(s, lt)
  {
    SourcesFixed(s.externalSources);
    OptionalFixed(s.requestBody, lt);
    OptionalFixed(s.response, lt);
    OptionalFixed(s.streamItem, lt);
    hide StrictTotalOrder, NormaliseOptional, SortedSet, CanonicalOptional;
    HttpContents(s);
  }

  /** The checks on the contents of an HTTP surface whose sources are in order. */
  lemma HttpContents(s: Surface)
    requires s.Http?
    ensures HttpOk(s) && InOrder(s.externalSources) <==>
            && (s.adapterKind.TypedJson? || s.adapterKind.RawHttp?)
            && (s.adapterKind.TypedJson? ==>
                  && (s.externalSources == [HttpBody] || s.externalSources == [HttpBody, HttpRequest])
                  && s.requestBody.Some?
                  && (if s.dispatchMode.Unary? then s.response.Some? && s.streamItem.None? else s.response.None? && s.streamItem.Some?))
            && (s.adapterKind.RawHttp? ==>
                  && s.externalSources == [HttpRequest]
                  && s.requestBody.None? && s.response.None?
                  && (if s.dispatchMode.Unary? then s.streamItem.None? else s.streamItem.Some?))
  {
    if HttpOk(s) && InOrder(s.externalSources) && s.adapterKind.TypedJson? {
      TwoSources(s.externalSources, HttpBody, HttpRequest);
    }
  }

  lemma ConnectContents(s: Surface)
    requires s.Connect?
    ensures SurfaceOk(s) <==>
            && s.externalSources == [ConnectRequest, ConnectionId]
            && s.downlinkFrames == [BinaryFrame, TextFrame]
            && s.rpcProfiles == [JsonRpcText]
            && forall x :: x in s.closeSources ==> CloseSource(x)
  {
    assert forall i :: 0 <= i < |s.closeSources| ==> s.closeSources[i] in s.closeSources;
  }

  lemma JsonRpcContents(s: Surface)
    requires s.JsonRpc?
    ensures SurfaceOk(s) <==>
            && s.dispatchMode.Unary?
            && JsonRpcParams in s.externalSources
            && (forall x :: x in s.externalSources ==> CallSource(x))
            && Structured(s.paramsSchema)
  {
    hide Structured;
    assert forall i :: 0 <= i < |s.externalSources| ==> s.externalSources[i] in s.externalSources;
  }

  lemma ConnectReadable(s: Surface, lt: SchemaOrder)
    requires s.Connect?
    ensures ReaderAccepts(s, lt) <==> Readable(s, lt)
  {
    ConnectContents(s);
    SourcesFixed(s.externalSources);
    SourcesFixed(s.closeSources);
    FixedLists();
    ConnectInOrder();
    hide SortedSet, FrameLess, ProfileLess, SourceLess, SurfaceOk, InOrder;
  }

  lemma ConnectInOrder()
    ensures InOrder([ConnectRequest, ConnectionId])
  {
  }

  /** The lists a connect surface must have are in order. */
  lemma FixedLists()
    ensures SortedSet([BinaryFrame, TextFrame], FrameLess) == [BinaryFrame, TextFrame]
    ensures SortedSet([JsonRpcText], ProfileLess) == [JsonRpcText]
  {
    NamesOrder();
    FrameOrder(BinaryFrame, TextFrame);
    hide StrictTotalOrder, SortedSet, FrameLess, ProfileLess, SourceLess;
    SortedSetFixed([BinaryFrame, TextFrame], FrameLess);
    SortedSetFixed([JsonRpcText], ProfileLess);
  }

  lemma JsonRpcReadable(s: Surface, lt: SchemaOrder)
    requires StrictTotalOrder(lt) && s.JsonRpc?
    ensures ReaderAccepts(s, lt) <==> Readable(s, lt)
  {
    JsonRpcContents(s);
    SourcesFixed(s.externalSources);
    FixedPointsAreImages(s.paramsSchema, lt);
    FixedPointsAreImages(s.resultSchema, lt);
    if Canonical(s.paramsSchema, lt) {
      StructuredCanonical(s.paramsSchema, lt);
    }
    hide StrictTotalOrder, Normalise, SortedSet, Canonical, Structured, ContainersOnly, InOrder, SurfaceOk, CallSource;
  }

  /** The reader accepts a surface exactly if its fields are as described. */
  lemma ReaderExactly(s: Surface, lt: SchemaOrder)
    requires StrictTotalOrder(lt)
    ensures ReaderAccepts(s, lt) <==> Readable(s, lt)
  {
    hide StrictTotalOrder, ReaderAccepts, Readable;
    match s
    case Http(_, _, _, _, _, _) => HttpReadable(s, lt);
    case Connect(_, _, _, _) => ConnectReadable(s, lt);
    case JsonRpc(_, _, _, _) => JsonRpcReadable(s, lt);
  }

  // ----- The producer -----

  lemma OptionalNormalisable(s: Option<Schema>, lt: SchemaOrder)
    requires StrictTotalOrder(lt)
    ensures NormaliseOptional(s, lt).Some? <==> (s.Some? ==> Normalisable(s.value))
    ensures NormaliseOptional(s, lt).Some? ==> (NormaliseOptional(s, lt).value.Some? <==> s.Some?)
  {
    hide StrictTotalOrder, Normalise, Normalisable;
    if s.Some? {
      NormalisableExactly(s.value, lt);
    }
  }

  lemma HttpProducible(raw: Surface, lt: SchemaOrder)
    requires StrictTotalOrder(lt) && raw.Http?
    ensures NormaliseSurface(raw, lt).Some? <==> Producible(raw)
  {
    SourcesPart(raw.externalSources);
    OptionalNormalisable(raw.requestBody, lt);
    OptionalNormalisable(raw.response, lt);
    OptionalNormalisable(raw.streamItem, lt);
    var sources := SortedSet(raw.externalSources, SourceLess);
    OneSource(sources, HttpRequest);
    BodySources(sources);
    hide StrictTotalOrder, NormaliseOptional, SortedSet, Normalisable, InOrder, Rank;
    if NormaliseParts(raw, lt).Some? {
      var t := NormaliseParts(raw, lt).value;
      HttpContents(t);
      hide HttpOk;
    }
  }

  lemma BodySources(sources: seq<Source>)
    requires InOrder(sources)
    ensures sources == [HttpBody] || sources == [HttpBody, HttpRequest] <==>
            HttpBody in sources && forall s :: s in sources ==> s == HttpBody || s == HttpRequest
  {
    if HttpBody in sources && forall s :: s in sources ==> s == HttpBody || s == HttpRequest {
      TwoSources(sources, HttpBody, HttpRequest);
    }
  }

  lemma OneSource(sources: seq<Source>, a: Source)
    requires InOrder(sources)
    ensures sources == [a] <==> a in sources && forall s :: s in sources ==> s == a
  {
    if a in sources && forall s :: s in sources ==> s == a {
      assert forall i :: 0 <= i < |sources| ==> sources[i] in sources;
      assert |sources| >= 1;
      if |sources| >= 2 {
        SecondSource(sources, a);
        assert false;
      }
      assert sources == [sources[0]];
    }
  }

  lemma ConnectProducible(raw: Surface, lt: SchemaOrder)
    requires raw.Connect?
    ensures NormaliseSurface(raw, lt).Some? <==> Producible(raw)
  {
    hide SortedSet, SurfaceOk, CloseSource, FrameLess, ProfileLess, SourceLess;
    ConnectContents(NormaliseParts(raw, lt).value);
    ConnectParts(raw.externalSources, raw.closeSources);
    FramesExactly(raw.downlinkFrames);
    ProfilesExactly(raw.rpcProfiles);
  }

  lemma FramesExactly(raw: seq<Frame>)
    ensures SortedSet(raw, FrameLess) == [BinaryFrame, TextFrame] <==> BinaryFrame in raw && TextFrame in raw
  {
    FramesPart(raw);
    BothFrames(SortedSet(raw, FrameLess));
    hide SortedSet, FrameLess;
  }

  lemma ProfilesExactly(raw: seq<Profile>)
    ensures SortedSet(raw, ProfileLess) == [JsonRpcText] <==> JsonRpcText in raw
  {
    ProfilesPart(raw);
    TheProfile(SortedSet(raw, ProfileLess));
    hide SortedSet, ProfileLess;
  }

  lemma ConnectParts(sources: seq<Source>, closeSources: seq<Source>)
    ensures SortedSet(sources, SourceLess) == [ConnectRequest, ConnectionId] <==>
            forall s :: s in sources <==> s == ConnectRequest || s == ConnectionId
    ensures (forall s :: s in SortedSet(closeSources, SourceLess) ==> CloseSource(s)) <==>
            forall s :: s in closeSources ==> CloseSource(s)
  {
    SourcesPart(sources);
    SourcesPart(closeSources);
    ConnectSources(SortedSet(sources, SourceLess));
    hide SortedSet, InOrder, SourceLess, CloseSource;
  }

  lemma BothFrames(t: seq<Frame>)
    requires t in {[], [BinaryFrame], [TextFrame], [BinaryFrame, TextFrame]}
    ensures BinaryFrame in t && TextFrame in t <==> t == [BinaryFrame, TextFrame]
  {
  }

  lemma TheProfile(t: seq<Profile>)
    requires t in {[], [JsonRpcText]}
    ensures JsonRpcText in t <==> t == [JsonRpcText]
  {
  }

  lemma ConnectSources(sources: seq<Source>)
    requires InOrder(sources)
    ensures sources == [ConnectRequest, ConnectionId] <==> forall s :: s in sources <==> s == ConnectRequest || s == ConnectionId
  {
    if forall s :: s in sources <==> s == ConnectRequest || s == ConnectionId {
      TwoSources(sources, ConnectRequest, ConnectionId);
      assert ConnectRequest in sources && ConnectionId in sources;
    }
  }

  lemma JsonRpcProducible(raw: Surface, lt: SchemaOrder)
    requires StrictTotalOrder(lt) && raw.JsonRpc?
    ensures NormaliseSurface(raw, lt).Some? <==> Producible(raw)
  {
    SourcesPart(raw.externalSources);
    NormalisableExactly(raw.paramsSchema, lt);
    NormalisableExactly(raw.resultSchema, lt);
    hide StrictTotalOrder, Normalise, SortedSet, Normalisable, InOrder, Structured, CallSource, Alternatives, NullBranches, SourceLess;
    if NormaliseParts(raw, lt).Some? {
      StructuredInvariant(raw.paramsSchema, lt);
      StructuredRaw(raw.paramsSchema);
      JsonRpcContents(NormaliseParts(raw, lt).value);
      hide SurfaceOk;
    }
  }

  /** The producer accepts a surface exactly if its fields are as described. */
  lemma ProducerExactly(raw: Surface, lt: SchemaOrder)
    requires StrictTotalOrder(lt)
    ensures NormaliseSurface(raw, lt).Some? <==> Producible(raw)
  {
    hide StrictTotalOrder, NormaliseSurface, Producible;
    match raw
    case Http(_, _, _, _, _, _) => HttpProducible(raw, lt);
    case Connect(_, _, _, _) => ConnectProducible(raw, lt);
    case JsonRpc(_, _, _, _) => JsonRpcProducible(raw, lt);
  }
}
