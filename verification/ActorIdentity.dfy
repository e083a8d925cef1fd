/** The preimage of an actor's implementation identity
    (artifact-identity/src/actor.rs).

    A File IR unit refers to executables, constants and types by table position.
    The preimage lists every declaration reachable from the actor's methods, with
    each position replaced by a (module, name) key, so that table order, unit order
    and unreachable declarations leave no trace in it. */
module ActorIdentity {
  import opened Wrappers
  import opened JsonValues
  import opened Sorting
  import opened Reachability

  const U32_LIMIT := 0x1_0000_0000
  const U64_LIMIT := 0x1_0000_0000_0000_0000

  type U32 = n: nat | n < U32_LIMIT

  datatype Kind = Executables | Constants | Types

  datatype Key = Key(kind: Kind, modulePath: string, name: string)

  /** The callee of a call expression. */
  datatype Target =
    | LocalExecutable(executableIndex: U32)
    | PublicationExecutable(modulePath: string, executableIndex: U32)
    | OtherTarget(value: Json)

  datatype Expr =
    | LoadConst(constIndex: U32)
    | Call(target: Target, call: map<string, Json>)
    | OtherExpr(value: Json)

  /** One table entry. `rest` holds the serialised fields other than the name and
      the body, `bodyRest` those of the body other than its expressions. */
  datatype Decl = Decl(name: string, expressions: seq<Expr>, bodyRest: map<string, Json>, rest: map<string, Json>)

  datatype Create = Create(identity: string, executableIndex: U32)

  datatype Actor = Actor(
    name: string,
    abiIdentity: string,
    publicMethods: set<string>,
    methodImplementations: map<string, U32>,
    create: Option<Create>)

  datatype Unit = Unit(
    modulePath: string,
    executables: seq<Decl>,
    constants: seq<Decl>,
    types: seq<Decl>,
    actors: seq<Actor>)
  {
    function Table(kind: Kind): seq<Decl> {
      match kind
      case Executables => executables
      case Constants => constants
      case Types => types
    }
  }

  type Env = map<string, Unit>

  datatype Entry = Entry(key: Key, value: Json)

  datatype Preimage = Preimage(
    abiIdentity: string,
    roots: map<string, Key>,
    executables: seq<Entry>,
    constants: seq<Entry>,
    types: seq<Entry>)

  // ----- Lookups -----

  /** The key of the declaration at a table position. */
  function KeyAt(env: Env, kind: Kind, modulePath: string, index: nat): Option<Key> {
    if modulePath in env && index < |env[modulePath].Table(kind)|
    then Some(Key(kind, modulePath, env[modulePath].Table(kind)[index].name))
    else None
  }

  predicate UniqueAt(table: seq<Decl>, name: string, i: nat) {
    i < |table| && table[i].name == name && forall j :: 0 <= j < |table| && table[j].name == name ==> j == i
  }

  function FindUnique(table: seq<Decl>, name: string): Option<Decl> {
    if exists i :: 0 <= i < |table| && UniqueAt(table, name, i) then
      var i :| 0 <= i < |table| && UniqueAt(table, name, i);
      Some(table[i])
    else None
  }

  /** The declaration a key names: its module must exist and hold exactly one
      declaration of that name. */
  function Resolve(env: Env, key: Key): Option<Decl> {
    if key.modulePath in env then FindUnique(env[key.modulePath].Table(key.kind), key.name) else None
  }

  // ----- Serialisation -----

  function Text(s: string): Json { Str(s) }

  function Index(i: nat): Json { Num(Int(i)) }

  function TargetValue(target: Target): Json {
    match target
    case LocalExecutable(i) =>
      Obj(map["kind" := Text("localExecutable"), "executableIndex" := Index(i)])
    case PublicationExecutable(m, i) =>
      Obj(map["kind" := Text("publicationExecutable"), "modulePath" := Text(m), "executableIndex" := Index(i)])
    case OtherTarget(value) => value
  }

  function ExprValue(expr: Expr): Json {
    match expr
    case LoadConst(i) => Obj(map["kind" := Text("loadConst"), "constIndex" := Index(i)])
    case Call(target, call) =>
      Obj(map["kind" := Text("call"), "call" := Obj((call - {"kind"}) + map["target" := TargetValue(target)])])
    case OtherExpr(value) => value
  }

  function ExprValues(exprs: seq<Expr>): (r: seq<Json>)
    ensures |r| == |exprs|
    ensures forall i :: 0 <= i < |r| ==> r[i] == ExprValue(exprs[i])
  {
    seq(|exprs|, i requires 0 <= i < |exprs| => ExprValue(exprs[i]))
  }

  /** An empty expression list is left out of the serialised body. */
  function BodyValue(d: Decl): Json {
    var rest := d.bodyRest - {"kind", "expressions"};
    Obj(if d.expressions == [] then rest else rest + map["expressions" := Arr(ExprValues(d.expressions))])
  }

  /** The fields the serialiser writes for every declaration of a kind. */
  function Header(kind: Kind, d: Decl): map<string, Json> {
    match kind
    case Executables =>
      // The serialised executable kind is `function` or `implMethod`.
      var tag := if "kind" in d.rest && d.rest["kind"] == Text("implMethod") then "implMethod" else "function";
      map["kind" := Text(tag), "symbol" := Text(d.name), "body" := BodyValue(d)]
    case Constants => map["name" := Text(d.name), "body" := BodyValue(d)]
    case Types => map["name" := Text(d.name)]
  }

  function DeclValue(kind: Kind, d: Decl): Json {
    Obj((d.rest - {"kind"}) + Header(kind, d))
  }

  // ----- Tagged nodes -----

  datatype Tag = Untagged | Reference(kind: Kind, modulePath: string, index: U32) | Malformed

  /** A field read as an unsigned 64-bit number and truncated to 32 bits. */
  function IndexField(fields: map<string, Json>, name: string): Option<U32> {
    if name in fields && fields[name].Num? && fields[name].number.Int? && 0 <= fields[name].number.n < U64_LIMIT
    then Some(fields[name].number.n % U32_LIMIT)
    else None
  }

  function StringField(fields: map<string, Json>, name: string): Option<string> {
    if name in fields && fields[name].Str? then Some(fields[name].s) else None
  }

  function IndexName(kind: Kind): string {
    match kind
    case Executables => "executableIndex"
    case Constants => "constIndex"
    case Types => "typeIndex"
  }

  function LocalTag(fields: map<string, Json>, kind: Kind, owner: string): Tag {
    match IndexField(fields, IndexName(kind))
    case Some(i) => Reference(kind, owner, i)
    case None => Untagged
  }

  function PublicationTag(fields: map<string, Json>, kind: Kind): Tag {
    match (StringField(fields, "modulePath"), IndexField(fields, IndexName(kind)))
    case (Some(m), Some(i)) => Reference(kind, m, i)
    case _ => Untagged
  }

  /** How the rewrite classifies an object. Only these five kinds carry an index;
      a `loadConst` without one is an error, the others are then left alone. */
  function TagOf(fields: map<string, Json>, owner: string): Tag {
    match StringField(fields, "kind")
    case None => Untagged
    case Some(kind) =>
      if kind == "localExecutable" then LocalTag(fields, Executables, owner)
      else if kind == "publicationExecutable" then PublicationTag(fields, Executables)
      else if kind == "loadConst" then
        if LocalTag(fields, Constants, owner).Reference? then LocalTag(fields, Constants, owner) else Malformed
      else if kind == "localType" then LocalTag(fields, Types, owner)
      else if kind == "publicationType" then PublicationTag(fields, Types)
      else Untagged
  }

  function CanonicalKind(kind: Kind): string {
    match kind
    case Executables => "canonicalExecutable"
    case Constants => "canonicalConstant"
    case Types => "canonicalType"
  }

  function CanonicalNode(key: Key): Json {
    Obj(map["kind" := Text(CanonicalKind(key.kind)), "modulePath" := Text(key.modulePath),
            (if key.kind == Executables then "symbol" else "name") := Text(key.name)])
  }

  // ----- The rewrite and the two reference collectors -----

  predicate Dropped(fields: map<string, Json>, name: string) {
    name == "sourceSpan" || (name == "actorImplementationIdentity" && StringField(fields, "kind") == Some("actorMethod"))
  }

  /** Replaces every tagged node by the key it refers to and drops source spans. */
  function Normalise(v: Json, env: Env, owner: string): Option<Json> {
    match v
    case Arr(items) =>
      if forall i :: 0 <= i < |items| ==> Normalise(items[i], env, owner).Some?
      then Some(Arr(seq(|items|, i requires 0 <= i < |items| => Normalise(items[i], env, owner).value)))
      else None
    case Obj(fields) =>
      (match TagOf(fields, owner)
       case Malformed => None
       case Reference(kind, m, i) =>
         (match KeyAt(env, kind, m, i)
          case Some(key) => Some(CanonicalNode(key))
          case None => None)
       case Untagged =>
         if forall k :: k in fields && !Dropped(fields, k) ==> Normalise(fields[k], env, owner).Some?
         then Some(Obj(map k | k in fields && !Dropped(fields, k) :: Normalise(fields[k], env, owner).value))
         else None)
    case _ => Some(v)
  }

  /** Every type reference of a value resolves to a table entry. */
  predicate TypeRefsOk(v: Json, env: Env, owner: string) {
    match v
    case Arr(items) => forall i :: 0 <= i < |items| ==> TypeRefsOk(items[i], env, owner)
    case Obj(fields) =>
      var tag := TagOf(fields, owner);
      if tag.Reference? && tag.kind == Types then KeyAt(env, Types, tag.modulePath, tag.index).Some?
      else forall k :: k in fields ==> TypeRefsOk(fields[k], env, owner)
    case _ => true
  }

  /** The types a value refers to; a type reference is not searched further. */
  function TypeRefs(v: Json, env: Env, owner: string): (r: set<Key>)
    ensures forall t :: t in r ==> t.kind == Types
  {
    match v
    case Arr(items) => set i, t | 0 <= i < |items| && t in TypeRefs(items[i], env, owner) :: t
    case Obj(fields) =>
      var tag := TagOf(fields, owner);
      if tag.Reference? && tag.kind == Types then
        if KeyAt(env, Types, tag.modulePath, tag.index).Some? then {KeyAt(env, Types, tag.modulePath, tag.index).value} else {}
      else set k, t | k in fields && t in TypeRefs(fields[k], env, owner) :: t
    case _ => {}
  }

  /** The table position an expression refers to, if any. */
  function ExprRef(expr: Expr, owner: string): Tag {
    match expr
    case LoadConst(i) => Reference(Constants, owner, i)
    case Call(LocalExecutable(i), _) => Reference(Executables, owner, i)
    case Call(PublicationExecutable(m, i), _) => Reference(Executables, m, i)
    case _ => Untagged
  }

  function ExprKey(expr: Expr, env: Env, owner: string): Option<Key> {
    var ref := ExprRef(expr, owner);
    if ref.Reference? then KeyAt(env, ref.kind, ref.modulePath, ref.index) else None
  }

  predicate CodeRefsOk(exprs: seq<Expr>, env: Env, owner: string) {
    forall i :: 0 <= i < |exprs| && ExprRef(exprs[i], owner).Reference? ==> ExprKey(exprs[i], env, owner).Some?
  }

  function CodeRefs(exprs: seq<Expr>, env: Env, owner: string): (r: set<Key>)
    ensures forall k :: k in r ==> k.kind != Types
  {
    set i | 0 <= i < |exprs| && ExprKey(exprs[i], env, owner).Some? :: ExprKey(exprs[i], env, owner).value
  }

  // ----- The reference graph -----

  function Edges(env: Env, key: Key): set<Key> {
    match Resolve(env, key)
    case None => {}
    case Some(d) =>
      (if key.kind == Types then {} else CodeRefs(d.expressions, env, key.modulePath))
      + TypeRefs(DeclValue(key.kind, d), env, key.modulePath)
  }

  /** The serialised declaration can be searched for types and rewritten. */
  predicate TreeOk(env: Env, key: Key)
    requires Resolve(env, key).Some?
  {
    var v := DeclValue(key.kind, Resolve(env, key).value);
    TypeRefsOk(v, env, key.modulePath) && Normalise(v, env, key.modulePath).Some?
  }

  predicate CodeOk(env: Env, key: Key) {
    && Resolve(env, key).Some?
    && (key.kind != Types ==> CodeRefsOk(Resolve(env, key).value.expressions, env, key.modulePath))
  }

  /** Everything the algorithm needs of one declaration succeeds. */
  predicate NodeOk(env: Env, key: Key) {
    CodeOk(env, key) && TreeOk(env, key)
  }

  function NodeValue(env: Env, key: Key): Json
    requires NodeOk(env, key)
  {
    Normalise(DeclValue(key.kind, Resolve(env, key).value), env, key.modulePath).value
  }

  /** The successor function of the reference graph. */
  ghost function Graph(env: Env): Key -> set<Key> {
    k => Edges(env, k)
  }

  /** The keys of all declarations; a key that resolves is one of them. */
  function AllKeys(env: Env): set<Key> {
    set m, kind: Kind, i | m in env && 0 <= i < |env[m].Table(kind)| :: Key(kind, m, env[m].Table(kind)[i].name)
  }

  lemma ResolvesInAllKeys(env: Env, key: Key)
    requires Resolve(env, key).Some?
    ensures key in AllKeys(env)
  {
    var table := env[key.modulePath].Table(key.kind);
    var i :| 0 <= i < |table| && UniqueAt(table, key.name, i);
    assert key == Key(key.kind, key.modulePath, env[key.modulePath].Table(key.kind)[i].name);
  }

  lemma OkInAllKeys(env: Env, key: Key)
    requires NodeOk(env, key)
    ensures key in AllKeys(env)
  {
    ResolvesInAllKeys(env, key);
  }

  // ----- The preimage as a function of the reachable graph -----

  predicate KeyLess(a: Key, b: Key) {
    || StringLess(a.modulePath, b.modulePath)
    || (a.modulePath == b.modulePath && StringLess(a.name, b.name))
    || (a.modulePath == b.modulePath && a.name == b.name && KindRank(a.kind) < KindRank(b.kind))
  }

  function KindRank(kind: Kind): nat {
    match kind
    case Executables => 0
    case Constants => 1
    case Types => 2
  }

  lemma KeyLessIsOrder()
    ensures StrictTotalOrder(KeyLess)
  {
    StringLessIsOrder();
    forall a, b, c | KeyLess(a, b) && KeyLess(b, c)
      ensures KeyLess(a, c)
    {
    }
    forall a, b
      ensures a == b || KeyLess(a, b) || KeyLess(b, a)
    {
    }
  }

  /** Units by module path; a repeated module path is an error. */
  function IndexUnits(units: seq<Unit>): Option<Env> {
    if units == [] then Some(map[])
    else
      var last := units[|units| - 1];
      match IndexUnits(units[..|units| - 1])
      case None => None
      case Some(env) => if last.modulePath in env then None else Some(env[last.modulePath := last])
  }

  function FindActor(actors: seq<Actor>, name: string): Option<Actor> {
    if actors == [] then None
    else if actors[0].name == name then Some(actors[0])
    else FindActor(actors[1..], name)
  }

  /** Implementations match the public methods exactly and creation is not public. */
  predicate ActorOk(actor: Actor) {
    && actor.publicMethods == actor.methodImplementations.Keys
    && (actor.create.Some? ==> actor.create.value.identity !in actor.publicMethods)
  }

  function RootIndices(actor: Actor): map<string, U32> {
    match actor.create
    case None => actor.methodImplementations
    case Some(create) => actor.methodImplementations[create.identity := create.executableIndex]
  }

  predicate RootsOk(env: Env, modulePath: string, actor: Actor) {
    forall id :: id in RootIndices(actor) ==> KeyAt(env, Executables, modulePath, RootIndices(actor)[id]).Some?
  }

  function Roots(env: Env, modulePath: string, actor: Actor): map<string, Key>
    requires RootsOk(env, modulePath, actor)
  {
    map id | id in RootIndices(actor) :: KeyAt(env, Executables, modulePath, RootIndices(actor)[id]).value
  }

  ghost predicate AllOk(env: Env, roots: set<Key>) {
    forall k :: Reachable(Graph(env), roots, k) ==> NodeOk(env, k)
  }

  ghost function ReachableKeys(env: Env, roots: set<Key>, kind: Kind): set<Key> {
    set k | k in AllKeys(env) && k.kind == kind && Reachable(Graph(env), roots, k)
  }

  function EntriesFor(env: Env, keys: seq<Key>): (r: seq<Entry>)
    requires forall k :: k in keys ==> NodeOk(env, k)
  {
    seq(|keys|, i requires 0 <= i < |keys| => Entry(keys[i], NodeValue(env, keys[i])))
  }

  ghost function Entries(env: Env, roots: set<Key>, kind: Kind): seq<Entry>
    requires AllOk(env, roots)
  {
    EntriesFor(env, Arrange(ReachableKeys(env, roots, kind), KeyLess))
  }

  ghost function PreimageIn(env: Env, modulePath: string, actorName: string): Option<Preimage> {
    if modulePath !in env then None
    else
      match FindActor(env[modulePath].actors, actorName)
      case None => None
      case Some(actor) =>
        if !ActorOk(actor) || !RootsOk(env, modulePath, actor) then None
        else
          var roots := Roots(env, modulePath, actor);
          if !AllOk(env, roots.Values) then None
          else
            Some(Preimage(
                   actor.abiIdentity, roots,
                   Entries(env, roots.Values, Executables),
                   Entries(env, roots.Values, Constants),
                   Entries(env, roots.Values, Types)))
  }

  /** What the identity hashes: the declarations reachable from the actor's roots,
      each exactly once and in key order; nothing when any lookup on them fails. */
  ghost function PreimageOf(units: seq<Unit>, modulePath: string, actorName: string): Option<Preimage> {
    match IndexUnits(units)
    case None => None
    case Some(env) => PreimageIn(env, modulePath, actorName)
  }

  // ----- The worklist algorithm -----

  method BuildIndex(units: seq<Unit>) returns (r: Option<Env>)
    ensures r == IndexUnits(units)
  {
    var env: Env := map[];
    for i := 0 to |units|
      invariant IndexUnits(units[..i]) == Some(env)
    {
      assert units[..i + 1][..i] == units[..i];
      if units[i].modulePath in env {
        IndexPrefixFails(units, i + 1);
        return None;
      }
      env := env[units[i].modulePath := units[i]];
    }
    assert units[..|units|] == units;
    return Some(env);
  }

  lemma {:induction false} IndexPrefixFails(units: seq<Unit>, n: nat)
    requires n <= |units| && IndexUnits(units[..n]).None?
    ensures IndexUnits(units).None?
    decreases |units| - n
  {
    if n < |units| {
      assert units[..n + 1][..n] == units[..n];
      IndexPrefixFails(units, n + 1);
    } else {
      assert units[..n] == units;
    }
  }

  function OfKind(keys: set<Key>, kind: Kind): set<Key> {
    set k | k in keys && k.kind == kind
  }

  /** Pushes what the expressions refer to onto the two stacks. */
  method PushReferences(exprs: seq<Expr>, env: Env, owner: string, pending: seq<Key>, pendingConstants: seq<Key>)
    returns (ok: bool, executables: seq<Key>, constants: seq<Key>)
    ensures ok <==> CodeRefsOk(exprs, env, owner)
    ensures ok ==> ToSet(executables) == ToSet(pending) + OfKind(CodeRefs(exprs, env, owner), Executables)
    ensures ok ==> ToSet(constants) == ToSet(pendingConstants) + OfKind(CodeRefs(exprs, env, owner), Constants)
  {
    executables, constants := pending, pendingConstants;
    for i := 0 to |exprs|
      invariant CodeRefsOk(exprs[..i], env, owner)
      invariant ToSet(executables) == ToSet(pending) + OfKind(CodeRefs(exprs[..i], env, owner), Executables)
      invariant ToSet(constants) == ToSet(pendingConstants) + OfKind(CodeRefs(exprs[..i], env, owner), Constants)
    {
      ghost var before, after := CodeRefs(exprs[..i], env, owner), CodeRefs(exprs[..i + 1], env, owner);
      CodeRefsStep(exprs, i, env, owner);
      if ExprRef(exprs[i], owner).Reference? {
        match ExprKey(exprs[i], env, owner)
        case None =>
          return false, executables, constants;
        case Some(key) =>
          if key.kind == Constants {
            ToSetAppend(constants, key);
            constants := constants + [key];
            assert OfKind(after, Constants) == OfKind(before, Constants) + {key};
            assert OfKind(after, Executables) == OfKind(before, Executables);
          } else {
            ToSetAppend(executables, key);
            executables := executables + [key];
            assert OfKind(after, Executables) == OfKind(before, Executables) + {key};
            assert OfKind(after, Constants) == OfKind(before, Constants);
          }
      }
    }
    assert exprs[..|exprs|] == exprs;
    return true, executables, constants;
  }

  lemma CodeRefsStep(exprs: seq<Expr>, i: nat, env: Env, owner: string)
    requires i < |exprs|
    ensures CodeRefs(exprs[..i + 1], env, owner) == CodeRefs(exprs[..i], env, owner)
              + if ExprKey(exprs[i], env, owner).Some? then {ExprKey(exprs[i], env, owner).value} else {}
  {
    var key := ExprKey(exprs[i], env, owner);
    assert exprs[..i + 1][i] == exprs[i];
    forall k | k in CodeRefs(exprs[..i + 1], env, owner)
      ensures k in CodeRefs(exprs[..i], env, owner) || key == Some(k)
    {
      var j :| 0 <= j < i + 1 && ExprKey(exprs[..i + 1][j], env, owner) == Some(k);
      if j < i {
        assert exprs[..i][j] == exprs[j];
      }
    }
    forall k | k in CodeRefs(exprs[..i], env, owner)
      ensures k in CodeRefs(exprs[..i + 1], env, owner)
    {
      var j :| 0 <= j < i && ExprKey(exprs[..i][j], env, owner) == Some(k);
      assert exprs[..i + 1][j] == exprs[j];
    }
  }

  predicate IsCode(key: Key) { key.kind != Types }

  /** Expanding one key through its expressions keeps the worklist invariant. */
  lemma ExpandCode(env: Env, roots: set<Key>, done: set<Key>, todo: set<Key>, key: Key, refs: set<Key>)
    requires Frontier(Graph(env), IsCode, roots, done, todo + {key}) && CodeOk(env, key) && IsCode(key)
    requires refs == CodeRefs(Resolve(env, key).value.expressions, env, key.modulePath)
    ensures Frontier(Graph(env), IsCode, roots, done + {key}, todo + refs)
  {
    FrontierExpand(Graph(env), IsCode, roots, done, todo, key, refs);
  }

  lemma CodeComplete(env: Env, roots: set<Key>, done: set<Key>)
    requires Frontier(Graph(env), IsCode, roots, done, {})
    ensures forall k :: k in done <==> Reachable(Graph(env), roots, k) && IsCode(k)
  {
    forall k, t | !IsCode(k) && t in Graph(env)(k)
      ensures !IsCode(t)
    {
    }
    FrontierComplete(Graph(env), IsCode, roots, done);
  }

  method Pop(stack: seq<Key>) returns (key: Key, rest: seq<Key>)
    requires stack != []
    ensures |rest| == |stack| - 1
    ensures ToSet(stack) == ToSet(rest) + {key}
  {
    key, rest := stack[|stack| - 1], stack[..|stack| - 1];
    ToSetAppend(rest, key);
    assert stack == rest + [key];
  }

  lemma MoveOut(a: set<Key>, b: set<Key>, key: Key)
    ensures (a + {key}) + b == a + b + {key} == a + (b + {key})
  {
  }

  ghost predicate AllOfKind(keys: set<Key>, kind: Kind) {
    forall k :: k in keys ==> k.kind == kind
  }

  lemma SplitKinds(refs: set<Key>, executables: set<Key>, constants: set<Key>)
    requires forall k :: k in refs ==> IsCode(k)
    ensures (executables + OfKind(refs, Executables)) + (constants + OfKind(refs, Constants)) == executables + constants + refs
  {
  }

  /** Resolves one key and pushes what its expressions refer to. */
  method ExpandNext(
    env: Env, ghost roots: set<Key>, ghost done: set<Key>, key: Key, pending: seq<Key>, pendingConstants: seq<Key>)
    returns (ok: bool, executables: seq<Key>, constants: seq<Key>)
    requires IsCode(key)
    requires Frontier(Graph(env), IsCode, roots, done, ToSet(pending) + ToSet(pendingConstants) + {key})
    requires AllOfKind(ToSet(pending), Executables) && AllOfKind(ToSet(pendingConstants), Constants)
    ensures ok <==> CodeOk(env, key)
    ensures ok ==> key in AllKeys(env)
    ensures ok ==> Frontier(Graph(env), IsCode, roots, done + {key}, ToSet(executables) + ToSet(constants))
    ensures ok ==> AllOfKind(ToSet(executables), Executables) && AllOfKind(ToSet(constants), Constants)
  {
    executables, constants := pending, pendingConstants;
    match Resolve(env, key)
    case None =>
      return false, executables, constants;
    case Some(d) =>
      ok, executables, constants := PushReferences(d.expressions, env, key.modulePath, pending, pendingConstants);
      if ok {
        ghost var refs := CodeRefs(d.expressions, env, key.modulePath);
        ghost var left := ToSet(pending) + ToSet(pendingConstants);
        SplitKinds(refs, ToSet(pending), ToSet(pendingConstants));
        ExpandCode(env, roots, done, left, key, refs);
        ResolvesInAllKeys(env, key);
      }
  }

  /** The walk over executables and constants with its two stacks. */
  method WalkCode(env: Env, roots: seq<Key>) returns (r: Option<(set<Key>, set<Key>)>)
    requires AllOfKind(ToSet(roots), Executables)
    ensures r.None? ==> exists k :: Reachable(Graph(env), ToSet(roots), k) && IsCode(k) && !CodeOk(env, k)
    ensures r.Some? ==> forall k :: k in r.value.0 + r.value.1 <==> Reachable(Graph(env), ToSet(roots), k) && IsCode(k)
    ensures r.Some? ==> AllOfKind(r.value.0, Executables) && AllOfKind(r.value.1, Constants)
    ensures r.Some? ==> forall k :: k in r.value.0 + r.value.1 ==> CodeOk(env, k)
  {
    var pending, pendingConstants: seq<Key> := roots, [];
    var reachable, reachableConstants: set<Key> := {}, {};
    FrontierStart(Graph(env), IsCode, ToSet(roots));
    assert ToSet(roots) + ToSet<Key>([]) == ToSet(roots);
    while pending != [] || pendingConstants != []
      invariant Frontier(Graph(env), IsCode, ToSet(roots), reachable + reachableConstants, ToSet(pending) + ToSet(pendingConstants))
      invariant forall k :: k in reachable + reachableConstants ==> CodeOk(env, k)
      invariant AllOfKind(ToSet(pending), Executables) && AllOfKind(ToSet(pendingConstants), Constants)
      invariant AllOfKind(reachable, Executables) && AllOfKind(reachableConstants, Constants)
      decreases AllKeys(env) - (reachable + reachableConstants), |pending| + |pendingConstants|
    {
      var key: Key;
      ghost var todo, done := ToSet(pending) + ToSet(pendingConstants), reachable + reachableConstants;
      if pending != [] {
        key, pending := Pop(pending);
      } else {
        key, pendingConstants := Pop(pendingConstants);
      }
      MoveOut(ToSet(pending), ToSet(pendingConstants), key);
      assert todo == ToSet(pending) + ToSet(pendingConstants) + {key};
      if key in reachable || key in reachableConstants {
        FrontierSkip(Graph(env), IsCode, ToSet(roots), done, ToSet(pending) + ToSet(pendingConstants), key);
        continue;
      }
      var ok: bool;
      ok, pending, pendingConstants := ExpandNext(env, ToSet(roots), done, key, pending, pendingConstants);
      if !ok {
        assert key in done + todo;
        return None;
      }
      MoveOut(reachable, reachableConstants, key);
      if key.kind == Executables {
        reachable := reachable + {key};
      } else {
        reachableConstants := reachableConstants + {key};
      }
      assert reachable + reachableConstants == done + {key};
    }
    assert ToSet(pending) + ToSet(pendingConstants) == {};
    CodeComplete(env, ToSet(roots), reachable + reachableConstants);
    return Some((reachable, reachableConstants));
  }

  method PushAll(keys: set<Key>, stack: seq<Key>) returns (r: seq<Key>)
    ensures ToSet(r) == ToSet(stack) + keys
  {
    var left := keys;
    r := stack;
    while left != {}
      invariant left <= keys
      invariant ToSet(r) == ToSet(stack) + (keys - left)
    {
      var k :| k in left;
      ToSetAppend(r, k);
      r := r + [k];
      left := left - {k};
    }
  }

  function TypeEdges(env: Env, key: Key): (r: set<Key>)
    ensures AllOfKind(r, Types)
  {
    match Resolve(env, key)
    case None => {}
    case Some(d) => TypeRefs(DeclValue(key.kind, d), env, key.modulePath)
  }

  /** Serialises one declaration, pushes the types it mentions and rewrites it. */
  method EmitOne(env: Env, key: Key, pendingTypes: seq<Key>) returns (value: Option<Json>, types: seq<Key>)
    requires CodeOk(env, key)
    ensures value.Some? <==> NodeOk(env, key)
    ensures value.Some? ==> value.value == NodeValue(env, key)
    ensures value.Some? ==> ToSet(types) == ToSet(pendingTypes) + TypeEdges(env, key)
  {
    var v := DeclValue(key.kind, Resolve(env, key).value);
    types := pendingTypes;
    if !TypeRefsOk(v, env, key.modulePath) {
      return None, types;
    }
    types := PushAll(TypeRefs(v, env, key.modulePath), pendingTypes);
    return Normalise(v, env, key.modulePath), types;
  }

  ghost function TypeEdgesAll(env: Env, keys: set<Key>): (r: set<Key>)
    ensures AllOfKind(r, Types)
  {
    set k, t | k in keys && t in TypeEdges(env, k) :: t
  }

  lemma TypeEdgesAllAdd(env: Env, keys: set<Key>, key: Key)
    ensures TypeEdgesAll(env, keys + {key}) == TypeEdgesAll(env, keys) + TypeEdges(env, key)
  {
  }

  method EmitAll(env: Env, keys: seq<Key>, pendingTypes: seq<Key>)
    returns (entries: Option<seq<Entry>>, types: seq<Key>)
    requires forall k :: k in keys ==> CodeOk(env, k)
    ensures entries.Some? <==> forall k :: k in keys ==> NodeOk(env, k)
    ensures entries.Some? ==> entries.value == EntriesFor(env, keys)
    ensures entries.Some? ==> ToSet(types) == ToSet(pendingTypes) + TypeEdgesAll(env, ToSet(keys))
  {
    hide NodeOk, NodeValue, TypeEdges;
    var done: seq<Entry> := [];
    types := pendingTypes;
    assert ToSet(keys[..0]) == {};
    for i := 0 to |keys|
      invariant |done| == i
      invariant forall j :: 0 <= j < i ==> NodeOk(env, keys[j]) && done[j] == Entry(keys[j], NodeValue(env, keys[j]))
      invariant ToSet(types) == ToSet(pendingTypes) + TypeEdgesAll(env, ToSet(keys[..i]))
    {
      var value: Option<Json>;
      value, types := EmitOne(env, keys[i], types);
      if value.None? {
        return None, types;
      }
      done := done + [Entry(keys[i], value.value)];
      assert keys[..i + 1] == keys[..i] + [keys[i]];
      ToSetAppend(keys[..i], keys[i]);
      TypeEdgesAllAdd(env, ToSet(keys[..i]), keys[i]);
    }
    assert keys[..|keys|] == keys;
    assert done == EntriesFor(env, keys);
    return Some(done), types;
  }

  /** The complete code walk, together with the types its nodes mention, is a
      frontier of the whole graph. */
  lemma TypesStart(env: Env, roots: set<Key>, code: set<Key>, types: set<Key>)
    requires forall k :: k in code <==> Reachable(Graph(env), roots, k) && IsCode(k)
    requires forall k :: k in roots ==> IsCode(k)
    requires types == TypeEdgesAll(env, code)
    ensures Frontier(Graph(env), Anything, roots, code, types)
  {
    RootsReachable(Graph(env), roots);
    hide Reachable, Resolve;
    forall k | k in types
      ensures Reachable(Graph(env), roots, k)
    {
      var c :| c in code && k in TypeEdges(env, c);
      assert k in Graph(env)(c);
      EdgeReachable(Graph(env), roots, c, k);
    }
    forall k, t | k in code && t in Graph(env)(k)
      ensures t in code + types
    {
      if IsCode(t) {
        EdgeReachable(Graph(env), roots, k, t);
      } else {
        assert t in TypeEdges(env, k);
      }
    }
  }

  lemma ExpandType(env: Env, roots: set<Key>, done: set<Key>, todo: set<Key>, key: Key)
    requires Frontier(Graph(env), Anything, roots, done, todo + {key})
    requires key.kind == Types && Resolve(env, key).Some?
    ensures Frontier(Graph(env), Anything, roots, done + {key}, todo + TypeEdges(env, key))
  {
    FrontierExpand(Graph(env), Anything, roots, done, todo, key, TypeEdges(env, key));
  }

  /** The walk over types, starting from those the reachable code mentions. */
  method WalkTypes(env: Env, ghost roots: set<Key>, ghost code: set<Key>, start: seq<Key>)
    returns (r: Option<set<Key>>)
    requires Frontier(Graph(env), Anything, roots, code, ToSet(start))
    requires AllOfKind(ToSet(start), Types) && forall k :: k in code ==> IsCode(k)
    ensures r.None? ==> exists k :: Reachable(Graph(env), roots, k) && !NodeOk(env, k)
    ensures r.Some? ==> forall k :: k in r.value <==> Reachable(Graph(env), roots, k) && k.kind == Types
    ensures r.Some? ==> forall k :: k in r.value ==> NodeOk(env, k)
  {
    hide NodeValue, TreeOk, Graph, Edges;
    var pending := start;
    var reachable: set<Key> := {};
    assert code + reachable == code;
    while pending != []
      invariant Frontier(Graph(env), Anything, roots, code + reachable, ToSet(pending))
      invariant AllOfKind(ToSet(pending), Types) && AllOfKind(reachable, Types)
      invariant forall k :: k in reachable ==> NodeOk(env, k)
      decreases AllKeys(env) - reachable, |pending|
    {
      ghost var todo, done := ToSet(pending), code + reachable;
      var key: Key;
      key, pending := Pop(pending);
      assert Reachable(Graph(env), roots, key) by {
        assert key in done + todo;
      }
      if key in reachable {
        FrontierSkip(Graph(env), Anything, roots, done, ToSet(pending), key);
        continue;
      }
      if Resolve(env, key).None? {
        return None;
      }
      ExpandType(env, roots, done, ToSet(pending), key);
      ResolvesInAllKeys(env, key);
      var value: Option<Json>;
      value, pending := EmitOne(env, key, pending);
      if value.None? {
        return None;
      }
      MoveOut(code, reachable, key);
      reachable := reachable + {key};
    }
    assert ToSet(pending) == {};
    FrontierComplete(Graph(env), Anything, roots, code + reachable);
    return Some(reachable);
  }

  /** A complete set of reachable keys of one kind is the one the preimage lists. */
  lemma ReachableKeysOf(env: Env, roots: set<Key>, kind: Kind, keys: set<Key>)
    requires AllOk(env, roots)
    requires forall k :: k in keys <==> Reachable(Graph(env), roots, k) && k.kind == kind
    ensures keys == ReachableKeys(env, roots, kind)
  {
    forall k | k in keys
      ensures k in AllKeys(env)
    {
      assert NodeOk(env, k);
      ResolvesInAllKeys(env, k);
    }
  }

  lemma CodeByKind(env: Env, roots: set<Key>, executables: set<Key>, constants: set<Key>)
    requires forall k :: k in executables + constants <==> Reachable(Graph(env), roots, k) && IsCode(k)
    requires AllOfKind(executables, Executables) && AllOfKind(constants, Constants)
    ensures forall k :: k in executables <==> Reachable(Graph(env), roots, k) && k.kind == Executables
    ensures forall k :: k in constants <==> Reachable(Graph(env), roots, k) && k.kind == Constants
  {
    forall k | Reachable(Graph(env), roots, k) && IsCode(k)
      ensures k.kind == Executables ==> k in executables
      ensures k.kind == Constants ==> k in constants
    {
      assert k in executables + constants;
    }
  }

  lemma PartsOk(env: Env, roots: set<Key>, executables: set<Key>, constants: set<Key>, types: set<Key>)
    requires forall k :: Reachable(Graph(env), roots, k) ==> k in executables || k in constants || k in types
    requires forall k :: k in executables || k in constants || k in types ==> NodeOk(env, k)
    ensures AllOk(env, roots)
  {
  }

  /** Walks the graph from the roots and lists what it finds. */
  method ListReachable(env: Env, roots: set<Key>) returns (r: Option<(seq<Entry>, seq<Entry>, seq<Entry>)>)
    requires AllOfKind(roots, Executables)
    ensures r.Some? <==> AllOk(env, roots)
    ensures r.Some? ==> r.value == (Entries(env, roots, Executables), Entries(env, roots, Constants), Entries(env, roots, Types))
  {
    hide TreeOk, CodeOk, NodeValue, TypeEdges, Graph, Arrange, Reachable;
    var pending := PushAll(roots, []);
    assert ToSet(pending) == roots;
    var walked := WalkCode(env, pending);
    if walked.None? {
      return None;
    }
    var (executables, constants) := walked.value;
    CodeByKind(env, roots, executables, constants);
    assert StrictTotalOrder(KeyLess) by {
      KeyLessIsOrder();
    }
    hide KeyLess, StrictTotalOrder;
    var sortedExecutables := SortedList(executables, KeyLess);
    var sortedConstants := SortedList(constants, KeyLess);
    assert ToSet(sortedExecutables) == executables && ToSet(sortedConstants) == constants;
    var executableEntries, types := EmitAll(env, sortedExecutables, []);
    if executableEntries.None? {
      return None;
    }
    var constantEntries: Option<seq<Entry>>;
    constantEntries, types := EmitAll(env, sortedConstants, types);
    if constantEntries.None? {
      return None;
    }
    assert ToSet(types) == TypeEdgesAll(env, executables + constants);
    TypesStart(env, roots, executables + constants, ToSet(types));
    var walkedTypes := WalkTypes(env, roots, executables + constants, types);
    if walkedTypes.None? {
      return None;
    }
    PartsOk(env, roots, executables, constants, walkedTypes.value);
    ReachableKeysOf(env, roots, Executables, executables);
    ReachableKeysOf(env, roots, Constants, constants);
    ReachableKeysOf(env, roots, Types, walkedTypes.value);
    var sortedTypes := SortedList(walkedTypes.value, KeyLess);
    return Some((executableEntries.value, constantEntries.value, EntriesFor(env, sortedTypes)));
  }

  /** The algorithm computes the preimage: it fails exactly when a lookup on a
      reachable declaration fails, and otherwise lists exactly the reachable ones. */
  method ActorPreimage(units: seq<Unit>, modulePath: string, actorName: string) returns (r: Option<Preimage>)
    ensures r == PreimageOf(units, modulePath, actorName)
  {
    var indexed := BuildIndex(units);
    if indexed.None? {
      return None;
    }
    var env := indexed.value;
    if modulePath !in env {
      return None;
    }
    var found := FindActor(env[modulePath].actors, actorName);
    if found.None? {
      return None;
    }
    var actor := found.value;
    if !ActorOk(actor) || !RootsOk(env, modulePath, actor) {
      return None;
    }
    var roots := Roots(env, modulePath, actor);
    var listed := ListReachable(env, roots.Values);
    if listed.None? {
      return None;
    }
    var (executables, constants, types) := listed.value;
    return Some(Preimage(actor.abiIdentity, roots, executables, constants, types));
  }
}
