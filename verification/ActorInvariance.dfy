/** What the actor preimage does not depend on: the order of the units, the order of
    the declarations in a unit's tables, and the declarations it does not reach. */
module ActorInvariance {
  import opened Wrappers
  import opened JsonValues
  import opened Sorting
  import opened Reachability
  import opened ActorIdentity

  // ----- Renumbering -----

  /** For each table, where a position moves to and where it came from. */
  datatype Renumbering = Renumbering(to: (Kind, string, nat) -> nat, from: (Kind, string, nat) -> nat)

  /** The two functions are inverse, and keep what a 32-bit index can name. */
  ghost predicate Inverse(r: Renumbering) {
    && (forall kind, m, i: nat :: r.from(kind, m, r.to(kind, m, i)) == i)
    && (forall kind, m, i: nat :: r.to(kind, m, r.from(kind, m, i)) == i)
    && (forall kind, m, i: nat :: i < U32_LIMIT ==> r.to(kind, m, i) < U32_LIMIT)
  }

  /** The renumbering permutes each table of the unit. */
  ghost predicate Permutes(r: Renumbering, u: Unit) {
    forall kind, i: nat :: i < |u.Table(kind)| <==> r.to(kind, u.modulePath, i) < |u.Table(kind)|
  }

  function Moved(r: Renumbering, kind: Kind, m: string, i: U32): U32 {
    if r.to(kind, m, i) < U32_LIMIT then r.to(kind, m, i) else i
  }

  /** Renumbers exactly the tagged nodes of a serialised value. */
  function RenumberJson(v: Json, owner: string, r: Renumbering): Json {
    match v
    case Arr(items) => Arr(seq(|items|, i requires 0 <= i < |items| => RenumberJson(items[i], owner, r)))
    case Obj(fields) =>
      var children := map k | k in fields :: RenumberJson(fields[k], owner, r);
      (match TagOf(fields, owner)
       case Reference(kind, m, i) => Obj(children[IndexName(kind) := Index(Moved(r, kind, m, i))])
       case _ => Obj(children))
    case _ => v
  }

  function RenumberFields(fields: map<string, Json>, owner: string, r: Renumbering): map<string, Json> {
    map k | k in fields :: RenumberJson(fields[k], owner, r)
  }

  function RenumberTarget(target: Target, owner: string, r: Renumbering): Target {
    match target
    case LocalExecutable(i) => LocalExecutable(Moved(r, Executables, owner, i))
    case PublicationExecutable(m, i) => PublicationExecutable(m, Moved(r, Executables, m, i))
    case OtherTarget(value) => OtherTarget(RenumberJson(value, owner, r))
  }

  function RenumberExpr(expr: Expr, owner: string, r: Renumbering): Expr {
    match expr
    case LoadConst(i) => LoadConst(Moved(r, Constants, owner, i))
    case Call(target, call) => Call(RenumberTarget(target, owner, r), RenumberFields(call, owner, r))
    case OtherExpr(value) => OtherExpr(RenumberJson(value, owner, r))
  }

  function RenumberDecl(d: Decl, owner: string, r: Renumbering): Decl {
    Decl(d.name,
         seq(|d.expressions|, i requires 0 <= i < |d.expressions| => RenumberExpr(d.expressions[i], owner, r)),
         RenumberFields(d.bodyRest, owner, r),
         RenumberFields(d.rest, owner, r))
  }

  /** Position `j` of the new table holds what was at `from(j)`. */
  function RenumberTable(u: Unit, kind: Kind, r: Renumbering): (t: seq<Decl>)
    requires forall j :: 0 <= j < |u.Table(kind)| ==> r.from(kind, u.modulePath, j) < |u.Table(kind)|
  {
    seq(|u.Table(kind)|, j requires 0 <= j < |u.Table(kind)| =>
      RenumberDecl(u.Table(kind)[r.from(kind, u.modulePath, j)], u.modulePath, r))
  }

  function RenumberActor(actor: Actor, owner: string, r: Renumbering): Actor {
    actor.(
    methodImplementations := map id | id in actor.methodImplementations ::
      Moved(r, Executables, owner, actor.methodImplementations[id]),
    create := match actor.create
      case None => None
      case Some(c) => Some(c.(executableIndex := Moved(r, Executables, owner, c.executableIndex))))
  }

  function RenumberActors(actors: seq<Actor>, owner: string, r: Renumbering): seq<Actor> {
    if actors == [] then [] else [RenumberActor(actors[0], owner, r)] + RenumberActors(actors[1..], owner, r)
  }

  ghost function RenumberUnit(u: Unit, r: Renumbering): Unit
    requires Inverse(r) && Permutes(r, u)
  {
    FromStaysInside(u, r);
    Unit(u.modulePath, RenumberTable(u, Executables, r), RenumberTable(u, Constants, r), RenumberTable(u, Types, r),
         RenumberActors(u.actors, u.modulePath, r))
  }

  lemma FromStaysInside(u: Unit, r: Renumbering)
    requires Inverse(r) && Permutes(r, u)
    ensures forall kind, j :: 0 <= j < |u.Table(kind)| ==> r.from(kind, u.modulePath, j) < |u.Table(kind)|
  {
    forall kind: Kind, j: nat | j < |u.Table(kind)|
      ensures r.from(kind, u.modulePath, j) < |u.Table(kind)|
    {
      assert r.to(kind, u.modulePath, r.from(kind, u.modulePath, j)) == j;
    }
  }

  lemma TableMoved(u: Unit, kind: Kind, i: nat, r: Renumbering)
    requires Inverse(r) && Permutes(r, u)
    ensures |RenumberUnit(u, r).Table(kind)| == |u.Table(kind)|
    ensures i < |u.Table(kind)| <==> r.to(kind, u.modulePath, i) < |RenumberUnit(u, r).Table(kind)|
    ensures i < |u.Table(kind)| ==>
              RenumberUnit(u, r).Table(kind)[r.to(kind, u.modulePath, i)] == RenumberDecl(u.Table(kind)[i], u.modulePath, r)
  {
    assert r.from(kind, u.modulePath, r.to(kind, u.modulePath, i)) == i;
  }

  /** Two indexed unit lists related by a renumbering. */
  ghost predicate Renumbered(env: Env, env': Env, r: Renumbering) {
    && Inverse(r)
    && env'.Keys == env.Keys
    && forall m :: m in env ==> env[m].modulePath == m && Permutes(r, env[m]) && env'[m] == RenumberUnit(env[m], r)
  }

  /** A position and its image name the same declaration. */
  lemma KeyAtMoved(env: Env, env': Env, r: Renumbering, kind: Kind, m: string, i: U32)
    requires Renumbered(env, env', r)
    ensures KeyAt(env', kind, m, Moved(r, kind, m, i)) == KeyAt(env, kind, m, i)
  {
    if m in env {
      TableMoved(env[m], kind, i, r);
    }
  }

  lemma FindUniqueMoved(u: Unit, kind: Kind, name: string, r: Renumbering)
    requires Inverse(r) && Permutes(r, u)
    ensures FindUnique(RenumberUnit(u, r).Table(kind), name) ==
            match FindUnique(u.Table(kind), name)
            case None => None
            case Some(d) => Some(RenumberDecl(d, u.modulePath, r))
  {
    var t, t' := u.Table(kind), RenumberUnit(u, r).Table(kind);
    forall i: nat
      ensures UniqueAt(t, name, i) <==> UniqueAt(t', name, r.to(kind, u.modulePath, i))
    {
      UniqueAtMoved(u, kind, name, i, r);
    }
    hide RenumberUnit, Permutes, RenumberDecl;
    if j: nat :| j < |t'| && UniqueAt(t', name, j) {
      assert r.to(kind, u.modulePath, r.from(kind, u.modulePath, j)) == j;
      assert UniqueAt(t, name, r.from(kind, u.modulePath, j));
    }
    if i: nat :| i < |t| && UniqueAt(t, name, i) {
      TableMoved(u, kind, i, r);
      assert UniqueAt(t', name, r.to(kind, u.modulePath, i));
    }
  }

  lemma UniqueAtMoved(u: Unit, kind: Kind, name: string, i: nat, r: Renumbering)
    requires Inverse(r) && Permutes(r, u)
    ensures UniqueAt(u.Table(kind), name, i) <==>
            UniqueAt(RenumberUnit(u, r).Table(kind), name, r.to(kind, u.modulePath, i))
  {
    var t, t' := u.Table(kind), RenumberUnit(u, r).Table(kind);
    TableMoved(u, kind, i, r);
    if UniqueAt(t, name, i) {
      forall j | 0 <= j < |t'| && t'[j].name == name
        ensures j == r.to(kind, u.modulePath, i)
      {
        TableMoved(u, kind, r.from(kind, u.modulePath, j), r);
        assert r.to(kind, u.modulePath, r.from(kind, u.modulePath, j)) == j;
      }
    }
    if UniqueAt(t', name, r.to(kind, u.modulePath, i)) {
      forall j | 0 <= j < |t| && t[j].name == name
        ensures j == i
      {
        TableMoved(u, kind, j, r);
        assert r.from(kind, u.modulePath, r.to(kind, u.modulePath, j)) == j;
        assert r.from(kind, u.modulePath, r.to(kind, u.modulePath, i)) == i;
      }
    }
  }

  lemma ResolveMoved(env: Env, env': Env, r: Renumbering, key: Key)
    requires Renumbered(env, env', r)
    ensures Resolve(env', key) ==
            match Resolve(env, key)
            case None => None
            case Some(d) => Some(RenumberDecl(d, key.modulePath, r))
  {
    if key.modulePath in env {
      FindUniqueMoved(env[key.modulePath], key.kind, key.name, r);
    }
  }

  // ----- The rewrite cancels the renumbering -----

  /** Renumbering the children and then the index moves the reference and nothing else. */
  lemma TagMoved(fields: map<string, Json>, owner: string, r: Renumbering)
    requires Inverse(r)
    ensures var tag := TagOf(fields, owner);
            var fields' := RenumberJson(Obj(fields), owner, r).fields;
            && fields'.Keys == fields.Keys
            && TagOf(fields', owner) == (if tag.Reference? then tag.(index := Moved(r, tag.kind, tag.modulePath, tag.index)) else tag)
            && (!tag.Reference? ==> fields' == RenumberFields(fields, owner, r))
            && (forall k :: k in fields && (tag.Reference? ==> k != IndexName(tag.kind)) ==> fields'[k] == RenumberJson(fields[k], owner, r))
            && (forall k :: Dropped(fields', k) <==> Dropped(fields, k))
  {
    var children := RenumberFields(fields, owner, r);
    assert StringField(children, "kind") == StringField(fields, "kind");
    assert StringField(children, "modulePath") == StringField(fields, "modulePath");
    assert forall kind :: IndexField(children, IndexName(kind)) == IndexField(fields, IndexName(kind));
    var tag, fields' := TagOf(fields, owner), RenumberJson(Obj(fields), owner, r).fields;
    assert StringField(fields', "kind") == StringField(children, "kind");
    assert StringField(fields', "modulePath") == StringField(children, "modulePath");
    if tag.Reference? {
      assert fields' == children[IndexName(tag.kind) := Index(Moved(r, tag.kind, tag.modulePath, tag.index))];
      assert IndexField(fields', IndexName(tag.kind)) == Some(Moved(r, tag.kind, tag.modulePath, tag.index));
    } else {
      assert fields' == children;
    }
    hide StringField, IndexField, IndexName, RenumberJson, RenumberFields, TagOf;
    TagAgree(fields, fields', owner, r);
  }

  /** The tag depends on two strings and one index. */
  lemma TagAgree(fields: map<string, Json>, fields': map<string, Json>, owner: string, r: Renumbering)
    requires StringField(fields', "kind") == StringField(fields, "kind")
    requires StringField(fields', "modulePath") == StringField(fields, "modulePath")
    requires var tag := TagOf(fields, owner);
             if tag.Reference? then IndexField(fields', IndexName(tag.kind)) == Some(Moved(r, tag.kind, tag.modulePath, tag.index))
             else forall kind :: IndexField(fields', IndexName(kind)) == IndexField(fields, IndexName(kind))
    ensures var tag := TagOf(fields, owner);
            TagOf(fields', owner) == (if tag.Reference? then tag.(index := Moved(r, tag.kind, tag.modulePath, tag.index)) else tag)
  {
    hide StringField, IndexField, IndexName, Moved;
  }

  lemma {:induction false} NormaliseArrAgree(items: seq<Json>, items': seq<Json>, env: Env, env': Env, owner: string)
    requires |items'| == |items|
    requires forall i :: 0 <= i < |items| ==> Normalise(items'[i], env', owner) == Normalise(items[i], env, owner)
    ensures Normalise(Arr(items'), env', owner) == Normalise(Arr(items), env, owner)
  {
    var n, n' := Normalise(Arr(items), env, owner), Normalise(Arr(items'), env', owner);
    if n.Some? {
      assert n'.Some? && n.value.items == n'.value.items;
    } else {
      var i :| 0 <= i < |items| && Normalise(items[i], env, owner).None?;
      assert Normalise(items'[i], env', owner).None?;
    }
  }

  lemma {:induction false} NormaliseObjAgree(
    fields: map<string, Json>, fields': map<string, Json>, env: Env, env': Env, owner: string)
    requires TagOf(fields, owner) == Untagged && TagOf(fields', owner) == Untagged
    requires fields'.Keys == fields.Keys && forall k :: Dropped(fields', k) <==> Dropped(fields, k)
    requires forall k :: k in fields ==> Normalise(fields'[k], env', owner) == Normalise(fields[k], env, owner)
    ensures Normalise(Obj(fields'), env', owner) == Normalise(Obj(fields), env, owner)
  {
    hide TagOf, Dropped;
    var n, n' := Normalise(Obj(fields), env, owner), Normalise(Obj(fields'), env', owner);
    if n.Some? {
      assert n'.Some? && n.value.fields == n'.value.fields;
    }
  }

  /** The rewritten value does not show the renumbering. */
  lemma {:induction false} NormaliseMoved(v: Json, env: Env, env': Env, owner: string, r: Renumbering)
    requires Renumbered(env, env', r)
    ensures Normalise(RenumberJson(v, owner, r), env', owner) == Normalise(v, env, owner)
  {
    match v
    case Arr(items) =>
      hide Renumbered;
      var items' := RenumberJson(v, owner, r).items;
      forall i | 0 <= i < |items|
        ensures Normalise(items'[i], env', owner) == Normalise(items[i], env, owner)
      {
        NormaliseMoved(items[i], env, env', owner, r);
      }
      NormaliseArrAgree(items, items', env, env', owner);
    case Obj(fields) =>
      TagMoved(fields, owner, r);
      var tag := TagOf(fields, owner);
      var fields' := RenumberJson(v, owner, r).fields;
      if tag.Reference? {
        KeyAtMoved(env, env', r, tag.kind, tag.modulePath, tag.index);
        hide TagOf, KeyAt, Renumbered;
      } else if tag.Untagged? {
        hide Renumbered, TagOf, Dropped;
        forall k | k in fields
          ensures Normalise(fields'[k], env', owner) == Normalise(fields[k], env, owner)
        {
          NormaliseMoved(fields[k], env, env', owner, r);
        }
        NormaliseObjAgree(fields, fields', env, env', owner);
      }
    case _ =>
  }

  /** Nor do the types a value mentions. */
  lemma {:induction false} TypeRefsMoved(v: Json, env: Env, env': Env, owner: string, r: Renumbering)
    requires Renumbered(env, env', r)
    ensures TypeRefsOk(RenumberJson(v, owner, r), env', owner) == TypeRefsOk(v, env, owner)
    ensures TypeRefs(RenumberJson(v, owner, r), env', owner) == TypeRefs(v, env, owner)
    decreases v, 1
  {
    match v
    case Arr(items) =>
      var items' := RenumberJson(v, owner, r).items;
      forall i | 0 <= i < |items|
        ensures TypeRefsOk(items'[i], env', owner) == TypeRefsOk(items[i], env, owner)
        ensures TypeRefs(items'[i], env', owner) == TypeRefs(items[i], env, owner)
      {
        TypeRefsMoved(items[i], env, env', owner, r);
      }
    case Obj(fields) =>
      TagMoved(fields, owner, r);
      var tag := TagOf(fields, owner);
      if tag.Reference? && tag.kind == Types {
        KeyAtMoved(env, env', r, tag.kind, tag.modulePath, tag.index);
      } else {
        TypeRefsMovedChildren(fields, env, env', owner, r);
      }
    case _ =>
  }

  lemma IndexIsNumber(fields: map<string, Json>, owner: string, r: Renumbering)
    requires TagOf(fields, owner).Reference?
    ensures var k := IndexName(TagOf(fields, owner).kind);
            k in fields && fields[k].Num? && RenumberJson(Obj(fields), owner, r).fields[k].Num?
  {
  }

  lemma {:induction false} TypeRefsMovedChildren(fields: map<string, Json>, env: Env, env': Env, owner: string, r: Renumbering)
    requires Renumbered(env, env', r)
    requires var tag := TagOf(fields, owner); !(tag.Reference? && tag.kind == Types)
    ensures TypeRefsOk(RenumberJson(Obj(fields), owner, r), env', owner) == TypeRefsOk(Obj(fields), env, owner)
    ensures TypeRefs(RenumberJson(Obj(fields), owner, r), env', owner) == TypeRefs(Obj(fields), env, owner)
    decreases Obj(fields), 0
  {
    TagMoved(fields, owner, r);
    var tag := TagOf(fields, owner);
    var fields' := RenumberJson(Obj(fields), owner, r).fields;
    hide TagOf, Renumbered, IndexName;
    forall k | k in fields
      ensures TypeRefsOk(fields'[k], env', owner) == TypeRefsOk(fields[k], env, owner)
      ensures TypeRefs(fields'[k], env', owner) == TypeRefs(fields[k], env, owner)
    {
      if tag.Reference? && k == IndexName(tag.kind) {
        IndexIsNumber(fields, owner, r);
      } else {
        TypeRefsMoved(fields[k], env, env', owner, r);
      }
    }
  }

  // ----- The graph and the preimage are unchanged -----

  lemma FieldsUntagged(fields: map<string, Json>, owner: string, r: Renumbering)
    requires "kind" !in fields
    ensures RenumberJson(Obj(fields), owner, r) == Obj(RenumberFields(fields, owner, r))
  {
  }

  lemma TargetValueMoved(target: Target, owner: string, r: Renumbering)
    requires Inverse(r)
    ensures RenumberJson(TargetValue(target), owner, r) == TargetValue(RenumberTarget(target, owner, r))
  {
    match target
    case LocalExecutable(i) =>
      var fields := TargetValue(target).fields;
      assert TagOf(fields, owner) == Reference(Executables, owner, i);
    case PublicationExecutable(m, i) =>
      var fields := TargetValue(target).fields;
      assert TagOf(fields, owner) == Reference(Executables, m, i);
    case OtherTarget(_) =>
  }

  lemma CallValueMoved(target: Target, call: map<string, Json>, owner: string, r: Renumbering)
    requires Inverse(r)
    ensures var inner := (call - {"kind"}) + map["target" := TargetValue(target)];
            RenumberJson(Obj(inner), owner, r) ==
            Obj((RenumberFields(call, owner, r) - {"kind"}) + map["target" := TargetValue(RenumberTarget(target, owner, r))])
  {
    hide TargetValue;
    TargetValueMoved(target, owner, r);
    var inner := (call - {"kind"}) + map["target" := TargetValue(target)];
    FieldsUntagged(inner, owner, r);
    assert RenumberFields(inner, owner, r) ==
           (RenumberFields(call, owner, r) - {"kind"}) + map["target" := TargetValue(RenumberTarget(target, owner, r))];
  }

  /** An object with one child besides a kind that is not a tag. */
  lemma WrapperMoved(kind: string, name: string, child: Json, owner: string, r: Renumbering)
    requires name != "kind" && TagOf(map["kind" := Text(kind), name := child], owner) == Untagged
    ensures RenumberJson(Obj(map["kind" := Text(kind), name := child]), owner, r) ==
            Obj(map["kind" := Text(kind), name := RenumberJson(child, owner, r)])
  {
    hide TagOf;
    var fields := map["kind" := Text(kind), name := child];
    assert RenumberFields(fields, owner, r) == map["kind" := Text(kind), name := RenumberJson(child, owner, r)];
  }

  lemma ExprValueMoved(expr: Expr, owner: string, r: Renumbering)
    requires Inverse(r)
    ensures RenumberJson(ExprValue(expr), owner, r) == ExprValue(RenumberExpr(expr, owner, r))
  {
    match expr
    case LoadConst(i) =>
      var fields := ExprValue(expr).fields;
      assert TagOf(fields, owner) == Reference(Constants, owner, i);
    case Call(target, call) =>
      hide RenumberJson, TargetValue;
      CallValueMoved(target, call, owner, r);
      WrapperMoved("call", "call", Obj((call - {"kind"}) + map["target" := TargetValue(target)]), owner, r);
    case OtherExpr(_) =>
  }

  lemma BodyValueMoved(d: Decl, owner: string, r: Renumbering)
    requires Inverse(r)
    ensures RenumberJson(BodyValue(d), owner, r) == BodyValue(RenumberDecl(d, owner, r))
  {
    var d' := RenumberDecl(d, owner, r);
    var fields := BodyValue(d).fields;
    FieldsUntagged(fields, owner, r);
    forall i | 0 <= i < |d.expressions|
      ensures RenumberJson(ExprValue(d.expressions[i]), owner, r) == ExprValue(d'.expressions[i])
    {
      ExprValueMoved(d.expressions[i], owner, r);
    }
    if d.expressions != [] {
      assert RenumberJson(Arr(ExprValues(d.expressions)), owner, r).items == ExprValues(d'.expressions);
    }
    assert RenumberFields(fields, owner, r) == BodyValue(d').fields;
  }

  lemma UntaggedMoved(fields: map<string, Json>, owner: string, r: Renumbering)
    requires TagOf(fields, owner) == Untagged
    ensures RenumberJson(Obj(fields), owner, r) == Obj(RenumberFields(fields, owner, r))
  {
  }

  lemma FieldsMerge(a: map<string, Json>, dropped: set<string>, b: map<string, Json>, owner: string, r: Renumbering)
    ensures RenumberFields((a - dropped) + b, owner, r) == (RenumberFields(a, owner, r) - dropped) + RenumberFields(b, owner, r)
  {
    hide RenumberJson;
  }

  lemma FieldsUpdate(fields: map<string, Json>, name: string, v: Json, owner: string, r: Renumbering)
    ensures RenumberFields(fields[name := v], owner, r) == RenumberFields(fields, owner, r)[name := RenumberJson(v, owner, r)]
  {
    hide RenumberJson;
  }

  lemma ExecutableTag(d: Decl, owner: string, r: Renumbering)
    ensures ("kind" in d.rest && d.rest["kind"] == Text("implMethod")) <==>
            ("kind" in RenumberDecl(d, owner, r).rest && RenumberDecl(d, owner, r).rest["kind"] == Text("implMethod"))
  {
  }

  lemma HeaderMoved(kind: Kind, d: Decl, owner: string, r: Renumbering)
    requires Inverse(r)
    ensures RenumberFields(Header(kind, d), owner, r) == Header(kind, RenumberDecl(d, owner, r))
  {
    BodyValueMoved(d, owner, r);
    hide BodyValue;
    match kind
    case Executables =>
      ExecutableTag(d, owner, r);
      var tag := Header(kind, d)["kind"];
      FieldsUpdate(map[], "kind", tag, owner, r);
      FieldsUpdate(map["kind" := tag], "symbol", Text(d.name), owner, r);
      FieldsUpdate(map["kind" := tag, "symbol" := Text(d.name)], "body", BodyValue(d), owner, r);
    case Constants =>
      FieldsUpdate(map[], "name", Text(d.name), owner, r);
      FieldsUpdate(map["name" := Text(d.name)], "body", BodyValue(d), owner, r);
    case Types =>
      FieldsUpdate(map[], "name", Text(d.name), owner, r);
  }

  /** Serialising a renumbered declaration is renumbering its serialisation. */
  lemma DeclValueMoved(kind: Kind, d: Decl, owner: string, r: Renumbering)
    requires Inverse(r)
    ensures RenumberJson(DeclValue(kind, d), owner, r) == DeclValue(kind, RenumberDecl(d, owner, r))
  {
    UntaggedMoved(DeclValue(kind, d).fields, owner, r);
    HeaderMoved(kind, d, owner, r);
    FieldsMerge(d.rest, {"kind"}, Header(kind, d), owner, r);
    hide Header;
  }

  lemma CodeRefsMoved(d: Decl, env: Env, env': Env, owner: string, r: Renumbering)
    requires Renumbered(env, env', r)
    ensures CodeRefsOk(RenumberDecl(d, owner, r).expressions, env', owner) == CodeRefsOk(d.expressions, env, owner)
    ensures CodeRefs(RenumberDecl(d, owner, r).expressions, env', owner) == CodeRefs(d.expressions, env, owner)
  {
    var exprs' := RenumberDecl(d, owner, r).expressions;
    forall i | 0 <= i < |d.expressions|
      ensures ExprRef(exprs'[i], owner).Reference? == ExprRef(d.expressions[i], owner).Reference?
      ensures ExprKey(exprs'[i], env', owner) == ExprKey(d.expressions[i], env, owner)
    {
      var ref := ExprRef(d.expressions[i], owner);
      if ref.Reference? {
        KeyAtMoved(env, env', r, ref.kind, ref.modulePath, ref.index);
      }
    }
  }

  /** One node of the graph: its edges, whether it succeeds, and its value. */
  lemma NodeMoved(env: Env, env': Env, r: Renumbering, key: Key)
    requires Renumbered(env, env', r)
    ensures Edges(env', key) == Edges(env, key)
    ensures NodeOk(env', key) == NodeOk(env, key)
    ensures NodeOk(env, key) ==> NodeValue(env', key) == NodeValue(env, key)
  {
    ResolveMoved(env, env', r, key);
    if Resolve(env, key).Some? {
      var d := Resolve(env, key).value;
      var v := DeclValue(key.kind, d);
      CodeRefsMoved(d, env, env', key.modulePath, r);
      DeclValueMoved(key.kind, d, key.modulePath, r);
      TypeRefsMoved(v, env, env', key.modulePath, r);
      NormaliseMoved(v, env, env', key.modulePath, r);
      hide RenumberJson, DeclValue, TypeRefs, TypeRefsOk, Normalise, CodeRefs, CodeRefsOk, RenumberDecl;
    }
  }

  /** The second environment treats what the first reaches in the same way. */
  ghost predicate AgreeOnReachable(env: Env, env': Env, roots: set<Key>) {
    forall k :: Reachable(Graph(env), roots, k) ==> Edges(env', k) == Edges(env, k) && SameNode(env, env', k)
  }

  ghost predicate SameNode(env: Env, env': Env, key: Key) {
    NodeOk(env, key) && NodeOk(env', key) && NodeValue(env', key) == NodeValue(env, key)
  }

  lemma ReachAgree(env: Env, env': Env, roots: set<Key>)
    requires AgreeOnReachable(env, env', roots)
    ensures forall k :: Reachable(Graph(env), roots, k) <==> Reachable(Graph(env'), roots, k)
    ensures AllOk(env', roots)
  {
    hide Edges, NodeOk, NodeValue;
    assert forall k :: Graph(env)(k) == Edges(env, k) && Graph(env')(k) == Edges(env', k);
    ReachableAgree(Graph(env), Graph(env'), roots);
  }

  lemma ReachableKeysAgree(env: Env, env': Env, roots: set<Key>, kind: Kind)
    requires AgreeOnReachable(env, env', roots)
    ensures ReachableKeys(env', roots, kind) == ReachableKeys(env, roots, kind)
  {
    ReachAgree(env, env', roots);
    hide Edges, NodeOk, NodeValue, AllKeys, Graph;
    forall k | Reachable(Graph(env), roots, k)
      ensures k in AllKeys(env) && k in AllKeys(env')
    {
      assert SameNode(env, env', k);
      OkInAllKeys(env, k);
      OkInAllKeys(env', k);
    }
  }

  /** Graphs that agree on what is reachable list the same entries. */
  lemma EntriesAgree(env: Env, env': Env, roots: set<Key>, kind: Kind)
    requires AgreeOnReachable(env, env', roots)
    ensures AllOk(env, roots) && AllOk(env', roots)
    ensures Entries(env', roots, kind) == Entries(env, roots, kind)
  {
    assert AllOk(env, roots) by {
      hide NodeOk, NodeValue, Graph, Edges;
    }
    ReachAgree(env, env', roots);
    ReachableKeysAgree(env, env', roots, kind);
    hide Edges, NodeOk, NodeValue, AllKeys, Graph;
    var keys := Arrange(ReachableKeys(env, roots, kind), KeyLess);
    forall i | 0 <= i < |keys|
      ensures NodeOk(env, keys[i]) && NodeOk(env', keys[i]) && NodeValue(env', keys[i]) == NodeValue(env, keys[i])
    {
      assert keys[i] in keys;
      assert keys[i] in ReachableKeys(env, roots, kind);
      assert SameNode(env, env', keys[i]);
    }
    assert EntriesFor(env', keys) == EntriesFor(env, keys);
  }

  // ----- Unit order -----

  ghost predicate OneUnitPerModule(units: seq<Unit>) {
    forall u, v :: u in units && v in units && u.modulePath == v.modulePath ==> u == v
  }

  ghost predicate IndexesUnits(env: Env, units: seq<Unit>) {
    && (forall u :: u in units ==> u.modulePath in env && env[u.modulePath] == u)
    && (forall m :: m in env ==> env[m] in units && env[m].modulePath == m)
  }

  lemma {:induction false} IndexUnitsSpec(units: seq<Unit>)
    ensures IndexUnits(units).Some? <==> NoDuplicates(units) && OneUnitPerModule(units)
    ensures IndexUnits(units).Some? ==> IndexesUnits(IndexUnits(units).value, units)
  {
    if units != [] {
      var n := |units| - 1;
      var rest := units[..n];
      IndexUnitsSpec(rest);
      assert units == rest + [units[n]];
      IndexStep(rest, units[n]);
    }
  }

  lemma IndexStep(rest: seq<Unit>, u: Unit)
    ensures NoDuplicates(rest + [u]) <==> NoDuplicates(rest) && u !in rest
    ensures OneUnitPerModule(rest + [u]) <==> OneUnitPerModule(rest) && forall v :: v in rest && v.modulePath == u.modulePath ==> v == u
  {
    var all := rest + [u];
    assert forall i :: 0 <= i < |rest| ==> all[i] == rest[i];
    assert all[|rest|] == u;
    assert forall v :: v in all <==> v in rest || v == u;
  }

  lemma IndexUnitsPermutation(units: seq<Unit>, units': seq<Unit>)
    requires multiset(units) == multiset(units')
    ensures IndexUnits(units) == IndexUnits(units')
  {
    IndexUnitsSpec(units);
    IndexUnitsSpec(units');
    NoDuplicatesMultiset(units);
    NoDuplicatesMultiset(units');
    forall u
      ensures u in units <==> u in units'
    {
      assert u in units <==> u in multiset(units);
      assert u in units' <==> u in multiset(units');
    }
    if IndexUnits(units).Some? {
      var env, env' := IndexUnits(units).value, IndexUnits(units').value;
      assert env.Keys == env'.Keys;
      assert env == env';
    }
  }


  // ----- Main results -----

  lemma {:induction false} FindActorMoved(actors: seq<Actor>, name: string, owner: string, r: Renumbering)
    ensures FindActor(RenumberActors(actors, owner, r), name) ==
            match FindActor(actors, name)
            case None => None
            case Some(a) => Some(RenumberActor(a, owner, r))
  {
    if actors != [] {
      FindActorMoved(actors[1..], name, owner, r);
      assert RenumberActors(actors, owner, r)[1..] == RenumberActors(actors[1..], owner, r);
    }
  }

  lemma RootsMoved(env: Env, env': Env, r: Renumbering, m: string, actor: Actor)
    requires Renumbered(env, env', r)
    ensures ActorOk(RenumberActor(actor, m, r)) == ActorOk(actor)
    ensures RootsOk(env', m, RenumberActor(actor, m, r)) == RootsOk(env, m, actor)
    ensures RootsOk(env, m, actor) ==> Roots(env', m, RenumberActor(actor, m, r)) == Roots(env, m, actor)
  {
    hide Renumbered;
    var actor' := RenumberActor(actor, m, r);
    assert actor'.methodImplementations.Keys == actor.methodImplementations.Keys;
    forall id | id in RootIndices(actor)
      ensures id in RootIndices(actor')
      ensures KeyAt(env', Executables, m, RootIndices(actor')[id]) == KeyAt(env, Executables, m, RootIndices(actor)[id])
    {
      KeyAtMoved(env, env', r, Executables, m, RootIndices(actor)[id]);
    }
    assert RootIndices(actor').Keys == RootIndices(actor).Keys;
  }

  lemma AllOkMoved(env: Env, env': Env, r: Renumbering, roots: set<Key>)
    requires Renumbered(env, env', r)
    ensures AllOk(env', roots) == AllOk(env, roots)
    ensures AllOk(env, roots) ==> AgreeOnReachable(env, env', roots)
  {
    forall k
      ensures Graph(env')(k) == Graph(env)(k) && NodeOk(env', k) == NodeOk(env, k)
      ensures NodeOk(env, k) ==> SameNode(env, env', k)
    {
      NodeMoved(env, env', r, k);
      hide Edges, NodeOk, NodeValue, Renumbered;
    }
    hide NodeOk, NodeValue, Renumbered;
    ReachableAgree(Graph(env), Graph(env'), roots);
  }

  /** Renumbering the tables of indexed units leaves the preimage, or the failure, unchanged. */
  lemma PreimageRenumbered(env: Env, env': Env, r: Renumbering, modulePath: string, actorName: string)
    requires Renumbered(env, env', r)
    ensures PreimageIn(env', modulePath, actorName) == PreimageIn(env, modulePath, actorName)
  {
    if modulePath in env {
      FindActorMoved(env[modulePath].actors, actorName, modulePath, r);
      var found := FindActor(env[modulePath].actors, actorName);
      assert FindActor(env'[modulePath].actors, actorName) ==
             match found case None => None case Some(a) => Some(RenumberActor(a, modulePath, r));
      hide Renumbered;
      if found.Some? {
        RootsMoved(env, env', r, modulePath, found.value);
        if ActorOk(found.value) && RootsOk(env, modulePath, found.value) {
          var roots := Roots(env, modulePath, found.value).Values;
          AllOkMoved(env, env', r, roots);
          if AllOk(env, roots) {
            EntriesAgree(env, env', roots, Executables);
            EntriesAgree(env, env', roots, Constants);
            EntriesAgree(env, env', roots, Types);
          }
          hide AllOk, Entries, AgreeOnReachable;
        }
        hide ActorOk, RootsOk, Roots, RenumberActor, AllOk, Entries;
      }
    }
  }

  ghost function RenumberUnits(units: seq<Unit>, r: Renumbering): (units': seq<Unit>)
    requires Inverse(r) && forall u :: u in units ==> Permutes(r, u)
  {
    seq(|units|, i requires 0 <= i < |units| => RenumberUnit(units[i], r))
  }

  lemma {:induction false} IndexRenumbered(units: seq<Unit>, r: Renumbering)
    requires Inverse(r) && forall u :: u in units ==> Permutes(r, u)
    ensures IndexUnits(RenumberUnits(units, r)).Some? <==> IndexUnits(units).Some?
    ensures IndexUnits(units).Some? ==> Renumbered(IndexUnits(units).value, IndexUnits(RenumberUnits(units, r)).value, r)
  {
    if units != [] {
      var n := |units| - 1;
      IndexRenumbered(units[..n], r);
      hide RenumberUnit, Permutes, Inverse, Renumbered;
      assert RenumberUnits(units, r)[..n] == RenumberUnits(units[..n], r);
      assert units[n] in units;
      if IndexUnits(units[..n]).Some? {
        RenumberedAdd(IndexUnits(units[..n]).value, IndexUnits(RenumberUnits(units[..n], r)).value, r, units[n]);
      }
    }
  }

  lemma RenumberedAdd(env: Env, env': Env, r: Renumbering, u: Unit)
    requires Renumbered(env, env', r) && Inverse(r) && Permutes(r, u)
    ensures env.Keys == env'.Keys && RenumberUnit(u, r).modulePath == u.modulePath
    ensures Renumbered(env[u.modulePath := u], env'[u.modulePath := RenumberUnit(u, r)], r)
  {
    assert RenumberUnit(u, r).modulePath == u.modulePath;
    hide RenumberUnit, Permutes, Inverse;
  }

  /** Table order and unit order never reach the identity: for every consistent
      permutation of the executable, constant and type tables and every reordering of
      the units, both runs fail or both produce the same preimage. */
  lemma PreimageIgnoresOrder(units: seq<Unit>, units': seq<Unit>, r: Renumbering, modulePath: string, actorName: string)
    requires Inverse(r) && forall u :: u in units ==> Permutes(r, u)
    requires multiset(units') == multiset(RenumberUnits(units, r))
    ensures PreimageOf(units', modulePath, actorName) == PreimageOf(units, modulePath, actorName)
  {
    IndexUnitsPermutation(units', RenumberUnits(units, r));
    IndexRenumbered(units, r);
    if IndexUnits(units).Some? {
      PreimageRenumbered(IndexUnits(units).value, IndexUnits(RenumberUnits(units, r)).value, r, modulePath, actorName);
    }
  }

  // ----- Unreachable declarations -----

  /** Every table position of `env` names the same declaration in `env'`. */
  ghost predicate KeepsPositions(env: Env, env': Env) {
    forall kind, m, i: nat :: KeyAt(env, kind, m, i).Some? ==> KeyAt(env', kind, m, i) == KeyAt(env, kind, m, i)
  }

  lemma {:induction false} NormaliseKept(v: Json, env: Env, env': Env, owner: string)
    requires KeepsPositions(env, env') && Normalise(v, env, owner).Some?
    ensures Normalise(v, env', owner) == Normalise(v, env, owner)
  {
    match v
    case Arr(items) =>
      forall i | 0 <= i < |items|
        ensures Normalise(items[i], env', owner) == Normalise(items[i], env, owner)
      {
        NormaliseKept(items[i], env, env', owner);
      }
      NormaliseArrAgree(items, items, env, env', owner);
    case Obj(fields) =>
      if TagOf(fields, owner).Untagged? {
        hide TagOf, KeepsPositions;
        forall k | k in fields && !Dropped(fields, k)
          ensures Normalise(fields[k], env', owner) == Normalise(fields[k], env, owner)
        {
          NormaliseKept(fields[k], env, env', owner);
        }
        hide Dropped;
        assert Normalise(v, env', owner).Some?;
        assert Normalise(v, env', owner).value.fields == Normalise(v, env, owner).value.fields;
      }
    case _ =>
  }

  lemma {:induction false} TypeRefsKept(v: Json, env: Env, env': Env, owner: string)
    requires KeepsPositions(env, env') && TypeRefsOk(v, env, owner)
    ensures TypeRefsOk(v, env', owner) && TypeRefs(v, env', owner) == TypeRefs(v, env, owner)
  {
    match v
    case Arr(items) =>
      forall i | 0 <= i < |items|
        ensures TypeRefsOk(items[i], env', owner) && TypeRefs(items[i], env', owner) == TypeRefs(items[i], env, owner)
      {
        TypeRefsKept(items[i], env, env', owner);
      }
    case Obj(fields) =>
      var tag := TagOf(fields, owner);
      hide TagOf;
      if !(tag.Reference? && tag.kind == Types) {
        forall k | k in fields
          ensures TypeRefsOk(fields[k], env', owner) && TypeRefs(fields[k], env', owner) == TypeRefs(fields[k], env, owner)
        {
          TypeRefsKept(fields[k], env, env', owner);
        }
      }
    case _ =>
  }

  lemma CodeRefsKept(exprs: seq<Expr>, env: Env, env': Env, owner: string)
    requires KeepsPositions(env, env') && CodeRefsOk(exprs, env, owner)
    ensures CodeRefsOk(exprs, env', owner) && CodeRefs(exprs, env', owner) == CodeRefs(exprs, env, owner)
  {
    forall i | 0 <= i < |exprs|
      ensures ExprKey(exprs[i], env', owner) == ExprKey(exprs[i], env, owner)
    {
    }
    hide ExprKey, KeepsPositions;
  }

  lemma NodeKept(env: Env, env': Env, key: Key)
    requires KeepsPositions(env, env') && NodeOk(env, key) && Resolve(env', key) == Resolve(env, key)
    ensures Edges(env', key) == Edges(env, key) && SameNode(env, env', key)
  {
    var d := Resolve(env, key).value;
    var v := DeclValue(key.kind, d);
    if key.kind != Types {
      CodeRefsKept(d.expressions, env, env', key.modulePath);
    }
    TypeRefsKept(v, env, env', key.modulePath);
    NormaliseKept(v, env, env', key.modulePath);
    hide DeclValue, TypeRefs, TypeRefsOk, Normalise, CodeRefs, CodeRefsOk, KeepsPositions, Resolve;
  }

  /** What the actor does not reach does not matter: new units, declarations appended
      to tables and changed bodies of unreachable declarations leave a successful
      preimage as it was. */
  lemma PreimageIgnoresUnreachable(env: Env, env': Env, modulePath: string, actorName: string)
    requires PreimageIn(env, modulePath, actorName).Some?
    requires KeepsPositions(env, env')
    requires modulePath in env' && env'[modulePath].actors == env[modulePath].actors
    requires var roots := PreimageIn(env, modulePath, actorName).value.roots.Values;
             forall k :: Reachable(Graph(env), roots, k) ==> Resolve(env', k) == Resolve(env, k)
    ensures PreimageIn(env', modulePath, actorName) == PreimageIn(env, modulePath, actorName)
  {
    var actor := FindActor(env[modulePath].actors, actorName).value;
    var roots := Roots(env, modulePath, actor);
    assert RootsOk(env', modulePath, actor) && Roots(env', modulePath, actor) == roots;
    forall k | Reachable(Graph(env), roots.Values, k)
      ensures Edges(env', k) == Edges(env, k) && SameNode(env, env', k)
    {
      NodeKept(env, env', k);
    }
    hide Edges, SameNode, NodeOk, Resolve, Graph, KeepsPositions;
    EntriesAgree(env, env', roots.Values, Executables);
    EntriesAgree(env, env', roots.Values, Constants);
    EntriesAgree(env, env', roots.Values, Types);
  }

  lemma {:induction false} TypeRefsSame(v: Json, env: Env, env': Env, owner: string)
    requires forall kind, m, i: nat :: KeyAt(env', kind, m, i) == KeyAt(env, kind, m, i)
    ensures TypeRefs(v, env', owner) == TypeRefs(v, env, owner)
  {
    match v
    case Arr(items) =>
      forall i | 0 <= i < |items|
        ensures TypeRefs(items[i], env', owner) == TypeRefs(items[i], env, owner)
      {
        TypeRefsSame(items[i], env, env', owner);
      }
    case Obj(fields) =>
      forall k | k in fields
        ensures TypeRefs(fields[k], env', owner) == TypeRefs(fields[k], env, owner)
      {
        TypeRefsSame(fields[k], env, env', owner);
      }
      hide TagOf, KeyAt;
    case _ =>
  }

  /** With the same positions, a declaration leads to the same others whether or not its own
      references resolve. */
  lemma EdgesSame(env: Env, env': Env, key: Key)
    requires KeepsPositions(env, env') && KeepsPositions(env', env) && Resolve(env', key) == Resolve(env, key)
    ensures Edges(env', key) == Edges(env, key)
  {
    SamePositions(env, env');
    if Resolve(env, key).Some? {
      var d := Resolve(env, key).value;
      TypeRefsSame(DeclValue(key.kind, d), env, env', key.modulePath);
      forall i | 0 <= i < |d.expressions|
        ensures ExprKey(d.expressions[i], env', key.modulePath) == ExprKey(d.expressions[i], env, key.modulePath)
      {
      }
      hide ExprKey, KeyAt, KeepsPositions, TypeRefs, DeclValue, Resolve;
      assert CodeRefs(d.expressions, env', key.modulePath) == CodeRefs(d.expressions, env, key.modulePath);
    }
  }

  lemma SamePositions(env: Env, env': Env)
    requires KeepsPositions(env, env') && KeepsPositions(env', env)
    ensures forall kind, m, i: nat :: KeyAt(env', kind, m, i) == KeyAt(env, kind, m, i)
  {
    hide KeyAt;
  }

  /** Both environments hold the actor, and agree on everything it reaches in the first. */
  ghost predicate AgreesForActor(env: Env, env': Env, modulePath: string, actorName: string) {
    && (modulePath in env <==> modulePath in env')
    && (modulePath in env ==>
          && env'[modulePath].actors == env[modulePath].actors
          && (match FindActor(env[modulePath].actors, actorName)
              case None => true
              case Some(actor) => RootsOk(env, modulePath, actor) ==>
                forall k :: Reachable(Graph(env), Roots(env, modulePath, actor).Values, k) ==> Resolve(env', k) == Resolve(env, k)))
  }

  /** With the same positions, changing what the actor does not reach changes neither its
      preimage nor the failure to have one. */
  lemma PreimageAndFailureIgnoreUnreachable(env: Env, env': Env, modulePath: string, actorName: string)
    requires KeepsPositions(env, env') && KeepsPositions(env', env)
    requires AgreesForActor(env, env', modulePath, actorName)
    ensures PreimageIn(env', modulePath, actorName) == PreimageIn(env, modulePath, actorName)
  {
    if PreimageIn(env, modulePath, actorName).Some? {
      PreimageIgnoresUnreachable(env, env', modulePath, actorName);
    } else if PreimageIn(env', modulePath, actorName).Some? {
      var actor := FindActor(env'[modulePath].actors, actorName).value;
      SamePositions(env, env');
      SameRoots(env, env', modulePath, actor);
      var roots := Roots(env, modulePath, actor).Values;
      forall k | Reachable(Graph(env), roots, k)
        ensures Graph(env')(k) == Graph(env)(k)
      {
        EdgesSame(env, env', k);
        hide Edges;
      }
      ReachableAgree(Graph(env), Graph(env'), roots);
      hide KeyAt, KeepsPositions, Reachable, Resolve, RootsOk, Roots, Edges, Graph, Entries, AllOk;
      PreimageIgnoresUnreachable(env', env, modulePath, actorName);
    }
  }

  lemma SameRoots(env: Env, env': Env, modulePath: string, actor: Actor)
    requires forall kind, m, i: nat :: KeyAt(env', kind, m, i) == KeyAt(env, kind, m, i)
    ensures RootsOk(env', modulePath, actor) == RootsOk(env, modulePath, actor)
    ensures RootsOk(env, modulePath, actor) ==> Roots(env', modulePath, actor) == Roots(env, modulePath, actor)
  {
    hide KeyAt, RootIndices;
  }
}
