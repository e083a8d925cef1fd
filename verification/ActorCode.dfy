/** What the actor preimage does depend on: two preimages are equal exactly when the actors
    have the same roots and every declaration they reach is the same code.

    Sameness is defined on the serialised values themselves, by the node shapes that the
    rewrite looks for, and does not mention the rewrite. */
module ActorCode {
  import opened Wrappers
  import opened JsonValues
  import opened Sorting
  import opened Reachability
  import opened ActorIdentity
  import ActorSelfContained

  // ----- References -----

  predicate HasKind(fields: map<string, Json>, kind: string) {
    "kind" in fields && fields["kind"] == Str(kind)
  }

  predicate HasModule(fields: map<string, Json>, m: string) {
    "modulePath" in fields && fields["modulePath"] == Str(m)
  }

  /** The field is a number of 64 bits whose low 32 bits are the position. */
  predicate HasIndex(fields: map<string, Json>, name: string, i: nat) {
    && name in fields && fields[name].Num? && fields[name].number.Int?
    && 0 <= fields[name].number.n < 0x1_0000_0000_0000_0000
    && i == fields[name].number.n % 0x1_0000_0000
  }

  /** The object stands for position `i` of a table of module `m`. */
  predicate RefersTo(fields: map<string, Json>, owner: string, kind: Kind, m: string, i: nat) {
    match kind
    case Executables =>
      && HasIndex(fields, "executableIndex", i)
      && ((HasKind(fields, "localExecutable") && m == owner) || (HasKind(fields, "publicationExecutable") && HasModule(fields, m)))
    case Constants =>
      HasIndex(fields, "constIndex", i) && HasKind(fields, "loadConst") && m == owner
    case Types =>
      && HasIndex(fields, "typeIndex", i)
      && ((HasKind(fields, "localType") && m == owner) || (HasKind(fields, "publicationType") && HasModule(fields, m)))
  }

  ghost predicate IsReference(fields: map<string, Json>, owner: string) {
    exists kind, m, i :: RefersTo(fields, owner, kind, m, i)
  }

  /** A load of a constant that does not say which. */
  ghost predicate IsBroken(fields: map<string, Json>) {
    HasKind(fields, "loadConst") && forall i :: !HasIndex(fields, "constIndex", i)
  }

  /** The declaration at a table position has this key. */
  predicate NamedAt(env: Env, kind: Kind, m: string, i: nat, key: Key) {
    m in env && i < |env[m].Table(kind)| && key == Key(kind, m, env[m].Table(kind)[i].name)
  }

  ghost predicate Names(fields: map<string, Json>, env: Env, owner: string, key: Key) {
    exists i :: RefersTo(fields, owner, key.kind, key.modulePath, i) && NamedAt(env, key.kind, key.modulePath, i, key)
  }

  /** Members that the preimage leaves out. */
  predicate Visible(fields: map<string, Json>, name: string) {
    name != "sourceSpan" && !(name == "actorImplementationIdentity" && HasKind(fields, "actorMethod"))
  }

  lemma TagExactly(fields: map<string, Json>, owner: string)
    ensures forall kind, m, i: U32 :: TagOf(fields, owner) == Reference(kind, m, i) <==> RefersTo(fields, owner, kind, m, i)
    ensures TagOf(fields, owner).Reference? <==> IsReference(fields, owner)
    ensures TagOf(fields, owner).Malformed? <==> IsBroken(fields)
    ensures forall name :: Dropped(fields, name) <==> !Visible(fields, name)
  {
    var tag := TagOf(fields, owner);
    assert forall kind, m, i: nat :: RefersTo(fields, owner, kind, m, i) ==> i < U32_LIMIT;
    if tag.Reference? {
      assert RefersTo(fields, owner, tag.kind, tag.modulePath, tag.index);
    }
    if HasKind(fields, "loadConst") && !tag.Reference? {
      assert IndexField(fields, "constIndex").None?;
    }
  }

  lemma NamesExactly(fields: map<string, Json>, env: Env, owner: string)
    ensures var tag := TagOf(fields, owner);
            forall key :: Names(fields, env, owner, key) <==>
              tag.Reference? && KeyAt(env, tag.kind, tag.modulePath, tag.index) == Some(key)
  {
    TagExactly(fields, owner);
    var tag := TagOf(fields, owner);
    forall key
      ensures Names(fields, env, owner, key) <==> tag.Reference? && KeyAt(env, tag.kind, tag.modulePath, tag.index) == Some(key)
    {
      if Names(fields, env, owner, key) {
        var i :| RefersTo(fields, owner, key.kind, key.modulePath, i) && NamedAt(env, key.kind, key.modulePath, i, key);
        assert IsReference(fields, owner);
        hide TagOf, RefersTo;
        assert tag == Reference(key.kind, key.modulePath, i);
      }
      if tag.Reference? && KeyAt(env, tag.kind, tag.modulePath, tag.index) == Some(key) {
        hide TagOf, RefersTo;
        assert RefersTo(fields, owner, key.kind, key.modulePath, tag.index);
      }
    }
  }

  // ----- When the rewrite succeeds -----

  /** Every reference in sight names a declaration, and no constant load is without one. */
  ghost predicate Readable(v: Json, env: Env, owner: string) {
    match v
    case Arr(items) => forall i :: 0 <= i < |items| ==> Readable(items[i], env, owner)
    case Obj(fields) =>
      if IsReference(fields, owner) then exists key :: Names(fields, env, owner, key)
      else
        && !IsBroken(fields)
        && forall name :: name in fields && Visible(fields, name) ==> Readable(fields[name], env, owner)
    case _ => true
  }

  lemma {:induction false} RewrittenExactly(v: Json, env: Env, owner: string)
    ensures Normalise(v, env, owner).Some? <==> Readable(v, env, owner)
  {
    match v
    case Arr(items) =>
      forall i | 0 <= i < |items|
        ensures Normalise(items[i], env, owner).Some? <==> Readable(items[i], env, owner)
      {
        RewrittenExactly(items[i], env, owner);
      }
    case Obj(fields) =>
      TagExactly(fields, owner);
      NamesExactly(fields, env, owner);
      hide TagOf, Dropped, Visible, IsReference, IsBroken, Names;
      forall name | name in fields
        ensures Normalise(fields[name], env, owner).Some? <==> Readable(fields[name], env, owner)
      {
        RewrittenExactly(fields[name], env, owner);
      }
      var tag := TagOf(fields, owner);
      if tag.Reference? && KeyAt(env, tag.kind, tag.modulePath, tag.index).Some? {
        assert Names(fields, env, owner, KeyAt(env, tag.kind, tag.modulePath, tag.index).value);
      }
    case _ =>
  }

  // ----- The same code -----

  /** What a reference to the key is rewritten to. */
  function Pose(key: Key): map<string, Json> {
    match key.kind
    case Executables => map["kind" := Str("canonicalExecutable"), "modulePath" := Str(key.modulePath), "symbol" := Str(key.name)]
    case Constants => map["kind" := Str("canonicalConstant"), "modulePath" := Str(key.modulePath), "name" := Str(key.name)]
    case Types => map["kind" := Str("canonicalType"), "modulePath" := Str(key.modulePath), "name" := Str(key.name)]
  }

  /** The value is a reference to the key, or has the shape of a rewritten one already. */
  ghost predicate StandsFor(v: Json, env: Env, owner: string, key: Key) {
    v.Obj? && (Names(v.fields, env, owner, key) || v.fields - {"sourceSpan"} == Pose(key))
  }

  /** The two values, each seen from its own module, are the same code. */
  ghost predicate SameCode(v: Json, env: Env, owner: string, w: Json, env': Env, owner': string)
    decreases v
  {
    if exists key :: StandsFor(v, env, owner, key) || StandsFor(w, env', owner', key) then
      exists key :: StandsFor(v, env, owner, key) && StandsFor(w, env', owner', key)
    else
      match (v, w)
      case (Arr(a), Arr(b)) => |a| == |b| && forall i :: 0 <= i < |a| ==> SameCode(a[i], env, owner, b[i], env', owner')
      case (Obj(a), Obj(b)) =>
        && (forall name :: name in a && Visible(a, name) <==> name in b && Visible(b, name))
        && (forall name :: name in a && Visible(a, name) && name in b ==> SameCode(a[name], env, owner, b[name], env', owner'))
      case _ => v == w
  }

  lemma PoseIsNode(key: Key)
    ensures CanonicalNode(key) == Obj(Pose(key))
    ensures forall other :: Pose(other) == Pose(key) ==> other == key
  {
    forall other | Pose(other) == Pose(key)
      ensures other == key
    {
      var name := if key.kind == Executables then "symbol" else "name";
      assert Pose(other)["kind"] == Pose(key)["kind"] && Pose(other)["modulePath"] == Pose(key)["modulePath"];
      assert Pose(other)[name] == Pose(key)[name];
    }
  }

  lemma PoseUntagged(fields: map<string, Json>, owner: string, key: Key)
    requires fields - {"sourceSpan"} == Pose(key)
    ensures !IsReference(fields, owner) && !IsBroken(fields)
    ensures forall name :: name in fields && Visible(fields, name) <==> name in Pose(key)
    ensures forall name :: name in Pose(key) ==> fields[name] == Pose(key)[name] && fields[name].Str?
  {
    assert forall name :: name in Pose(key) ==> name in fields && fields[name] == Pose(key)[name];
  }

  /** A rewritten string was that string. */
  lemma StringsStay(v: Json, env: Env, owner: string)
    requires Normalise(v, env, owner).Some?
    ensures Normalise(v, env, owner).value.Str? ==> Normalise(v, env, owner).value == v
  {
  }

  /** What an object that is no reference becomes. */
  lemma Rewritten(fields: map<string, Json>, env: Env, owner: string)
    requires !IsReference(fields, owner) && Normalise(Obj(fields), env, owner).Some?
    ensures var r := Normalise(Obj(fields), env, owner).value;
            && r.Obj?
            && (forall name :: name in r.fields <==> name in fields && Visible(fields, name))
            && (forall name :: name in r.fields ==> Normalise(fields[name], env, owner) == Some(r.fields[name]))
  {
    TagExactly(fields, owner);
    hide TagOf, Dropped, Visible;
  }

  /** An object is rewritten to the node of a key exactly if it stands for it. */
  lemma RewrittenToNode(v: Json, env: Env, owner: string, key: Key)
    requires Normalise(v, env, owner).Some?
    ensures Normalise(v, env, owner).value == Obj(Pose(key)) <==> StandsFor(v, env, owner, key)
  {
    if v.Obj? {
      var fields := v.fields;
      TagExactly(fields, owner);
      NamesExactly(fields, env, owner);
      PoseIsNode(key);
      if IsReference(fields, owner) {
        var tag := TagOf(fields, owner);
        var named := KeyAt(env, tag.kind, tag.modulePath, tag.index).value;
        PoseIsNode(named);
        if fields - {"sourceSpan"} == Pose(key) {
          PoseUntagged(fields, owner, key);
        }
        hide TagOf, Pose, IsReference;
      } else {
        UntaggedToNode(fields, env, owner, key);
        hide TagOf, Pose, Names, RefersTo;
      }
    }
  }

  lemma UntaggedToNode(fields: map<string, Json>, env: Env, owner: string, key: Key)
    requires !IsReference(fields, owner) && Normalise(Obj(fields), env, owner).Some?
    ensures Normalise(Obj(fields), env, owner).value == Obj(Pose(key)) <==> fields - {"sourceSpan"} == Pose(key)
  {
    Rewritten(fields, env, owner);
    var r := Normalise(Obj(fields), env, owner).value.fields;
    if r == Pose(key) {
      NodePosed(fields, env, owner, key, r);
    }
    if fields - {"sourceSpan"} == Pose(key) {
      PoseUntagged(fields, owner, key);
      hide Pose, IsReference, Visible;
      forall name | name in r
        ensures r[name] == Pose(key)[name]
      {
        StringKept(fields[name], env, owner);
      }
      assert r == Pose(key);
    }
  }

  lemma NodePosed(fields: map<string, Json>, env: Env, owner: string, key: Key, r: map<string, Json>)
    requires r == Pose(key)
    requires forall name :: name in r <==> name in fields && Visible(fields, name)
    requires forall name :: name in r ==> Normalise(fields[name], env, owner) == Some(r[name])
    ensures fields - {"sourceSpan"} == Pose(key)
  {
    forall name | name in r
      ensures fields[name] == r[name]
    {
      StringsStay(fields[name], env, owner);
    }
    hide Normalise;
    assert fields["kind"] == Pose(key)["kind"];
  }

  lemma StringKept(v: Json, env: Env, owner: string)
    requires v.Str?
    ensures Normalise(v, env, owner) == Some(v)
  {
  }

  /** A value that stands for a key is the same code as exactly those that stand for it too. */
  lemma StandingAlike(v: Json, env: Env, owner: string, w: Json, env': Env, owner': string, key: Key)
    requires Normalise(v, env, owner).Some? && Normalise(w, env', owner').Some?
    requires StandsFor(v, env, owner, key) || StandsFor(w, env', owner', key)
    ensures Normalise(v, env, owner) == Normalise(w, env', owner') <==> SameCode(v, env, owner, w, env', owner')
  {
    forall k
      ensures Normalise(v, env, owner).value == Obj(Pose(k)) <==> StandsFor(v, env, owner, k)
      ensures Normalise(w, env', owner').value == Obj(Pose(k)) <==> StandsFor(w, env', owner', k)
    {
      RewrittenToNode(v, env, owner, k);
      RewrittenToNode(w, env', owner', k);
    }
    hide Normalise, StandsFor, Pose;
    if k :| StandsFor(v, env, owner, k) && StandsFor(w, env', owner', k) {
    }
  }

  lemma NotReference(v: Json, env: Env, owner: string)
    requires v.Obj? && Normalise(v, env, owner).Some? && forall key :: !StandsFor(v, env, owner, key)
    ensures !IsReference(v.fields, owner)
  {
    RewrittenExactly(v, env, owner);
    assert forall key :: Names(v.fields, env, owner, key) ==> StandsFor(v, env, owner, key);
    hide StandsFor, Names, IsReference;
  }

  lemma ItemsAlike(a: seq<Json>, env: Env, owner: string, b: seq<Json>, env': Env, owner': string)
    requires |a| == |b| && Normalise(Arr(a), env, owner).Some? && Normalise(Arr(b), env', owner').Some?
    ensures Normalise(Arr(a), env, owner) == Normalise(Arr(b), env', owner') <==>
            forall i :: 0 <= i < |a| ==> Normalise(a[i], env, owner) == Normalise(b[i], env', owner')
  {
    var r, s := Normalise(Arr(a), env, owner).value.items, Normalise(Arr(b), env', owner').value.items;
    assert forall i :: 0 <= i < |a| ==> Some(r[i]) == Normalise(a[i], env, owner) && Some(s[i]) == Normalise(b[i], env', owner');
    hide Normalise;
    if forall i :: 0 <= i < |a| ==> Normalise(a[i], env, owner) == Normalise(b[i], env', owner') {
      assert r == s;
    }
  }

  lemma MembersAlike(a: map<string, Json>, env: Env, owner: string, b: map<string, Json>, env': Env, owner': string)
    requires Normalise(Obj(a), env, owner).Some? && Normalise(Obj(b), env', owner').Some?
    requires !IsReference(a, owner) && !IsReference(b, owner')
    ensures Normalise(Obj(a), env, owner) == Normalise(Obj(b), env', owner') <==>
            && (forall name :: name in a && Visible(a, name) <==> name in b && Visible(b, name))
            && (forall name :: name in a && Visible(a, name) && name in b ==> Normalise(a[name], env, owner) == Normalise(b[name], env', owner'))
  {
    Rewritten(a, env, owner);
    Rewritten(b, env', owner');
    var r, s := Normalise(Obj(a), env, owner).value.fields, Normalise(Obj(b), env', owner').value.fields;
    hide Normalise, IsReference, Visible;
    if && (forall name :: name in a && Visible(a, name) <==> name in b && Visible(b, name))
       && (forall name :: name in a && Visible(a, name) && name in b ==> Normalise(a[name], env, owner) == Normalise(b[name], env', owner')) {
      assert forall name :: name in r ==> name in s && r[name] == s[name];
      assert r == s;
    }
  }

  /** Unless it is an object, a value keeps its form; scalars stay as they are. */
  lemma FormKept(v: Json, env: Env, owner: string)
    requires Normalise(v, env, owner).Some?
    ensures var r := Normalise(v, env, owner).value;
            && (v.Obj? <==> r.Obj?) && (v.Arr? <==> r.Arr?)
            && (!v.Obj? && !v.Arr? ==> r == v)
  {
  }

  /** Two values are rewritten to the same value exactly if they are the same code. */
  lemma {:induction false} RewrittenAlike(v: Json, env: Env, owner: string, w: Json, env': Env, owner': string)
    requires Normalise(v, env, owner).Some? && Normalise(w, env', owner').Some?
    ensures Normalise(v, env, owner) == Normalise(w, env', owner') <==> SameCode(v, env, owner, w, env', owner')
    decreases v, 1
  {
    hide StandsFor, IsReference, Visible;
    if key :| StandsFor(v, env, owner, key) || StandsFor(w, env', owner', key) {
      StandingAlike(v, env, owner, w, env', owner', key);
    } else {
      match (v, w)
      case (Arr(a), Arr(b)) =>
        if |a| == |b| {
          forall i | 0 <= i < |a|
            ensures Normalise(a[i], env, owner) == Normalise(b[i], env', owner') <==> SameCode(a[i], env, owner, b[i], env', owner')
          {
            RewrittenAlike(a[i], env, owner, b[i], env', owner');
          }
          ItemsAlike(a, env, owner, b, env', owner');
        } else {
          assert |Normalise(v, env, owner).value.items| == |a|;
        }
      case (Obj(a), Obj(b)) =>
        ObjectsAlike(a, env, owner, b, env', owner');
      case _ =>
        FormKept(v, env, owner);
        FormKept(w, env', owner');
    }
  }

  lemma {:induction false} ObjectsAlike(
    a: map<string, Json>, env: Env, owner: string, b: map<string, Json>, env': Env, owner': string)
    requires Normalise(Obj(a), env, owner).Some? && Normalise(Obj(b), env', owner').Some?
    requires forall key :: !StandsFor(Obj(a), env, owner, key) && !StandsFor(Obj(b), env', owner', key)
    ensures Normalise(Obj(a), env, owner) == Normalise(Obj(b), env', owner') <==> SameCode(Obj(a), env, owner, Obj(b), env', owner')
    decreases Obj(a), 0
  {
    hide StandsFor, IsReference, Visible, Normalise, Names, Pose;
    NotReference(Obj(a), env, owner);
    NotReference(Obj(b), env', owner');
    MembersAlike(a, env, owner, b, env', owner');
    MembersRewritten(a, env, owner);
    MembersRewritten(b, env', owner');
    forall name | name in a && Visible(a, name) && name in b && Visible(b, name)
      ensures Normalise(a[name], env, owner) == Normalise(b[name], env', owner') <==> SameCode(a[name], env, owner, b[name], env', owner')
    {
      RewrittenAlike(a[name], env, owner, b[name], env', owner');
    }
  }

  lemma MembersRewritten(fields: map<string, Json>, env: Env, owner: string)
    requires !IsReference(fields, owner) && Normalise(Obj(fields), env, owner).Some?
    ensures forall name :: name in fields && Visible(fields, name) ==> Normalise(fields[name], env, owner).Some?
  {
    Rewritten(fields, env, owner);
    var r := Normalise(Obj(fields), env, owner).value.fields;
    hide Normalise, IsReference, Visible;
    assert forall name :: name in fields && Visible(fields, name) ==> name in r;
  }

  /** No reference, no constant load and no left-out member anywhere inside. */
  ghost predicate Inert(v: Json, owner: string) {
    match v
    case Arr(items) => forall i :: 0 <= i < |items| ==> Inert(items[i], owner)
    case Obj(fields) =>
      && !IsReference(fields, owner) && !IsBroken(fields)
      && forall name :: name in fields ==> Visible(fields, name) && Inert(fields[name], owner)
    case _ => true
  }

  /** Such a value is left as it is. */
  lemma {:induction false} InertStays(v: Json, env: Env, owner: string)
    requires Inert(v, owner)
    ensures Normalise(v, env, owner) == Some(v)
  {
    match v
    case Arr(items) =>
      forall i | 0 <= i < |items|
        ensures Normalise(items[i], env, owner) == Some(items[i])
      {
        InertStays(items[i], env, owner);
      }
      assert Normalise(v, env, owner).value.items == items;
    case Obj(fields) =>
      TagExactly(fields, owner);
      hide TagOf, Dropped, Visible, IsReference, IsBroken;
      forall name | name in fields
        ensures Normalise(fields[name], env, owner) == Some(fields[name])
      {
        InertStays(fields[name], env, owner);
      }
      assert Normalise(v, env, owner).value.fields == fields;
    case _ =>
  }

  // ----- Declarations -----

  /** The two objects have the same members, but for the given names. */
  ghost predicate SameFields(
    a: map<string, Json>, env: Env, owner: string, b: map<string, Json>, env': Env, owner': string, but: set<string>)
  {
    && (forall name :: name !in but ==> (name in a <==> name in b))
    && (forall name :: name in a && name in b && name !in but ==> SameCode(a[name], env, owner, b[name], env', owner'))
  }

  /** Both positions hold a declaration of one key. */
  ghost predicate SamePosition(
    kind: Kind, m: string, i: nat, env: Env, m': string, i': nat, env': Env)
  {
    exists key :: NamedAt(env, kind, m, i, key) && NamedAt(env', kind, m', i', key)
  }

  ghost predicate SameTarget(t: Target, env: Env, owner: string, t': Target, env': Env, owner': string) {
    match (t, t')
    case (LocalExecutable(i), LocalExecutable(i')) => SamePosition(Executables, owner, i, env, owner', i', env')
    case (LocalExecutable(i), PublicationExecutable(m', i')) => SamePosition(Executables, owner, i, env, m', i', env')
    case (PublicationExecutable(m, i), LocalExecutable(i')) => SamePosition(Executables, m, i, env, owner', i', env')
    case (PublicationExecutable(m, i), PublicationExecutable(m', i')) => SamePosition(Executables, m, i, env, m', i', env')
    case _ => SameCode(TargetValue(t), env, owner, TargetValue(t'), env', owner')
  }

  ghost predicate SameExpr(e: Expr, env: Env, owner: string, e': Expr, env': Env, owner': string) {
    match (e, e')
    case (LoadConst(i), LoadConst(i')) => SamePosition(Constants, owner, i, env, owner', i', env')
    case (Call(t, call), Call(t', call')) =>
      && SameTarget(t, env, owner, t', env', owner')
      && SameFields(call, env, owner, call', env', owner', {"kind", "target", "sourceSpan"})
    case _ => SameCode(ExprValue(e), env, owner, ExprValue(e'), env', owner')
  }

  ghost predicate SameBody(d: Decl, env: Env, owner: string, d': Decl, env': Env, owner': string) {
    && SameFields(d.bodyRest, env, owner, d'.bodyRest, env', owner', {"kind", "expressions", "sourceSpan"})
    && |d.expressions| == |d'.expressions|
    && forall i :: 0 <= i < |d.expressions| ==> SameExpr(d.expressions[i], env, owner, d'.expressions[i], env', owner')
  }

  predicate IsImplMethod(d: Decl) {
    HasKind(d.rest, "implMethod")
  }

  /** Two declarations of one kind and name are the same code. */
  ghost predicate SameDecl(kind: Kind, d: Decl, env: Env, owner: string, d': Decl, env': Env, owner': string) {
    match kind
    case Executables =>
      && IsImplMethod(d) == IsImplMethod(d')
      && SameBody(d, env, owner, d', env', owner')
      && SameFields(d.rest, env, owner, d'.rest, env', owner', {"kind", "symbol", "body", "sourceSpan"})
    case Constants =>
      && SameBody(d, env, owner, d', env', owner')
      && SameFields(d.rest, env, owner, d'.rest, env', owner', {"kind", "name", "body", "sourceSpan"})
    case Types =>
      SameFields(d.rest, env, owner, d'.rest, env', owner', {"kind", "name", "sourceSpan"})
  }

  /** One member apart from the others. */
  lemma SplitField(
    a: map<string, Json>, env: Env, owner: string, b: map<string, Json>, env': Env, owner': string, but: set<string>, name: string)
    requires name in a && name in b && name !in but
    ensures SameFields(a, env, owner, b, env', owner', but) <==>
            && SameCode(a[name], env, owner, b[name], env', owner')
            && SameFields(a, env, owner, b, env', owner', but + {name})
  {
    hide SameCode;
  }

  /** Only what is left of both objects outside the names that are set apart matters. */
  lemma SameOutside(
    a: map<string, Json>, base: map<string, Json>, env: Env, owner: string,
    b: map<string, Json>, base': map<string, Json>, env': Env, owner': string, but: set<string>, but': set<string>)
    requires but <= but' && forall name :: name in but' && name !in but ==> name !in a && name !in b
    requires forall name :: name !in but' ==> (name in a <==> name in base) && (name in b <==> name in base')
    requires forall name :: name !in but' && name in a && name in base ==> a[name] == base[name]
    requires forall name :: name !in but' && name in b && name in base' ==> b[name] == base'[name]
    ensures SameFields(a, env, owner, b, env', owner', but) <==> SameFields(base, env, owner, base', env', owner', but')
  {
    hide SameCode;
  }

  lemma ScalarCode(v: Json, env: Env, owner: string, w: Json, env': Env, owner': string)
    requires v.Str? && w.Str?
    ensures SameCode(v, env, owner, w, env', owner') <==> v == w
  {
  }

  /** An object of these kinds is no reference and looks like none. */
  lemma PlainObject(fields: map<string, Json>, env: Env, owner: string)
    requires "kind" in fields ==>
      HasKind(fields, "call") || HasKind(fields, "function") || HasKind(fields, "implMethod")
    ensures forall key :: !StandsFor(Obj(fields), env, owner, key)
    ensures forall name :: Visible(fields, name) <==> name != "sourceSpan"
  {
    if key :| fields - {"sourceSpan"} == Pose(key) {
      PoseUntagged(fields, owner, key);
      assert false;
    }
  }

  lemma PlainAlike(a: map<string, Json>, env: Env, owner: string, b: map<string, Json>, env': Env, owner': string)
    requires "kind" in a ==> HasKind(a, "call") || HasKind(a, "function") || HasKind(a, "implMethod")
    requires "kind" in b ==> HasKind(b, "call") || HasKind(b, "function") || HasKind(b, "implMethod")
    ensures SameCode(Obj(a), env, owner, Obj(b), env', owner') <==> SameFields(a, env, owner, b, env', owner', {"sourceSpan"})
  {
    PlainObject(a, env, owner);
    PlainObject(b, env', owner');
    hide StandsFor, Visible;
  }

  lemma MemberRewritten(fields: map<string, Json>, name: string, env: Env, owner: string)
    requires Normalise(Obj(fields), env, owner).Some? && forall key :: !StandsFor(Obj(fields), env, owner, key)
    requires name in fields && Visible(fields, name)
    ensures Normalise(fields[name], env, owner).Some?
  {
    NotReference(Obj(fields), env, owner);
    Rewritten(fields, env, owner);
    hide StandsFor, IsReference, Visible;
    assert name in Normalise(Obj(fields), env, owner).value.fields;
  }

  /** An object refers to a position and nothing else. */
  lemma PositionAlike(v: Json, env: Env, owner: string, kind: Kind, m: string, i: U32,
                      v': Json, env': Env, owner': string, m': string, i': U32)
    requires v.Obj? && RefersTo(v.fields, owner, kind, m, i) && v'.Obj? && RefersTo(v'.fields, owner', kind, m', i')
    requires Normalise(v, env, owner).Some? && Normalise(v', env', owner').Some?
    ensures SameCode(v, env, owner, v', env', owner') <==> SamePosition(kind, m, i, env, m', i', env')
  {
    Position(v, env, owner, kind, m, i);
    Position(v', env', owner', kind, m', i');
    hide StandsFor;
  }

  lemma Position(v: Json, env: Env, owner: string, kind: Kind, m: string, i: U32)
    requires v.Obj? && RefersTo(v.fields, owner, kind, m, i) && Normalise(v, env, owner).Some?
    ensures forall key :: StandsFor(v, env, owner, key) <==> NamedAt(env, kind, m, i, key)
    ensures exists key :: NamedAt(env, kind, m, i, key)
  {
    TagExactly(v.fields, owner);
    NamesExactly(v.fields, env, owner);
    assert TagOf(v.fields, owner) == Reference(kind, m, i);
    var named := KeyAt(env, kind, m, i).value;
    assert NamedAt(env, kind, m, i, named);
    if key :| v.fields - {"sourceSpan"} == Pose(key) {
      PoseUntagged(v.fields, owner, key);
      assert false;
    }
    hide TagOf, RefersTo, Names, Pose;
  }

  lemma TargetAlike(t: Target, env: Env, owner: string, t': Target, env': Env, owner': string)
    requires Normalise(TargetValue(t), env, owner).Some? && Normalise(TargetValue(t'), env', owner').Some?
    ensures SameCode(TargetValue(t), env, owner, TargetValue(t'), env', owner') <==> SameTarget(t, env, owner, t', env', owner')
  {
    hide SameCode, Normalise;
    if !t.OtherTarget? && !t'.OtherTarget? {
      var m := if t.LocalExecutable? then owner else t.modulePath;
      var m' := if t'.LocalExecutable? then owner' else t'.modulePath;
      PositionAlike(TargetValue(t), env, owner, Executables, m, t.executableIndex,
                    TargetValue(t'), env', owner', m', t'.executableIndex);
    }
  }

  lemma ExprAlike(e: Expr, env: Env, owner: string, e': Expr, env': Env, owner': string)
    requires Normalise(ExprValue(e), env, owner).Some? && Normalise(ExprValue(e'), env', owner').Some?
    ensures SameCode(ExprValue(e), env, owner, ExprValue(e'), env', owner') <==> SameExpr(e, env, owner, e', env', owner')
  {
    hide SameCode, Normalise;
    match (e, e')
    case (LoadConst(i), LoadConst(i')) =>
      PositionAlike(ExprValue(e), env, owner, Constants, owner, i, ExprValue(e'), env', owner', owner', i');
    case (Call(t, call), Call(t', call')) =>
      CallAlike(t, call, env, owner, t', call', env', owner');
    case _ =>
  }

  /** The members of a call without its kind, with its target. */
  function CallFields(t: Target, call: map<string, Json>): map<string, Json> {
    (call - {"kind"}) + map["target" := TargetValue(t)]
  }

  lemma CallRewritten(t: Target, call: map<string, Json>, env: Env, owner: string)
    requires Normalise(ExprValue(Call(t, call)), env, owner).Some?
    ensures Normalise(TargetValue(t), env, owner).Some?
  {
    var inner := CallFields(t, call);
    var outer := map["kind" := Text("call"), "call" := Obj(inner)];
    PlainObject(inner, env, owner);
    PlainObject(outer, env, owner);
    MemberRewritten(outer, "call", env, owner);
    MemberRewritten(inner, "target", env, owner);
  }

  lemma CallFieldsAlike(t: Target, call: map<string, Json>, env: Env, owner: string,
                        t': Target, call': map<string, Json>, env': Env, owner': string)
    requires SameCode(TargetValue(t), env, owner, TargetValue(t'), env', owner') <==> SameTarget(t, env, owner, t', env', owner')
    ensures SameCode(Obj(CallFields(t, call)), env, owner, Obj(CallFields(t', call')), env', owner') <==>
            SameExpr(Call(t, call), env, owner, Call(t', call'), env', owner')
  {
    var a, b := CallFields(t, call), CallFields(t', call');
    PlainAlike(a, env, owner, b, env', owner');
    hide SameCode, TargetValue, SameTarget, SameFields;
    SplitField(a, env, owner, b, env', owner', {"sourceSpan"}, "target");
    assert {"sourceSpan"} + {"target"} == {"target", "sourceSpan"};
    SameOutside(a, call, env, owner, b, call', env', owner', {"target", "sourceSpan"}, {"kind", "target", "sourceSpan"});
  }

  lemma CallAlike(t: Target, call: map<string, Json>, env: Env, owner: string,
                  t': Target, call': map<string, Json>, env': Env, owner': string)
    requires Normalise(ExprValue(Call(t, call)), env, owner).Some? && Normalise(ExprValue(Call(t', call')), env', owner').Some?
    ensures SameCode(ExprValue(Call(t, call)), env, owner, ExprValue(Call(t', call')), env', owner') <==>
            SameExpr(Call(t, call), env, owner, Call(t', call'), env', owner')
  {
    CallRewritten(t, call, env, owner);
    CallRewritten(t', call', env', owner');
    TargetAlike(t, env, owner, t', env', owner');
    CallFieldsAlike(t, call, env, owner, t', call', env', owner');
    hide SameExpr, CallFields, SameCode, SameTarget, Normalise, SameFields;
    WrappedAlike(Obj(CallFields(t, call)), env, owner, Obj(CallFields(t', call')), env', owner');
    assert ExprValue(Call(t, call)) == Obj(map["kind" := Text("call"), "call" := Obj(CallFields(t, call))]) by {
      assert CallFields(t, call) == (call - {"kind"}) + map["target" := TargetValue(t)];
    }
    assert ExprValue(Call(t', call')) == Obj(map["kind" := Text("call"), "call" := Obj(CallFields(t', call'))]) by {
      assert CallFields(t', call') == (call' - {"kind"}) + map["target" := TargetValue(t')];
    }
  }

  lemma WrappedAlike(v: Json, env: Env, owner: string, w: Json, env': Env, owner': string)
    ensures SameCode(Obj(map["kind" := Text("call"), "call" := v]), env, owner, Obj(map["kind" := Text("call"), "call" := w]), env', owner') <==>
            SameCode(v, env, owner, w, env', owner')
  {
    var a, b := map["kind" := Text("call"), "call" := v], map["kind" := Text("call"), "call" := w];
    PlainAlike(a, env, owner, b, env', owner');
    ScalarCode(Text("call"), env, owner, Text("call"), env', owner');
    hide SameCode;
    SplitField(a, env, owner, b, env', owner', {"sourceSpan"}, "call");
    SplitField(a, env, owner, b, env', owner', {"sourceSpan"} + {"call"}, "kind");
  }

  lemma BodyRewritten(d: Decl, env: Env, owner: string)
    requires Normalise(BodyValue(d), env, owner).Some?
    ensures forall i :: 0 <= i < |d.expressions| ==> Normalise(ExprValue(d.expressions[i]), env, owner).Some?
  {
    var fields := BodyValue(d).fields;
    PlainObject(fields, env, owner);
    if d.expressions != [] {
      var values := ExprValues(d.expressions);
      assert fields["expressions"] == Arr(values);
      MemberRewritten(fields, "expressions", env, owner);
      forall i | 0 <= i < |d.expressions|
        ensures Normalise(ExprValue(d.expressions[i]), env, owner).Some?
      {
        assert Normalise(values[i], env, owner).Some?;
      }
    }
  }

  lemma ListAlike(a: seq<Json>, env: Env, owner: string, b: seq<Json>, env': Env, owner': string)
    ensures SameCode(Arr(a), env, owner, Arr(b), env', owner') <==>
            |a| == |b| && forall i :: 0 <= i < |a| ==> SameCode(a[i], env, owner, b[i], env', owner')
  {
    assert forall key :: !StandsFor(Arr(a), env, owner, key) && !StandsFor(Arr(b), env', owner', key);
    hide StandsFor;
  }

  lemma ExprsAlike(d: Decl, env: Env, owner: string, d': Decl, env': Env, owner': string)
    requires Normalise(BodyValue(d), env, owner).Some? && Normalise(BodyValue(d'), env', owner').Some?
    ensures SameCode(Arr(ExprValues(d.expressions)), env, owner, Arr(ExprValues(d'.expressions)), env', owner') <==>
            && |d.expressions| == |d'.expressions|
            && forall i :: 0 <= i < |d.expressions| ==> SameExpr(d.expressions[i], env, owner, d'.expressions[i], env', owner')
  {
    BodyRewritten(d, env, owner);
    BodyRewritten(d', env', owner');
    var a, b := ExprValues(d.expressions), ExprValues(d'.expressions);
    ListAlike(a, env, owner, b, env', owner');
    hide SameCode, SameExpr, Normalise, ExprValue, BodyValue;
    if |a| == |b| {
      forall i | 0 <= i < |a|
        ensures SameCode(a[i], env, owner, b[i], env', owner') <==> SameExpr(d.expressions[i], env, owner, d'.expressions[i], env', owner')
      {
        ExprAlike(d.expressions[i], env, owner, d'.expressions[i], env', owner');
      }
    }
  }

  lemma BodyAlike(d: Decl, env: Env, owner: string, d': Decl, env': Env, owner': string)
    requires Normalise(BodyValue(d), env, owner).Some? && Normalise(BodyValue(d'), env', owner').Some?
    ensures SameCode(BodyValue(d), env, owner, BodyValue(d'), env', owner') <==> SameBody(d, env, owner, d', env', owner')
  {
    var a, b := BodyValue(d).fields, BodyValue(d').fields;
    ExprsAlike(d, env, owner, d', env', owner');
    PlainAlike(a, env, owner, b, env', owner');
    var apart, all := {"expressions", "sourceSpan"}, {"kind", "expressions", "sourceSpan"};
    hide SameCode, SameExpr, Normalise, ExprValues;
    assert {"sourceSpan"} + {"expressions"} == apart;
    if d.expressions != [] && d'.expressions != [] {
      SplitField(a, env, owner, b, env', owner', {"sourceSpan"}, "expressions");
      SameOutside(a, d.bodyRest, env, owner, b, d'.bodyRest, env', owner', apart, all);
    } else if d.expressions == [] && d'.expressions == [] {
      SameOutside(a, d.bodyRest, env, owner, b, d'.bodyRest, env', owner', {"sourceSpan"}, all);
    } else {
      assert "expressions" in a <==> "expressions" !in b;
    }
  }

  lemma DeclRewritten(kind: Kind, d: Decl, env: Env, owner: string)
    requires kind != Types && Normalise(DeclValue(kind, d), env, owner).Some?
    ensures Normalise(BodyValue(d), env, owner).Some?
  {
    var fields := DeclValue(kind, d).fields;
    PlainObject(fields, env, owner);
    MemberRewritten(fields, "body", env, owner);
  }

  lemma ExecutableFields(d: Decl)
    ensures var a := DeclValue(Executables, d).fields;
            && "kind" in a && a["kind"] == Text(if IsImplMethod(d) then "implMethod" else "function")
            && "symbol" in a && a["symbol"] == Text(d.name)
            && "body" in a && a["body"] == BodyValue(d)
            && forall name :: name !in {"kind", "symbol", "body", "sourceSpan"} ==>
                 (name in a <==> name in d.rest) && (name in a && name in d.rest ==> a[name] == d.rest[name])
  {
    hide BodyValue;
  }

  lemma SplitExecutable(a: map<string, Json>, env: Env, owner: string, b: map<string, Json>, env': Env, owner': string)
    requires {"kind", "symbol", "body"} <= a.Keys && {"kind", "symbol", "body"} <= b.Keys
    ensures SameFields(a, env, owner, b, env', owner', {"sourceSpan"}) <==>
            && SameCode(a["kind"], env, owner, b["kind"], env', owner')
            && SameCode(a["symbol"], env, owner, b["symbol"], env', owner')
            && SameCode(a["body"], env, owner, b["body"], env', owner')
            && SameFields(a, env, owner, b, env', owner', {"kind", "symbol", "body", "sourceSpan"})
  {
    hide SameCode, SameFields;
    SplitField(a, env, owner, b, env', owner', {"sourceSpan"}, "kind");
    SplitField(a, env, owner, b, env', owner', {"sourceSpan"} + {"kind"}, "symbol");
    SplitField(a, env, owner, b, env', owner', {"sourceSpan"} + {"kind"} + {"symbol"}, "body");
    assert {"sourceSpan"} + {"kind"} + {"symbol"} + {"body"} == {"kind", "symbol", "body", "sourceSpan"};
  }

  lemma ExecutableAlike(d: Decl, env: Env, owner: string, d': Decl, env': Env, owner': string)
    requires d.name == d'.name
    requires SameCode(BodyValue(d), env, owner, BodyValue(d'), env', owner') <==> SameBody(d, env, owner, d', env', owner')
    ensures SameFields(DeclValue(Executables, d).fields, env, owner, DeclValue(Executables, d').fields, env', owner', {"sourceSpan"}) <==>
            SameDecl(Executables, d, env, owner, d', env', owner')
  {
    var a, b := DeclValue(Executables, d).fields, DeclValue(Executables, d').fields;
    ExecutableFields(d);
    ExecutableFields(d');
    hide SameCode, SameBody, BodyValue, SameFields, DeclValue, IsImplMethod;
    ScalarCode(a["symbol"], env, owner, b["symbol"], env', owner');
    ScalarCode(a["kind"], env, owner, b["kind"], env', owner');
    SplitExecutable(a, env, owner, b, env', owner');
    var all := {"kind", "symbol", "body", "sourceSpan"};
    SameOutside(a, d.rest, env, owner, b, d'.rest, env', owner', all, all);
  }

  lemma ConstantAlike(d: Decl, env: Env, owner: string, d': Decl, env': Env, owner': string)
    requires d.name == d'.name
    requires SameCode(BodyValue(d), env, owner, BodyValue(d'), env', owner') <==> SameBody(d, env, owner, d', env', owner')
    ensures SameFields(DeclValue(Constants, d).fields, env, owner, DeclValue(Constants, d').fields, env', owner', {"sourceSpan"}) <==>
            SameDecl(Constants, d, env, owner, d', env', owner')
  {
    var a, b := DeclValue(Constants, d).fields, DeclValue(Constants, d').fields;
    hide SameCode, SameBody, BodyValue, SameFields;
    ScalarCode(a["name"], env, owner, b["name"], env', owner');
    SplitField(a, env, owner, b, env', owner', {"sourceSpan"}, "name");
    SplitField(a, env, owner, b, env', owner', {"sourceSpan"} + {"name"}, "body");
    var apart := {"name", "body", "sourceSpan"};
    assert {"sourceSpan"} + {"name"} + {"body"} == apart;
    SameOutside(a, d.rest, env, owner, b, d'.rest, env', owner', apart, {"kind", "name", "body", "sourceSpan"});
  }

  lemma TypeAlike(d: Decl, env: Env, owner: string, d': Decl, env': Env, owner': string)
    requires d.name == d'.name
    ensures SameFields(DeclValue(Types, d).fields, env, owner, DeclValue(Types, d').fields, env', owner', {"sourceSpan"}) <==>
            SameDecl(Types, d, env, owner, d', env', owner')
  {
    var a, b := DeclValue(Types, d).fields, DeclValue(Types, d').fields;
    hide SameCode, SameFields;
    ScalarCode(a["name"], env, owner, b["name"], env', owner');
    SplitField(a, env, owner, b, env', owner', {"sourceSpan"}, "name");
    var apart := {"name", "sourceSpan"};
    assert {"sourceSpan"} + {"name"} == apart;
    SameOutside(a, d.rest, env, owner, b, d'.rest, env', owner', apart, {"kind", "name", "sourceSpan"});
  }

  /** Serialised declarations of one kind and name are the same code exactly if the declarations are. */
  lemma DeclAlike(kind: Kind, d: Decl, env: Env, owner: string, d': Decl, env': Env, owner': string)
    requires d.name == d'.name
    requires Normalise(DeclValue(kind, d), env, owner).Some? && Normalise(DeclValue(kind, d'), env', owner').Some?
    ensures SameCode(DeclValue(kind, d), env, owner, DeclValue(kind, d'), env', owner') <==> SameDecl(kind, d, env, owner, d', env', owner')
  {
    PlainAlike(DeclValue(kind, d).fields, env, owner, DeclValue(kind, d').fields, env', owner');
    if kind != Types {
      DeclRewritten(kind, d, env, owner);
      DeclRewritten(kind, d', env', owner');
      BodyAlike(d, env, owner, d', env', owner');
    }
    hide SameCode, SameBody, SameDecl, Normalise, SameFields;
    match kind
    case Executables => ExecutableAlike(d, env, owner, d', env', owner');
    case Constants => ConstantAlike(d, env, owner, d', env', owner');
    case Types => TypeAlike(d, env, owner, d', env', owner');
  }
}
