/** When the actor preimage stands alone: every canonical reference inside it names a
    declaration it lists.

    Types always do. Executables and constants are found through typed expressions,
    while the rewrite also renames tagged objects that occur anywhere else in the
    serialised declaration, such as in free-form call metadata. The metadata may also hold
    objects that already look like the output of the rewrite. Those two are the only
    references that can point outside. */
module ActorSelfContained {
  import opened Wrappers
  import opened JsonValues
  import opened Sorting
  import opened Reachability
  import opened ActorIdentity

  /** The key a canonical node names. */
  function CanonicalKey(fields: map<string, Json>): Option<Key> {
    var kind := StringField(fields, "kind");
    var symbol := StringField(fields, "symbol");
    var name := StringField(fields, "name");
    match StringField(fields, "modulePath")
    case None => None
    case Some(m) =>
      if kind == Some("canonicalExecutable") && symbol.Some? then Some(Key(Executables, m, symbol.value))
      else if kind == Some("canonicalConstant") && name.Some? then Some(Key(Constants, m, name.value))
      else if kind == Some("canonicalType") && name.Some? then Some(Key(Types, m, name.value))
      else None
  }

  /** All canonical references occurring in a rewritten value. */
  function CanonicalRefs(v: Json): set<Key> {
    match v
    case Arr(items) => set i, t | 0 <= i < |items| && t in CanonicalRefs(items[i]) :: t
    case Obj(fields) =>
      KeySet(CanonicalKey(fields)) + set k, t | k in fields && t in CanonicalRefs(fields[k]) :: t
    case _ => {}
  }

  function KeySet(key: Option<Key>): set<Key> {
    if key.Some? then {key.value} else {}
  }

  /** The keys of the tagged nodes the rewrite replaces. */
  function Sites(v: Json, env: Env, owner: string): set<Key> {
    match v
    case Arr(items) => set i, t | 0 <= i < |items| && t in Sites(items[i], env, owner) :: t
    case Obj(fields) =>
      (match TagOf(fields, owner)
       case Malformed => {}
       case Reference(kind, m, i) =>
         (match KeyAt(env, kind, m, i)
          case Some(key) => {key}
          case None => {})
       case Untagged => set k, t | k in fields && !Dropped(fields, k) && t in Sites(fields[k], env, owner) :: t)
    case _ => {}
  }

  /** The keys named by objects that look like the output of the rewrite beforehand. */
  function Preshaped(v: Json, owner: string): set<Key> {
    match v
    case Arr(items) => set i, t | 0 <= i < |items| && t in Preshaped(items[i], owner) :: t
    case Obj(fields) =>
      if TagOf(fields, owner) != Untagged then {}
      else KeySet(CanonicalKey(fields)) + set k, t | k in fields && !Dropped(fields, k) && t in Preshaped(fields[k], owner) :: t
    case _ => {}
  }

  lemma CanonicalNodeRefs(key: Key)
    ensures CanonicalRefs(CanonicalNode(key)) == {key}
  {
    var fields := CanonicalNode(key).fields;
    assert StringField(fields, "kind") == Some(CanonicalKind(key.kind));
    assert StringField(fields, "modulePath") == Some(key.modulePath);
    assert CanonicalKey(fields) == Some(key);
    assert forall k :: k in fields ==> fields[k].Str?;
  }

  /** The rewrite leaves the strings of an untagged object alone. */
  lemma UntaggedKey(fields: map<string, Json>, env: Env, owner: string)
    requires TagOf(fields, owner).Untagged? && Normalise(Obj(fields), env, owner).Some?
    ensures CanonicalKey(Normalise(Obj(fields), env, owner).value.fields) == CanonicalKey(fields)
  {
    hide TagOf;
    var fields' := Normalise(Obj(fields), env, owner).value.fields;
    assert StringField(fields', "kind") == StringField(fields, "kind");
    assert StringField(fields', "symbol") == StringField(fields, "symbol");
    assert StringField(fields', "name") == StringField(fields, "name");
    assert StringField(fields', "modulePath") == StringField(fields, "modulePath");
  }

  lemma {:induction false} UntaggedRefs(fields: map<string, Json>, env: Env, owner: string)
    requires TagOf(fields, owner).Untagged? && Normalise(Obj(fields), env, owner).Some?
    requires forall k :: k in fields && !Dropped(fields, k) ==>
      && Normalise(fields[k], env, owner).Some?
      && CanonicalRefs(Normalise(fields[k], env, owner).value) == Sites(fields[k], env, owner) + Preshaped(fields[k], owner)
    ensures CanonicalRefs(Normalise(Obj(fields), env, owner).value) == Sites(Obj(fields), env, owner) + Preshaped(Obj(fields), owner)
  {
    UntaggedKey(fields, env, owner);
    UntaggedFields(fields, env, owner);
    UntaggedParts(fields, env, owner);
    var fields' := Normalise(Obj(fields), env, owner).value.fields;
    hide TagOf, Dropped, CanonicalKey, Normalise, Sites, Preshaped, KeySet;
    forall t
      ensures t in CanonicalRefs(Obj(fields')) <==> t in Sites(Obj(fields), env, owner) + Preshaped(Obj(fields), owner)
    {
      assert t in CanonicalRefs(Obj(fields')) <==>
        t in KeySet(CanonicalKey(fields')) || exists k :: k in fields' && t in CanonicalRefs(fields'[k]);
      hide CanonicalRefs;
    }
  }

  lemma UntaggedFields(fields: map<string, Json>, env: Env, owner: string)
    requires TagOf(fields, owner).Untagged? && Normalise(Obj(fields), env, owner).Some?
    ensures var n := Normalise(Obj(fields), env, owner).value;
            && n.Obj? && (forall k :: k in n.fields <==> k in fields && !Dropped(fields, k))
            && forall k :: k in n.fields ==> Normalise(fields[k], env, owner) == Some(n.fields[k])
  {
    hide TagOf, Dropped;
  }

  lemma UntaggedParts(fields: map<string, Json>, env: Env, owner: string)
    requires TagOf(fields, owner).Untagged?
    ensures forall t :: t in Sites(Obj(fields), env, owner) <==>
              exists k :: k in fields && !Dropped(fields, k) && t in Sites(fields[k], env, owner)
    ensures forall t :: t in Preshaped(Obj(fields), owner) <==>
              t in KeySet(CanonicalKey(fields)) || exists k :: k in fields && !Dropped(fields, k) && t in Preshaped(fields[k], owner)
  {
    hide TagOf, Dropped, CanonicalKey;
  }

  /** The canonical references of the rewritten value are exactly its rewrite sites and the
      references that were there before. */
  lemma {:induction false} RefsAreSites(v: Json, env: Env, owner: string)
    requires Normalise(v, env, owner).Some?
    ensures CanonicalRefs(Normalise(v, env, owner).value) == Sites(v, env, owner) + Preshaped(v, owner)
  {
    match v
    case Arr(items) =>
      var items' := Normalise(v, env, owner).value.items;
      forall i | 0 <= i < |items|
        ensures CanonicalRefs(items'[i]) == Sites(items[i], env, owner) + Preshaped(items[i], owner)
      {
        RefsAreSites(items[i], env, owner);
      }
    case Obj(fields) =>
      match TagOf(fields, owner) {
        case Reference(kind, m, i) =>
          CanonicalNodeRefs(KeyAt(env, kind, m, i).value);
          hide CanonicalRefs, TagOf;
        case Untagged =>
          forall k | k in fields && !Dropped(fields, k)
            ensures CanonicalRefs(Normalise(fields[k], env, owner).value) == Sites(fields[k], env, owner) + Preshaped(fields[k], owner)
          {
            RefsAreSites(fields[k], env, owner);
          }
          UntaggedRefs(fields, env, owner);
        case Malformed =>
      }
    case _ =>
  }

  /** Every type the rewrite renames is one the type collector has seen. */
  lemma {:induction false} TypeSitesCollected(v: Json, env: Env, owner: string)
    requires TypeRefsOk(v, env, owner)
    ensures forall t :: t in Sites(v, env, owner) && t.kind == Types ==> t in TypeRefs(v, env, owner)
  {
    match v
    case Arr(items) =>
      forall i | 0 <= i < |items|
        ensures forall t :: t in Sites(items[i], env, owner) && t.kind == Types ==> t in TypeRefs(items[i], env, owner)
      {
        TypeSitesCollected(items[i], env, owner);
      }
    case Obj(fields) =>
      var tag := TagOf(fields, owner);
      hide TagOf;
      if tag.Untagged? {
        forall k | k in fields
          ensures forall t :: t in Sites(fields[k], env, owner) && t.kind == Types ==> t in TypeRefs(fields[k], env, owner)
        {
          TypeSitesCollected(fields[k], env, owner);
        }
      }
    case _ =>
  }

  // ----- References outside the typed expressions -----

  /** The expression with its own typed reference blanked out. */
  function Blank(expr: Expr): Expr {
    match expr
    case LoadConst(_) => OtherExpr(Null)
    case Call(OtherTarget(_), _) => expr
    case Call(_, call) => Call(OtherTarget(Null), call)
    case OtherExpr(_) => expr
  }

  function BlankDecl(d: Decl): Decl {
    d.(expressions := seq(|d.expressions|, i requires 0 <= i < |d.expressions| => Blank(d.expressions[i])))
  }

  /** Executables and constants named by tagged objects that are not the declaration's
      own calls and constant loads. */
  function StrayRefs(env: Env, key: Key): set<Key> {
    match Resolve(env, key)
    case None => {}
    case Some(d) => set k | k in Sites(DeclValue(key.kind, BlankDecl(d)), env, key.modulePath) && IsCode(k)
  }

  /** References that the declaration's own value already holds. */
  function PreshapedRefs(env: Env, key: Key): set<Key> {
    match Resolve(env, key)
    case None => {}
    case Some(d) => Preshaped(DeclValue(key.kind, d), key.modulePath)
  }

  /** Everything the preimage will refer to on account of a declaration although the
      worklists do not follow it. */
  function Unfollowed(env: Env, key: Key): set<Key> {
    StrayRefs(env, key) + PreshapedRefs(env, key)
  }

  /** Changing one field changes the sites of the object by what changes in the field. */
  lemma {:induction false} SitesContext(
    fields: map<string, Json>, name: string, v: Json, w: Json, extra: set<Key>, env: Env, owner: string)
    requires name != "kind" && name != "sourceSpan" && name != "actorImplementationIdentity"
    requires TagOf(fields[name := v], owner) == Untagged && TagOf(fields[name := w], owner) == Untagged
    requires Sites(v, env, owner) == Sites(w, env, owner) + extra
    ensures Sites(Obj(fields[name := v]), env, owner) == Sites(Obj(fields[name := w]), env, owner) + extra
  {
    hide TagOf;
    var a, b := fields[name := v], fields[name := w];
    assert forall k :: Dropped(a, k) <==> Dropped(b, k);
    assert !Dropped(a, name);
    hide Dropped;
    var sa, sb := Sites(Obj(a), env, owner), Sites(Obj(b), env, owner);
    forall t | t in sa
      ensures t in sb + extra
    {
      var k :| k in a && !Dropped(a, k) && t in Sites(a[k], env, owner);
      if k != name {
        assert b[k] == a[k];
      }
      assert k in b;
    }
    forall t | t in sb + extra
      ensures t in sa
    {
      if t in extra || t in Sites(w, env, owner) {
        assert a[name] == v && name in a;
      } else {
        var k :| k in b && !Dropped(b, k) && t in Sites(b[k], env, owner);
        assert k != name && a[k] == b[k] && k in a;
      }
    }
  }

  lemma TargetSites(target: Target, call: map<string, Json>, env: Env, owner: string)
    requires !target.OtherTarget?
    ensures Sites(TargetValue(target), env, owner) == KeySet(ExprKey(Call(target, call), env, owner))
  {
    var fields := TargetValue(target).fields;
    var ref := ExprRef(Call(target, call), owner);
    assert TagOf(fields, owner) == ref;
  }

  lemma CallUntagged(call: map<string, Json>, target: Json, owner: string)
    ensures TagOf(((call - {"kind"}) + map["target" := target]), owner) == Untagged
    ensures TagOf(map["kind" := Text("call"), "call" := target], owner) == Untagged
  {
  }

  lemma {:induction false} CallSites(target: Target, call: map<string, Json>, env: Env, owner: string)
    requires !target.OtherTarget?
    ensures Sites(ExprValue(Call(target, call)), env, owner) ==
            Sites(ExprValue(Call(OtherTarget(Null), call)), env, owner) + KeySet(ExprKey(Call(target, call), env, owner))
  {
    var extra := KeySet(ExprKey(Call(target, call), env, owner));
    TargetSites(target, call, env, owner);
    var base := call - {"kind"};
    var t := TargetValue(target);
    CallUntagged(call, t, owner);
    CallUntagged(call, Null, owner);
    assert base["target" := t] == base + map["target" := t];
    assert base["target" := Null] == base + map["target" := Null];
    assert Sites(Null, env, owner) == {};
    hide TargetValue, ExprKey, TagOf;
    SitesContext(base, "target", t, Null, extra, env, owner);
    var inner, blank := Obj(base + map["target" := t]), Obj(base + map["target" := Null]);
    CallUntagged(call, inner, owner);
    CallUntagged(call, blank, owner);
    SitesContext(map["kind" := Text("call")], "call", inner, blank, extra, env, owner);
    hide Sites;
  }

  lemma ExprSites(expr: Expr, env: Env, owner: string)
    ensures Sites(ExprValue(expr), env, owner) ==
            Sites(ExprValue(Blank(expr)), env, owner) + KeySet(ExprKey(expr, env, owner))
  {
    match expr
    case LoadConst(i) =>
      var fields := ExprValue(expr).fields;
      assert TagOf(fields, owner) == Reference(Constants, owner, i);
      assert Sites(Null, env, owner) == {};
    case Call(target, call) =>
      if !target.OtherTarget? {
        CallSites(target, call, env, owner);
      }
    case OtherExpr(_) =>
  }

  ghost function UnionOf(sets: seq<set<Key>>): set<Key> {
    set i, t | 0 <= i < |sets| && t in sets[i] :: t
  }

  lemma {:induction false} ListContext(vs: seq<Json>, ws: seq<Json>, extras: seq<set<Key>>, env: Env, owner: string)
    requires |vs| == |ws| == |extras|
    requires forall i :: 0 <= i < |vs| ==> Sites(vs[i], env, owner) == Sites(ws[i], env, owner) + extras[i]
    ensures Sites(Arr(vs), env, owner) == Sites(Arr(ws), env, owner) + UnionOf(extras)
  {
    forall t | t in Sites(Arr(vs), env, owner)
      ensures t in Sites(Arr(ws), env, owner) + UnionOf(extras)
    {
      var i :| 0 <= i < |vs| && t in Sites(vs[i], env, owner);
      assert t in Sites(ws[i], env, owner) || t in extras[i];
    }
    forall t | t in Sites(Arr(ws), env, owner) + UnionOf(extras)
      ensures t in Sites(Arr(vs), env, owner)
    {
      if t in UnionOf(extras) {
        var i :| 0 <= i < |extras| && t in extras[i];
        assert t in Sites(vs[i], env, owner);
      } else {
        var i :| 0 <= i < |ws| && t in Sites(ws[i], env, owner);
        assert t in Sites(vs[i], env, owner);
      }
    }
  }

  lemma {:induction false} ExprListSites(d: Decl, env: Env, owner: string)
    ensures Sites(Arr(ExprValues(d.expressions)), env, owner) ==
            Sites(Arr(ExprValues(BlankDecl(d).expressions)), env, owner) + CodeRefs(d.expressions, env, owner)
  {
    var xs, ys := d.expressions, BlankDecl(d).expressions;
    var vs, ws := ExprValues(xs), ExprValues(ys);
    var extras := seq(|xs|, i requires 0 <= i < |xs| => KeySet(ExprKey(xs[i], env, owner)));
    forall i | 0 <= i < |xs|
      ensures Sites(vs[i], env, owner) == Sites(ws[i], env, owner) + extras[i]
    {
      ExprSites(xs[i], env, owner);
      hide Sites, ExprValue, ExprKey;
    }
    hide Sites, ExprValue, Blank, ExprKey;
    ListContext(vs, ws, extras, env, owner);
    assert UnionOf(extras) == CodeRefs(xs, env, owner) by {
      forall t | t in CodeRefs(xs, env, owner)
        ensures t in UnionOf(extras)
      {
        var i :| 0 <= i < |xs| && ExprKey(xs[i], env, owner) == Some(t);
        assert t in extras[i];
      }
    }
  }

  lemma BodyUntagged(d: Decl, owner: string)
    ensures TagOf(BodyValue(d).fields, owner) == Untagged
  {
  }

  lemma {:induction false} BodySites(d: Decl, env: Env, owner: string)
    ensures Sites(BodyValue(d), env, owner) == Sites(BodyValue(BlankDecl(d)), env, owner) + CodeRefs(d.expressions, env, owner)
  {
    if d.expressions != [] {
      var base := d.bodyRest - {"kind", "expressions"};
      var vs, ws := Arr(ExprValues(d.expressions)), Arr(ExprValues(BlankDecl(d).expressions));
      BodyUntagged(d, owner);
      BodyUntagged(BlankDecl(d), owner);
      ExprListSites(d, env, owner);
      assert BodyValue(d).fields == base["expressions" := vs];
      assert BodyValue(BlankDecl(d)).fields == base["expressions" := ws];
      hide TagOf, ExprValues, CodeRefs, Sites, BlankDecl, BodyValue;
      SitesContext(base, "expressions", vs, ws, CodeRefs(d.expressions, env, owner), env, owner);
    } else {
      assert BlankDecl(d).expressions == d.expressions;
    }
  }

  lemma DeclUntagged(kind: Kind, d: Decl, owner: string)
    ensures TagOf(DeclValue(kind, d).fields, owner) == Untagged
  {
  }

  lemma BlankValue(kind: Kind, d: Decl)
    requires kind != Types
    ensures var fields := DeclValue(kind, d).fields;
            && fields["body" := BodyValue(d)] == fields
            && fields["body" := BodyValue(BlankDecl(d))] == DeclValue(kind, BlankDecl(d)).fields
  {
    hide BodyValue;
    assert Header(kind, BlankDecl(d)) == Header(kind, d)["body" := BodyValue(BlankDecl(d))];
    hide Header;
  }

  /** The code a declaration refers to: its typed references and its stray ones. */
  lemma {:induction false} DeclSites(kind: Kind, d: Decl, env: Env, owner: string)
    ensures Sites(DeclValue(kind, d), env, owner) ==
            Sites(DeclValue(kind, BlankDecl(d)), env, owner)
              + (if kind == Types then {} else CodeRefs(d.expressions, env, owner))
  {
    hide Sites, CodeRefs, ExprValues;
    if kind == Types {
      assert DeclValue(kind, BlankDecl(d)) == DeclValue(kind, d);
    } else {
      var fields := DeclValue(kind, d).fields;
      DeclUntagged(kind, d, owner);
      DeclUntagged(kind, BlankDecl(d), owner);
      BodySites(d, env, owner);
      var v, w := BodyValue(d), BodyValue(BlankDecl(d));
      BlankValue(kind, d);
      hide TagOf, BodyValue, DeclValue;
      SitesContext(fields, "body", v, w, CodeRefs(d.expressions, env, owner), env, owner);
    }
  }

  // ----- Main result -----

  ghost predicate ListsKey(p: Preimage, key: Key) {
    exists e :: e in p.executables + p.constants + p.types && e.key == key
  }

  /** Every canonical reference inside the preimage names one of its entries. */
  ghost predicate SelfContained(p: Preimage) {
    forall e, k :: e in p.executables + p.constants + p.types && k in CanonicalRefs(e.value) ==> ListsKey(p, k)
  }

  lemma EntriesContain(env: Env, roots: set<Key>, kind: Kind, e: Entry)
    requires AllOk(env, roots)
    ensures e in Entries(env, roots, kind) <==>
            Reachable(Graph(env), roots, e.key) && e.key.kind == kind && e.value == NodeValue(env, e.key)
  {
    hide NodeOk, NodeValue, Graph;
    var keys := ReachableKeys(env, roots, kind);
    var list := Arrange(keys, KeyLess);
    if Reachable(Graph(env), roots, e.key) && e.key.kind == kind && e.value == NodeValue(env, e.key) {
      assert NodeOk(env, e.key);
      OkInAllKeys(env, e.key);
      hide AllKeys;
      assert e.key in keys && e.key in list;
      var i :| 0 <= i < |list| && list[i] == e.key;
      assert Entries(env, roots, kind)[i] == e;
    }
    if e in Entries(env, roots, kind) {
      var i :| 0 <= i < |list| && Entries(env, roots, kind)[i] == e;
      assert list[i] in list;
    }
  }

  /** The preimage lists the declarations reachable from its roots. */
  ghost predicate ListsReachable(env: Env, p: Preimage) {
    && AllOk(env, p.roots.Values)
    && p.executables == Entries(env, p.roots.Values, Executables)
    && p.constants == Entries(env, p.roots.Values, Constants)
    && p.types == Entries(env, p.roots.Values, Types)
  }

  ghost predicate IsEntry(env: Env, p: Preimage, e: Entry) {
    Reachable(Graph(env), p.roots.Values, e.key) && NodeOk(env, e.key) && e.value == NodeValue(env, e.key)
  }

  /** The entries are exactly the reachable declarations with their values. */
  lemma PreimageContains(env: Env, p: Preimage, e: Entry)
    requires ListsReachable(env, p)
    ensures e in p.executables + p.constants + p.types <==> IsEntry(env, p, e)
  {
    var roots := p.roots.Values;
    EntriesContain(env, roots, Executables, e);
    EntriesContain(env, roots, Constants, e);
    EntriesContain(env, roots, Types, e);
    hide Entries, NodeOk, NodeValue, Graph;
  }

  lemma PreimageLists(env: Env, p: Preimage, key: Key)
    requires ListsReachable(env, p)
    ensures ListsKey(p, key) <==> Reachable(Graph(env), p.roots.Values, key)
    ensures ListsKey(p, key) ==> NodeOk(env, key) && Entry(key, NodeValue(env, key)) in p.executables + p.constants + p.types
  {
    if ListsKey(p, key) {
      var e :| e in p.executables + p.constants + p.types && e.key == key;
      PreimageContains(env, p, e);
      hide Entries, NodeOk, NodeValue, Graph;
    } else if Reachable(Graph(env), p.roots.Values, key) {
      assert NodeOk(env, key);
      PreimageContains(env, p, Entry(key, NodeValue(env, key)));
      hide Entries, NodeOk, NodeValue, Graph;
    }
  }

  /** References of one entry: typed code, types, stray code and what was there before. */
  lemma NodeRefs(env: Env, key: Key)
    requires NodeOk(env, key)
    ensures forall k :: k in CanonicalRefs(NodeValue(env, key)) ==>
              k in Edges(env, key) || k in Unfollowed(env, key)
    ensures Unfollowed(env, key) <= CanonicalRefs(NodeValue(env, key))
  {
    var d := Resolve(env, key).value;
    var v := DeclValue(key.kind, d);
    RefsAreSites(v, env, key.modulePath);
    TypeSitesCollected(v, env, key.modulePath);
    DeclSites(key.kind, d, env, key.modulePath);
    hide DeclValue, Sites, Preshaped, TypeRefs, TypeRefsOk, Normalise, CanonicalRefs, Resolve, BlankDecl;
  }

  /** The preimage is self-contained exactly when every reference that the worklist does not
      follow, renamed or there before, names a reachable declaration; in particular always
      when there is none. */
  lemma SelfContainedExactly(env: Env, modulePath: string, actorName: string, p: Preimage)
    requires PreimageIn(env, modulePath, actorName) == Some(p)
    ensures SelfContained(p) <==>
            forall k, t :: Reachable(Graph(env), p.roots.Values, k) && t in Unfollowed(env, k)
              ==> Reachable(Graph(env), p.roots.Values, t)
  {
    assert ListsReachable(env, p);
    hide PreimageIn;
    forall k | Reachable(Graph(env), p.roots.Values, k)
      ensures RefsOfNode(env, p, k)
    {
      PreimageLists(env, p, k);
      NodeRefs(env, k);
      NodeEdges(env, p.roots.Values, k);
      hide NodeOk, NodeValue, Unfollowed, CanonicalRefs, Resolve, Graph, Edges, ListsReachable;
    }
    SelfContainedFromNodes(env, p);
  }

  lemma NodeEdges(env: Env, roots: set<Key>, key: Key)
    requires Reachable(Graph(env), roots, key)
    ensures forall t :: t in Edges(env, key) ==> Reachable(Graph(env), roots, t)
  {
    EdgesReachable(Graph(env), roots, key, Edges(env, key));
  }

  /** The references of a listed node are reachable ones and those that nothing follows. */
  ghost predicate RefsOfNode(env: Env, p: Preimage, key: Key) {
    && NodeOk(env, key)
    && Entry(key, NodeValue(env, key)) in p.executables + p.constants + p.types
    && Unfollowed(env, key) <= CanonicalRefs(NodeValue(env, key))
    && forall t :: t in CanonicalRefs(NodeValue(env, key)) ==>
         t in Unfollowed(env, key) || Reachable(Graph(env), p.roots.Values, t)
  }

  lemma SelfContainedFromNodes(env: Env, p: Preimage)
    requires ListsReachable(env, p)
    requires forall k :: Reachable(Graph(env), p.roots.Values, k) ==> RefsOfNode(env, p, k)
    ensures SelfContained(p) <==>
            forall k, t :: Reachable(Graph(env), p.roots.Values, k) && t in Unfollowed(env, k)
              ==> Reachable(Graph(env), p.roots.Values, t)
  {
    forall e | e in p.executables + p.constants + p.types
      ensures IsEntry(env, p, e)
    {
      PreimageContains(env, p, e);
    }
    forall k
      ensures ListsKey(p, k) <==> Reachable(Graph(env), p.roots.Values, k)
    {
      PreimageLists(env, p, k);
    }
    hide NodeOk, NodeValue, Unfollowed, CanonicalRefs, Graph, ListsKey, ListsReachable;
  }

  // ----- Preimages that are not self-contained -----

  const BUILTIN := Obj(map["kind" := Text("builtin"), "op" := Text("print")])
  const HUB := Actor("Hub", "abi", {"run"}, map["run" := 0], None)
  const UNREACHED := Decl("unreached", [], map[], map[])
  const CALLER_KEY := Key(Executables, "m", "caller")
  const UNREACHED_KEY := Key(Executables, "m", "unreached")
  const NOWHERE_KEY := Key(Executables, "m", "nowhere")

  /** A module whose actor calls a builtin with the given metadata. */
  function MetadataCall(metadata: Json): Expr { Call(OtherTarget(BUILTIN), map["metadata" := metadata]) }

  function Caller(metadata: Json): Decl { Decl("caller", [MetadataCall(metadata)], map[], map["params" := Arr([])]) }

  function MetadataEnv(metadata: Json): Env {
    map["m" := Unit("m", [Caller(metadata), UNREACHED], [], [], [HUB])]
  }

  function CallFields(metadata: Json): map<string, Json> { map["metadata" := metadata, "target" := BUILTIN] }

  lemma CallerValue(metadata: Json)
    ensures && ExprValue(MetadataCall(metadata)) == Obj(map["kind" := Text("call"), "call" := Obj(CallFields(metadata))])
            && BodyValue(Caller(metadata)) == Obj(map["expressions" := Arr([ExprValue(MetadataCall(metadata))])])
            && DeclValue(Executables, Caller(metadata)) ==
               Obj(map["params" := Arr([]), "kind" := Text("function"), "symbol" := Text("caller"), "body" := BodyValue(Caller(metadata))])
            && BlankDecl(Caller(metadata)) == Caller(metadata)
  {
    var call := MetadataCall(metadata);
    assert (map["metadata" := metadata] - {"kind"}) + map["target" := BUILTIN] == CallFields(metadata);
    assert ExprValues([call]) == [ExprValue(call)];
    var none: map<string, Json> := map[];
    assert (none - {"kind", "expressions"}) + map["expressions" := Arr([ExprValue(call)])] == map["expressions" := Arr([ExprValue(call)])];
    assert BlankDecl(Caller(metadata)).expressions == [call];
    assert map["params" := Arr([])] - {"kind"} == map["params" := Arr([])];
  }

  lemma CallerResolves(metadata: Json)
    ensures var env := MetadataEnv(metadata);
            && Resolve(env, CALLER_KEY) == Some(Caller(metadata))
            && KeyAt(env, Executables, "m", 0) == Some(CALLER_KEY)
            && KeyAt(env, Executables, "m", 1) == Some(UNREACHED_KEY)
  {
    var table := MetadataEnv(metadata)["m"].Table(Executables);
    assert table == [Caller(metadata), UNREACHED];
    assert UniqueAt(table, "caller", 0);
  }

  /** What the traversals find in a part of the example. */
  ghost predicate Searched(v: Json, env: Env, sites: set<Key>, preshaped: set<Key>) {
    && Sites(v, env, "m") == sites && Preshaped(v, "m") == preshaped
    && TypeRefsOk(v, env, "m") && TypeRefs(v, env, "m") == {}
    && Normalise(v, env, "m").Some?
  }

  lemma {:induction false} SearchedPair(
    fields: map<string, Json>, name: string, env: Env, sites: set<Key>, preshaped: set<Key>)
    requires name in fields && name != "sourceSpan" && name != "actorImplementationIdentity"
    requires TagOf(fields, "m") == Untagged && CanonicalKey(fields) == None
    requires Searched(fields[name], env, sites, preshaped)
    requires forall k :: k in fields && k != name ==> Searched(fields[k], env, {}, {})
    ensures Searched(Obj(fields), env, sites, preshaped)
  {
    assert !Dropped(fields, name);
    hide TagOf, Dropped, CanonicalKey;
  }

  lemma LeavesSearched(env: Env)
    ensures forall s :: Searched(Str(s), env, {}, {})
    ensures Searched(Arr([]), env, {}, {})
    ensures Searched(BUILTIN, env, {}, {})
  {
    assert TagOf(BUILTIN.fields, "m") == Untagged;
    assert CanonicalKey(BUILTIN.fields) == None;
    hide TagOf, CanonicalKey;
  }

  lemma CallSearched(metadata: Json, env: Env, sites: set<Key>, preshaped: set<Key>)
    requires Searched(metadata, env, sites, preshaped)
    ensures Searched(Obj(map["kind" := Text("call"), "call" := Obj(CallFields(metadata))]), env, sites, preshaped)
  {
    LeavesSearched(env);
    var inner := CallFields(metadata);
    var outer := map["kind" := Text("call"), "call" := Obj(inner)];
    assert TagOf(inner, "m") == Untagged && CanonicalKey(inner) == None;
    assert TagOf(outer, "m") == Untagged && CanonicalKey(outer) == None;
    hide Searched;
    SearchedPair(inner, "metadata", env, sites, preshaped);
    SearchedPair(outer, "call", env, sites, preshaped);
  }

  lemma {:induction false} ListSearched(v: Json, env: Env, sites: set<Key>, preshaped: set<Key>)
    requires Searched(v, env, sites, preshaped)
    ensures Searched(Arr([v]), env, sites, preshaped)
  {
    var items := [v];
    assert forall i :: 0 <= i < |items| ==> items[i] == v;
    assert items[0] == v;
    assert Sites(Arr(items), env, "m") == sites;
    assert Preshaped(Arr(items), "m") == preshaped;
    assert TypeRefs(Arr(items), env, "m") == {};
  }

  lemma CallerSearched(metadata: Json, env: Env, sites: set<Key>, preshaped: set<Key>)
    requires Searched(metadata, env, sites, preshaped)
    ensures Searched(DeclValue(Executables, Caller(metadata)), env, sites, preshaped)
  {
    CallerValue(metadata);
    LeavesSearched(env);
    CallSearched(metadata, env, sites, preshaped);
    hide Searched, ExprValue, BodyValue, DeclValue;
    var call := ExprValue(MetadataCall(metadata));
    ListSearched(call, env, sites, preshaped);
    BodySearched(Arr([call]), env, sites, preshaped);
    FunctionSearched(BodyValue(Caller(metadata)), env, sites, preshaped);
  }

  lemma BodySearched(expressions: Json, env: Env, sites: set<Key>, preshaped: set<Key>)
    requires Searched(expressions, env, sites, preshaped)
    ensures Searched(Obj(map["expressions" := expressions]), env, sites, preshaped)
  {
    PlainBody(expressions, Null);
    hide Searched, TagOf, CanonicalKey;
    SearchedPair(map["expressions" := expressions], "expressions", env, sites, preshaped);
  }

  lemma FunctionSearched(body: Json, env: Env, sites: set<Key>, preshaped: set<Key>)
    requires Searched(body, env, sites, preshaped)
    ensures Searched(Obj(map["params" := Arr([]), "kind" := Text("function"), "symbol" := Text("caller"), "body" := body]),
                     env, sites, preshaped)
  {
    PlainBody(Null, body);
    LeavesSearched(env);
    hide Searched, TagOf, CanonicalKey;
    var fields := map["params" := Arr([]), "kind" := Text("function"), "symbol" := Text("caller"), "body" := body];
    assert forall k :: k in fields && k != "body" ==> k == "params" || k == "kind" || k == "symbol";
    SearchedPair(fields, "body", env, sites, preshaped);
  }

  lemma PlainBody(expressions: Json, body: Json)
    ensures TagOf(map["expressions" := expressions], "m") == Untagged && CanonicalKey(map["expressions" := expressions]) == None
    ensures var fields := map["params" := Arr([]), "kind" := Text("function"), "symbol" := Text("caller"), "body" := body];
            TagOf(fields, "m") == Untagged && CanonicalKey(fields) == None
  {
  }

  lemma CallerFollows(metadata: Json, env: Env)
    ensures CodeRefsOk(Caller(metadata).expressions, env, "m") && CodeRefs(Caller(metadata).expressions, env, "m") == {}
  {
  }

  lemma CallerNode(metadata: Json, sites: set<Key>, preshaped: set<Key>)
    requires Searched(metadata, MetadataEnv(metadata), sites, preshaped) && forall k :: k in sites ==> IsCode(k)
    ensures var env := MetadataEnv(metadata);
            && NodeOk(env, CALLER_KEY) && Edges(env, CALLER_KEY) == {}
            && Unfollowed(env, CALLER_KEY) == sites + preshaped
  {
    var env := MetadataEnv(metadata);
    CallerValue(metadata);
    CallerResolves(metadata);
    CallerSearched(metadata, env, sites, preshaped);
    hide MetadataEnv, DeclValue, Sites, Preshaped, TypeRefs, TypeRefsOk, Normalise, Resolve, BlankDecl;
    CallerFollows(metadata, env);
    hide Caller, CodeRefs, CodeRefsOk;
  }

  lemma CallerRoots(metadata: Json)
    ensures var env := MetadataEnv(metadata);
            && RootsOk(env, "m", HUB) && ActorOk(HUB)
            && Roots(env, "m", HUB).Values == {CALLER_KEY}
            && "m" in env && FindActor(env["m"].actors, "Hub") == Some(HUB)
  {
    CallerResolves(metadata);
    var env := MetadataEnv(metadata);
    assert RootIndices(HUB) == map["run" := 0];
    var roots := Roots(env, "m", HUB);
    assert "run" in roots && roots["run"] == CALLER_KEY;
    assert env["m"].actors == [HUB];
  }

  lemma CallerReach(env: Env)
    requires Edges(env, CALLER_KEY) == {}
    ensures forall k :: Reachable(Graph(env), {CALLER_KEY}, k) <==> k == CALLER_KEY
  {
    RootsReachable(Graph(env), {CALLER_KEY});
    hide Edges;
    ReachableInClosedSet(Graph(env), {CALLER_KEY}, iset{CALLER_KEY});
  }

  /** Metadata whose references name something else than the caller itself spoil the preimage. */
  lemma MetadataSpoils(metadata: Json, sites: set<Key>, preshaped: set<Key>, t: Key)
    requires Searched(metadata, MetadataEnv(metadata), sites, preshaped) && forall k :: k in sites ==> IsCode(k)
    requires t in sites + preshaped && t != CALLER_KEY
    ensures PreimageIn(MetadataEnv(metadata), "m", "Hub").Some?
    ensures !SelfContained(PreimageIn(MetadataEnv(metadata), "m", "Hub").value)
  {
    var env := MetadataEnv(metadata);
    CallerNode(metadata, sites, preshaped);
    CallerRoots(metadata);
    CallerReach(env);
    hide MetadataEnv, Searched, NodeOk, Edges, Unfollowed;
    HubPreimage(env);
    hide PreimageIn, SelfContained;
    var p := PreimageIn(env, "m", "Hub").value;
    SelfContainedExactly(env, "m", "Hub", p);
    Spoils(env, p, t);
  }

  lemma Spoils(env: Env, p: Preimage, t: Key)
    requires SelfContained(p) <==>
      forall k, t :: Reachable(Graph(env), p.roots.Values, k) && t in Unfollowed(env, k)
        ==> Reachable(Graph(env), p.roots.Values, t)
    requires p.roots.Values == {CALLER_KEY}
    requires forall k :: Reachable(Graph(env), {CALLER_KEY}, k) <==> k == CALLER_KEY
    requires t in Unfollowed(env, CALLER_KEY) && t != CALLER_KEY
    ensures !SelfContained(p)
  {
    hide Graph, Unfollowed, SelfContained, Reachable;
    var roots := p.roots.Values;
    assert Reachable(Graph(env), roots, CALLER_KEY);
    assert !Reachable(Graph(env), roots, t);
  }

  lemma HubPreimage(env: Env)
    requires "m" in env && FindActor(env["m"].actors, "Hub") == Some(HUB)
    requires RootsOk(env, "m", HUB) && ActorOk(HUB) && Roots(env, "m", HUB).Values == {CALLER_KEY}
    requires NodeOk(env, CALLER_KEY)
    requires forall k :: Reachable(Graph(env), {CALLER_KEY}, k) <==> k == CALLER_KEY
    ensures PreimageIn(env, "m", "Hub").Some? && PreimageIn(env, "m", "Hub").value.roots.Values == {CALLER_KEY}
  {
    hide NodeOk, RootsOk, ActorOk, Roots, Graph, FindActor, Entries;
    assert AllOk(env, {CALLER_KEY});
  }

  /** Metadata that happens to have the shape of a local call target is renamed, although
      the executable it then names is not listed. */
  lemma MetadataEscapes()
    ensures var metadata := Obj(map["kind" := Text("localExecutable"), "executableIndex" := Index(1)]);
            && PreimageIn(MetadataEnv(metadata), "m", "Hub").Some?
            && !SelfContained(PreimageIn(MetadataEnv(metadata), "m", "Hub").value)
  {
    var metadata := Obj(map["kind" := Text("localExecutable"), "executableIndex" := Index(1)]);
    var env := MetadataEnv(metadata);
    CallerResolves(metadata);
    assert TagOf(metadata.fields, "m") == Reference(Executables, "m", 1);
    LocalSearched(metadata, env);
    MetadataSpoils(metadata, {UNREACHED_KEY}, {}, UNREACHED_KEY);
  }

  lemma {:induction false} LocalSearched(metadata: Json, env: Env)
    requires metadata == Obj(map["kind" := Text("localExecutable"), "executableIndex" := Index(1)])
    requires TagOf(metadata.fields, "m") == Reference(Executables, "m", 1)
    requires KeyAt(env, Executables, "m", 1) == Some(UNREACHED_KEY)
    ensures Searched(metadata, env, {UNREACHED_KEY}, {})
  {
    hide KeyAt, TagOf;
    assert Sites(metadata, env, "m") == {UNREACHED_KEY};
    assert Normalise(metadata, env, "m").Some?;
    assert forall k :: k in metadata.fields ==> TypeRefs(metadata.fields[k], env, "m") == {} && TypeRefsOk(metadata.fields[k], env, "m");
    assert TypeRefs(metadata, env, "m") == {};
    assert TypeRefsOk(metadata, env, "m");
    assert Preshaped(metadata, "m") == {};
  }

  /** Metadata that happens to look like the output of the rewrite is left as it is, and
      need not name anything. */
  lemma MetadataPoses()
    ensures var metadata := CanonicalNode(NOWHERE_KEY);
            && PreimageIn(MetadataEnv(metadata), "m", "Hub").Some?
            && !SelfContained(PreimageIn(MetadataEnv(metadata), "m", "Hub").value)
  {
    var metadata := CanonicalNode(NOWHERE_KEY);
    CanonicalSearched(metadata, MetadataEnv(metadata));
    MetadataSpoils(metadata, {}, {NOWHERE_KEY}, NOWHERE_KEY);
  }

  lemma {:induction false} CanonicalSearched(metadata: Json, env: Env)
    requires metadata == CanonicalNode(NOWHERE_KEY)
    ensures Searched(metadata, env, {}, {NOWHERE_KEY})
  {
    var fields := metadata.fields;
    assert fields == map["kind" := Text("canonicalExecutable"), "modulePath" := Text("m"), "symbol" := Text("nowhere")];
    assert TagOf(fields, "m") == Untagged && CanonicalKey(fields) == Some(NOWHERE_KEY);
    assert forall k :: k in fields ==> fields[k].Str?;
    assert forall k :: k in fields ==> Searched(fields[k], env, {}, {});
    hide TagOf, CanonicalKey;
    assert metadata == Obj(fields);
    assert Preshaped(metadata, "m") == {NOWHERE_KEY};
    assert Sites(metadata, env, "m") == {};
    assert TypeRefs(metadata, env, "m") == {};
    assert TypeRefsOk(metadata, env, "m");
    assert Normalise(metadata, env, "m").Some?;
  }
}
