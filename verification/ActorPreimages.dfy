/** What an actor preimage holds, said of the units themselves, and when two are equal. */
module ActorPreimages {
  import opened Wrappers
  import opened JsonValues
  import opened Sorting
  import opened Reachability
  import opened ActorIdentity
  import opened ActorCode
  import opened ActorSelfContained

  // ----- Names and references -----

  /** Every unit is found under its module path, and no two share one. */
  ghost predicate Indexed(units: seq<Unit>, env: Env) {
    && (forall i, j :: 0 <= i < j < |units| ==> units[i].modulePath != units[j].modulePath)
    && (forall u :: u in units ==> u.modulePath in env && env[u.modulePath] == u)
    && (forall m :: m in env ==> exists u :: u in units && u.modulePath == m)
  }

  lemma {:induction false} IndexedExactly(units: seq<Unit>, env: Env)
    ensures IndexUnits(units) == Some(env) <==> Indexed(units, env)
  {
    if units == [] {
      if Indexed(units, env) {
        assert env.Keys == {};
      }
    } else {
      var before, last := units[..|units| - 1], units[|units| - 1];
      assert units == before + [last];
      if Indexed(units, env) {
        var rest := env - {last.modulePath};
        IndexedBefore(units, env);
        IndexedExactly(before, rest);
        assert last in units;
        hide Indexed;
        assert rest[last.modulePath := last] == env;
      }
      if IndexUnits(units) == Some(env) {
        var rest := IndexUnits(before).value;
        IndexedExactly(before, rest);
        IndexedAfter(before, rest, last);
        hide Indexed;
      }
    }
  }

  lemma IndexedAfter(before: seq<Unit>, rest: Env, last: Unit)
    requires Indexed(before, rest) && last.modulePath !in rest
    ensures Indexed(before + [last], rest[last.modulePath := last])
  {
    var units, env := before + [last], rest[last.modulePath := last];
    forall i, j | 0 <= i < j < |units|
      ensures units[i].modulePath != units[j].modulePath
    {
      assert units[i] == before[i] && units[i] in before;
    }
    forall m | m in env
      ensures exists u :: u in units && u.modulePath == m
    {
      if m == last.modulePath {
        assert last in units;
      } else {
        var u :| u in before && u.modulePath == m;
        assert u in units;
      }
    }
  }

  lemma IndexedBefore(units: seq<Unit>, env: Env)
    requires units != [] && Indexed(units, env)
    ensures Indexed(units[..|units| - 1], env - {units[|units| - 1].modulePath})
  {
    var before, last := units[..|units| - 1], units[|units| - 1];
    var rest := env - {last.modulePath};
    forall u | u in before
      ensures u.modulePath in rest && rest[u.modulePath] == u
    {
      var i :| 0 <= i < |before| && before[i] == u;
      assert units[i] == u && u in units;
    }
    forall m | m in rest
      ensures exists u :: u in before && u.modulePath == m
    {
      var u :| u in units && u.modulePath == m;
      assert u in before;
    }
  }

  /** The only declaration of the key's kind and name in its module. */
  ghost predicate Declares(env: Env, key: Key, d: Decl) {
    && key.modulePath in env
    && var table := env[key.modulePath].Table(key.kind);
       exists i :: 0 <= i < |table| && table[i] == d && forall j :: 0 <= j < |table| ==> (table[j].name == key.name <==> j == i)
  }

  lemma DeclaresExactly(env: Env, key: Key)
    ensures forall d :: Resolve(env, key) == Some(d) <==> Declares(env, key, d)
  {
    if key.modulePath in env {
      var table := env[key.modulePath].Table(key.kind);
      forall d
        ensures FindUnique(table, key.name) == Some(d) <==> Declares(env, key, d)
      {
        if Declares(env, key, d) {
          var i :| 0 <= i < |table| && table[i] == d && forall j :: 0 <= j < |table| ==> (table[j].name == key.name <==> j == i);
          assert UniqueAt(table, key.name, i);
        }
      }
    }
  }

  /** The declaration that the expression itself calls or loads. */
  predicate Uses(e: Expr, env: Env, owner: string, t: Key) {
    match e
    case LoadConst(i) => NamedAt(env, Constants, owner, i, t)
    case Call(LocalExecutable(i), _) => NamedAt(env, Executables, owner, i, t)
    case Call(PublicationExecutable(m, i), _) => NamedAt(env, Executables, m, i, t)
    case _ => false
  }

  /** The expression calls or loads nothing, or something that is there. */
  ghost predicate UsesKnown(e: Expr, env: Env, owner: string) {
    (e.LoadConst? || (e.Call? && !e.target.OtherTarget?)) ==> exists t :: Uses(e, env, owner, t)
  }

  ghost predicate IsTypeReference(fields: map<string, Json>, owner: string) {
    exists m, i :: RefersTo(fields, owner, Types, m, i)
  }

  /** A type reference somewhere in the value, left-out members included, names the type. */
  ghost predicate Mentions(v: Json, env: Env, owner: string, t: Key) {
    match v
    case Arr(items) => exists i :: 0 <= i < |items| && Mentions(items[i], env, owner, t)
    case Obj(fields) =>
      if IsTypeReference(fields, owner) then t.kind == Types && Names(fields, env, owner, t)
      else exists name :: name in fields && Mentions(fields[name], env, owner, t)
    case _ => false
  }

  /** All those type references name something. */
  ghost predicate MentionsKnown(v: Json, env: Env, owner: string) {
    match v
    case Arr(items) => forall i :: 0 <= i < |items| ==> MentionsKnown(items[i], env, owner)
    case Obj(fields) =>
      if IsTypeReference(fields, owner) then exists t: Key :: t.kind == Types && Names(fields, env, owner, t)
      else forall name :: name in fields ==> MentionsKnown(fields[name], env, owner)
    case _ => true
  }

  lemma TypeTag(fields: map<string, Json>, env: Env, owner: string)
    ensures IsTypeReference(fields, owner) <==> TagOf(fields, owner).Reference? && TagOf(fields, owner).kind == Types
    ensures IsTypeReference(fields, owner) ==>
      var tag := TagOf(fields, owner);
      forall t: Key :: t.kind == Types && Names(fields, env, owner, t) <==> KeyAt(env, Types, tag.modulePath, tag.index) == Some(t)
  {
    TagExactly(fields, owner);
    NamesExactly(fields, env, owner);
    var tag := TagOf(fields, owner);
    if IsTypeReference(fields, owner) {
      var m, i :| RefersTo(fields, owner, Types, m, i);
      assert IsReference(fields, owner);
    }
    hide TagOf, Names;
    if tag.Reference? && tag.kind == Types {
      assert RefersTo(fields, owner, Types, tag.modulePath, tag.index);
    }
  }

  lemma {:induction false} MentionsExactly(v: Json, env: Env, owner: string)
    ensures TypeRefsOk(v, env, owner) <==> MentionsKnown(v, env, owner)
    ensures forall t :: t in TypeRefs(v, env, owner) <==> Mentions(v, env, owner, t)
  {
    match v
    case Arr(items) =>
      forall i | 0 <= i < |items|
        ensures TypeRefsOk(items[i], env, owner) <==> MentionsKnown(items[i], env, owner)
        ensures forall t :: t in TypeRefs(items[i], env, owner) <==> Mentions(items[i], env, owner, t)
      {
        MentionsExactly(items[i], env, owner);
      }
    case Obj(fields) =>
      TypeTag(fields, env, owner);
      hide TagOf, IsTypeReference, Names;
      forall name | name in fields
        ensures TypeRefsOk(fields[name], env, owner) <==> MentionsKnown(fields[name], env, owner)
        ensures forall t :: t in TypeRefs(fields[name], env, owner) <==> Mentions(fields[name], env, owner, t)
      {
        MentionsExactly(fields[name], env, owner);
      }
    case _ =>
  }

  /** One declaration leads to another. */
  ghost predicate Leads(env: Env, key: Key, t: Key) {
    exists d :: Declares(env, key, d) && (
      || (key.kind != Types && exists e :: e in d.expressions && Uses(e, env, key.modulePath, t))
      || Mentions(DeclValue(key.kind, d), env, key.modulePath, t))
  }

  /** The graph that is walked has exactly these edges. */
  lemma EdgesExactly(env: Env, key: Key)
    ensures forall t :: t in Graph(env)(key) <==> Leads(env, key, t)
  {
    DeclaresExactly(env, key);
    hide Declares, Resolve;
    if Resolve(env, key).Some? {
      var d := Resolve(env, key).value;
      MentionsExactly(DeclValue(key.kind, d), env, key.modulePath);
      hide DeclValue, TypeRefs, Mentions;
      forall t
        ensures t in CodeRefs(d.expressions, env, key.modulePath) <==> exists e :: e in d.expressions && Uses(e, env, key.modulePath, t)
      {
        UsesExactly(d.expressions, env, key.modulePath, t);
      }
    }
  }

  lemma UseIsKey(e: Expr, env: Env, owner: string, t: Key)
    ensures ExprKey(e, env, owner) == Some(t) <==> Uses(e, env, owner, t)
  {
  }

  lemma UsesExactly(exprs: seq<Expr>, env: Env, owner: string, t: Key)
    ensures t in CodeRefs(exprs, env, owner) <==> exists e :: e in exprs && Uses(e, env, owner, t)
  {
    forall e
      ensures ExprKey(e, env, owner) == Some(t) <==> Uses(e, env, owner, t)
    {
      UseIsKey(e, env, owner, t);
    }
    hide ExprKey, Uses;
    if t in CodeRefs(exprs, env, owner) {
      var i :| 0 <= i < |exprs| && ExprKey(exprs[i], env, owner) == Some(t);
      assert exprs[i] in exprs;
    }
  }

  /** All that is asked of a declaration in reach: it is the only one of its name, and every
      position in it names something. */
  ghost predicate Sound(env: Env, key: Key) {
    exists d ::
      && Declares(env, key, d)
      && (key.kind != Types ==> forall e :: e in d.expressions ==> UsesKnown(e, env, key.modulePath))
      && MentionsKnown(DeclValue(key.kind, d), env, key.modulePath)
      && Readable(DeclValue(key.kind, d), env, key.modulePath)
  }

  lemma KnownUses(exprs: seq<Expr>, env: Env, owner: string)
    ensures CodeRefsOk(exprs, env, owner) <==> forall e :: e in exprs ==> UsesKnown(e, env, owner)
  {
    forall e
      ensures UsesKnown(e, env, owner) <==> (ExprRef(e, owner).Reference? ==> ExprKey(e, env, owner).Some?)
    {
      forall t
        ensures ExprKey(e, env, owner) == Some(t) <==> Uses(e, env, owner, t)
      {
        UseIsKey(e, env, owner, t);
      }
      if ExprKey(e, env, owner).Some? {
        assert Uses(e, env, owner, ExprKey(e, env, owner).value);
      }
    }
    hide UsesKnown, ExprRef, ExprKey;
  }

  lemma SoundExactly(env: Env, key: Key)
    ensures NodeOk(env, key) <==> Sound(env, key)
  {
    DeclaresExactly(env, key);
    hide Declares, Resolve;
    if Resolve(env, key).Some? {
      var d := Resolve(env, key).value;
      MentionsExactly(DeclValue(key.kind, d), env, key.modulePath);
      RewrittenExactly(DeclValue(key.kind, d), env, key.modulePath);
      KnownUses(d.expressions, env, key.modulePath);
      hide DeclValue, TypeRefsOk, MentionsKnown, Normalise, Readable, CodeRefsOk, UsesKnown;
    }
  }

  // ----- The preimage -----

  ghost predicate IsFirst(actors: seq<Actor>, name: string, actor: Actor) {
    exists i :: 0 <= i < |actors| && actors[i] == actor && actor.name == name && forall j :: 0 <= j < i ==> actors[j].name != name
  }

  lemma {:induction false} FirstExactly(actors: seq<Actor>, name: string, actor: Actor)
    ensures FindActor(actors, name) == Some(actor) <==> IsFirst(actors, name, actor)
  {
    if actors != [] && actors[0].name != name {
      FirstExactly(actors[1..], name, actor);
      if IsFirst(actors[1..], name, actor) {
        var i :| 0 <= i < |actors[1..]| && actors[1..][i] == actor && forall j :: 0 <= j < i ==> actors[1..][j].name != name;
        assert actors[i + 1] == actor;
        forall j | 0 <= j < i + 1
          ensures actors[j].name != name
        {
          assert j > 0 ==> actors[j] == actors[1..][j - 1];
        }
      }
      if IsFirst(actors, name, actor) {
        var i :| 0 <= i < |actors| && actors[i] == actor && actor.name == name && forall j :: 0 <= j < i ==> actors[j].name != name;
        assert actors[1..][i - 1] == actor;
        assert forall j :: 0 <= j < i - 1 ==> actors[1..][j] == actors[j + 1];
      }
    } else if actors != [] {
      if IsFirst(actors, name, actor) {
        var i :| 0 <= i < |actors| && actors[i] == actor && actor.name == name && forall j :: 0 <= j < i ==> actors[j].name != name;
        assert i == 0;
      }
      assert actors[0] == actor && actor.name == name ==> IsFirst(actors, name, actor);
    }
  }

  /** The actor runs executable `i` for the method, or to create itself. */
  ghost predicate Implements(actor: Actor, id: string, i: U32) {
    || (id in actor.methodImplementations && actor.methodImplementations[id] == i)
    || actor.create == Some(Create(id, i))
  }

  /** Exactly the public methods are implemented, and creating the actor is not one of them. */
  ghost predicate ActorSound(actor: Actor) {
    && (forall id :: id in actor.publicMethods <==> id in actor.methodImplementations)
    && (forall id, i :: actor.create == Some(Create(id, i)) ==> id !in actor.publicMethods)
  }

  ghost predicate RootsAre(env: Env, m: string, actor: Actor, roots: map<string, Key>) {
    && (forall id :: id in roots <==> exists i :: Implements(actor, id, i))
    && (forall id, i: U32 :: Implements(actor, id, i) ==> id in roots && NamedAt(env, Executables, m, i, roots[id]))
  }

  predicate Before(a: Key, b: Key) {
    StringLess(a.modulePath, b.modulePath) || (a.modulePath == b.modulePath && StringLess(a.name, b.name))
  }

  ghost predicate IsRewritten(env: Env, e: Entry) {
    exists d :: Declares(env, e.key, d) && Normalise(DeclValue(e.key.kind, d), env, e.key.modulePath) == Some(e.value)
  }

  /** The list holds each declaration of the kind in reach once, rewritten, by module and name. */
  ghost predicate Lists(env: Env, roots: set<Key>, kind: Kind, list: seq<Entry>) {
    && (forall i, j :: 0 <= i < j < |list| ==> Before(list[i].key, list[j].key))
    && (forall e :: e in list <==> Reachable(Graph(env), roots, e.key) && e.key.kind == kind && IsRewritten(env, e))
  }

  ghost predicate Describes(env: Env, m: string, actor: Actor, p: Preimage) {
    && ActorSound(actor)
    && p.abiIdentity == actor.abiIdentity
    && RootsAre(env, m, actor, p.roots)
    && (forall key :: Reachable(Graph(env), p.roots.Values, key) ==> Sound(env, key))
    && Lists(env, p.roots.Values, Executables, p.executables)
    && Lists(env, p.roots.Values, Constants, p.constants)
    && Lists(env, p.roots.Values, Types, p.types)
  }

  lemma ActorExactly(actor: Actor)
    ensures ActorOk(actor) <==> ActorSound(actor)
  {
    if actor.create.Some? {
      assert actor.create == Some(Create(actor.create.value.identity, actor.create.value.executableIndex));
    }
    if ActorSound(actor) {
      assert actor.publicMethods == actor.methodImplementations.Keys;
    }
  }

  lemma IndicesExactly(actor: Actor)
    requires ActorOk(actor)
    ensures forall id, i: U32 :: id in RootIndices(actor) && RootIndices(actor)[id] == i <==> Implements(actor, id, i)
  {
  }

  lemma RootsExactly(env: Env, m: string, actor: Actor, roots: map<string, Key>)
    requires ActorOk(actor)
    ensures RootsOk(env, m, actor) && Roots(env, m, actor) == roots <==> RootsAre(env, m, actor, roots)
  {
    IndicesExactly(actor);
    var indices := RootIndices(actor);
    hide RootIndices, Implements, ActorOk;
    assert forall id :: id in indices ==> Implements(actor, id, indices[id]);
    if RootsAre(env, m, actor, roots) {
      forall id | id in indices
        ensures id in roots && KeyAt(env, Executables, m, indices[id]) == Some(roots[id])
      {
        assert NamedAt(env, Executables, m, indices[id], roots[id]);
      }
      assert forall id :: id in roots ==> id in indices;
      assert Roots(env, m, actor) == roots;
    }
  }

  lemma NodeValueExactly(env: Env, e: Entry)
    requires NodeOk(env, e.key)
    ensures e.value == NodeValue(env, e.key) <==> IsRewritten(env, e)
  {
    DeclaresExactly(env, e.key);
    hide Declares, DeclValue, Normalise, TypeRefsOk, CodeRefsOk, Resolve;
  }

  /** There is one such list, the one in the preimage. */
  lemma ListsExactly(env: Env, roots: set<Key>, kind: Kind, list: seq<Entry>)
    requires AllOk(env, roots)
    ensures list == Entries(env, roots, kind) <==> Lists(env, roots, kind, list)
  {
    var own := Entries(env, roots, kind);
    OwnList(env, roots, kind);
    if Lists(env, roots, kind, list) {
      ListUnique(env, roots, kind, list);
    }
  }

  lemma BeforeIsLess(a: Key, b: Key)
    requires a.kind == b.kind
    ensures KeyLess(a, b) <==> Before(a, b)
  {
    hide StringLess;
  }

  lemma OwnOrder(env: Env, roots: set<Key>, kind: Kind)
    requires AllOk(env, roots)
    ensures var own := Entries(env, roots, kind);
            forall i, j :: 0 <= i < j < |own| ==> Before(own[i].key, own[j].key)
  {
    var keys := Arrange(ReachableKeys(env, roots, kind), KeyLess);
    KeyLessIsOrder();
    ArrangeSorted(ReachableKeys(env, roots, kind), KeyLess);
    hide Arrange, KeyLess, StrictTotalOrder, Before, NodeOk, NodeValue, AllOk;
    forall i, j | 0 <= i < j < |keys|
      ensures Before(keys[i], keys[j])
    {
      assert keys[i] in keys && keys[j] in keys;
      BeforeIsLess(keys[i], keys[j]);
    }
  }

  lemma OwnList(env: Env, roots: set<Key>, kind: Kind)
    requires AllOk(env, roots)
    ensures Lists(env, roots, kind, Entries(env, roots, kind))
  {
    OwnOrder(env, roots, kind);
    hide Graph, Reachable, NodeOk, NodeValue, Entries, Before;
    forall e
      ensures e in Entries(env, roots, kind) <==> Reachable(Graph(env), roots, e.key) && e.key.kind == kind && IsRewritten(env, e)
    {
      EntriesContain(env, roots, kind, e);
      if Reachable(Graph(env), roots, e.key) {
        NodeValueExactly(env, e);
      }
    }
  }

  function KeysOf(list: seq<Entry>): (keys: seq<Key>)
    ensures |keys| == |list| && forall i :: 0 <= i < |keys| ==> keys[i] == list[i].key
  {
    seq(|list|, i requires 0 <= i < |list| => list[i].key)
  }

  lemma ListedEntry(env: Env, roots: set<Key>, kind: Kind, list: seq<Entry>, e: Entry)
    requires AllOk(env, roots) && Lists(env, roots, kind, list)
    ensures e in list <==> e.key in ReachableKeys(env, roots, kind) && NodeOk(env, e.key) && e.value == NodeValue(env, e.key)
  {
    hide Graph, Reachable, NodeOk, NodeValue, IsRewritten, AllKeys;
    if Reachable(Graph(env), roots, e.key) {
      OkInAllKeys(env, e.key);
      NodeValueExactly(env, e);
    }
  }

  lemma KeysInOrder(env: Env, roots: set<Key>, kind: Kind, list: seq<Entry>)
    requires Lists(env, roots, kind, list)
    ensures StrictlySorted(KeysOf(list), KeyLess)
  {
    var keys := KeysOf(list);
    forall i, j | 0 <= i < j < |keys|
      ensures KeyLess(keys[i], keys[j])
    {
      assert list[i] in list && list[j] in list;
      BeforeIsLess(keys[i], keys[j]);
    }
  }

  lemma ListedEntries(env: Env, roots: set<Key>, kind: Kind, list: seq<Entry>, reached: set<Key>)
    requires AllOk(env, roots) && Lists(env, roots, kind, list) && reached == ReachableKeys(env, roots, kind)
    ensures forall e :: e in list <==> e.key in reached && NodeOk(env, e.key) && e.value == NodeValue(env, e.key)
    ensures forall k :: k in reached ==> NodeOk(env, k)
  {
    forall e
      ensures e in list <==> e.key in reached && NodeOk(env, e.key) && e.value == NodeValue(env, e.key)
    {
      hide *;
      ListedEntry(env, roots, kind, list, e);
    }
    hide NodeOk, NodeValue;
  }

  lemma ListUnique(env: Env, roots: set<Key>, kind: Kind, list: seq<Entry>)
    requires AllOk(env, roots) && Lists(env, roots, kind, list)
    ensures list == Entries(env, roots, kind)
  {
    hide Lists, AllOk, NodeOk, NodeValue, ReachableKeys, KeyLess, StrictTotalOrder, StrictlySorted, Arrange;
    var keys, reached := KeysOf(list), ReachableKeys(env, roots, kind);
    KeysInOrder(env, roots, kind, list);
    ListedEntries(env, roots, kind, list, reached);
    KeysListed(env, list, keys, reached);
    KeyLessIsOrder();
    ArrangeUnique(reached, keys, KeyLess);
    assert list == EntriesFor(env, keys);
  }

  lemma KeysListed(env: Env, list: seq<Entry>, keys: seq<Key>, reached: set<Key>)
    requires keys == KeysOf(list) && forall k :: k in reached ==> NodeOk(env, k)
    requires forall e :: e in list <==> e.key in reached && NodeOk(env, e.key) && e.value == NodeValue(env, e.key)
    ensures ToSet(keys) == reached
    ensures forall k :: k in keys ==> NodeOk(env, k)
  {
    hide NodeOk, NodeValue;
    forall k | k in keys
      ensures k in reached
    {
      var i :| 0 <= i < |keys| && keys[i] == k;
      assert list[i] in list;
    }
    forall k | k in reached
      ensures k in keys
    {
      assert Entry(k, NodeValue(env, k)) in list;
      var i :| 0 <= i < |list| && list[i] == Entry(k, NodeValue(env, k));
      assert keys[i] == k;
    }
  }

  /** The preimage, said of the actor and the declarations of the units. */
  lemma PreimageExactly(units: seq<Unit>, m: string, name: string, p: Preimage)
    ensures PreimageOf(units, m, name) == Some(p) <==>
            exists env: Env, actor :: Indexed(units, env) && m in env && IsFirst(env[m].actors, name, actor) && Describes(env, m, actor, p)
  {
    hide Describes, Indexed, IsFirst, PreimageIn;
    if PreimageOf(units, m, name) == Some(p) {
      var env := IndexUnits(units).value;
      IndexedExactly(units, env);
      var actor := PreimageDescribed(env, m, name, p);
    }
    if env: Env, actor :| Indexed(units, env) && m in env && IsFirst(env[m].actors, name, actor) && Describes(env, m, actor, p) {
      IndexedExactly(units, env);
      DescribedIsPreimage(env, m, name, actor, p);
    }
  }

  lemma PreimageDescribed(env: Env, m: string, name: string, p: Preimage) returns (actor: Actor)
    requires PreimageIn(env, m, name) == Some(p)
    ensures m in env && IsFirst(env[m].actors, name, actor) && Describes(env, m, actor, p)
  {
    actor := FindActor(env[m].actors, name).value;
    FirstExactly(env[m].actors, name, actor);
    ActorExactly(actor);
    RootsExactly(env, m, actor, p.roots);
    hide IsFirst, ActorSound, RootsAre, Lists, Entries, Graph, Reachable, ActorOk, RootsOk, Sound, NodeOk;
    AllSound(env, p.roots.Values);
    ListsExactly(env, p.roots.Values, Executables, p.executables);
    ListsExactly(env, p.roots.Values, Constants, p.constants);
    ListsExactly(env, p.roots.Values, Types, p.types);
  }

  lemma AllSound(env: Env, roots: set<Key>)
    ensures AllOk(env, roots) <==> forall key :: Reachable(Graph(env), roots, key) ==> Sound(env, key)
  {
    forall key
      ensures NodeOk(env, key) <==> Sound(env, key)
    {
      SoundExactly(env, key);
    }
    hide NodeOk, Sound, Graph, Reachable;
  }

  lemma DescribedIsPreimage(env: Env, m: string, name: string, actor: Actor, p: Preimage)
    requires m in env && IsFirst(env[m].actors, name, actor) && Describes(env, m, actor, p)
    ensures PreimageIn(env, m, name) == Some(p)
  {
    FirstExactly(env[m].actors, name, actor);
    ActorExactly(actor);
    RootsExactly(env, m, actor, p.roots);
    hide IsFirst, ActorSound, RootsAre, Lists, Entries, Graph, Reachable, ActorOk, RootsOk, Sound, NodeOk;
    AllSound(env, p.roots.Values);
    ListsExactly(env, p.roots.Values, Executables, p.executables);
    ListsExactly(env, p.roots.Values, Constants, p.constants);
    ListsExactly(env, p.roots.Values, Types, p.types);
  }

  // ----- Equal preimages -----

  /** Both units declare the key, and as the same code. */
  ghost predicate SameAt(env: Env, env': Env, key: Key) {
    exists d, d' ::
      && Declares(env, key, d) && Declares(env', key, d')
      && SameDecl(key.kind, d, env, key.modulePath, d', env', key.modulePath)
  }

  lemma NodesAlike(env: Env, env': Env, key: Key)
    requires NodeOk(env, key) && NodeOk(env', key)
    ensures NodeValue(env, key) == NodeValue(env', key) <==> SameAt(env, env', key)
  {
    var m := key.modulePath;
    var d, d' := Resolve(env, key).value, Resolve(env', key).value;
    DeclaresExactly(env, key);
    DeclaresExactly(env', key);
    assert d.name == key.name && d'.name == key.name;
    RewrittenAlike(DeclValue(key.kind, d), env, m, DeclValue(key.kind, d'), env', m);
    DeclAlike(key.kind, d, env, m, d', env', m);
    hide Declares, DeclValue, Normalise, TypeRefsOk, CodeRefsOk, Resolve, SameDecl, SameCode;
  }

  lemma SharedAt(env: Env, env': Env, p: Preimage, key: Key)
    requires ListsReachable(env, p) && ListsReachable(env', p)
    ensures Reachable(Graph(env), p.roots.Values, key) <==> Reachable(Graph(env'), p.roots.Values, key)
    ensures Reachable(Graph(env), p.roots.Values, key) ==> SameAt(env, env', key)
  {
    hide SameAt, Graph, Reachable, Entries, NodeOk, NodeValue;
    PreimageLists(env, p, key);
    PreimageLists(env', p, key);
    if Reachable(Graph(env), p.roots.Values, key) {
      PreimageContains(env', p, Entry(key, NodeValue(env, key)));
      NodesAlike(env, env', key);
    }
  }

  /** Two actors, of one list of units or of two, have equal preimages exactly if they have
      the same ABI and the same roots, and reach the same declarations with the same code. */
  lemma PreimagesAlike(
    env: Env, m: string, name: string, p: Preimage, env': Env, m': string, name': string, p': Preimage)
    requires PreimageIn(env, m, name) == Some(p) && PreimageIn(env', m', name') == Some(p')
    ensures p == p' <==>
            && p.abiIdentity == p'.abiIdentity
            && p.roots == p'.roots
            && (forall key :: Reachable(Graph(env), p.roots.Values, key) <==> Reachable(Graph(env'), p'.roots.Values, key))
            && (forall key :: Reachable(Graph(env), p.roots.Values, key) ==> SameAt(env, env', key))
  {
    assert ListsReachable(env, p) && ListsReachable(env', p');
    hide PreimageIn, SameAt, Graph, Reachable, Entries, NodeOk, NodeValue;
    if p == p' {
      forall key
        ensures Reachable(Graph(env), p.roots.Values, key) <==> Reachable(Graph(env'), p'.roots.Values, key)
        ensures Reachable(Graph(env), p.roots.Values, key) ==> SameAt(env, env', key)
      {
        SharedAt(env, env', p, key);
      }
    }
    if && p.roots == p'.roots
       && (forall key :: Reachable(Graph(env), p.roots.Values, key) <==> Reachable(Graph(env'), p'.roots.Values, key))
       && (forall key :: Reachable(Graph(env), p.roots.Values, key) ==> SameAt(env, env', key)) {
      ListsAlike(env, env', p.roots.Values, Executables);
      ListsAlike(env, env', p.roots.Values, Constants);
      ListsAlike(env, env', p.roots.Values, Types);
    }
  }

  lemma ListsAlike(env: Env, env': Env, roots: set<Key>, kind: Kind)
    requires AllOk(env, roots) && AllOk(env', roots)
    requires forall key :: Reachable(Graph(env), roots, key) <==> Reachable(Graph(env'), roots, key)
    requires forall key :: Reachable(Graph(env), roots, key) ==> SameAt(env, env', key)
    ensures Entries(env, roots, kind) == Entries(env', roots, kind)
  {
    var keys := ReachableKeys(env, roots, kind);
    hide SameAt, Graph, Reachable, NodeOk, NodeValue, AllKeys, Arrange;
    forall k | Reachable(Graph(env), roots, k) && k.kind == kind
      ensures k in keys
    {
      OkInAllKeys(env, k);
    }
    ReachableKeysOf(env', roots, kind, keys);
    var list := Arrange(keys, KeyLess);
    forall i | 0 <= i < |list|
      ensures NodeValue(env, list[i]) == NodeValue(env', list[i])
    {
      assert list[i] in list;
      NodesAlike(env, env', list[i]);
    }
    assert EntriesFor(env, list) == EntriesFor(env', list);
  }
}
