/** Merging the config requirements of packages and checking a config against them
    (artifact-model/src/compile_requirements.rs, config-snapshot-tooling/src/projection.rs). */
module ConfigMerge {
  import opened JsonValues
  import opened Wrappers
  import opened Sorting
  import opened Strings

  datatype Access = Presence | Optional(valueType: string) | Required(valueType: string)

  datatype Requirement = Requirement(path: string, access: Access)

  datatype Outcome =
    | Merged(list: seq<Requirement>)
    | EmptyPath
    | EmptyValueType(path: string)
    | Conflict(path: string, left: string, right: string)

  // ----- The order of accesses -----

  /** Whatever `strong` asks for includes what `weak` asks for. */
  predicate Covers(strong: Access, weak: Access) {
    weak.Presence? || (!strong.Presence? && strong.valueType == weak.valueType && (weak.Required? ==> strong.Required?))
  }

  /** The least access that covers both, if one covers both at all. */
  function MergeAccess(left: Access, right: Access): (r: Option<Access>)
    ensures r.Some? ==> forall u :: Covers(u, r.value) <==> Covers(u, left) && Covers(u, right)
    ensures r.None? ==> forall u :: !(Covers(u, left) && Covers(u, right))
    ensures r.None? ==> !left.Presence? && !right.Presence? && left.valueType != right.valueType
  {
    match (left, right)
    case (Presence, _) => Some(right)
    case (_, Presence) => Some(left)
    case (Optional(l), Optional(r)) => if l == r then Some(Optional(l)) else None
    case (Required(l), Required(r)) => if l == r then Some(Required(l)) else None
    case (Optional(l), Required(r)) => if l == r then Some(Required(r)) else None
    case (Required(l), Optional(r)) => if l == r then Some(Required(l)) else None
  }

  ghost predicate UpperBound(reqs: seq<Requirement>, path: string, u: Access) {
    forall r :: r in reqs && r.path == path ==> Covers(u, r.access)
  }

  ghost predicate HasBound(reqs: seq<Requirement>, path: string) {
    exists u :: UpperBound(reqs, path, u)
  }

  ghost predicate Names(reqs: seq<Requirement>, path: string) {
    exists r :: r in reqs && r.path == path
  }

  ghost predicate PathsSorted(reqs: seq<Requirement>) {
    forall i, j :: 0 <= i < j < |reqs| ==> StringLess(reqs[i].path, reqs[j].path)
  }

  /** The list holds, in path order, the join of the requirements at each path. */
  ghost predicate IsMerged(reqs: seq<Requirement>, list: seq<Requirement>) {
    && PathsSorted(list)
    && (forall path :: Names(list, path) <==> Names(reqs, path))
    && (forall o, u :: o in list ==> (Covers(u, o.access) <==> UpperBound(reqs, o.path, u)))
  }

  ghost predicate NotBlank(blank: string -> bool, r: Requirement) {
    !blank(r.path) && (!r.access.Presence? ==> !blank(r.access.valueType))
  }

  ghost predicate Compatible(reqs: seq<Requirement>) {
    forall r, s :: r in reqs && s in reqs && r.path == s.path && !r.access.Presence? && !s.access.Presence? ==>
      r.access.valueType == s.access.valueType
  }

  /** Nothing is blank, and no path is asked for with two types. */
  ghost predicate Mergeable(blank: string -> bool, reqs: seq<Requirement>) {
    (forall r :: r in reqs ==> NotBlank(blank, r)) && Compatible(reqs)
  }

  // ----- Merging -----

  ghost predicate MapMerged(reqs: seq<Requirement>, m: map<string, Access>) {
    && (forall path :: path in m <==> Names(reqs, path))
    && (forall path, u :: path in m ==> (Covers(u, m[path]) <==> UpperBound(reqs, path, u)))
    && (forall path :: path in m && !m[path].Presence? ==> exists r :: r in reqs && r.path == path && SameType(r.access, m[path]))
  }

  ghost predicate SameType(a: Access, b: Access) {
    !a.Presence? && !b.Presence? && a.valueType == b.valueType
  }

  lemma NamesAppend(reqs: seq<Requirement>, r: Requirement)
    ensures forall path :: Names(reqs + [r], path) <==> Names(reqs, path) || path == r.path
    ensures forall path, u :: UpperBound(reqs + [r], path, u) <==> UpperBound(reqs, path, u) && (path == r.path ==> Covers(u, r.access))
  {
    assert forall s :: s in reqs + [r] <==> s in reqs || s == r;
  }

  lemma MapStep(reqs: seq<Requirement>, m: map<string, Access>, r: Requirement, access: Access)
    requires MapMerged(reqs, m)
    requires r.path !in m ==> access == r.access
    requires r.path in m ==> MergeAccess(m[r.path], r.access) == Some(access)
    ensures MapMerged(reqs + [r], m[r.path := access])
  {
    NamesAppend(reqs, r);
    var m' := m[r.path := access];
    forall path, u | path in m'
      ensures Covers(u, m'[path]) <==> UpperBound(reqs + [r], path, u)
    {
      if path == r.path && path !in m {
        assert !Names(reqs, path);
        assert UpperBound(reqs, path, u);
      }
    }
    forall path | path in m' && !m'[path].Presence?
      ensures exists s :: s in reqs + [r] && s.path == path && SameType(s.access, m'[path])
    {
      if path == r.path && SameType(r.access, access) {
        assert r in reqs + [r];
      } else {
        var s :| s in reqs && s.path == path && SameType(s.access, m[path]);
        assert s in reqs + [r];
      }
    }
  }

  ghost predicate AsksFor(reqs: seq<Requirement>, path: string, valueType: string) {
    exists r :: r in reqs && r.path == path && !r.access.Presence? && r.access.valueType == valueType
  }

  method Canonicalize(blank: string -> bool, reqs: seq<Requirement>) returns (outcome: Outcome)
    ensures outcome.Merged? <==> Mergeable(blank, reqs)
    ensures outcome.Merged? ==> IsMerged(reqs, outcome.list)
    ensures outcome.EmptyPath? ==> exists r :: r in reqs && blank(r.path)
    ensures outcome.EmptyValueType? ==> exists r :: r in reqs && r.path == outcome.path && !r.access.Presence? && blank(r.access.valueType)
    ensures outcome.Conflict? ==>
              && outcome.left != outcome.right
              && AsksFor(reqs, outcome.path, outcome.left) && AsksFor(reqs, outcome.path, outcome.right)
  {
    hide MapMerged, IsMerged, MergeAccess;
    var canonical: map<string, Access> := map[];
    assert MapMerged([], canonical) by {
      EmptyMerged();
    }
    for i := 0 to |reqs|
      invariant MapMerged(reqs[..i], canonical)
      invariant forall r :: r in reqs[..i] ==> NotBlank(blank, r)
    {
      var r := reqs[i];
      assert r in reqs;
      assert reqs[..i + 1] == reqs[..i] + [r];
      if blank(r.path) {
        return EmptyPath;
      }
      if !r.access.Presence? && blank(r.access.valueType) {
        return EmptyValueType(r.path);
      }
      var access := r.access;
      if r.path in canonical {
        var merged := MergeAccess(canonical[r.path], r.access);
        if merged.None? {
          ConflictFound(reqs[..i], canonical, r);
          assert forall s :: s in reqs[..i] ==> s in reqs;
          return Conflict(r.path, canonical[r.path].valueType, r.access.valueType);
        }
        access := merged.value;
      }
      MapStep(reqs[..i], canonical, r, access);
      canonical := canonical[r.path := access];
    }
    assert reqs[..|reqs|] == reqs;
    MergedCompatible(reqs, canonical);
    StringLessIsOrder();
    ArrangeSorted(canonical.Keys, StringLess);
    var keys := SortedList(canonical.Keys, StringLess);
    var list := [];
    for i := 0 to |keys|
      invariant |list| == i
      invariant forall j :: 0 <= j < i ==> keys[j] in canonical && list[j] == Requirement(keys[j], canonical[keys[j]])
    {
      assert keys[i] in keys;
      list := list + [Requirement(keys[i], canonical[keys[i]])];
    }
    EmitMerged(reqs, canonical, keys, list);
    outcome := Merged(list);
  }

  lemma EmptyMerged()
    ensures MapMerged([], map[])
  {
  }

  lemma ConflictFound(reqs: seq<Requirement>, m: map<string, Access>, r: Requirement)
    requires MapMerged(reqs, m) && r.path in m && MergeAccess(m[r.path], r.access).None?
    ensures !m[r.path].Presence? && !r.access.Presence? && m[r.path].valueType != r.access.valueType
    ensures exists s :: s in reqs && s.path == r.path && SameType(s.access, m[r.path])
  {
  }

  lemma MergedCompatible(reqs: seq<Requirement>, m: map<string, Access>)
    requires MapMerged(reqs, m)
    ensures Compatible(reqs)
  {
    forall r, s | r in reqs && s in reqs && r.path == s.path && !r.access.Presence? && !s.access.Presence?
      ensures r.access.valueType == s.access.valueType
    {
      assert Names(reqs, r.path);
      var u := m[r.path];
      assert Covers(u, u);
      assert UpperBound(reqs, r.path, u);
    }
  }

  lemma EmitMerged(reqs: seq<Requirement>, m: map<string, Access>, keys: seq<string>, list: seq<Requirement>)
    requires MapMerged(reqs, m) && StrictlySorted(keys, StringLess) && (forall k :: k in keys <==> k in m)
    requires |list| == |keys| && forall j :: 0 <= j < |keys| ==> keys[j] in m && list[j] == Requirement(keys[j], m[keys[j]])
    ensures IsMerged(reqs, list)
  {
    forall path
      ensures Names(list, path) <==> path in m
    {
      if path in m {
        var j :| 0 <= j < |keys| && keys[j] == path;
        assert list[j] in list;
      }
    }
    hide StringLess, Names;
  }

  // ----- Laws -----

  lemma Antisymmetric(a: Access, b: Access)
    requires forall u :: Covers(u, a) <==> Covers(u, b)
    ensures a == b
  {
    assert Covers(a, a) && Covers(b, b);
  }

  /** Success and result depend only on which requirements there are, not on their order
      or repetition. */
  lemma MergeIgnoresOrder(blank: string -> bool, a: seq<Requirement>, b: seq<Requirement>, la: seq<Requirement>, lb: seq<Requirement>)
    requires forall r :: r in a <==> r in b
    ensures Mergeable(blank, a) <==> Mergeable(blank, b)
    ensures IsMerged(a, la) && IsMerged(b, lb) ==> la == lb
  {
    if IsMerged(a, la) && IsMerged(b, lb) {
      forall path
        ensures Names(a, path) <==> Names(b, path)
      {
      }
      forall path, u
        ensures UpperBound(a, path, u) <==> UpperBound(b, path, u)
      {
      }
      SameMerged(a, b, la, lb);
    }
  }

  /** Requirements with the same paths and the same bounds merge to the same list. */
  lemma SameMerged(a: seq<Requirement>, b: seq<Requirement>, la: seq<Requirement>, lb: seq<Requirement>)
    requires IsMerged(a, la) && IsMerged(b, lb)
    requires forall path :: Names(a, path) <==> Names(b, path)
    requires forall path, u :: UpperBound(a, path, u) <==> UpperBound(b, path, u)
    ensures la == lb
  {
    hide StringLess;
    var pa, pb := Paths(la), Paths(lb);
    forall path
      ensures path in ToSet(pa) <==> path in ToSet(pb)
    {
      PathsAre(la, path);
      PathsAre(lb, path);
    }
    StringLessIsOrder();
    StrictlySortedSetUnique(pa, pb, StringLess);
    assert |la| == |pa| == |pb| == |lb|;
    forall i | 0 <= i < |la|
      ensures la[i] == lb[i]
    {
      assert la[i] in la && lb[i] in lb && pa[i] == pb[i];
      forall u
        ensures Covers(u, la[i].access) <==> Covers(u, lb[i].access)
      {
        assert UpperBound(a, la[i].path, u) <==> UpperBound(b, lb[i].path, u);
      }
      Antisymmetric(la[i].access, lb[i].access);
    }
  }

  ghost function Paths(list: seq<Requirement>): (paths: seq<string>)
    ensures |paths| == |list| && forall i :: 0 <= i < |list| ==> paths[i] == list[i].path
  {
    seq(|list|, i requires 0 <= i < |list| => list[i].path)
  }

  lemma PathsAre(list: seq<Requirement>, path: string)
    ensures path in Paths(list) <==> Names(list, path)
  {
    if Names(list, path) {
      var r :| r in list && r.path == path;
      var i :| 0 <= i < |list| && list[i] == r;
      assert Paths(list)[i] == path;
    }
    if path in Paths(list) {
      var i :| 0 <= i < |list| && Paths(list)[i] == path;
      assert list[i] in list;
    }
  }

  /** At most one entry of a merged list has a given path. */
  lemma EntryUnique(list: seq<Requirement>, o: Requirement, o': Requirement)
    requires PathsSorted(list) && o in list && o' in list && o.path == o'.path
    ensures o == o'
  {
    var i :| 0 <= i < |list| && list[i] == o;
    var j :| 0 <= j < |list| && list[j] == o';
    StringLessTrichotomy(o.path, o'.path);
  }

  /** A bound of the merged list at a path is a bound of what was merged. */
  lemma MergedBounds(reqs: seq<Requirement>, list: seq<Requirement>)
    requires IsMerged(reqs, list)
    ensures forall path, u :: UpperBound(list, path, u) <==> UpperBound(reqs, path, u)
  {
    forall path, u
      ensures UpperBound(list, path, u) <==> UpperBound(reqs, path, u)
    {
      if Names(list, path) {
        var o :| o in list && o.path == path;
        forall o' | o' in list && o'.path == path
          ensures o' == o
        {
          EntryUnique(list, o, o');
        }
        assert UpperBound(list, path, u) <==> Covers(u, o.access);
      } else {
        assert !Names(reqs, path);
      }
    }
  }

  /** A merged list is compatible, and merging it again gives the same list. */
  lemma MergeIdempotent(blank: string -> bool, reqs: seq<Requirement>, list: seq<Requirement>)
    requires Mergeable(blank, reqs) && IsMerged(reqs, list)
    ensures Mergeable(blank, list)
    ensures forall again :: IsMerged(list, again) <==> again == list
  {
    hide StringLess;
    MergedBounds(reqs, list);
    assert IsMerged(list, list);
    MergedMergeable(blank, reqs, list);
    forall again | IsMerged(list, again)
      ensures again == list
    {
      SameMerged(list, list, again, list);
    }
  }

  lemma MergedMergeable(blank: string -> bool, reqs: seq<Requirement>, list: seq<Requirement>)
    requires Mergeable(blank, reqs) && IsMerged(reqs, list)
    ensures Mergeable(blank, list)
  {
    forall r, s | r in list && s in list && r.path == s.path && !r.access.Presence? && !s.access.Presence?
      ensures r.access.valueType == s.access.valueType
    {
      EntryUnique(list, r, s);
    }
    forall o | o in list
      ensures NotBlank(blank, o)
    {
      assert Names(list, o.path);
      assert Names(reqs, o.path);
      if !o.access.Presence? {
        TypeComesFrom(reqs, list, o);
      }
    }
  }

  /** The type of a merged entry is that of one of the requirements merged into it. */
  lemma TypeComesFrom(reqs: seq<Requirement>, list: seq<Requirement>, o: Requirement)
    requires IsMerged(reqs, list) && o in list && !o.access.Presence?
    ensures exists r :: r in reqs && r.path == o.path && SameType(r.access, o.access)
  {
    assert Covers(o.access, o.access);
    assert UpperBound(reqs, o.path, o.access);
    assert !Covers(Presence, o.access);
    assert !UpperBound(reqs, o.path, Presence);
    var r :| r in reqs && r.path == o.path && !r.access.Presence?;
    assert Covers(o.access, r.access);
  }

  /** Merging parts and then the results is merging everything at once. */
  lemma MergeGroups(
    blank: string -> bool, a: seq<Requirement>, b: seq<Requirement>, la: seq<Requirement>, lb: seq<Requirement>)
    requires Mergeable(blank, a) && Mergeable(blank, b) && IsMerged(a, la) && IsMerged(b, lb)
    ensures Mergeable(blank, la + lb) <==> Mergeable(blank, a + b)
    ensures forall list :: IsMerged(la + lb, list) <==> IsMerged(a + b, list)
  {
    MergedMergeable(blank, a, la);
    MergedMergeable(blank, b, lb);
    MergedBounds(a, la);
    MergedBounds(b, lb);
    forall path
      ensures Names(la + lb, path) <==> Names(a + b, path)
    {
      NamesOfBoth(a, b, path);
      NamesOfBoth(la, lb, path);
    }
    forall path, u
      ensures UpperBound(la + lb, path, u) <==> UpperBound(a + b, path, u)
    {
      BoundOfBoth(a, b, path, u);
      BoundOfBoth(la, lb, path, u);
    }
    SameBoundsCompatible(a + b, la + lb);
    assert forall r :: r in a + b <==> r in a || r in b;
    assert forall r :: r in la + lb <==> r in la || r in lb;
  }

  lemma NamesOfBoth(a: seq<Requirement>, b: seq<Requirement>, path: string)
    ensures Names(a + b, path) <==> Names(a, path) || Names(b, path)
  {
    assert forall r :: r in a + b <==> r in a || r in b;
  }

  lemma BoundOfBoth(a: seq<Requirement>, b: seq<Requirement>, path: string, u: Access)
    ensures UpperBound(a + b, path, u) <==> UpperBound(a, path, u) && UpperBound(b, path, u)
  {
    assert forall r :: r in a + b <==> r in a || r in b;
  }

  /** Requirements are compatible exactly if every path has a bound. */
  lemma CompatibleByBounds(reqs: seq<Requirement>)
    ensures Compatible(reqs) <==> forall path :: HasBound(reqs, path)
  {
    if Compatible(reqs) {
      forall path
        ensures HasBound(reqs, path)
      {
        if r :| r in reqs && r.path == path && !r.access.Presence? {
          assert UpperBound(reqs, path, Required(r.access.valueType));
        } else {
          assert UpperBound(reqs, path, Presence);
        }
      }
    }
    if forall path :: HasBound(reqs, path) {
      forall r, s | r in reqs && s in reqs && r.path == s.path && !r.access.Presence? && !s.access.Presence?
        ensures r.access.valueType == s.access.valueType
      {
        assert HasBound(reqs, r.path);
        var u :| UpperBound(reqs, r.path, u);
      }
    }
  }

  lemma SameBoundsCompatible(a: seq<Requirement>, b: seq<Requirement>)
    requires forall path, u :: UpperBound(a, path, u) <==> UpperBound(b, path, u)
    ensures Compatible(a) <==> Compatible(b)
  {
    CompatibleByBounds(a);
    CompatibleByBounds(b);
    forall path
      ensures HasBound(a, path) <==> HasBound(b, path)
    {
    }
  }

  // ----- Satisfaction -----

  type Config = map<string, Json>

  datatype Found = Absent | NotAnObject | Value(value: Json)

  /** Walks down from a value along the segments. */
  function Descend(value: Json, segments: seq<string>): Found {
    if segments == [] then Value(value)
    else if !value.Obj? then NotAnObject
    else if segments[0] in value.fields then Descend(value.fields[segments[0]], segments[1..])
    else Absent
  }

  function Lookup(config: Config, path: string): Found {
    var segments := Split(path, '.');
    if segments[0] in config then Descend(config[segments[0]], segments[1..]) else Absent
  }

  method ValueAtPath(config: Config, path: string) returns (found: Found)
    ensures found == Lookup(config, path)
  {
    var segments := Split(path, '.');
    if segments[0] !in config {
      return Absent;
    }
    var value := config[segments[0]];
    for i := 1 to |segments|
      invariant Lookup(config, path) == Descend(value, segments[i..])
    {
      if !value.Obj? {
        return NotAnObject;
      }
      if segments[i] !in value.fields {
        return Absent;
      }
      value := value.fields[segments[i]];
      assert segments[i..][1..] == segments[i + 1..];
    }
    found := Value(value);
  }

  /** Entering the config member by member along the first `n` segments ends at the value. */
  ghost predicate Reaches(config: Config, segments: seq<string>, n: nat, value: Json)
    requires n <= |segments|
  {
    if n == 0 then value == Obj(config)
    else exists above :: Enters(above, segments, n, value) && Reaches(config, segments, n - 1, above)
  }

  /** Member number `n` on the way, counted from one. */
  predicate Enters(above: Json, segments: seq<string>, n: nat, value: Json) {
    0 < n <= |segments| && above.Obj? && segments[n - 1] in above.fields && above.fields[segments[n - 1]] == value
  }

  /** The walk gets as far as `n` segments and stands at something that is no object. */
  ghost predicate Blocked(config: Config, segments: seq<string>, n: nat, value: Json) {
    n < |segments| && Reaches(config, segments, n, value) && !value.Obj?
  }

  lemma {:induction false} ReachesOne(config: Config, segments: seq<string>, n: nat, value: Json, other: Json)
    requires n <= |segments| && Reaches(config, segments, n, value) && Reaches(config, segments, n, other)
    ensures value == other
  {
    if n > 0 {
      var above :| Enters(above, segments, n, value) && Reaches(config, segments, n - 1, above);
      var above' :| Enters(above', segments, n, other) && Reaches(config, segments, n - 1, above');
      ReachesOne(config, segments, n - 1, above, above');
    }
  }

  lemma {:induction false} ReachesBack(config: Config, segments: seq<string>, n: nat, m: nat, value: Json) returns (v: Json)
    requires n <= m <= |segments| && Reaches(config, segments, m, value)
    ensures Reaches(config, segments, n, v) && (n < m ==> v.Obj?) && (n == m ==> v == value)
    decreases m
  {
    v := value;
    if n < m {
      var above :| Enters(above, segments, m, value) && Reaches(config, segments, m - 1, above);
      v := ReachesBack(config, segments, n, m - 1, above);
    }
  }

  /** Descending from a value that was reached. */
  lemma {:induction false} DescendExactly(config: Config, segments: seq<string>, n: nat, value: Json)
    requires n <= |segments| && Reaches(config, segments, n, value)
    ensures forall v :: Descend(value, segments[n..]) == Value(v) <==> Reaches(config, segments, |segments|, v)
    ensures Descend(value, segments[n..]).NotAnObject? <==> exists k: nat, v :: Blocked(config, segments, k, v)
    decreases |segments| - n
  {
    hide Reaches;
    if n == |segments| {
      forall v | Reaches(config, segments, |segments|, v)
        ensures v == value
      {
        ReachesOne(config, segments, n, value, v);
      }
      NothingBlocked(config, segments, n, value);
    } else if !value.Obj? {
      assert Blocked(config, segments, n, value);
      NoFurther(config, segments, n, value);
    } else if segments[n] in value.fields {
      var next := value.fields[segments[n]];
      assert Enters(value, segments, n + 1, next);
      ReachesNext(config, segments, n, value, next);
      DescendExactly(config, segments, n + 1, next);
      assert segments[n..][1..] == segments[n + 1..];
    } else {
      NoFurther(config, segments, n, value);
      NothingBlocked(config, segments, n, value);
    }
  }

  lemma ReachesNext(config: Config, segments: seq<string>, n: nat, value: Json, next: Json)
    requires n < |segments| && Reaches(config, segments, n, value) && Enters(value, segments, n + 1, next)
    ensures Reaches(config, segments, n + 1, next)
  {
  }

  /** Where the walk stops, nothing is reached beyond. */
  lemma NoFurther(config: Config, segments: seq<string>, n: nat, value: Json)
    requires n < |segments| && Reaches(config, segments, n, value)
    requires !value.Obj? || segments[n] !in value.fields
    ensures forall m, v :: n < m <= |segments| ==> !Reaches(config, segments, m, v)
  {
    forall m, v | n < m <= |segments|
      ensures !Reaches(config, segments, m, v)
    {
      if Reaches(config, segments, m, v) {
        var w := ReachesBack(config, segments, n + 1, m, v);
        var above :| Enters(above, segments, n + 1, w) && Reaches(config, segments, n, above);
        ReachesOne(config, segments, n, value, above);
        assert false;
      }
    }
  }

  /** Everything the walk has passed was an object. */
  lemma NothingBlocked(config: Config, segments: seq<string>, n: nat, value: Json)
    requires n <= |segments| && Reaches(config, segments, n, value) && (n < |segments| ==> value.Obj? && segments[n] !in value.fields)
    ensures forall k: nat, v :: !Blocked(config, segments, k, v)
  {
    forall k: nat, v | Blocked(config, segments, k, v)
      ensures false
    {
      if k < n {
        var w := ReachesBack(config, segments, k, n, value);
        ReachesOne(config, segments, k, v, w);
      } else if k == n {
        ReachesOne(config, segments, n, value, v);
      } else {
        NoFurther(config, segments, n, value);
      }
    }
  }

  /** A path is found exactly if its segments lead to a value member by member, and lies
      below a non-object exactly if they lead to one before the last. */
  lemma LookupExactly(config: Config, path: string)
    ensures forall v :: Lookup(config, path) == Value(v) <==> Reaches(config, Split(path, '.'), |Split(path, '.')|, v)
    ensures Lookup(config, path).NotAnObject? <==> exists k: nat, v :: Blocked(config, Split(path, '.'), k, v)
  {
    var segments := Split(path, '.');
    assert segments[0..] == segments;
    DescendExactly(config, segments, 0, Obj(config));
    assert Lookup(config, path) == Descend(Obj(config), segments);
  }

  /** The names of the types a value has. */
  function TypesOf(value: Json): set<string> {
    match value
    case Null => {}
    case Bool(_) => {"bool", "Json"}
    case Num(_) => {"number", "Json"}
    case Str(_) => {"string", "Json"}
    case Arr(_) => {"Json"}
    case Obj(_) => {"JsonObject", "Json"}
  }

  lemma HasTypeExactly(value: Json, valueType: string)
    ensures HasType(value, valueType) <==> valueType in TypesOf(value)
  {
    assert |"string"| == 6 && |"number"| == 6 && |"bool"| == 4 && |"Json"| == 4 && |"JsonObject"| == 10;
    assert "string"[0] != "number"[0] && "bool"[0] != "Json"[0];
  }

  /** The named types; an unknown name fits nothing. */
  predicate HasType(value: Json, valueType: string) {
    (valueType == "string" && value.Str?)
    || (valueType == "number" && value.Num?)
    || (valueType == "bool" && value.Bool?)
    || (valueType == "Json" && !value.Null?)
    || (valueType == "JsonObject" && value.Obj?)
  }

  ghost predicate Satisfies(config: Config, r: Requirement) {
    match Lookup(config, r.path)
    case NotAnObject => false
    case Absent => !r.access.Required?
    case Value(value) => r.access.Presence? || HasType(value, r.access.valueType)
  }

  ghost predicate SatisfiesAll(config: Config, reqs: seq<Requirement>) {
    forall r :: r in reqs ==> Satisfies(config, r)
  }

  method ValidateRequirements(config: Config, reqs: seq<Requirement>) returns (ok: bool)
    ensures ok <==> SatisfiesAll(config, reqs)
  {
    hide HasType, Lookup;
    for i := 0 to |reqs|
      invariant forall j :: 0 <= j < i ==> Satisfies(config, reqs[j])
    {
      assert reqs[i] in reqs;
      var found := ValueAtPath(config, reqs[i].path);
      if found.NotAnObject? {
        return false;
      }
      match reqs[i].access {
        case Presence =>
        case Optional(valueType) =>
          if found.Value? && !HasType(found.value, valueType) {
            return false;
          }
        case Required(valueType) =>
          if !found.Value? || !HasType(found.value, valueType) {
            return false;
          }
      }
    }
    ok := true;
  }

  /** A stronger access is harder to satisfy. */
  lemma SatisfiesMonotone(config: Config, path: string, strong: Access, weak: Access)
    requires Covers(strong, weak) && Satisfies(config, Requirement(path, strong))
    ensures Satisfies(config, Requirement(path, weak))
  {
  }

  /** What a config satisfies at a path has a bound that it satisfies too. */
  lemma SatisfiesBound(config: Config, reqs: seq<Requirement>, path: string)
    requires SatisfiesAll(config, reqs) && Compatible(reqs) && Names(reqs, path)
    ensures exists u :: UpperBound(reqs, path, u) && Satisfies(config, Requirement(path, u))
  {
    hide HasType, Lookup;
    if r :| r in reqs && r.path == path && r.access.Required? {
      assert UpperBound(reqs, path, r.access) && r == Requirement(path, r.access);
    } else if r :| r in reqs && r.path == path && r.access.Optional? {
      assert UpperBound(reqs, path, r.access) && r == Requirement(path, r.access);
    } else {
      var r :| r in reqs && r.path == path;
      assert UpperBound(reqs, path, Presence) && r == Requirement(path, Presence);
    }
  }

  /** A config satisfies the raw requirements exactly if it satisfies the merged ones. */
  lemma MergePreservesSatisfaction(config: Config, reqs: seq<Requirement>, list: seq<Requirement>)
    requires Compatible(reqs) && IsMerged(reqs, list)
    ensures SatisfiesAll(config, reqs) <==> SatisfiesAll(config, list)
  {
    hide Satisfies;
    if SatisfiesAll(config, reqs) {
      forall o | o in list
        ensures Satisfies(config, o)
      {
        assert Names(list, o.path);
        assert Names(reqs, o.path);
        SatisfiesBound(config, reqs, o.path);
        var u :| UpperBound(reqs, o.path, u) && Satisfies(config, Requirement(o.path, u));
        assert Covers(u, o.access);
        SatisfiesMonotone(config, o.path, u, o.access);
        assert o == Requirement(o.path, o.access);
      }
    }
    if SatisfiesAll(config, list) {
      forall r | r in reqs
        ensures Satisfies(config, r)
      {
        assert Names(reqs, r.path);
        assert Names(list, r.path);
        var o :| o in list && o.path == r.path;
        assert Covers(o.access, o.access);
        assert UpperBound(reqs, o.path, o.access);
        SatisfiesMonotone(config, r.path, o.access, r.access);
        assert o == Requirement(r.path, o.access) && r == Requirement(r.path, r.access);
      }
    }
  }
}
