/** The removal of version labels from JSON values (artifact-identity/src/identity_labels.rs)
    and when it commutes with canonicalisation.

    Which of its two object types the JSON library uses depends on a feature that the crates
    of the compiler switch on, so both ways of removing a member are modelled. */
module VersionLabels {
  import opened CanonicalJson
  import opened Sorting

  predicate IsLabel(key: string) {
    key == "packageVersion" || key == "contractVersion" || key == "exactVersion"
  }

  /** How an object gives up a member: insertion-ordered objects move their last member
      into the gap, sorted ones close it. */
  datatype Removal = MoveLast | CloseGap

  function Remove(members: Members, key: string, how: Removal): (r: Members)
    ensures forall m :: m in r ==> m in members
  {
    if key !in Keys(members) then members
    else
      var i := IndexOf(members, key);
      var last := |members| - 1;
      if how.CloseGap? then members[..i] + members[i + 1..]
      else if i == last then members[..last]
      else members[..last][i := members[last]]
  }

  function WithoutLabels(members: Members, how: Removal): (r: Members)
    ensures forall m :: m in r ==> m in members
  {
    Remove(Remove(Remove(members, "packageVersion", how), "contractVersion", how), "exactVersion", how)
  }

  function Strip(value: Value, how: Removal): Value
    decreases value, 1
  {
    match value
    case Arr(items) => Arr(seq(|items|, i requires 0 <= i < |items| => Strip(items[i], how)))
    case Obj(members) =>
      var kept := WithoutLabels(members, how);
      assert forall i :: 0 <= i < |kept| ==> kept[i] in kept;
      Obj(StripMembers(kept, how, value))
    case _ => value
  }

  function StripMembers(members: Members, how: Removal, ghost parent: Value): (r: Members)
    requires forall i :: 0 <= i < |members| ==> members[i].1 < parent
    ensures |r| == |members| && forall i :: 0 <= i < |r| ==> r[i] == (members[i].0, Strip(members[i].1, how))
    decreases parent, 0
  {
    seq(|members|, i requires 0 <= i < |members| => (members[i].0, Strip(members[i].1, how)))
  }

  method RemoveLabels(value: Value, how: Removal) returns (r: Value)
    ensures r == Strip(value, how)
  {
    match value {
      case Arr(items) =>
        var values := items;
        for i := 0 to |items|
          invariant |values| == |items|
          invariant forall j :: 0 <= j < i ==> values[j] == Strip(items[j], how)
          invariant forall j :: i <= j < |items| ==> values[j] == items[j]
        {
          var item := RemoveLabels(values[i], how);
          values := values[i := item];
        }
        assert Arr(values) == Strip(value, how);
        r := Arr(values);
      case Obj(members) =>
        var fields := Remove(members, "packageVersion", how);
        fields := Remove(fields, "contractVersion", how);
        fields := Remove(fields, "exactVersion", how);
        var kept := fields;
        for i := 0 to |kept|
          invariant |fields| == |kept|
          invariant forall j :: 0 <= j < i ==> fields[j] == (kept[j].0, Strip(kept[j].1, how))
          invariant forall j :: i <= j < |kept| ==> fields[j] == kept[j]
        {
          assert kept[i] in members;
          var member := RemoveLabels(fields[i].1, how);
          fields := fields[i := (fields[i].0, member)];
        }
        assert fields == Strip(value, how).members;
        r := Obj(fields);
      case _ =>
        r := value;
    }
  }

  function StripMeaning(m: Meaning): Meaning {
    match m
    case MArr(items) => MArr(seq(|items|, i requires 0 <= i < |items| => StripMeaning(items[i])))
    case MObj(fields) => MObj(map key | key in fields && !IsLabel(key) :: StripMeaning(fields[key]))
    case _ => m
  }

  /** A member list read as a map. */
  ghost predicate SameMembers(a: Members, b: Members, removed: set<string>) {
    && UniqueKeys(a)
    && (forall key :: key in Keys(a) <==> key in Keys(b) && key !in removed)
    && (forall m :: m in a ==> m in b)
  }

  lemma RemoveExactly(members: Members, key: string, how: Removal)
    requires UniqueKeys(members)
    ensures SameMembers(Remove(members, key, how), members, {key})
  {
    var r := Remove(members, key, how);
    if key in Keys(members) {
      var i, last := IndexOf(members, key), |members| - 1;
      assert Keys(members)[i] == key;
      forall j | 0 <= j < |r|
        ensures Keys(r)[j] == Keys(members)[Source(i, last, j, how)]
      {
      }
      assert UniqueKeys(r);
      forall other
        ensures other in Keys(r) <==> other in Keys(members) && other != key
      {
        if other in Keys(members) && other != key {
          var j := IndexOf(members, other);
          var k := if how.CloseGap? then (if j < i then j else j - 1) else if j == last then i else j;
          assert Source(i, last, k, how) == j;
          assert Keys(r)[k] == other;
        }
      }
    }
  }

  /** Where the member at position `j` was before the one at position `i` was removed. */
  function Source(i: nat, last: nat, j: nat, how: Removal): nat {
    if how.CloseGap? then (if j < i then j else j + 1) else if j == i then last else j
  }

  lemma WithoutLabelsExactly(members: Members, how: Removal)
    requires UniqueKeys(members)
    ensures UniqueKeys(WithoutLabels(members, how))
    ensures forall key :: key in Keys(WithoutLabels(members, how)) <==> key in Keys(members) && !IsLabel(key)
  {
    hide UniqueKeys;
    var first := Remove(members, "packageVersion", how);
    var second := Remove(first, "contractVersion", how);
    RemoveExactly(members, "packageVersion", how);
    RemoveExactly(first, "contractVersion", how);
    RemoveExactly(second, "exactVersion", how);
  }

  lemma MemberAt(members: Members, m: (string, Value))
    requires UniqueKeys(members) && m in members
    ensures m.0 in Keys(members) && members[IndexOf(members, m.0)] == m
  {
    var i :| 0 <= i < |members| && members[i] == m;
    IndexUnique(members, i);
  }

  lemma StripKeys(members: Members, how: Removal)
    requires UniqueKeys(members)
    ensures UniqueKeys(Strip(Obj(members), how).members)
    ensures forall key :: key in Keys(Strip(Obj(members), how).members) <==> key in Keys(members) && !IsLabel(key)
    ensures forall key :: key in Keys(members) && !IsLabel(key) ==>
      var s := Strip(Obj(members), how).members;
      key in Keys(s) && s[IndexOf(s, key)].1 == Strip(members[IndexOf(members, key)].1, how)
  {
    hide IsLabel, WithoutLabels, StringLess;
    var kept, s := WithoutLabels(members, how), Strip(Obj(members), how).members;
    assert forall i :: 0 <= i < |kept| ==> kept[i] in kept;
    assert s == StripMembers(kept, how, Obj(members));
    WithoutLabelsExactly(members, how);
    assert |s| == |kept| && forall i :: 0 <= i < |s| ==> s[i] == (kept[i].0, Strip(kept[i].1, how));
    hide Strip;
    assert Keys(s) == Keys(kept);
    forall key | key in Keys(members) && !IsLabel(key)
      ensures key in Keys(s) && s[IndexOf(s, key)].1 == Strip(members[IndexOf(members, key)].1, how)
    {
      var i := IndexOf(kept, key);
      assert kept[i] in kept;
      MemberAt(members, kept[i]);
      IndexUnique(s, i);
    }
  }

  lemma StripObjectMeaning(m: Meaning)
    requires m.MObj?
    ensures StripMeaning(m).MObj?
    ensures forall key :: key in StripMeaning(m).fields <==> key in m.fields && !IsLabel(key)
    ensures forall key :: key in m.fields && !IsLabel(key) ==> StripMeaning(m).fields[key] == StripMeaning(m.fields[key])
  {
    hide IsLabel;
  }

  lemma StripObject(members: Members, how: Removal)
    requires UniqueKeys(members)
    requires forall i :: 0 <= i < |members| ==> MeaningOf(Strip(members[i].1, how)) == StripMeaning(MeaningOf(members[i].1))
    ensures MeaningOf(Strip(Obj(members), how)) == StripMeaning(MeaningOf(Obj(members)))
  {
    hide IsLabel, StringLess, IndexOf, Keys, UniqueKeys, MeaningOf, StripMeaning, WithoutLabels;
    var kept := Strip(Obj(members), how);
    assert kept.Obj?;
    hide Strip;
    StripKeys(members, how);
    ObjectMeaning(members);
    ObjectMeaning(kept.members);
    StripObjectMeaning(MeaningOf(Obj(members)));
    assert MeaningOf(kept).fields == StripMeaning(MeaningOf(Obj(members))).fields;
  }

  /** Stripping removes the labels from the meaning, at every depth. */
  lemma {:induction false} StripMeaningOf(value: Value, how: Removal)
    requires Proper(value)
    ensures MeaningOf(Strip(value, how)) == StripMeaning(MeaningOf(value))
  {
    match value
    case Arr(items) =>
      forall i | 0 <= i < |items|
        ensures MeaningOf(Strip(items[i], how)) == StripMeaning(MeaningOf(items[i]))
      {
        StripMeaningOf(items[i], how);
      }
    case Obj(members) =>
      forall i | 0 <= i < |members|
        ensures MeaningOf(Strip(members[i].1, how)) == StripMeaning(MeaningOf(members[i].1))
      {
        StripMeaningOf(members[i].1, how);
      }
      StripObject(members, how);
    case _ =>
  }

  lemma {:induction false} StripProper(value: Value, how: Removal)
    requires Proper(value)
    ensures Proper(Strip(value, how))
  {
    match value
    case Arr(items) =>
      forall i | 0 <= i < |items|
        ensures Proper(Strip(items[i], how))
      {
        StripProper(items[i], how);
      }
    case Obj(members) =>
      StripKeys(members, how);
      var kept := WithoutLabels(members, how);
      forall i | 0 <= i < |kept|
        ensures Proper(Strip(kept[i].1, how))
      {
        assert kept[i] in kept;
        assert kept[i] in members;
        StripProper(kept[i].1, how);
      }
    case _ =>
  }

  /** The stripped canonical form is the same for two values exactly if they differ only in
      labels, order of members and form of numbers. */
  lemma IdentityIgnoresLabels(v: Value, w: Value, how: Removal)
    requires Proper(v) && Proper(w)
    ensures Canonical(Strip(v, how)) == Canonical(Strip(w, how)) <==> StripMeaning(MeaningOf(v)) == StripMeaning(MeaningOf(w))
  {
    StripProper(v, how);
    StripProper(w, how);
    StripMeaningOf(v, how);
    StripMeaningOf(w, how);
    CanonicalExactly(Strip(v, how), Strip(w, how));
  }

  // ----- When the labels leave no disorder -----

  /** The keys that stay and come after a label. */
  function After(keys: seq<string>, name: string): set<string> {
    set key | key in keys && !IsLabel(key) && StringLess(name, key)
  }

  /** At most one key comes after the label, or exactly two do, both after another label
      that is removed first and so turns them round beforehand. */
  predicate Few(keys: seq<string>, name: string) {
    || |After(keys, name)| <= 1
    || ("packageVersion" in keys && |After(keys, name)| == 2 && |After(keys, "packageVersion")| == 2)
  }

  /** Moving last members into gaps leaves these keys in order, once they are sorted. It is
      the smallest label that counts. */
  predicate InOrder(keys: seq<string>) {
    if "contractVersion" in keys then Few(keys, "contractVersion")
    else if "exactVersion" in keys then Few(keys, "exactVersion")
    else "packageVersion" in keys ==> |After(keys, "packageVersion")| <= 1
  }

  /** The same of every object that is not itself removed with a label. */
  predicate StripsInOrder(value: Value) {
    match value
    case Arr(items) => forall i :: 0 <= i < |items| ==> StripsInOrder(items[i])
    case Obj(members) =>
      InOrder(Keys(members)) && forall i :: 0 <= i < |members| && !IsLabel(members[i].0) ==> StripsInOrder(members[i].1)
    case _ => true
  }

  /** The last element comes first. */
  function Rotate(s: seq<string>): seq<string> {
    if s == [] then [] else [s[|s| - 1]] + s[..|s| - 1]
  }

  function Close(s: seq<string>, how: Removal): seq<string> {
    if how.CloseGap? then s else Rotate(s)
  }

  function Opt(present: bool, key: string): seq<string> {
    if present then [key] else []
  }

  /** What removing one key does to the keys. */
  lemma RemoveKeys(members: Members, key: string, how: Removal, below: seq<string>, above: seq<string>)
    requires Keys(members) == below + Opt(key in Keys(members), key) + above
    requires key !in below && key !in above
    ensures Keys(Remove(members, key, how)) == below + if key in Keys(members) then Close(above, how) else above
  {
    if key in Keys(members) {
      RemovedKeys(members, key, how, below, above);
    } else {
      assert below + [] + above == below + above;
    }
  }

  lemma RemovedKeys(members: Members, key: string, how: Removal, below: seq<string>, above: seq<string>)
    requires Keys(members) == below + [key] + above && key !in below
    requires key in Keys(members)
    ensures Keys(Remove(members, key, how)) == below + Close(above, how)
  {
    PositionOf(members, key, below, above);
    var i := |below|;
    KeysOfPart(members, 0, i);
    KeysOfPart(members, i + 1, |members|);
    Around(Keys(members), below, key, above);
    var before, after := members[0..i], members[i + 1..|members|];
    RemoveAt(members, key, how);
    hide Keys, Remove, IndexOf, Rotate;
    KeysAppend(before, if how.CloseGap? then after else RotateMembers(after));
    RotateKeys(after);
  }

  lemma Around(keys: seq<string>, below: seq<string>, key: string, above: seq<string>)
    requires keys == below + [key] + above
    ensures keys[0..|below|] == below && keys[|below| + 1..|keys|] == above
  {
  }

  lemma PositionOf(members: Members, key: string, below: seq<string>, above: seq<string>)
    requires Keys(members) == below + [key] + above && key !in below
    requires key in Keys(members)
    ensures IndexOf(members, key) == |below|
  {
    var i := IndexOf(members, key);
    assert Keys(members)[|below|] == key && members[|below|].0 == key;
    hide IndexOf, Keys;
    assert forall j :: 0 <= j < |below| ==> Keys(members)[j] == below[j] && below[j] != key;
  }

  lemma KeysOfPart(members: Members, lo: nat, hi: nat)
    requires lo <= hi <= |members|
    ensures Keys(members[lo..hi]) == Keys(members)[lo..hi]
  {
    hide Keys;
  }

  lemma KeysAppend(a: Members, b: Members)
    ensures Keys(a + b) == Keys(a) + Keys(b)
  {
    hide Keys;
  }

  function RotateMembers(members: Members): Members {
    if members == [] then [] else [members[|members| - 1]] + members[..|members| - 1]
  }

  lemma RotateKeys(members: Members)
    ensures Keys(RotateMembers(members)) == Rotate(Keys(members))
  {
    hide Keys;
  }

  lemma RemoveAt(members: Members, key: string, how: Removal)
    requires key in Keys(members)
    ensures var i := IndexOf(members, key);
            var before, after := members[0..i], members[i + 1..|members|];
            Remove(members, key, how) == before + if how.CloseGap? then after else RotateMembers(after)
  {
    hide IndexOf, Keys;
    MoveLastRotates(members, IndexOf(members, key));
    hide RotateMembers;
  }

  /** Moving the last element into a gap rotates what comes after the gap. */
  lemma MoveLastRotates(members: Members, i: nat)
    requires i < |members|
    ensures var last := |members| - 1;
            members[0..i] + RotateMembers(members[i + 1..|members|]) ==
            if i == last then members[..last] else members[..last][i := members[last]]
    ensures members[..i] + members[i + 1..] == members[0..i] + members[i + 1..|members|]
  {
    var last, after := |members| - 1, members[i + 1..|members|];
    if i < last {
      assert RotateMembers(after) == [members[last]] + members[i + 1..last];
      assert members[..last][i := members[last]] == members[0..i] + ([members[last]] + members[i + 1..last]);
    } else {
      assert RotateMembers(after) == [];
      assert members[0..i] + [] == members[..last];
    }
  }

  /** A sorted list around a key. */
  lemma SplitAt(keys: seq<string>, x: string) returns (below: seq<string>, above: seq<string>)
    requires StrictlySorted(keys, StringLess)
    ensures keys == below + Opt(x in keys, x) + above
    ensures forall k :: k in below ==> StringLess(k, x)
    ensures forall k :: k in above ==> StringLess(x, k)
  {
    StringLessIsOrder();
    hide StringLess;
    var i := 0;
    while i < |keys| && StringLess(keys[i], x)
      invariant 0 <= i <= |keys|
      invariant forall j :: 0 <= j < i ==> StringLess(keys[j], x)
    {
      i := i + 1;
    }
    below := keys[..i];
    above := if i < |keys| && keys[i] == x then keys[i + 1..] else keys[i..];
    if i < |keys| {
      assert keys[i] == x || StringLess(x, keys[i]);
      forall j | i < j < |keys|
        ensures StringLess(x, keys[j])
      {
        assert StringLess(keys[i], keys[j]);
      }
    }
    if x in keys {
      var j :| 0 <= j < |keys| && keys[j] == x;
      assert j == i;
      assert keys == keys[..i] + [x] + keys[i + 1..];
    } else {
      assert keys == keys[..i] + [] + keys[i..];
    }
  }

  // ----- Rotations and order -----

  lemma SuffixSorted(pre: seq<string>, post: seq<string>)
    requires StrictlySorted(pre + post, StringLess)
    ensures StrictlySorted(post, StringLess)
  {
    hide StringLess;
    forall i, j | 0 <= i < j < |post|
      ensures StringLess(post[i], post[j])
    {
      assert StringLess((pre + post)[|pre| + i], (pre + post)[|pre| + j]);
    }
  }

  lemma LessAt(s: seq<string>, i: nat, j: nat)
    requires StrictlySorted(s, StringLess) && i < j < |s|
    ensures StringLess(s[i], s[j])
  {
  }

  /** A later element that is smaller than an earlier one spoils the order. */
  lemma Inverted(pre: seq<string>, post: seq<string>, i: nat, j: nat)
    requires i < j < |post| && StringLess(post[j], post[i])
    ensures !StrictlySorted(pre + post, StringLess)
  {
    if StrictlySorted(pre + post, StringLess) {
      SuffixSorted(pre, post);
      LessAt(post, i, j);
      StringLessTransitive(post[i], post[j], post[i]);
      StringLessTrichotomy(post[i], post[i]);
    }
  }

  lemma RotateAt(s: seq<string>)
    requires s != []
    ensures |Rotate(s)| == |s| && Rotate(s)[0] == s[|s| - 1]
    ensures forall k :: 0 < k < |s| ==> Rotate(s)[k] == s[k - 1]
    ensures |s| == 1 ==> Rotate(s) == s
  {
  }

  /** Rotating the end of a sorted list keeps it sorted only if that end is a single element. */
  lemma RotateOnce(pre: seq<string>, post: seq<string>)
    requires StrictlySorted(pre + post, StringLess)
    ensures StrictlySorted(pre + Rotate(post), StringLess) <==> |post| <= 1
  {
    if post != [] {
      RotateAt(post);
      SuffixSorted(pre, post);
      hide StringLess, StrictlySorted, Rotate;
      if |post| > 1 {
        LessAt(post, 0, |post| - 1);
        Inverted(pre, Rotate(post), 0, 1);
      }
    }
  }

  /** Rotating the end, and then a longer end, restores the order only of two elements. */
  lemma RotateTwice(pre: seq<string>, middle: seq<string>, end: seq<string>)
    requires StrictlySorted(pre + (middle + end), StringLess)
    ensures StrictlySorted(pre + Rotate(middle + Rotate(end)), StringLess) <==>
      |middle| + |end| <= 1 || (middle == [] && |end| == 2)
  {
    SuffixSorted(pre, middle + end);
    hide StringLess, StrictlySorted;
    var post, m, n := middle + end, |middle|, |end|;
    if n <= 1 {
      assert Rotate(end) == end;
      RotateOnce(pre, post);
    } else {
      var turned := middle + Rotate(end);
      RotateAt(end);
      RotateAt(turned);
      hide Rotate;
      var r := Rotate(turned);
      assert r[0] == turned[m + n - 1] == end[n - 2] == post[m + n - 2];
      assert r[1] == turned[0];
      if m > 0 {
        assert r[1] == post[0];
        LessAt(post, 0, m + n - 2);
        Inverted(pre, r, 0, 1);
      } else if n == 2 {
        assert r == end && post == end;
      } else {
        assert r[1] == post[n - 1] && r[2] == turned[1] == post[0];
        LessAt(post, 0, n - 1);
        Inverted(pre, r, 1, 2);
      }
    }
  }

  /** What is left when the two smaller labels go: `between` lay between them and `after`
      after them. */
  function BothGone(between: seq<string>, after: seq<string>): seq<string> {
    if after == [] then Rotate(between)
    else [after[|after| - 1]] + between + Rotate(after[..|after| - 1])
  }

  lemma BothSorted(pre: seq<string>, between: seq<string>, after: seq<string>)
    requires StrictlySorted(pre + (between + after), StringLess)
    ensures StrictlySorted(pre + BothGone(between, after), StringLess) <==> |between| + |after| <= 1
  {
    SuffixSorted(pre, between + after);
    hide StringLess, StrictlySorted;
    var post, b, n := between + after, |between|, |after|;
    if n == 0 {
      assert post == between;
      RotateOnce(pre, between);
    } else {
      var front := after[..n - 1];
      var r := [after[n - 1]] + between + Rotate(front);
      assert BothGone(between, after) == r;
      if b > 0 {
        assert r[1] == post[0] && r[0] == post[b + n - 1];
        LessAt(post, 0, b + n - 1);
        Inverted(pre, r, 0, 1);
      } else if n > 1 {
        RotateAt(front);
        hide Rotate;
        assert r[1] == Rotate(front)[0] == post[n - 2] && r[0] == post[n - 1];
        LessAt(post, n - 2, n - 1);
        Inverted(pre, r, 0, 1);
      } else {
        assert r == post;
      }
    }
  }

  lemma BothSortedTurned(pre: seq<string>, between: seq<string>, middle: seq<string>, end: seq<string>)
    requires StrictlySorted(pre + (between + (middle + end)), StringLess)
    ensures StrictlySorted(pre + BothGone(between, middle + Rotate(end)), StringLess) <==>
      |between| + |middle| + |end| <= 1 || (between == [] && middle == [] && |end| == 2)
  {
    SuffixSorted(pre, between + (middle + end));
    hide StringLess, StrictlySorted;
    var n := |end|;
    if n <= 1 {
      assert Rotate(end) == end;
      BothSorted(pre, between, middle + end);
    } else if between != [] {
      var post, after := between + (middle + end), middle + Rotate(end);
      RotateAt(end);
      var r := BothGone(between, after);
      assert r[0] == after[|after| - 1] == end[n - 2] == post[|post| - 2];
      assert r[1] == post[0];
      LessAt(post, 0, |post| - 2);
      Inverted(pre, r, 0, 1);
    } else {
      assert between + (middle + end) == middle + end;
      BothSortedTurnedAlone(pre, middle, end);
    }
  }

  lemma BothSortedTurnedAlone(pre: seq<string>, middle: seq<string>, end: seq<string>)
    requires StrictlySorted(pre + (middle + end), StringLess) && |end| >= 2
    ensures StrictlySorted(pre + BothGone([], middle + Rotate(end)), StringLess) <==> middle == [] && |end| == 2
  {
    hide StringLess, StrictlySorted, Rotate, BothGone;
    SuffixSorted(pre, middle + end);
    var post, m, n := middle + end, |middle|, |end|;
    var r := BothGone([], middle + Rotate(end));
    TurnedAlone(middle, end);
    if n > 2 {
      LessAt(post, m + n - 3, m + n - 2);
      Inverted(pre, r, 0, 1);
    } else if m > 0 {
      LessAt(post, 0, m + n - 2);
      Inverted(pre, r, 0, 2);
    } else {
      assert r == post;
    }
  }

  /** The first elements after both rotations. */
  lemma TurnedAlone(middle: seq<string>, end: seq<string>)
    requires |end| >= 2
    ensures var post, m, n, r := middle + end, |middle|, |end|, BothGone([], middle + Rotate(end));
            && |r| == |post| && r[0] == post[m + n - 2]
            && r[1] == (if n > 2 then post[m + n - 3] else post[m + 1])
            && (m > 0 ==> r[2] == post[0])
  {
    var m, n := |middle|, |end|;
    var rotated := Rotate(end);
    RotateAt(end);
    hide Rotate;
    assert rotated[n - 1] == end[n - 2];
    assert rotated[n - 2] == if n > 2 then end[n - 3] else end[1];
    LastTurned(middle, rotated);
  }

  lemma LastTurned(middle: seq<string>, rotated: seq<string>)
    requires |rotated| >= 2
    ensures var m, n, r := |middle|, |rotated|, BothGone([], middle + rotated);
            && |r| == m + n && r[0] == rotated[n - 1] && r[1] == rotated[n - 2]
            && (m > 0 ==> r[2] == middle[0])
  {
    var m, n := |middle|, |rotated|;
    var after := middle + rotated;
    var front := after[..m + n - 1];
    RotateAt(front);
    assert BothGone([], after) == [after[m + n - 1]] + Rotate(front);
    hide Rotate, BothGone;
    assert front[m + n - 2] == rotated[n - 2];
    assert m > 0 ==> front[0] == middle[0];
  }

  // ----- The keys that stay -----

  /** A sorted list of keys cut at the three labels. */
  datatype Cut = Cut(
    first: seq<string>, contract: bool, second: seq<string>, exact: bool, third: seq<string>, package: bool, fourth: seq<string>)

  ghost predicate IsCut(keys: seq<string>, c: Cut) {
    && keys == c.first + Opt(c.contract, "contractVersion") + (c.second + Opt(c.exact, "exactVersion") + (c.third + Opt(c.package, "packageVersion") + c.fourth))
    && (c.contract <==> "contractVersion" in keys)
    && (c.exact <==> "exactVersion" in keys)
    && (c.package <==> "packageVersion" in keys)
    && NoLabels(c.first) && NoLabels(c.second) && NoLabels(c.third) && NoLabels(c.fourth)
    && StrictlySorted(c.first + (c.second + (c.third + c.fourth)), StringLess)
    && (forall k :: k in c.first ==> StringLess(k, "contractVersion"))
    && (forall k :: k in c.second ==> StringLess("contractVersion", k) && StringLess(k, "exactVersion"))
    && (forall k :: k in c.third ==> StringLess("exactVersion", k) && StringLess(k, "packageVersion"))
    && (forall k :: k in c.fourth ==> StringLess("packageVersion", k))
  }

  ghost predicate NoLabels(keys: seq<string>) {
    forall k :: k in keys ==> !IsLabel(k)
  }

  lemma LabelsOrdered()
    ensures StringLess("contractVersion", "exactVersion") && StringLess("exactVersion", "packageVersion")
    ensures StringLess("contractVersion", "packageVersion")
    ensures "contractVersion" != "exactVersion" && "exactVersion" != "packageVersion" && "contractVersion" != "packageVersion"
  {
    assert "contractVersion"[0] < "exactVersion"[0] < "packageVersion"[0];
  }

  lemma LabelsAre()
    ensures forall k :: IsLabel(k) <==> k == "packageVersion" || k == "contractVersion" || k == "exactVersion"
  {
  }

  /** Keys between two bounds are none of the labels outside the bounds. */
  lemma BoundsExclude(part: seq<string>)
    ensures (forall k :: k in part ==> StringLess(k, "contractVersion")) ==> NoLabels(part)
    ensures (forall k :: k in part ==> StringLess("contractVersion", k) && StringLess(k, "exactVersion")) ==> NoLabels(part)
    ensures (forall k :: k in part ==> StringLess("exactVersion", k) && StringLess(k, "packageVersion")) ==> NoLabels(part)
    ensures (forall k :: k in part ==> StringLess("packageVersion", k)) ==> NoLabels(part)
  {
    LabelsOrdered();
    LabelsAre();
    StringLessIsOrder();
    hide StringLess, IsLabel;
  }

  lemma SortedWithout(pre: seq<string>, present: bool, x: string, post: seq<string>)
    requires StrictlySorted(pre + Opt(present, x) + post, StringLess)
    ensures StrictlySorted(pre + post, StringLess)
  {
    hide StringLess;
    var s := pre + Opt(present, x) + post;
    if present {
      forall i, j | 0 <= i < j < |pre + post|
        ensures StringLess((pre + post)[i], (pre + post)[j])
      {
        LessAt(s, if i < |pre| then i else i + 1, if j < |pre| then j else j + 1);
      }
    } else {
      assert s == pre + post;
    }
  }

  /** Cutting at the middle label of a sorted list, and then at the others on either side. */
  lemma CutKeys(keys: seq<string>) returns (c: Cut)
    requires StrictlySorted(keys, StringLess)
    ensures IsCut(keys, c)
  {
    hide StringLess, IsLabel, StrictlySorted;
    var first, rest := SplitAt(keys, "contractVersion");
    var contract := "contractVersion" in keys;
    SuffixSorted(first + Opt(contract, "contractVersion"), rest);
    var second, rest2 := SplitAt(rest, "exactVersion");
    var exact := "exactVersion" in rest;
    SuffixSorted(second + Opt(exact, "exactVersion"), rest2);
    var third, fourth := SplitAt(rest2, "packageVersion");
    var package := "packageVersion" in rest2;
    c := Cut(first, contract, second, exact, third, package, fourth);
    CutBounds(keys, first, contract, rest, second, exact, rest2, third, package, fourth);
    CutSorted(first, contract, second, exact, third, package, fourth);
  }

  lemma CutSorted(
    first: seq<string>, contract: bool, second: seq<string>, exact: bool, third: seq<string>, package: bool, fourth: seq<string>)
    requires StrictlySorted(first + Opt(contract, "contractVersion") + (second + Opt(exact, "exactVersion") + (third + Opt(package, "packageVersion") + fourth)), StringLess)
    ensures StrictlySorted(first + (second + (third + fourth)), StringLess)
  {
    hide StrictlySorted, Opt;
    var c, e, p := Opt(contract, "contractVersion"), Opt(exact, "exactVersion"), Opt(package, "packageVersion");
    SortedWithout(first, contract, "contractVersion", second + e + (third + p + fourth));
    assert first + (second + e + (third + p + fourth)) == first + second + e + (third + p + fourth);
    SortedWithout(first + second, exact, "exactVersion", third + p + fourth);
    assert first + second + (third + p + fourth) == first + second + third + p + fourth;
    SortedWithout(first + second + third, package, "packageVersion", fourth);
    assert first + second + third + fourth == first + (second + (third + fourth));
  }

  lemma CutBounds(
    keys: seq<string>, first: seq<string>, contract: bool, rest: seq<string>, second: seq<string>, exact: bool,
    rest2: seq<string>, third: seq<string>, package: bool, fourth: seq<string>)
    requires keys == first + Opt(contract, "contractVersion") + rest
    requires rest == second + Opt(exact, "exactVersion") + rest2
    requires rest2 == third + Opt(package, "packageVersion") + fourth
    requires contract <==> "contractVersion" in keys
    requires exact <==> "exactVersion" in rest
    requires package <==> "packageVersion" in rest2
    requires forall k :: k in first ==> StringLess(k, "contractVersion")
    requires forall k :: k in rest ==> StringLess("contractVersion", k)
    requires forall k :: k in second ==> StringLess(k, "exactVersion")
    requires forall k :: k in rest2 ==> StringLess("exactVersion", k)
    requires forall k :: k in third ==> StringLess(k, "packageVersion")
    requires forall k :: k in fourth ==> StringLess("packageVersion", k)
    ensures forall k :: k in second ==> StringLess("contractVersion", k)
    ensures forall k :: k in third ==> StringLess("exactVersion", k)
    ensures exact <==> "exactVersion" in keys
    ensures package <==> "packageVersion" in keys
    ensures NoLabels(first) && NoLabels(second) && NoLabels(third) && NoLabels(fourth)
  {
    forall k | k in second
      ensures k in rest
    {
    }
    forall k | k in third
      ensures k in rest2
    {
    }
    BoundsExclude(first);
    BoundsExclude(second);
    BoundsExclude(third);
    BoundsExclude(fourth);
    LabelsAre();
    LabelsOrdered();
    hide StringLess, IsLabel;
    assert forall k :: k in keys <==> k in first || (contract && k == "contractVersion") || k in rest;
    assert forall k :: k in rest <==> k in second || (exact && k == "exactVersion") || k in rest2;
  }

  /** What the three removals leave, in which order. */
  function Left(c: Cut, how: Removal): seq<string> {
    var end := if c.package then Close(c.fourth, how) else c.fourth;
    var after := c.third + end;
    if c.contract && c.exact && how.MoveLast? then c.first + BothGone(c.second, after)
    else if c.contract && how.MoveLast? then c.first + Rotate(c.second + after)
    else if c.exact then c.first + (c.second + Close(after, how))
    else c.first + (c.second + after)
  }

  lemma WithoutLabelKeys(members: Members, c: Cut, how: Removal)
    requires IsCut(Keys(members), c) && UniqueKeys(members)
    ensures Keys(WithoutLabels(members, how)) == Left(c, how)
  {
    hide StringLess, IsLabel, StrictlySorted, Remove, Keys, UniqueKeys, Close, Rotate, Left;
    var one := Remove(members, "packageVersion", how);
    RemovePackage(members, c, how);
    CloseMembers(c.fourth, how);
    var end := if c.package then Close(c.fourth, how) else c.fourth;
    RemoveContract(one, c, how, end);
    RemoveExact(Remove(one, "contractVersion", how), c, how, end);
  }

  lemma RemovePackage(members: Members, c: Cut, how: Removal)
    requires IsCut(Keys(members), c)
    ensures var end := if c.package then Close(c.fourth, how) else c.fourth;
            Keys(Remove(members, "packageVersion", how)) ==
            c.first + Opt(c.contract, "contractVersion") + (c.second + Opt(c.exact, "exactVersion") + (c.third + end))
  {
    hide StringLess, StrictlySorted, Remove, Keys, Close, IsLabel;
    LabelsAre();
    LabelsOrdered();
    var contract, exact := Opt(c.contract, "contractVersion"), Opt(c.exact, "exactVersion");
    var before := c.first + contract + (c.second + exact + c.third);
    assert forall k :: k in before ==> k in c.first || k in contract || k in c.second || k in exact || k in c.third;
    assert Keys(members) == before + Opt(c.package, "packageVersion") + c.fourth;
    RemoveKeys(members, "packageVersion", how, before, c.fourth);
    var end := if c.package then Close(c.fourth, how) else c.fourth;
    assert before + end == c.first + contract + (c.second + exact + (c.third + end));
  }

  lemma RemoveContract(one: Members, c: Cut, how: Removal, end: seq<string>)
    requires NoLabels(c.first) && NoLabels(c.second) && NoLabels(c.third) && NoLabels(end)
    requires var tail := c.second + Opt(c.exact, "exactVersion") + (c.third + end);
             Keys(one) == c.first + Opt(c.contract, "contractVersion") + tail
    ensures var tail := c.second + Opt(c.exact, "exactVersion") + (c.third + end);
            Keys(Remove(one, "contractVersion", how)) == c.first + if c.contract then Close(tail, how) else tail
  {
    hide StringLess, Remove, Keys, Close, IsLabel;
    LabelsAre();
    LabelsOrdered();
    var exact := Opt(c.exact, "exactVersion");
    var tail := c.second + exact + (c.third + end);
    assert forall k :: k in tail ==> k in c.second || k in exact || k in c.third || k in end;
    assert "contractVersion" in Keys(one) <==> c.contract by {
      assert Keys(one) == c.first + Opt(c.contract, "contractVersion") + tail;
      if c.contract {
        assert Keys(one)[|c.first|] == "contractVersion";
      }
    }
    RemoveKeys(one, "contractVersion", how, c.first, tail);
  }

  lemma CloseMembers(s: seq<string>, how: Removal)
    ensures forall k :: k in Close(s, how) <==> k in s
  {
  }

  lemma RemoveExact(two: Members, c: Cut, how: Removal, end: seq<string>)
    requires NoLabels(c.first) && NoLabels(c.second) && NoLabels(c.third) && NoLabels(end)
    requires end == if c.package then Close(c.fourth, how) else c.fourth
    requires var tail := c.second + Opt(c.exact, "exactVersion") + (c.third + end);
             Keys(two) == c.first + if c.contract then Close(tail, how) else tail
    ensures Keys(Remove(two, "exactVersion", how)) == Left(c, how)
  {
    var after := c.third + end;
    assert NoLabels(after);
    hide StringLess, IsLabel, Remove, Keys, NoLabels, BothGone, Rotate;
    if c.contract && how.MoveLast? {
      RemoveTurned(two, c.first, c.second, c.exact, after);
    } else {
      RemovePlain(two, c.first, c.second, c.exact, after, how);
    }
  }

  lemma RemovePlain(two: Members, first: seq<string>, second: seq<string>, exact: bool, after: seq<string>, how: Removal)
    requires NoLabels(first) && NoLabels(second) && NoLabels(after)
    requires Keys(two) == first + (second + Opt(exact, "exactVersion") + after)
    ensures Keys(Remove(two, "exactVersion", how)) == first + (second + if exact then Close(after, how) else after)
  {
    LabelsAre();
    hide StringLess, IsLabel, Remove, Keys, Close;
    assert Keys(two) == (first + second) + Opt(exact, "exactVersion") + after;
    HasExact(two, first + second, exact, after);
    RemoveKeys(two, "exactVersion", how, first + second, after);
    var rest := if exact then Close(after, how) else after;
    assert (first + second) + rest == first + (second + rest);
  }

  lemma HasExact(two: Members, below: seq<string>, exact: bool, above: seq<string>)
    requires "exactVersion" !in below && "exactVersion" !in above
    requires Keys(two) == below + Opt(exact, "exactVersion") + above
    ensures exact <==> "exactVersion" in Keys(two)
  {
    hide Keys;
    if exact {
      assert Keys(two)[|below|] == "exactVersion";
    }
  }

  lemma RemoveTurned(two: Members, first: seq<string>, second: seq<string>, exact: bool, after: seq<string>)
    requires NoLabels(first) && NoLabels(second) && NoLabels(after)
    requires Keys(two) == first + Rotate(second + Opt(exact, "exactVersion") + after)
    ensures Keys(Remove(two, "exactVersion", MoveLast)) ==
      first + if exact then BothGone(second, after) else Rotate(second + after)
  {
    LabelsAre();
    hide StringLess, IsLabel, Remove, Keys;
    if !exact {
      assert second + [] + after == second + after;
      CloseMembers(second + after, MoveLast);
      assert Close(second + after, MoveLast) == Rotate(second + after);
      assert "exactVersion" !in second + after;
      NoKey(two, "exactVersion", Rotate(second + after), first);
    } else if after == [] {
      assert second + ["exactVersion"] + after == second + ["exactVersion"];
      assert Rotate(second + ["exactVersion"]) == ["exactVersion"] + second;
      assert Keys(two) == first + ["exactVersion"] + second;
      HasExact(two, first, true, second);
      RemoveKeys(two, "exactVersion", MoveLast, first, second);
    } else {
      RemoveBetween(two, first, second, after[|after| - 1], after[..|after| - 1], after);
    }
  }

  lemma RemoveBetween(
    two: Members, first: seq<string>, second: seq<string>, last: string, front: seq<string>, after: seq<string>)
    requires NoLabels(first) && NoLabels(second) && NoLabels(after) && after == front + [last]
    requires Keys(two) == first + Rotate(second + ["exactVersion"] + after)
    ensures Keys(Remove(two, "exactVersion", MoveLast)) == first + ([last] + second + Rotate(front))
  {
    TurnedBetween(second, last, front, after);
    NoneIsExact(first, second, last, front, after);
    hide StringLess, IsLabel, Remove, Keys, Rotate, NoLabels;
    var below := first + [last] + second;
    Regroup(first, last, second, ["exactVersion"], front);
    Regroup(first, last, second, [], Rotate(front));
    HasExact(two, below, true, front);
    RemoveKeys(two, "exactVersion", MoveLast, below, front);
  }

  lemma Regroup(first: seq<string>, last: string, second: seq<string>, third: seq<string>, rest: seq<string>)
    ensures first + ([last] + (second + third + rest)) == (first + [last] + second) + third + rest
    ensures third == [] ==> (first + [last] + second) + rest == first + ([last] + second + rest)
  {
  }

  lemma NoneIsExact(first: seq<string>, second: seq<string>, last: string, front: seq<string>, after: seq<string>)
    requires NoLabels(first) && NoLabels(second) && NoLabels(after) && after == front + [last]
    ensures "exactVersion" !in first + [last] + second && "exactVersion" !in front
  {
    LabelsAre();
    hide IsLabel;
    assert last in after && forall k :: k in front ==> k in after;
    assert forall k :: k in first + [last] + second ==> k in first || k == last || k in second;
  }

  lemma TurnedBetween(second: seq<string>, last: string, front: seq<string>, after: seq<string>)
    requires after == front + [last]
    ensures Rotate(second + ["exactVersion"] + after) == [last] + (second + ["exactVersion"] + front)
  {
    var tail := second + ["exactVersion"] + after;
    assert tail == second + ["exactVersion"] + front + [last];
    assert tail[..|tail| - 1] == second + ["exactVersion"] + front;
  }

  lemma NoKey(members: Members, key: string, tail: seq<string>, head: seq<string>)
    requires Keys(members) == head + tail && key !in head && key !in tail
    ensures Remove(members, key, MoveLast) == members
  {
    assert key !in Keys(members);
  }

  lemma LeftSorted(c: Cut, how: Removal)
    requires StrictlySorted(c.first + (c.second + (c.third + c.fourth)), StringLess)
    ensures StrictlySorted(Left(c, how), StringLess) <==> how.CloseGap? || LeavesOrder(c)
  {
    var all := c.first + (c.second + (c.third + c.fourth));
    hide StringLess, StrictlySorted, BothGone;
    if how.CloseGap? {
      assert Left(c, how) == all;
    } else if c.contract && c.exact {
      if c.package {
        BothSortedTurned(c.first, c.second, c.third, c.fourth);
      } else {
        BothSorted(c.first, c.second, c.third + c.fourth);
      }
    } else if c.contract {
      if c.package {
        assert c.second + (c.third + Rotate(c.fourth)) == (c.second + c.third) + Rotate(c.fourth);
        assert all == c.first + ((c.second + c.third) + c.fourth);
        RotateTwice(c.first, c.second + c.third, c.fourth);
      } else {
        RotateOnce(c.first, c.second + (c.third + c.fourth));
      }
    } else {
      LeftSortedSecond(c);
    }
  }

  lemma LeftSortedSecond(c: Cut)
    requires StrictlySorted(c.first + (c.second + (c.third + c.fourth)), StringLess) && !c.contract
    ensures StrictlySorted(Left(c, MoveLast), StringLess) <==> LeavesOrder(c)
  {
    var all, two := c.first + (c.second + (c.third + c.fourth)), c.first + c.second;
    hide StringLess, StrictlySorted, Rotate;
    assert all == two + (c.third + c.fourth) == (two + c.third) + c.fourth;
    if c.exact && c.package {
      RotateTwice(two, c.third, c.fourth);
      assert two + Rotate(c.third + Rotate(c.fourth)) == Left(c, MoveLast);
    } else if c.exact {
      RotateOnce(two, c.third + c.fourth);
      assert two + Rotate(c.third + c.fourth) == Left(c, MoveLast);
    } else if c.package {
      RotateOnce(two + c.third, c.fourth);
      assert (two + c.third) + Rotate(c.fourth) == Left(c, MoveLast);
    } else {
      assert Left(c, MoveLast) == all;
    }
  }

  /** The condition on how many keys lie between the labels. */
  predicate LeavesOrder(c: Cut) {
    var second, third, fourth := |c.second|, |c.third|, |c.fourth|;
    if c.contract then second + third + fourth <= 1 || (c.package && second == 0 && third == 0 && fourth == 2)
    else if c.exact then third + fourth <= 1 || (c.package && third == 0 && fourth == 2)
    else c.package ==> fourth <= 1
  }

  // ----- Counting -----

  lemma AfterIs(keys: seq<string>, name: string, part: seq<string>)
    requires NoDuplicates(part)
    requires forall k :: k in part <==> k in keys && !IsLabel(k) && StringLess(name, k)
    ensures |After(keys, name)| == |part|
  {
    hide StringLess, IsLabel;
    assert After(keys, name) == ToSet(part);
    ToSetSize(part);
  }

  lemma CutMembers(keys: seq<string>, c: Cut)
    requires IsCut(keys, c)
    ensures forall k :: k in keys && !IsLabel(k) <==> k in c.first || k in c.second || k in c.third || k in c.fourth
  {
    LabelsAre();
    hide StringLess, IsLabel, StrictlySorted;
    assert forall k :: k in keys <==>
      k in c.first || k in Opt(c.contract, "contractVersion") || k in c.second || k in Opt(c.exact, "exactVersion")
      || k in c.third || k in Opt(c.package, "packageVersion") || k in c.fourth;
  }

  lemma CutCounts(keys: seq<string>, c: Cut)
    requires IsCut(keys, c)
    ensures |After(keys, "contractVersion")| == |c.second| + |c.third| + |c.fourth|
    ensures |After(keys, "exactVersion")| == |c.third| + |c.fourth|
    ensures |After(keys, "packageVersion")| == |c.fourth|
  {
    CutMembers(keys, c);
    LabelsOrdered();
    StringLessIsOrder();
    var tail := c.second + (c.third + c.fourth);
    SuffixSorted(c.first, tail);
    StrictlySortedIsSorted(tail, StringLess);
    hide StringLess, IsLabel, StrictlySorted, IsCut, After;
    CutOrder(keys, c);
    assert NoDuplicates(c.third + c.fourth) && NoDuplicates(c.fourth) by {
      assert forall i :: 0 <= i < |c.third + c.fourth| ==> (c.third + c.fourth)[i] == tail[|c.second| + i];
      assert forall i :: 0 <= i < |c.fourth| ==> c.fourth[i] == tail[|c.second| + |c.third| + i];
    }
    AfterIs(keys, "contractVersion", tail);
    AfterIs(keys, "exactVersion", c.third + c.fourth);
    AfterIs(keys, "packageVersion", c.fourth);
  }

  /** Which parts come after which label. */
  lemma CutOrder(keys: seq<string>, c: Cut)
    requires IsCut(keys, c)
    ensures forall k :: k in c.first ==> !StringLess("contractVersion", k) && !StringLess("exactVersion", k) && !StringLess("packageVersion", k)
    ensures forall k :: k in c.second ==> StringLess("contractVersion", k) && !StringLess("exactVersion", k) && !StringLess("packageVersion", k)
    ensures forall k :: k in c.third ==> StringLess("contractVersion", k) && StringLess("exactVersion", k) && !StringLess("packageVersion", k)
    ensures forall k :: k in c.fourth ==> StringLess("contractVersion", k) && StringLess("exactVersion", k) && StringLess("packageVersion", k)
  {
    LabelsOrdered();
    StringLessIsOrder();
    hide StringLess, IsLabel, StrictlySorted;
  }

  /** The condition reads only which keys there are. */
  lemma InOrderExactly(keys: seq<string>, c: Cut)
    requires IsCut(keys, c)
    ensures InOrder(keys) <==> LeavesOrder(c)
  {
    CutCounts(keys, c);
    hide StringLess, IsLabel, StrictlySorted, After;
  }

  lemma InOrderPermutation(a: seq<string>, b: seq<string>)
    requires forall k :: k in a <==> k in b
    ensures InOrder(a) <==> InOrder(b)
  {
    hide StringLess, IsLabel;
    assert After(a, "contractVersion") == After(b, "contractVersion");
    assert After(a, "exactVersion") == After(b, "exactVersion");
    assert After(a, "packageVersion") == After(b, "packageVersion");
  }

  /** The keys of a canonical object stay in order exactly under the condition. */
  lemma CanonicalKeysStay(members: Members, how: Removal)
    requires UniqueKeys(members)
    ensures var c := Canonical(Obj(members)).members;
            StrictlySorted(Keys(WithoutLabels(c, how)), StringLess) <==> how.CloseGap? || InOrder(Keys(members))
  {
    CanonicalKeys(members);
    SortedKeysAreKeys(members);
    var c := Canonical(Obj(members)).members;
    hide StringLess, IsLabel, StrictlySorted, Canonical, WithoutLabels, Left, LeavesOrder, InOrder, IsCut;
    var cut := CutKeys(Keys(c));
    WithoutLabelKeys(c, cut, how);
    CutIsSorted(Keys(c), cut);
    LeftSorted(cut, how);
    InOrderExactly(Keys(c), cut);
    InOrderPermutation(Keys(c), Keys(members));
  }

  lemma CutIsSorted(keys: seq<string>, c: Cut)
    requires IsCut(keys, c)
    ensures StrictlySorted(c.first + (c.second + (c.third + c.fourth)), StringLess)
  {
  }

  // ----- Stripping and canonicalising -----

  /** The members of a stripped canonical object. */
  lemma StrippedMembers(members: Members, how: Removal)
    requires UniqueKeys(members)
    ensures var s := Strip(Canonical(Obj(members)), how).members;
            && Keys(s) == Keys(WithoutLabels(Canonical(Obj(members)).members, how))
            && (forall key :: key in Keys(s) <==> key in Keys(members) && !IsLabel(key))
            && (forall j :: 0 <= j < |s| ==>
                  s[j].0 in Keys(members) && s[j].1 == Strip(Canonical(members[IndexOf(members, s[j].0)].1), how))
  {
    CanonicalKeys(members);
    SortedKeysAreKeys(members);
    var c := Canonical(Obj(members));
    assert c.Obj?;
    forall key | key in Keys(members)
      ensures key in Keys(c.members) && c.members[IndexOf(c.members, key)].1 == Canonical(members[IndexOf(members, key)].1)
    {
      CanonicalMember(members, key);
    }
    hide StringLess, IsLabel, StrictlySorted, Canonical, Sort;
    StripKeys(c.members, how);
    var s := Strip(c, how).members;
    assert Keys(s) == Keys(WithoutLabels(c.members, how));
    hide Strip, WithoutLabels;
    forall j | 0 <= j < |s|
      ensures s[j].0 in Keys(members) && s[j].1 == Strip(Canonical(members[IndexOf(members, s[j].0)].1), how)
    {
      assert Keys(s)[j] == s[j].0;
      IndexUnique(s, j);
    }
  }

  lemma {:induction false} StripsInOrderExactly(value: Value, how: Removal)
    requires Proper(value)
    ensures InCanonicalForm(Strip(Canonical(value), how)) <==> how.CloseGap? || StripsInOrder(value)
  {
    match value
    case Num(number) =>
      NumberValueKept(number);
    case Arr(items) =>
      forall i | 0 <= i < |items|
        ensures InCanonicalForm(Strip(Canonical(items[i]), how)) <==> how.CloseGap? || StripsInOrder(items[i])
      {
        StripsInOrderExactly(items[i], how);
      }
      var s := Strip(Canonical(value), how);
      assert |s.items| == |items| && forall i :: 0 <= i < |items| ==> s.items[i] == Strip(Canonical(items[i]), how);
    case Obj(members) =>
      forall i | 0 <= i < |members|
        ensures InCanonicalForm(Strip(Canonical(members[i].1), how)) <==> how.CloseGap? || StripsInOrder(members[i].1)
      {
        StripsInOrderExactly(members[i].1, how);
      }
      StripsObject(members, how);
    case _ =>
  }

  lemma StripsObject(members: Members, how: Removal)
    requires UniqueKeys(members)
    requires forall i :: 0 <= i < |members| ==>
      (InCanonicalForm(Strip(Canonical(members[i].1), how)) <==> how.CloseGap? || StripsInOrder(members[i].1))
    ensures InCanonicalForm(Strip(Canonical(Obj(members)), how)) <==> how.CloseGap? || StripsInOrder(Obj(members))
  {
    var s := Strip(Canonical(Obj(members)), how);
    assert s.Obj?;
    hide StringLess, IsLabel, StrictlySorted, Canonical, Strip, WithoutLabels, InOrder, IndexOf, Keys, UniqueKeys, InCanonicalForm, StripsInOrder;
    CanonicalKeysStay(members, how);
    StrippedMembers(members, how);
    StripsChildren(members, s.members, how);
    ObjectInForm(s.members);
    ObjectInOrder(members);
  }

  lemma ObjectInForm(members: Members)
    ensures InCanonicalForm(Obj(members)) <==>
      StrictlySorted(Keys(members), StringLess) && forall i :: 0 <= i < |members| ==> InCanonicalForm(members[i].1)
  {
  }

  lemma ObjectInOrder(members: Members)
    ensures StripsInOrder(Obj(members)) <==>
      InOrder(Keys(members)) && forall i :: 0 <= i < |members| && !IsLabel(members[i].0) ==> StripsInOrder(members[i].1)
  {
  }

  /** The members that stay are canonical exactly if they strip in order. */
  lemma StripsChildren(members: Members, s: Members, how: Removal)
    requires UniqueKeys(members)
    requires forall i :: 0 <= i < |members| ==>
      (InCanonicalForm(Strip(Canonical(members[i].1), how)) <==> how.CloseGap? || StripsInOrder(members[i].1))
    requires forall key :: key in Keys(s) <==> key in Keys(members) && !IsLabel(key)
    requires forall j :: 0 <= j < |s| ==>
      s[j].0 in Keys(members) && s[j].1 == Strip(Canonical(members[IndexOf(members, s[j].0)].1), how)
    ensures (forall j :: 0 <= j < |s| ==> InCanonicalForm(s[j].1)) <==>
            how.CloseGap? || forall i :: 0 <= i < |members| && !IsLabel(members[i].0) ==> StripsInOrder(members[i].1)
  {
    hide StringLess, IsLabel, Canonical, Strip, InCanonicalForm, StripsInOrder;
    forall j | 0 <= j < |s|
      ensures !IsLabel(s[j].0)
      ensures InCanonicalForm(s[j].1) <==> how.CloseGap? || StripsInOrder(members[IndexOf(members, s[j].0)].1)
    {
      assert Keys(s)[j] == s[j].0;
    }
    forall i | 0 <= i < |members| && !IsLabel(members[i].0)
      ensures exists j :: 0 <= j < |s| && IndexOf(members, s[j].0) == i
    {
      IndexUnique(members, i);
      var j := IndexOf(s, members[i].0);
      assert s[j].0 == members[i].0;
    }
  }

  /** Stripping commutes with canonicalisation up to the order of members, and outright
      exactly if the objects are sorted ones or the labels leave no disorder. */
  lemma StripCommutes(value: Value, how: Removal)
    requires Proper(value)
    ensures Canonical(Strip(Canonical(value), how)) == Canonical(Strip(value, how))
    ensures Strip(Canonical(value), how) == Canonical(Strip(value, how)) <==> how.CloseGap? || StripsInOrder(value)
  {
    CanonicalProper(value);
    CanonicalMeaning(value);
    IdentityIgnoresLabels(Canonical(value), value, how);
    StripProper(Canonical(value), how);
    CanonicalFixed(Strip(Canonical(value), how));
    StripsInOrderExactly(value, how);
  }

  function Labelled(): Value { Obj([("contractVersion", Null), ("x", Null), ("y", Null)]) }

  function Disordered(): Value { Obj([("y", Null), ("x", Null)]) }

  /** Stripping an object that is already in canonical form can put it out of order. */
  lemma StripDisorders()
    ensures Proper(Labelled()) && Canonical(Labelled()) == Labelled()
    ensures Strip(Labelled(), MoveLast) == Disordered()
    ensures Canonical(Strip(Labelled(), MoveLast)) != Strip(Labelled(), MoveLast)
  {
    OrderedKeys();
    StrippedExample();
    LabelledProper();
    hide StringLess, Canonical, Strip, Sort;
    CanonicalFixed(Labelled());
    StripProper(Labelled(), MoveLast);
    CanonicalFixed(Disordered());
  }

  lemma LabelledProper()
    ensures Proper(Labelled())
  {
    OrderedKeys();
    hide StringLess;
  }

  lemma StrippedExample()
    ensures Strip(Labelled(), MoveLast) == Disordered()
  {
    var members: Members := [("contractVersion", Null), ("x", Null), ("y", Null)];
    DisorderedMembers(members);
    hide WithoutLabels;
    assert Strip(Obj(members), MoveLast).members == [("y", Null), ("x", Null)];
  }

  lemma OrderedKeys()
    ensures Keys([("contractVersion", Null), ("x", Null), ("y", Null)]) == ["contractVersion", "x", "y"]
    ensures StrictlySorted(["contractVersion", "x", "y"], StringLess)
    ensures NoDuplicates(["contractVersion", "x", "y"])
    ensures Keys([("y", Null), ("x", Null)]) == ["y", "x"] && !StrictlySorted(["y", "x"], StringLess)
  {
    var keys := ["contractVersion", "x", "y"];
    assert StringLess(keys[0], keys[1]) && StringLess(keys[1], keys[2]) && StringLess(keys[0], keys[2]);
    assert !StringLess(["y", "x"][0], ["y", "x"][1]);
    StringLessIsOrder();
    StrictlySortedIsSorted(keys, StringLess);
    hide StringLess;
  }

  lemma DisorderedMembers(members: Members)
    requires members == [("contractVersion", Null), ("x", Null), ("y", Null)]
    ensures WithoutLabels(members, MoveLast) == [("y", Null), ("x", Null)]
  {
    AbsentKey(members, "packageVersion");
    assert Keys(members)[0] == "contractVersion";
    assert IndexOf(members, "contractVersion") == 0;
    var second: Members := [("y", Null), ("x", Null)];
    assert Remove(members, "contractVersion", MoveLast) == second;
    AbsentKey(second, "exactVersion");
  }

  lemma AbsentKey(members: Members, key: string)
    requires forall i :: 0 <= i < |members| ==> |members[i].0| != |key|
    ensures Remove(members, key, MoveLast) == members
  {
    assert forall i :: 0 <= i < |members| ==> Keys(members)[i] != key;
  }
}
