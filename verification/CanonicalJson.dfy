/** The canonical form of JSON values (canonical-json/src/lib.rs).

    An object is a list of members, so that the order the canonical form gives them shows. */
module CanonicalJson {
  import opened Sorting

  /** An unsigned 64-bit integer, a negative signed one, or a finite float. */
  datatype Number = PosInt(n: nat) | NegInt(i: int) | Float(x: real)

  datatype Value =
    | Null
    | Bool(b: bool)
    | Num(number: Number)
    | Str(s: string)
    | Arr(items: seq<Value>)
    | Obj(members: seq<(string, Value)>)

  type Members = seq<(string, Value)>

  const MAX_I64: int := 0x7fff_ffff_ffff_ffff
  const MIN_I64: int := -0x8000_0000_0000_0000

  // ----- Numbers -----

  predicate ValidNumber(number: Number) {
    match number
    case PosInt(n) => n < 0x1_0000_0000_0000_0000
    case NegInt(i) => MIN_I64 <= i < 0
    case Float(_) => true
  }

  function NumericValue(number: Number): real {
    match number
    case PosInt(n) => n as real
    case NegInt(i) => i as real
    case Float(x) => x
  }

  function FromI64(i: int): Number {
    if i < 0 then NegInt(i) else PosInt(i)
  }

  /** The cast of a float to a signed 64-bit integer saturates. The largest such integer
      rounds up to 2^63 as a float, so 2^63 passes the range test. */
  function CanonicalNumber(number: Number): Number {
    match number
    case Float(x) =>
      if x == x.Floor as real && MIN_I64 as real <= x <= (MAX_I64 + 1) as real
      then FromI64(if x.Floor > MAX_I64 then MAX_I64 else x.Floor)
      else number
    case _ => number
  }

  /** Every number but the float 2^63 keeps its value. */
  lemma NumberValueKept(number: Number)
    requires ValidNumber(number)
    ensures ValidNumber(CanonicalNumber(number))
    ensures NumericValue(CanonicalNumber(number)) == NumericValue(number) <==> number != Float((MAX_I64 + 1) as real)
    ensures CanonicalNumber(Float((MAX_I64 + 1) as real)) == PosInt(MAX_I64)
    ensures CanonicalNumber(CanonicalNumber(number)) == CanonicalNumber(number)
  {
    assert ((MAX_I64 + 1) as real).Floor == MAX_I64 + 1;
  }

  /** The value a number is given: the float 2^63 is one short. */
  function Assigned(number: Number): real {
    if number == Float((MAX_I64 + 1) as real) then MAX_I64 as real else NumericValue(number)
  }

  /** Two numbers get one form exactly if they are assigned one value and, beyond the
      signed range, are also both integers or both floats. */
  lemma NumbersMeet(a: Number, b: Number)
    requires ValidNumber(a) && ValidNumber(b)
    ensures CanonicalNumber(a) == CanonicalNumber(b) <==>
      Assigned(a) == Assigned(b) && (Assigned(a) > MAX_I64 as real ==> (a.Float? <==> b.Float?))
  {
    assert ((MAX_I64 + 1) as real).Floor == MAX_I64 + 1;
  }

  // ----- Objects -----

  function Keys(members: Members): (keys: seq<string>)
    ensures |keys| == |members| && forall i :: 0 <= i < |members| ==> keys[i] == members[i].0
  {
    seq(|members|, i requires 0 <= i < |members| => members[i].0)
  }

  function IndexOf(members: Members, key: string): (i: nat)
    requires key in Keys(members)
    ensures i < |members| && members[i].0 == key
    ensures forall j :: 0 <= j < i ==> members[j].0 != key
  {
    if members[0].0 == key then 0
    else
      assert forall j :: 0 <= j < |Keys(members)| && Keys(members)[j] == key ==> j > 0 && Keys(members[1..])[j - 1] == key;
      1 + IndexOf(members[1..], key)
  }

  predicate UniqueKeys(members: Members) {
    NoDuplicates(Keys(members))
  }

  /** No object has two members with the same key, and every number is in range. */
  predicate Proper(value: Value) {
    match value
    case Num(number) => ValidNumber(number)
    case Arr(items) => forall i :: 0 <= i < |items| ==> Proper(items[i])
    case Obj(members) => UniqueKeys(members) && forall i :: 0 <= i < |members| ==> Proper(members[i].1)
    case _ => true
  }

  /** What a value means once the order of members and the form of numbers are forgotten. */
  datatype Meaning =
    | MNull
    | MBool(b: bool)
    | MNum(number: Number)
    | MStr(s: string)
    | MArr(items: seq<Meaning>)
    | MObj(fields: map<string, Meaning>)

  function MeaningOf(value: Value): Meaning {
    match value
    case Null => MNull
    case Bool(b) => MBool(b)
    case Num(number) => MNum(CanonicalNumber(number))
    case Str(s) => MStr(s)
    case Arr(items) => MArr(seq(|items|, i requires 0 <= i < |items| => MeaningOf(items[i])))
    case Obj(members) => MObj(map key | key in Keys(members) :: MeaningOf(members[IndexOf(members, key)].1))
  }

  /** The meaning of an object, key by key. */
  lemma ObjectMeaning(members: Members)
    ensures var m := MeaningOf(Obj(members));
            && m.MObj?
            && (forall key :: key in m.fields <==> key in Keys(members))
            && (forall key :: key in Keys(members) ==> m.fields[key] == MeaningOf(members[IndexOf(members, key)].1))
  {
  }

  // ----- Canonical form -----

  function Canonical(value: Value): Value
    decreases value, 1
  {
    match value
    case Num(number) => Num(CanonicalNumber(number))
    case Arr(items) => Arr(seq(|items|, i requires 0 <= i < |items| => Canonical(items[i])))
    case Obj(members) =>
      SortedKeysAreKeys(members);
      Obj(CanonicalMembers(members, Sort(Keys(members), StringLess), value))
    case _ => value
  }

  lemma SortedKeysAreKeys(members: Members)
    ensures forall key :: key in Sort(Keys(members), StringLess) <==> key in Keys(members)
  {
    SortMembers(Keys(members), StringLess);
  }

  function CanonicalMembers(members: Members, keys: seq<string>, ghost parent: Value): (r: Members)
    requires forall key :: key in keys ==> key in Keys(members)
    requires forall i :: 0 <= i < |members| ==> members[i].1 < parent
    ensures |r| == |keys|
    ensures forall i :: 0 <= i < |keys| ==> r[i].0 == keys[i]
    decreases parent, 0
  {
    seq(|keys|, i requires 0 <= i < |keys| => (keys[i], Canonical(members[IndexOf(members, keys[i])].1)))
  }

  method CanonicalValue(value: Value) returns (r: Value)
    ensures r == Canonical(value)
  {
    hide StringLess, Sort, IndexOf, Keys;
    match value {
      case Arr(items) =>
        var done: seq<Value> := [];
        for i := 0 to |items|
          invariant |done| == i && forall j :: 0 <= j < i ==> done[j] == Canonical(items[j])
        {
          var item := CanonicalValue(items[i]);
          done := done + [item];
        }
        assert Arr(done) == Canonical(value);
        r := Arr(done);
      case Obj(members) =>
        var keys := Sort(Keys(members), StringLess);
        SortedKeysAreKeys(members);
        var sorted: Members := [];
        for i := 0 to |keys|
          invariant |sorted| == i
          invariant forall j :: 0 <= j < i ==> keys[j] in Keys(members) && sorted[j] == (keys[j], Canonical(members[IndexOf(members, keys[j])].1))
        {
          var member := CanonicalValue(members[IndexOf(members, keys[i])].1);
          sorted := sorted + [(keys[i], member)];
        }
        assert sorted == CanonicalMembers(members, keys, value);
        r := Obj(sorted);
      case Num(number) =>
        r := Num(CanonicalNumber(number));
      case _ =>
        r := value;
    }
  }

  lemma IndexUnique(members: Members, i: nat)
    requires UniqueKeys(members) && i < |members|
    ensures Keys(members)[i] in Keys(members) && IndexOf(members, members[i].0) == i
  {
    assert Keys(members)[i] == members[i].0;
    var j := IndexOf(members, members[i].0);
    assert Keys(members)[j] == Keys(members)[i];
  }

  lemma CanonicalKeys(members: Members)
    requires UniqueKeys(members)
    ensures Keys(Canonical(Obj(members)).members) == Sort(Keys(members), StringLess)
    ensures UniqueKeys(Canonical(Obj(members)).members)
    ensures StrictlySorted(Keys(Canonical(Obj(members)).members), StringLess)
  {
    hide StringLess;
    var sorted := Sort(Keys(members), StringLess);
    SortedKeysAreKeys(members);
    StringLessIsOrder();
    SortSorted(Keys(members), StringLess);
    NoDuplicatesMultiset(Keys(members));
    NoDuplicatesMultiset(sorted);
    StrictlySortedIsSorted(sorted, StringLess);
    assert Keys(Canonical(Obj(members)).members) == sorted;
  }

  /** The member of a canonical object with a given key. */
  lemma CanonicalMember(members: Members, key: string)
    requires UniqueKeys(members) && key in Keys(members)
    ensures var c := Canonical(Obj(members)).members;
            key in Keys(c) && c[IndexOf(c, key)].1 == Canonical(members[IndexOf(members, key)].1)
  {
    SortedKeysAreKeys(members);
    CanonicalKeys(members);
  }

  lemma CanonicalObjectMeaning(members: Members)
    requires UniqueKeys(members)
    requires forall i :: 0 <= i < |members| ==> MeaningOf(Canonical(members[i].1)) == MeaningOf(members[i].1)
    ensures MeaningOf(Canonical(Obj(members))) == MeaningOf(Obj(members))
  {
    var c := Canonical(Obj(members));
    assert c.Obj?;
    SortedKeysAreKeys(members);
    CanonicalKeys(members);
    forall key | key in Keys(members)
      ensures key in Keys(c.members) && c.members[IndexOf(c.members, key)].1 == Canonical(members[IndexOf(members, key)].1)
    {
      CanonicalMember(members, key);
    }
    ObjectMeaning(members);
    ObjectMeaning(c.members);
    hide Canonical, MeaningOf, StringLess, IndexOf, Keys, UniqueKeys, Sort;
    assert MeaningOf(c).fields == MeaningOf(Obj(members)).fields;
  }

  /** The canonical form has the meaning of the value. */
  lemma {:induction false} CanonicalMeaning(value: Value)
    requires Proper(value)
    ensures MeaningOf(Canonical(value)) == MeaningOf(value)
  {
    match value
    case Num(number) =>
      NumberValueKept(number);
    case Arr(items) =>
      forall i | 0 <= i < |items|
        ensures MeaningOf(Canonical(items[i])) == MeaningOf(items[i])
      {
        CanonicalMeaning(items[i]);
      }
    case Obj(members) =>
      forall i | 0 <= i < |members|
        ensures MeaningOf(Canonical(members[i].1)) == MeaningOf(members[i].1)
      {
        CanonicalMeaning(members[i].1);
      }
      CanonicalObjectMeaning(members);
    case _ =>
  }

  lemma {:induction false} CanonicalProper(value: Value)
    requires Proper(value)
    ensures Proper(Canonical(value))
  {
    match value
    case Num(number) =>
      NumberValueKept(number);
    case Arr(items) =>
      forall i | 0 <= i < |items|
        ensures Proper(Canonical(items[i]))
      {
        CanonicalProper(items[i]);
      }
    case Obj(members) =>
      CanonicalKeys(members);
      SortedKeysAreKeys(members);
      var keys := Sort(Keys(members), StringLess);
      forall i | 0 <= i < |keys|
        ensures Proper(Canonical(value).members[i].1)
      {
        CanonicalProper(members[IndexOf(members, keys[i])].1);
      }
    case _ =>
  }

  /** Two values have one canonical form exactly if they differ only in the order of
      members and the form of numbers. */
  lemma {:induction false} CanonicalExactly(v: Value, w: Value)
    requires Proper(v) && Proper(w)
    ensures Canonical(v) == Canonical(w) <==> MeaningOf(v) == MeaningOf(w)
  {
    if Canonical(v) == Canonical(w) {
      CanonicalMeaning(v);
      CanonicalMeaning(w);
    }
    if MeaningOf(v) == MeaningOf(w) {
      SameCanonical(v, w);
    }
  }

  lemma {:induction false} SameCanonical(v: Value, w: Value)
    requires Proper(v) && Proper(w) && MeaningOf(v) == MeaningOf(w)
    ensures Canonical(v) == Canonical(w)
  {
    match v
    case Arr(items) =>
      assert |MeaningOf(v).items| == |items| == |w.items|;
      forall i | 0 <= i < |items|
        ensures Canonical(items[i]) == Canonical(w.items[i])
      {
        assert MeaningOf(v).items[i] == MeaningOf(w).items[i];
        SameCanonical(items[i], w.items[i]);
      }
      assert Canonical(v).items == Canonical(w).items;
    case Obj(members) =>
      SameSortedKeys(members, w.members);
      forall key | key in Keys(members)
        ensures Canonical(members[IndexOf(members, key)].1) == Canonical(w.members[IndexOf(w.members, key)].1)
      {
        assert MeaningOf(v).fields[key] == MeaningOf(w).fields[key];
        SameCanonical(members[IndexOf(members, key)].1, w.members[IndexOf(w.members, key)].1);
      }
      SameObject(members, w.members);
    case _ =>
  }

  lemma SameObject(a: Members, b: Members)
    requires forall key :: key in Keys(a) <==> key in Keys(b)
    requires Sort(Keys(a), StringLess) == Sort(Keys(b), StringLess)
    requires forall key :: key in Keys(a) ==> Canonical(a[IndexOf(a, key)].1) == Canonical(b[IndexOf(b, key)].1)
    ensures Canonical(Obj(a)) == Canonical(Obj(b))
  {
    hide Keys, IndexOf, StringLess, Sort;
    SortedKeysAreKeys(a);
    assert Canonical(Obj(a)).members == Canonical(Obj(b)).members;
  }

  lemma SameSortedKeys(a: Members, b: Members)
    requires UniqueKeys(a) && UniqueKeys(b) && MeaningOf(Obj(a)) == MeaningOf(Obj(b))
    ensures forall key :: key in Keys(a) <==> key in Keys(b)
    ensures Sort(Keys(a), StringLess) == Sort(Keys(b), StringLess)
  {
    hide StringLess;
    forall key
      ensures key in Keys(a) <==> key in Keys(b)
    {
      assert key in Keys(a) <==> key in MeaningOf(Obj(a)).fields;
      assert key in Keys(b) <==> key in MeaningOf(Obj(b)).fields;
    }
    hide MeaningOf;
    NoDuplicatesCounts(Keys(a));
    NoDuplicatesCounts(Keys(b));
    forall key
      ensures multiset(Keys(a))[key] == multiset(Keys(b))[key]
    {
      assert key in multiset(Keys(a)) <==> key in Keys(a);
      assert key in multiset(Keys(b)) <==> key in Keys(b);
    }
    assert multiset(Keys(a)) == multiset(Keys(b));
    StringLessIsOrder();
    SortPermutation(Keys(a), Keys(b), StringLess);
  }

  lemma CanonicalIdempotent(value: Value)
    requires Proper(value)
    ensures Canonical(Canonical(value)) == Canonical(value)
  {
    CanonicalProper(value);
    CanonicalMeaning(value);
    CanonicalExactly(Canonical(value), value);
  }

  /** Members in key order and numbers in their canonical form, all the way down. */
  ghost predicate InCanonicalForm(value: Value) {
    match value
    case Num(number) => CanonicalNumber(number) == number
    case Arr(items) => forall i :: 0 <= i < |items| ==> InCanonicalForm(items[i])
    case Obj(members) =>
      StrictlySorted(Keys(members), StringLess) && forall i :: 0 <= i < |members| ==> InCanonicalForm(members[i].1)
    case _ => true
  }

  /** The values left alone are exactly those in canonical form. */
  lemma {:induction false} CanonicalFixed(value: Value)
    requires Proper(value)
    ensures Canonical(value) == value <==> InCanonicalForm(value)
  {
    match value
    case Arr(items) =>
      forall i | 0 <= i < |items|
        ensures Canonical(items[i]) == items[i] <==> InCanonicalForm(items[i])
      {
        CanonicalFixed(items[i]);
      }
      assert |Canonical(value).items| == |items|;
      assert forall i :: 0 <= i < |items| ==> Canonical(value).items[i] == Canonical(items[i]);
    case Obj(members) =>
      FixedObject(members);
      forall i | 0 <= i < |members|
        ensures Canonical(members[i].1) == members[i].1 <==> InCanonicalForm(members[i].1)
      {
        CanonicalFixed(members[i].1);
      }
    case _ =>
  }

  lemma FixedObject(members: Members)
    requires UniqueKeys(members)
    ensures Canonical(Obj(members)) == Obj(members) <==>
      StrictlySorted(Keys(members), StringLess) && forall i :: 0 <= i < |members| ==> Canonical(members[i].1) == members[i].1
  {
    hide StringLess;
    CanonicalKeys(members);
    SortedKeysAreKeys(members);
    var c := Canonical(Obj(members)).members;
    if StrictlySorted(Keys(members), StringLess) {
      StringLessIsOrder();
      StrictlySortedIsSorted(Keys(members), StringLess);
      SortFixpoint(Keys(members), StringLess);
      forall i | 0 <= i < |members|
        ensures c[i] == (members[i].0, Canonical(members[i].1))
      {
        IndexUnique(members, i);
      }
      if forall i :: 0 <= i < |members| ==> Canonical(members[i].1) == members[i].1 {
        assert c == members;
      }
    }
  }
}
