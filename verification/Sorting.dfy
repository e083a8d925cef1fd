/** Sorting by an arbitrary strict total order.

    The sources sort by canonical JSON bytes, by identifiers or by strings; the
    only fact used about those keys is that they are strictly totally ordered, so
    every result here is stated for any such order `lt`. */
module Sorting {

  ghost predicate StrictTotalOrder<T(!new)>(lt: (T, T) -> bool) {
    && (forall x :: !lt(x, x))
    && (forall x, y :: x == y || lt(x, y) || lt(y, x))
    && (forall x, y, z :: lt(x, y) && lt(y, z) ==> lt(x, z))
  }

  ghost predicate StrictlySorted<T>(s: seq<T>, lt: (T, T) -> bool) {
    forall i, j :: 0 <= i < j < |s| ==> lt(s[i], s[j])
  }

  ghost predicate Sorted<T>(s: seq<T>, lt: (T, T) -> bool) {
    forall i, j :: 0 <= i < j < |s| ==> !lt(s[j], s[i])
  }

  predicate NoDuplicates<T(==)>(s: seq<T>) {
    forall i, j :: 0 <= i < j < |s| ==> s[i] != s[j]
  }

  function ToSet<T>(s: seq<T>): set<T> {
    set x | x in s
  }

  lemma ToSetAppend<T>(s: seq<T>, x: T)
    ensures ToSet(s + [x]) == ToSet(s) + {x}
  {
    assert x in s + [x];
  }

  function Insert<T(==)>(x: T, s: seq<T>, lt: (T, T) -> bool): (r: seq<T>)
    ensures multiset(r) == multiset(s) + multiset{x}
    ensures |r| == |s| + 1
  {
    if s == [] then [x]
    else if lt(s[0], x) then
      assert s == [s[0]] + s[1..];
      [s[0]] + Insert(x, s[1..], lt)
    else [x] + s
  }

  function Sort<T(==)>(s: seq<T>, lt: (T, T) -> bool): (r: seq<T>)
    ensures multiset(r) == multiset(s)
    ensures |r| == |s|
  {
    if s == [] then []
    else
      assert s == [s[0]] + s[1..];
      Insert(s[0], Sort(s[1..], lt), lt)
  }

  lemma {:induction false} InsertSorted<T(!new)>(x: T, s: seq<T>, lt: (T, T) -> bool)
    requires StrictTotalOrder(lt) && Sorted(s, lt)
    ensures Sorted(Insert(x, s, lt), lt)
  {
    if s != [] && lt(s[0], x) {
      InsertSorted(x, s[1..], lt);
      var r := Insert(x, s[1..], lt);
      forall k | 0 <= k < |r|
        ensures !lt(r[k], s[0])
      {
        assert r[k] in multiset(r);
        assert r[k] == x || r[k] in multiset(s[1..]);
        if r[k] != x {
          assert r[k] in s[1..];
        }
      }
    } else if s != [] {
      forall k | 0 <= k < |s|
        ensures !lt(s[k], x)
      {
        assert !lt(s[0], x);
      }
    }
  }

  lemma {:induction false} SortSorted<T(!new)>(s: seq<T>, lt: (T, T) -> bool)
    requires StrictTotalOrder(lt)
    ensures Sorted(Sort(s, lt), lt)
  {
    if s != [] {
      SortSorted(s[1..], lt);
      InsertSorted(s[0], Sort(s[1..], lt), lt);
    }
  }

  lemma HeadLeast<T(!new)>(s: seq<T>, x: T, lt: (T, T) -> bool)
    requires StrictTotalOrder(lt) && Sorted(s, lt) && x in multiset(s)
    ensures !lt(x, s[0])
  {
    assert x in s;
  }

  lemma RestMultiset<T>(s: seq<T>)
    requires s != []
    ensures s[0] in multiset(s) && multiset(s[1..]) == multiset(s) - multiset{s[0]}
  {
    assert s == [s[0]] + s[1..];
  }

  /** Two sorted arrangements of the same elements are the same sequence. */
  lemma {:induction false} SortedUnique<T(!new)>(s: seq<T>, t: seq<T>, lt: (T, T) -> bool)
    requires StrictTotalOrder(lt) && Sorted(s, lt) && Sorted(t, lt)
    requires multiset(s) == multiset(t)
    ensures s == t
  {
    assert |multiset(s)| == |s| && |multiset(t)| == |t|;
    if s != [] {
      RestMultiset(s);
      RestMultiset(t);
      HeadLeast(s, t[0], lt);
      HeadLeast(t, s[0], lt);
      assert s[0] == t[0];
      assert Sorted(s[1..], lt) && Sorted(t[1..], lt);
      hide Sorted, StrictTotalOrder;
      SortedUnique(s[1..], t[1..], lt);
      assert s == [s[0]] + s[1..] && t == [t[0]] + t[1..];
    }
  }

  lemma SortMembers<T(!new)>(s: seq<T>, lt: (T, T) -> bool)
    ensures forall x :: x in Sort(s, lt) <==> x in s
  {
    assert forall x :: x in Sort(s, lt) <==> x in multiset(Sort(s, lt));
    assert forall x :: x in s <==> x in multiset(s);
  }

  /** Where the head of a sequence sits in a permutation of it. */
  lemma PermutationHead<T(!new)>(a: seq<T>, b: seq<T>) returns (i: nat)
    requires a != [] && multiset(a) == multiset(b)
    ensures i < |b| && b[i] == a[0]
    ensures b == b[..i] + [b[i]] + b[i + 1..]
    ensures multiset(a[1..]) == multiset(b[..i] + b[i + 1..])
  {
    assert a[0] in multiset(a) && a[0] in multiset(b);
    i :| 0 <= i < |b| && b[i] == a[0];
    RestMultiset(a);
    assert b == b[..i] + ([b[i]] + b[i + 1..]);
    assert multiset(b) == multiset(b[..i] + b[i + 1..]) + multiset{b[i]};
  }

  /** Sorting forgets the order of its input. */
  lemma SortPermutation<T(!new)>(s: seq<T>, t: seq<T>, lt: (T, T) -> bool)
    requires StrictTotalOrder(lt) && multiset(s) == multiset(t)
    ensures Sort(s, lt) == Sort(t, lt)
  {
    SortSorted(s, lt);
    SortSorted(t, lt);
    SortedUnique(Sort(s, lt), Sort(t, lt), lt);
  }

  lemma SortFixpoint<T(!new)>(s: seq<T>, lt: (T, T) -> bool)
    requires StrictTotalOrder(lt) && Sorted(s, lt)
    ensures Sort(s, lt) == s
  {
    SortSorted(s, lt);
    SortedUnique(Sort(s, lt), s, lt);
  }

  lemma StrictlySortedIsSorted<T(!new)>(s: seq<T>, lt: (T, T) -> bool)
    requires StrictTotalOrder(lt)
    ensures StrictlySorted(s, lt) <==> Sorted(s, lt) && NoDuplicates(s)
  {
    if StrictlySorted(s, lt) {
      forall i, j | 0 <= i < j < |s|
        ensures !lt(s[j], s[i]) && s[i] != s[j]
      {
        assert lt(s[i], s[j]);
      }
    }
  }

  /** A sequence has no repeated element exactly when its multiset does not. */
  lemma {:induction false} NoDuplicatesMultiset<T>(s: seq<T>)
    ensures NoDuplicates(s) <==> forall x :: x in multiset(s) ==> multiset(s)[x] == 1
  {
    if NoDuplicates(s) {
      NoDuplicatesCounts(s);
    } else {
      var i, j :| 0 <= i < j < |s| && s[i] == s[j];
      assert s == s[..j] + [s[j]] + s[j + 1..];
      assert s[i] in s[..j];
      assert multiset(s)[s[i]] >= 2;
    }
  }

  lemma {:induction false} NoDuplicatesCounts<T>(s: seq<T>)
    requires NoDuplicates(s)
    ensures forall x :: x in multiset(s) ==> multiset(s)[x] == 1
  {
    if s != [] {
      assert s == [s[0]] + s[1..];
      NoDuplicatesCounts(s[1..]);
      forall x | x in multiset(s)
        ensures multiset(s)[x] == 1
      {
        if x == s[0] {
          assert x !in s[1..];
        }
      }
    }
  }

  lemma {:induction false} ToSetSize<T>(s: seq<T>)
    requires NoDuplicates(s)
    ensures |ToSet(s)| == |s|
  {
    if s != [] {
      ToSetSize(s[1..]);
      assert s == [s[0]] + s[1..];
      assert s[0] !in s[1..];
      assert ToSet(s) == ToSet(s[1..]) + {s[0]};
    }
  }

  /** Strictly sorted sequences are determined by their sets of elements. */
  lemma StrictlySortedSetUnique<T(!new)>(s: seq<T>, t: seq<T>, lt: (T, T) -> bool)
    requires StrictTotalOrder(lt) && StrictlySorted(s, lt) && StrictlySorted(t, lt)
    requires ToSet(s) == ToSet(t)
    ensures s == t
  {
    StrictlySortedIsSorted(s, lt);
    StrictlySortedIsSorted(t, lt);
    NoDuplicatesCounts(s);
    NoDuplicatesCounts(t);
    forall x
      ensures multiset(s)[x] == multiset(t)[x]
    {
      assert x in multiset(s) <==> x in ToSet(s);
      assert x in multiset(t) <==> x in ToSet(t);
    }
    assert multiset(s) == multiset(t);
    SortedUnique(s, t, lt);
  }

  /** The elements of a set in increasing order, as a B-tree set is iterated. */
  ghost function Arrange<T(!new)>(s: set<T>, lt: (T, T) -> bool): (r: seq<T>)
    ensures forall x :: x in r <==> x in s
  {
    if s == {} then []
    else
      var x :| x in s;
      var rest := Arrange(s - {x}, lt);
      var r := Insert(x, rest, lt);
      assert forall y :: y in r <==> y in multiset(r);
      assert forall y :: y in rest <==> y in multiset(rest);
      r
  }

  lemma {:induction false} ArrangeSorted<T(!new)>(s: set<T>, lt: (T, T) -> bool)
    requires StrictTotalOrder(lt)
    ensures StrictlySorted(Arrange(s, lt), lt)
    ensures |Arrange(s, lt)| == |s|
  {
    if s != {} {
      var x :| x in s && Arrange(s, lt) == Insert(x, Arrange(s - {x}, lt), lt);
      ArrangeSorted(s - {x}, lt);
      InsertStrict(x, Arrange(s - {x}, lt), lt);
    }
  }

  lemma InsertStrict<T(!new)>(x: T, s: seq<T>, lt: (T, T) -> bool)
    requires StrictTotalOrder(lt) && StrictlySorted(s, lt) && x !in s
    ensures StrictlySorted(Insert(x, s, lt), lt)
  {
    StrictlySortedIsSorted(s, lt);
    InsertSorted(x, s, lt);
    var r := Insert(x, s, lt);
    NoDuplicatesMultiset(s);
    assert forall y :: y in multiset(r) ==> multiset(r)[y] == 1;
    NoDuplicatesMultiset(r);
    StrictlySortedIsSorted(r, lt);
  }

  lemma ArrangeUnique<T(!new)>(s: set<T>, t: seq<T>, lt: (T, T) -> bool)
    requires StrictTotalOrder(lt) && StrictlySorted(t, lt) && ToSet(t) == s
    ensures t == Arrange(s, lt)
  {
    ArrangeSorted(s, lt);
    StrictlySortedSetUnique(t, Arrange(s, lt), lt);
  }

  /** The elements of a set in increasing order, collected one by one. */
  method SortedList<T(==,!new)>(s: set<T>, lt: (T, T) -> bool) returns (r: seq<T>)
    requires StrictTotalOrder(lt)
    ensures r == Arrange(s, lt)
  {
    hide StrictTotalOrder;
    var left := s;
    r := [];
    while left != {}
      invariant left <= s && StrictlySorted(r, lt) && ToSet(r) == s - left
    {
      var x :| x in left;
      assert x !in ToSet(r);
      InsertStrict(x, r, lt);
      ghost var before := r;
      r := Insert(x, r, lt);
      assert forall y :: y in r <==> y in multiset(r);
      assert forall y :: y in before <==> y in multiset(before);
      assert ToSet(r) == ToSet(before) + {x};
      left := left - {x};
    }
    ArrangeUnique(s, r, lt);
  }

  /** The order of strings: character by character, a proper prefix first. */
  predicate StringLess(a: string, b: string) {
    b != [] && (a == [] || a[0] < b[0] || (a[0] == b[0] && StringLess(a[1..], b[1..])))
  }

  lemma {:induction false} StringLessTrichotomy(a: string, b: string)
    ensures !StringLess(a, a)
    ensures a == b || StringLess(a, b) || StringLess(b, a)
    decreases |a| + |b|
  {
    if a != [] {
      StringLessTrichotomy(a[1..], if b == [] then [] else b[1..]);
      if b != [] {
        assert a == [a[0]] + a[1..] && b == [b[0]] + b[1..];
      }
    }
  }

  lemma {:induction false} StringLessTransitive(a: string, b: string, c: string)
    requires StringLess(a, b) && StringLess(b, c)
    ensures StringLess(a, c)
  {
    if a != [] && a[0] == b[0] && b[0] == c[0] {
      StringLessTransitive(a[1..], b[1..], c[1..]);
    }
  }

  lemma StringLessIsOrder()
    ensures StrictTotalOrder(StringLess)
  {
    forall a, b
      ensures !StringLess(a, a) && (a == b || StringLess(a, b) || StringLess(b, a))
    {
      StringLessTrichotomy(a, b);
    }
    forall a, b, c | StringLess(a, b) && StringLess(b, c)
      ensures StringLess(a, c)
    {
      StringLessTransitive(a, b, c);
    }
  }

  /** The strings agree up to position `n`, where the first ends or has the smaller character. */
  ghost predicate PartsAt(a: string, b: string, n: nat) {
    && n <= |a| && n < |b| && a[..n] == b[..n]
    && (n == |a| || a[n] < b[n])
  }

  /** Strings are compared at the first place where they differ. */
  lemma {:induction false} StringLessExactly(a: string, b: string)
    ensures StringLess(a, b) <==> exists n: nat :: PartsAt(a, b, n)
  {
    if n: nat :| PartsAt(a, b, n) {
      LessFromParts(a, b, n);
    }
    if StringLess(a, b) {
      if a != [] && a[0] == b[0] {
        StringLessExactly(a[1..], b[1..]);
        var n: nat :| PartsAt(a[1..], b[1..], n);
        assert a[..n + 1] == [a[0]] + a[1..][..n] && b[..n + 1] == [b[0]] + b[1..][..n];
        assert PartsAt(a, b, n + 1);
      } else {
        assert PartsAt(a, b, 0);
      }
    }
  }

  lemma {:induction false} LessFromParts(a: string, b: string, n: nat)
    requires PartsAt(a, b, n)
    ensures StringLess(a, b)
  {
    if n > 0 {
      assert a[0] == a[..n][0] && b[0] == b[..n][0];
      assert a[1..][..n - 1] == a[..n][1..] && b[1..][..n - 1] == b[..n][1..];
      LessFromParts(a[1..], b[1..], n - 1);
    }
  }
}
