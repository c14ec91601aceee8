/** The library sort. Callers may rely on no more than its contract: the result
    is ordered and a permutation; the order of ties is not promised. */
module Sorting {
  ghost predicate TotalPreorder<T(!new)>(cmp: (T, T) -> int) {
    && (forall a, b :: cmp(a, b) <= 0 || cmp(b, a) <= 0)
    && (forall a, b, c :: cmp(a, b) <= 0 && cmp(b, c) <= 0 ==> cmp(a, c) <= 0)
  }

  ghost predicate SortedBy<T(!new)>(s: seq<T>, cmp: (T, T) -> int) {
    forall i, j :: 0 <= i < j < |s| ==> cmp(s[i], s[j]) <= 0
  }

  method SortFunc<T(!new)>(s: seq<T>, cmp: (T, T) -> int) returns (r: seq<T>)
    requires TotalPreorder(cmp)
    ensures SortedBy(r, cmp) && multiset(r) == multiset(s)
  {
    r := [];
    for n := 0 to |s|
      invariant SortedBy(r, cmp) && multiset(r) == multiset(s[..n])
    {
      r := Insert(r, s[n], cmp);
      assert s[..n + 1] == s[..n] + [s[n]];
    }
    assert s[..|s|] == s;
  }

  lemma SortedInsertion<T(!new)>(s: seq<T>, i: nat, x: T, cmp: (T, T) -> int)
    requires SortedBy(s, cmp) && i <= |s|
    requires forall j :: 0 <= j < i ==> cmp(s[j], x) <= 0
    requires forall j :: i <= j < |s| ==> cmp(x, s[j]) <= 0
    ensures SortedBy(s[..i] + [x] + s[i..], cmp)
  {
    var r := s[..i] + [x] + s[i..];
    assert r[i] == x && (forall j :: 0 <= j < i ==> r[j] == s[j]) && (forall j :: i < j < |r| ==> r[j] == s[j - 1]);
    forall j, k | 0 <= j < k < |r| ensures cmp(r[j], r[k]) <= 0 {
      if j == i || k == i {
      } else {
        var j', k' := if j < i then j else j - 1, if k < i then k else k - 1;
        assert r[j] == s[j'] && r[k] == s[k'] && j' < k';
      }
    }
  }

  lemma BelowPrefix<T(!new)>(s: seq<T>, i: nat, x: T, cmp: (T, T) -> int)
    requires TotalPreorder(cmp) && SortedBy(s, cmp) && i <= |s| && (i > 0 ==> cmp(s[i - 1], x) <= 0)
    ensures forall j :: 0 <= j < i ==> cmp(s[j], x) <= 0
  {
    forall j | 0 <= j < i ensures cmp(s[j], x) <= 0 {
      if j < i - 1 { assert cmp(s[j], s[i - 1]) <= 0; }
    }
  }

  method Slot<T(!new)>(s: seq<T>, x: T, cmp: (T, T) -> int) returns (i: nat)
    requires TotalPreorder(cmp)
    ensures i <= |s| && (i > 0 ==> cmp(s[i - 1], x) <= 0)
    ensures forall j :: i <= j < |s| ==> cmp(x, s[j]) <= 0
  {
    i := |s|;
    while i > 0 && cmp(s[i - 1], x) > 0
      invariant i <= |s|
      invariant forall j :: i <= j < |s| ==> cmp(x, s[j]) <= 0
    {
      i := i - 1;
    }
  }

  lemma InsertionMembers<T>(s: seq<T>, i: nat, x: T)
    requires i <= |s|
    ensures multiset(s[..i] + [x] + s[i..]) == multiset(s) + multiset{x}
  {
    assert s == s[..i] + s[i..];
  }

  method Insert<T(!new)>(s: seq<T>, x: T, cmp: (T, T) -> int) returns (r: seq<T>)
    requires TotalPreorder(cmp) && SortedBy(s, cmp)
    ensures SortedBy(r, cmp) && multiset(r) == multiset(s) + multiset{x}
  {
    hide TotalPreorder, SortedBy;
    var i := Slot(s, x, cmp);
    BelowPrefix(s, i, x, cmp);
    SortedInsertion(s, i, x, cmp);
    InsertionMembers(s, i, x);
    r := s[..i] + [x] + s[i..];
  }

  lemma PermutationMembers<T>(r: seq<T>, s: seq<T>)
    requires multiset(r) == multiset(s)
    ensures |r| == |s| && forall x :: x in r <==> x in s
  {
    forall x ensures x in r <==> x in s {
      assert x in r <==> x in multiset(r);
      assert x in s <==> x in multiset(s);
    }
    assert |r| == |multiset(r)| && |s| == |multiset(s)|;
  }

  // ----- Strings -----

  /** Lexicographic order. */
  function CompareStrings(a: string, b: string): (c: int)
    ensures c == 0 <==> a == b
  {
    if a == [] then (if b == [] then 0 else -1)
    else if b == [] then 1
    else if a[0] != b[0] then (if a[0] < b[0] then -1 else 1)
    else
      assert a == [a[0]] + a[1..] && b == [b[0]] + b[1..];
      CompareStrings(a[1..], b[1..])
  }

  lemma {:induction false} StringsTotal(a: string, b: string)
    ensures CompareStrings(a, b) <= 0 || CompareStrings(b, a) <= 0
    ensures CompareStrings(a, b) <= 0 && CompareStrings(b, a) <= 0 ==> a == b
  {
    if a != [] && b != [] { StringsTotal(a[1..], b[1..]); }
  }

  lemma {:induction false} StringsTransitive(a: string, b: string, c: string)
    requires CompareStrings(a, b) <= 0 && CompareStrings(b, c) <= 0
    ensures CompareStrings(a, c) <= 0
  {
    if a != [] && b != [] && c != [] && a[0] == b[0] == c[0] { StringsTransitive(a[1..], b[1..], c[1..]); }
  }

  lemma StringsOrdered()
    ensures TotalPreorder(CompareStrings)
  {
    forall a, b ensures CompareStrings(a, b) <= 0 || CompareStrings(b, a) <= 0 {
      StringsTotal(a, b);
    }
    forall a, b, c | CompareStrings(a, b) <= 0 && CompareStrings(b, c) <= 0 ensures CompareStrings(a, c) <= 0 {
      StringsTransitive(a, b, c);
    }
  }

  ghost predicate Apart(x: seq<string>) {
    forall i, j :: 0 <= i < j < |x| ==> x[i] != x[j]
  }

  lemma SameFirst(x: seq<string>, y: seq<string>)
    requires SortedBy(x, CompareStrings) && SortedBy(y, CompareStrings) && x != [] && y != [] && x[0] in y && y[0] in x
    ensures x[0] == y[0]
  {
    var i :| 0 <= i < |y| && y[i] == x[0];
    var j :| 0 <= j < |x| && x[j] == y[0];
    StringsTotal(x[0], y[0]);
    hide CompareStrings;
    if i > 0 { assert CompareStrings(y[0], y[i]) <= 0; }
    if j > 0 { assert CompareStrings(x[0], x[j]) <= 0; }
  }

  lemma SameRest(x: seq<string>, y: seq<string>, s: string)
    requires Apart(x) && Apart(y) && x != [] && y != [] && x[0] == y[0] && (s in x <==> s in y)
    ensures s in x[1..] <==> s in y[1..]
  {
    assert x == [x[0]] + x[1..] && y == [y[0]] + y[1..];
    assert x[0] !in x[1..] && y[0] !in y[1..];
  }

  lemma RestSorted(x: seq<string>)
    requires SortedBy(x, CompareStrings) && Apart(x) && x != []
    ensures SortedBy(x[1..], CompareStrings) && Apart(x[1..])
  {
    hide CompareStrings;
  }

  /** A set of strings has one sorted list. */
  lemma {:induction false} SortedOnce(x: seq<string>, y: seq<string>)
    requires SortedBy(x, CompareStrings) && SortedBy(y, CompareStrings) && Apart(x) && Apart(y)
    requires forall s :: s in x <==> s in y
    ensures x == y
  {
    hide SortedBy, Apart;
    assert x != [] ==> x[0] in x && x[0] in y;
    assert y != [] ==> y[0] in y && y[0] in x;
    if x != [] {
      SameFirst(x, y);
      RestSorted(x);
      RestSorted(y);
      forall s ensures s in x[1..] <==> s in y[1..] {
        SameRest(x, y, s);
      }
      SortedOnce(x[1..], y[1..]);
      assert x == [x[0]] + x[1..] && y == [y[0]] + y[1..];
    }
  }
}
