/** A stand-in for the library's sort: ordered by key, the same elements, ties in any order. */
module Sorting {
  ghost predicate Ordered<T>(s: seq<T>, key: T -> int) {
    forall i, j | 0 <= i < j < |s| :: key(s[i]) <= key(s[j])
  }

  method Insert<T(==)>(s: seq<T>, x: T, key: T -> int) returns (r: seq<T>)
    requires Ordered(s, key)
    ensures Ordered(r, key) && multiset(r) == multiset(s) + multiset{x}
  {
    var i := |s|;
    while i > 0 && key(x) < key(s[i - 1])
      invariant 0 <= i <= |s|
      invariant forall j | i <= j < |s| :: key(x) < key(s[j])
    {
      i := i - 1;
    }
    InsertedOrdered(s, i, x, key);
    r := s[..i] + [x] + s[i..];
    assert s == s[..i] + s[i..];
  }

  lemma InsertedOrdered<T>(s: seq<T>, i: nat, x: T, key: T -> int)
    requires Ordered(s, key) && i <= |s|
    requires i > 0 ==> key(s[i - 1]) <= key(x)
    requires forall j | i <= j < |s| :: key(x) < key(s[j])
    ensures Ordered(s[..i] + [x] + s[i..], key)
  {
    var r := s[..i] + [x] + s[i..];
    forall j, k | 0 <= j < k < |r| ensures key(r[j]) <= key(r[k]) {
      if j < i { assert key(s[j]) <= key(s[i - 1]); }
    }
  }

  method SortBy<T(==)>(s: seq<T>, key: T -> int) returns (r: seq<T>)
    ensures Ordered(r, key) && multiset(r) == multiset(s)
  {
    r := [];
    for i := 0 to |s|
      invariant Ordered(r, key) && multiset(r) == multiset(s[..i])
    {
      r := Insert(r, s[i], key);
      assert s[..i + 1] == s[..i] + [s[i]];
    }
    assert s[..|s|] == s;
  }

  /** Sorts whole numbers in place. */
  method SortInts(a: array<int>)
    modifies a
    ensures forall i, j | 0 <= i < j < a.Length :: a[i] <= a[j]
    ensures multiset(a[..]) == multiset(old(a[..]))
  {
    var r := SortBy(a[..], (x: int) => x);
    assert |r| == |multiset(r)| == |multiset(a[..])| == a.Length;
    for i := 0 to a.Length
      invariant forall j | 0 <= j < i :: a[j] == r[j]
    {
      a[i] := r[i];
    }
    assert a[..] == r;
  }
}
