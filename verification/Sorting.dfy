/** Library sorts as sorted permutations, over any total order. */
module Sorting {
  ghost predicate TotalOrder<T(!new)>(le: (T, T) -> bool) {
    && (forall a, b :: le(a, b) || le(b, a))
    && (forall a, b :: le(a, b) && le(b, a) ==> a == b)
    && forall a, b, c :: le(a, b) && le(b, c) ==> le(a, c)
  }

  ghost predicate SortedBy<T>(s: seq<T>, le: (T, T) -> bool) {
    forall i, j :: 0 <= i < j < |s| ==> le(s[i], s[j])
  }

  function Insert<T>(s: seq<T>, x: T, le: (T, T) -> bool): seq<T> {
    if s == [] || le(x, s[0]) then [x] + s else [s[0]] + Insert(s[1..], x, le)
  }

  function Sort<T>(s: seq<T>, le: (T, T) -> bool): seq<T> {
    if s == [] then [] else Insert(Sort(s[1..], le), s[0], le)
  }

  lemma {:induction false} InsertSorted<T(!new)>(s: seq<T>, x: T, le: (T, T) -> bool)
    requires TotalOrder(le) && SortedBy(s, le)
    ensures SortedBy(Insert(s, x, le), le)
    ensures multiset(Insert(s, x, le)) == multiset(s) + multiset{x}
  {
    if s == [] || le(x, s[0]) {
    } else {
      InsertSorted(s[1..], x, le);
      HeadLeast(s[0], s[1..], x, Insert(s[1..], x, le), le);
      assert s == [s[0]] + s[1..];
    }
  }

  /** A first element stays below what is inserted after it. */
  lemma HeadLeast<T(!new)>(head: T, rest: seq<T>, x: T, r: seq<T>, le: (T, T) -> bool)
    requires le(head, x) && (forall i :: 0 <= i < |rest| ==> le(head, rest[i]))
    requires SortedBy(r, le) && multiset(r) == multiset(rest) + multiset{x}
    ensures SortedBy([head] + r, le)
  {
    forall i | 0 <= i < |r|
      ensures le(head, r[i])
    {
      assert r[i] in multiset(r);
      assert r[i] == x || r[i] in rest;
    }
  }

  lemma {:induction false} SortSorted<T(!new)>(s: seq<T>, le: (T, T) -> bool)
    requires TotalOrder(le)
    ensures SortedBy(Sort(s, le), le)
    ensures multiset(Sort(s, le)) == multiset(s)
    ensures |Sort(s, le)| == |s|
    ensures forall x :: x in Sort(s, le) <==> x in s
  {
    if s != [] {
      SortSorted(s[1..], le);
      InsertSorted(Sort(s[1..], le), s[0], le);
      assert s == [s[0]] + s[1..];
    }
    var r := Sort(s, le);
    assert |multiset(r)| == |r| && |multiset(s)| == |s|;
    assert forall x :: x in r <==> x in multiset(r);
    assert forall x :: x in s <==> x in multiset(s);
  }

  predicate Ascending(s: seq<nat>) {
    forall i, j :: 0 <= i < j < |s| ==> s[i] < s[j]
  }

  /** An ordered set's walk, from the least element up. */
  method InOrder(ids: set<nat>) returns (s: seq<nat>)
    ensures Ascending(s) && forall x :: x in s <==> x in ids
    ensures |s| == |ids|
  {
    s := [];
    var left := ids;
    while left != {}
      invariant left <= ids && Ascending(s)
      invariant forall x :: x in ids <==> x in s || x in left
      invariant forall x, y :: x in s && y in left ==> x < y
      invariant |s| + |left| == |ids|
      decreases left
    {
      var least :| least in left;
      var rest := left - {least};
      while rest != {}
        invariant least in left && rest <= left
        invariant forall y :: y in left && y !in rest ==> least <= y
        decreases rest
      {
        var y :| y in rest;
        if y < least {
          least := y;
        }
        rest := rest - {y};
      }
      AscendingPush(s, least);
      s := s + [least];
      left := left - {least};
    }
  }

  lemma AscendingPush(s: seq<nat>, x: nat)
    requires Ascending(s) && forall y :: y in s ==> y < x
    ensures Ascending(s + [x])
  {
    assert forall i :: 0 <= i < |s| ==> s[i] in s;
  }

  lemma NoElements<T>(s: seq<T>)
    ensures s == [] <==> forall x :: x !in s
  {
    assert s != [] ==> s[0] in s;
  }

  /** A strictly ascending sequence is determined by its elements. */
  lemma {:induction false} AscendingUnique(a: seq<nat>, b: seq<nat>)
    requires Ascending(a) && Ascending(b)
    requires forall x :: x in a <==> x in b
    ensures a == b
  {
    NoElements(a);
    NoElements(b);
    if a != [] {
      assert a[0] in b;
      assert b[0] in a;
      var i :| 0 <= i < |b| && b[i] == a[0];
      var j :| 0 <= j < |a| && a[j] == b[0];
      assert a[0] == b[0];
      forall x
        ensures x in a[1..] <==> x in b[1..]
      {
        assert x in a[1..] ==> x in a && x > a[0];
        assert x in b[1..] ==> x in b && x > b[0];
      }
      AscendingUnique(a[1..], b[1..]);
    }
  }
}
