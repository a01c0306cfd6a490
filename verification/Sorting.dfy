/** Sorting of integers, as the standard library does it for the modelled code. */
module Sorting {

  function Insert(v: int, list: seq<int>): seq<int> {
    if list == [] || v <= list[0] then [v] + list else [list[0]] + Insert(v, list[1..])
  }

  function Sort(list: seq<int>): seq<int> {
    if list == [] then [] else Insert(list[0], Sort(list[1..]))
  }

  ghost predicate Ordered(list: seq<int>) {
    forall i, j | 0 <= i < j < |list| :: list[i] <= list[j]
  }

  lemma OrderedCons(x: int, rest: seq<int>)
    requires Ordered(rest) && forall y | y in rest :: x <= y
    ensures Ordered([x] + rest)
  {
    var list := [x] + rest;
    assert forall j | 0 < j < |list| :: list[j] == rest[j - 1] && rest[j - 1] in rest;
  }

  lemma {:induction false} InsertOrdered(v: int, list: seq<int>)
    requires Ordered(list)
    ensures Ordered(Insert(v, list))
    ensures forall x :: x in Insert(v, list) <==> x == v || x in list
    ensures multiset(Insert(v, list)) == multiset(list) + multiset{v}
  {
    if list == [] || v <= list[0] {
      OrderedCons(v, list);
    } else {
      InsertOrdered(v, list[1..]);
      OrderedCons(list[0], Insert(v, list[1..]));
      assert list == [list[0]] + list[1..];
    }
  }

  lemma {:induction false} SortOrdered(list: seq<int>)
    ensures Ordered(Sort(list))
    ensures forall x :: x in Sort(list) <==> x in list
    ensures multiset(Sort(list)) == multiset(list) && |Sort(list)| == |list|
  {
    if list != [] {
      SortOrdered(list[1..]);
      InsertOrdered(list[0], Sort(list[1..]));
      assert list == [list[0]] + list[1..];
    }
    SameLength(Sort(list), list);
  }

  lemma SameLength(a: seq<int>, b: seq<int>)
    requires multiset(a) == multiset(b)
    ensures |a| == |b|
  {
    assert |multiset(a)| == |a| && |multiset(b)| == |b|;
  }

  lemma TailValues(a: seq<int>)
    requires a != []
    ensures multiset(a[1..]) == multiset(a) - multiset{a[0]}
  {
    assert a == [a[0]] + a[1..];
  }

  lemma SameHead(a: seq<int>, b: seq<int>)
    requires Ordered(a) && Ordered(b) && multiset(a) == multiset(b) && a != [] && b != []
    ensures a[0] == b[0]
  {
    assert a[0] in multiset(a) && b[0] in multiset(b);
    assert a[0] in b && b[0] in a;
  }

  /** Ordered lists of the same values are equal. */
  lemma {:induction false} OrderedUnique(a: seq<int>, b: seq<int>)
    requires Ordered(a) && Ordered(b) && multiset(a) == multiset(b)
    ensures a == b
  {
    SameLength(a, b);
    if a != [] {
      SameHead(a, b);
      TailValues(a);
      TailValues(b);
      OrderedUnique(a[1..], b[1..]);
    }
  }

  /** Sorting forgets the order of arrival. */
  lemma SortPermutation(a: seq<int>, b: seq<int>)
    requires multiset(a) == multiset(b)
    ensures Sort(a) == Sort(b)
  {
    SortOrdered(a);
    SortOrdered(b);
    OrderedUnique(Sort(a), Sort(b));
  }
}
