/** `Array.prototype.sort` with a comparator: a stable insertion sort. The
    comparator is given by the relation "compares as smaller". */
module Sorting {
  ghost predicate Distinct<T>(items: seq<T>) {
    forall i, j :: 0 <= i < j < |items| ==> items[i] != items[j]
  }

  lemma DistinctSplit<T>(items: seq<T>, k: nat)
    requires Distinct(items) && k < |items|
    ensures Distinct(items[..k]) && items[k] !in items[..k]
    ensures Distinct(items[k + 1..]) && items[k] !in items[k + 1..]
  {
  }

  /** Inserts x before the first element it is smaller than. */
  function Insert<T>(x: T, sorted: seq<T>, smaller: (T, T) -> bool): seq<T> {
    if sorted == [] then [x]
    else if smaller(x, sorted[0]) then [x] + sorted
    else [sorted[0]] + Insert(x, sorted[1..], smaller)
  }

  function Sort<T>(items: seq<T>, smaller: (T, T) -> bool): seq<T> {
    if items == [] then []
    else Insert(items[|items| - 1], Sort(items[..|items| - 1], smaller), smaller)
  }

  lemma {:induction false} InsertPermutes<T>(x: T, sorted: seq<T>, smaller: (T, T) -> bool)
    ensures multiset(Insert(x, sorted, smaller)) == multiset(sorted) + multiset{x}
  {
    if sorted != [] {
      assert sorted == [sorted[0]] + sorted[1..];
      if !smaller(x, sorted[0]) {
        InsertPermutes(x, sorted[1..], smaller);
      }
    }
  }

  /** Whatever the comparator, sorting only rearranges. */
  lemma {:induction false} SortPermutes<T>(items: seq<T>, smaller: (T, T) -> bool)
    ensures multiset(Sort(items, smaller)) == multiset(items)
    ensures |Sort(items, smaller)| == |items|
  {
    if items != [] {
      var last := |items| - 1;
      SortPermutes(items[..last], smaller);
      InsertPermutes(items[last], Sort(items[..last], smaller), smaller);
      assert items == items[..last] + [items[last]];
    }
    assert |Sort(items, smaller)| == |multiset(Sort(items, smaller))| == |multiset(items)| == |items|;
  }

  lemma SortElements<T>(items: seq<T>, smaller: (T, T) -> bool)
    ensures forall x :: x in Sort(items, smaller) <==> x in items
  {
    SortPermutes(items, smaller);
    assert forall x :: x in items <==> x in multiset(items);
    assert forall x :: x in Sort(items, smaller) <==> x in multiset(Sort(items, smaller));
  }

  lemma {:induction false} InsertKeepsLast<T>(x: T, sorted: seq<T>, smaller: (T, T) -> bool, last: T)
    requires forall y :: y != last ==> smaller(y, last) && !smaller(last, y)
    requires last in sorted ==> sorted[|sorted| - 1] == last
    requires x == last ==> last !in sorted
    requires Distinct(sorted)
    ensures var r := Insert(x, sorted, smaller); last in r ==> r[|r| - 1] == last
  {
    if sorted != [] && !smaller(x, sorted[0]) {
      DistinctSplit(sorted, 0);
      assert sorted == [sorted[0]] + sorted[1..];
      InsertKeepsLast(x, sorted[1..], smaller, last);
      InsertPermutes(x, sorted[1..], smaller);
      assert x == last ==> last in multiset(Insert(x, sorted[1..], smaller));
    }
  }

  lemma NoDuplicatesFromMultiset<T>(items: seq<T>, other: seq<T>)
    requires multiset(items) == multiset(other)
    requires Distinct(items)
    ensures Distinct(other)
  {
    forall i, j | 0 <= i < j < |other|
      ensures other[i] != other[j]
    {
      if other[i] == other[j] {
        MultiplicityTwo(other, i, j);
        MultiplicityOne(items, other[i]);
      }
    }
  }

  lemma MultiplicityTwo<T>(items: seq<T>, i: nat, j: nat)
    requires i < j < |items| && items[i] == items[j]
    ensures multiset(items)[items[i]] >= 2
  {
    assert items == items[..j] + [items[j]] + items[j + 1..];
    assert items[i] in items[..j];
  }

  lemma {:induction false} MultiplicityOne<T>(items: seq<T>, x: T)
    requires Distinct(items)
    ensures multiset(items)[x] <= 1
  {
    if items != [] {
      var last := |items| - 1;
      assert items == items[..last] + [items[last]];
      DistinctSplit(items, last);
      MultiplicityOne(items[..last], x);
    }
  }

  /** An element the comparator puts after all others ends up last. */
  lemma SortPutsLast<T>(items: seq<T>, smaller: (T, T) -> bool, last: T)
    requires forall y :: y != last ==> smaller(y, last) && !smaller(last, y)
    requires Distinct(items)
    requires last in items
    ensures var r := Sort(items, smaller); r != [] && r[|r| - 1] == last
  {
    SortKeepsLast(items, smaller, last);
    SortPermutes(items, smaller);
    SortElements(items, smaller);
  }

  lemma {:induction false} SortKeepsLast<T>(items: seq<T>, smaller: (T, T) -> bool, last: T)
    requires forall y :: y != last ==> smaller(y, last) && !smaller(last, y)
    requires Distinct(items)
    ensures var r := Sort(items, smaller); last in r ==> r[|r| - 1] == last
  {
    hide Insert, Distinct;
    if items != [] {
      var n := |items| - 1;
      var sorted := Sort(items[..n], smaller);
      DistinctSplit(items, n);
      SortKeepsLast(items[..n], smaller, last);
      SortPermutes(items[..n], smaller);
      NoDuplicatesFromMultiset(items[..n], sorted);
      assert last in sorted ==> last in items[..n] by {
        SortElements(items[..n], smaller);
      }
      InsertKeepsLast(items[n], sorted, smaller, last);
    }
  }

  function Mapped<A, B>(f: A -> B, items: seq<A>): (r: seq<B>)
    ensures |r| == |items|
    ensures forall i :: 0 <= i < |items| ==> r[i] == f(items[i])
  {
    seq(|items|, i requires 0 <= i < |items| => f(items[i]))
  }

  lemma MultisetAround<T>(a: seq<T>, x: T, c: seq<T>)
    ensures multiset(a + [x] + c) == multiset(a + c) + multiset{x}
  {
  }

  lemma MappedConcat<A, B>(f: A -> B, a: seq<A>, b: seq<A>)
    ensures Mapped(f, a + b) == Mapped(f, a) + Mapped(f, b)
  {
  }

  lemma MappedOne<A, B>(f: A -> B, x: A)
    ensures Mapped(f, [x]) == [f(x)]
  {
  }

  lemma MappedRemove<A, B>(f: A -> B, items: seq<A>, k: nat)
    requires k < |items|
    ensures multiset(items) == multiset(items[..k] + items[k + 1..]) + multiset{items[k]}
    ensures multiset(Mapped(f, items)) == multiset(Mapped(f, items[..k] + items[k + 1..])) + multiset{f(items[k])}
  {
    hide Mapped;
    var a, x, c := items[..k], items[k], items[k + 1..];
    assert items == a + [x] + c;
    MultisetAround(a, x, c);
    MappedConcat(f, a + [x], c);
    MappedConcat(f, a, [x]);
    MappedOne(f, x);
    MappedConcat(f, a, c);
    MultisetAround(Mapped(f, a), f(x), Mapped(f, c));
  }

  /** Mapping permuted sequences gives permuted results. */
  lemma {:induction false} MappedPermutes<A, B>(f: A -> B, items: seq<A>, other: seq<A>)
    requires multiset(items) == multiset(other)
    ensures multiset(Mapped(f, items)) == multiset(Mapped(f, other))
  {
    if items == [] {
      assert |multiset(other)| == 0;
      assert other == [];
    } else {
      var last := |items| - 1;
      var x := items[last];
      assert x in multiset(other);
      var k :| 0 <= k < |other| && other[k] == x;
      MappedRemove(f, items, last);
      MappedRemove(f, other, k);
      assert items[..last] + items[last + 1..] == items[..last];
      var rest := other[..k] + other[k + 1..];
      assert multiset(rest) == multiset(other) - multiset{x} == multiset(items[..last]);
      MappedPermutes(f, items[..last], rest);
    }
  }

  // ------------------------------------------------------------ the order of the result

  /** A consistent comparator: a strict weak order. */
  ghost predicate Consistent<T(!new)>(smaller: (T, T) -> bool) {
    && (forall x, y :: smaller(x, y) ==> !smaller(y, x))
    && (forall x, y, z :: smaller(x, z) ==> smaller(x, y) || smaller(y, z))
  }

  /** No element compares as smaller than an earlier one. */
  ghost predicate Ordered<T>(items: seq<T>, smaller: (T, T) -> bool) {
    forall i, j :: 0 <= i < j < |items| ==> !smaller(items[j], items[i])
  }

  lemma OrderedCons<T>(first: T, rest: seq<T>, smaller: (T, T) -> bool)
    requires Ordered(rest, smaller) && forall y :: y in rest ==> !smaller(y, first)
    ensures Ordered([first] + rest, smaller)
  {
    var items := [first] + rest;
    assert forall j :: 0 < j < |items| ==> items[j] == rest[j - 1];
  }

  lemma OrderedTail<T>(items: seq<T>, smaller: (T, T) -> bool)
    requires Ordered(items, smaller) && items != []
    ensures Ordered(items[1..], smaller)
    ensures forall y :: y in items[1..] ==> !smaller(y, items[0])
  {
  }

  lemma {:induction false} InsertOrders<T(!new)>(x: T, sorted: seq<T>, smaller: (T, T) -> bool)
    requires Consistent(smaller) && Ordered(sorted, smaller)
    ensures Ordered(Insert(x, sorted, smaller), smaller)
  {
    hide Ordered;
    if sorted == [] {
      assert Ordered([x], smaller) by { OrderedOne(x, smaller); }
    } else {
      OrderedTail(sorted, smaller);
      var first, rest := sorted[0], sorted[1..];
      assert sorted == [first] + rest;
      if smaller(x, first) {
        forall y | y in sorted ensures !smaller(y, x) {
          assert y == first || y in rest;
        }
        OrderedCons(x, sorted, smaller);
      } else {
        InsertOrders(x, rest, smaller);
        InsertPermutes(x, rest, smaller);
        var inserted := Insert(x, rest, smaller);
        forall y | y in inserted ensures !smaller(y, first) {
          assert y in multiset(inserted);
          assert y == x || y in rest;
        }
        OrderedCons(first, inserted, smaller);
      }
    }
  }

  lemma OrderedOne<T>(x: T, smaller: (T, T) -> bool)
    ensures Ordered([x], smaller) && Ordered<T>([], smaller)
  {
  }

  /** The elements that compare as equal to z, in order. */
  ghost function Ties<T>(items: seq<T>, z: T, smaller: (T, T) -> bool): seq<T> {
    if items == [] then []
    else (if !smaller(items[0], z) && !smaller(z, items[0]) then [items[0]] else []) + Ties(items[1..], z, smaller)
  }

  lemma {:induction false} TiesSnoc<T>(items: seq<T>, x: T, z: T, smaller: (T, T) -> bool)
    ensures Ties(items + [x], z, smaller) ==
      Ties(items, z, smaller) + if !smaller(x, z) && !smaller(z, x) then [x] else []
  {
    if items == [] {
      assert ([] + [x])[1..] == [];
    } else {
      assert (items + [x])[1..] == items[1..] + [x];
      TiesSnoc(items[1..], x, z, smaller);
    }
  }

  lemma {:induction false} NoTies<T>(items: seq<T>, z: T, smaller: (T, T) -> bool)
    requires forall y :: y in items ==> smaller(z, y)
    ensures Ties(items, z, smaller) == []
  {
    if items != [] {
      assert items[0] in items && forall y :: y in items[1..] ==> y in items;
      NoTies(items[1..], z, smaller);
    }
  }

  lemma NoTiesBehind<T(!new)>(x: T, sorted: seq<T>, z: T, smaller: (T, T) -> bool)
    requires Consistent(smaller) && Ordered(sorted, smaller)
    requires sorted != [] && smaller(x, sorted[0]) && !smaller(x, z) && !smaller(z, x)
    ensures Ties(sorted, z, smaller) == []
  {
    assert smaller(z, sorted[0]);
    forall y | y in sorted ensures smaller(z, y) {
      var i :| 0 <= i < |sorted| && sorted[i] == y;
      assert i > 0 ==> !smaller(sorted[i], sorted[0]);
    }
    NoTies(sorted, z, smaller);
  }

  /** An element is inserted behind those it ties with. */
  lemma {:induction false} InsertBehindTies<T(!new)>(x: T, sorted: seq<T>, z: T, smaller: (T, T) -> bool)
    requires Consistent(smaller) && Ordered(sorted, smaller)
    ensures Ties(Insert(x, sorted, smaller), z, smaller) ==
      Ties(sorted, z, smaller) + if !smaller(x, z) && !smaller(z, x) then [x] else []
  {
    hide Consistent, Ordered;
    if sorted != [] {
      OrderedTail(sorted, smaller);
      var first, rest := sorted[0], sorted[1..];
      assert sorted == [first] + rest;
      if smaller(x, first) {
        assert ([x] + sorted)[1..] == sorted;
        if !smaller(x, z) && !smaller(z, x) {
          NoTiesBehind(x, sorted, z, smaller);
        }
      } else {
        InsertBehindTies(x, rest, z, smaller);
        var inserted := Insert(x, rest, smaller);
        assert ([first] + inserted)[1..] == inserted;
      }
    }
  }

  /** With a consistent comparator the result is in order, and elements that compare as
      equal keep the order they came in. */
  lemma {:induction false} SortOrders<T(!new)>(items: seq<T>, smaller: (T, T) -> bool)
    requires Consistent(smaller)
    ensures Ordered(Sort(items, smaller), smaller)
    ensures forall z :: Ties(Sort(items, smaller), z, smaller) == Ties(items, z, smaller)
  {
    hide Consistent, Ordered, Insert, Ties;
    if items == [] {
      NothingOrdered(smaller);
    } else {
      var n := |items| - 1;
      SortOrders(items[..n], smaller);
      InsertOrders(items[n], Sort(items[..n], smaller), smaller);
      assert items == items[..n] + [items[n]];
      forall z ensures Ties(Sort(items, smaller), z, smaller) == Ties(items, z, smaller) {
        InsertBehindTies(items[n], Sort(items[..n], smaller), z, smaller);
        TiesSnoc(items[..n], items[n], z, smaller);
      }
    }
  }

  lemma NothingOrdered<T>(smaller: (T, T) -> bool)
    ensures Ordered<T>([], smaller)
  {
  }
}
