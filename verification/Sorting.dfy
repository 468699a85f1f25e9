/** Sorting by a C comparison function, of which only the sign of the result counts: what g_array_sort,
    g_slist_sort and g_list_insert_sorted promise. */
module Sorting {
  import opened Basics

  /** At least one of two elements may stand before the other. All the comparators of this program have this,
      also those that are no order. */
  ghost predicate Total<T(!new)>(cmp: (T, T) -> int) {
    forall a, b :: cmp(a, b) > 0 ==> cmp(b, a) <= 0
  }

  ghost predicate Transitive<T(!new)>(cmp: (T, T) -> int) {
    forall a, b, c :: cmp(a, b) <= 0 && cmp(b, c) <= 0 ==> cmp(a, c) <= 0
  }

  ghost predicate Preorder<T(!new)>(cmp: (T, T) -> int) {
    && Transitive(cmp)
    && forall a, b :: (cmp(a, b) < 0 <==> cmp(b, a) > 0)
  }

  /** Neighbours do not have to change places. */
  predicate InOrder<T>(cmp: (T, T) -> int, xs: seq<T>) {
    forall i :: 0 < i < |xs| ==> cmp(xs[i - 1], xs[i]) <= 0
  }

  predicate Sorted<T>(cmp: (T, T) -> int, xs: seq<T>) {
    forall i, j :: 0 <= i < j < |xs| ==> cmp(xs[i], xs[j]) <= 0
  }

  predicate Descending<T>(cmp: (T, T) -> int, xs: seq<T>) {
    forall i, j :: 0 <= i < j < |xs| ==> cmp(xs[j], xs[i]) <= 0
  }

  function Insert<T>(cmp: (T, T) -> int, sorted: seq<T>, x: T): seq<T> {
    if sorted == [] || cmp(x, sorted[0]) <= 0 then [x] + sorted
    else [sorted[0]] + Insert(cmp, sorted[1..], x)
  }

  function Sort<T>(cmp: (T, T) -> int, xs: seq<T>): seq<T> {
    if xs == [] then [] else Insert(cmp, Sort(cmp, xs[1..]), xs[0])
  }

  /** Largest first, for the places that prepend to a list, sort it and reverse it. */
  function SortDescending<T>(cmp: (T, T) -> int, xs: seq<T>): seq<T> {
    Reversed(Sort(cmp, Reversed(xs)))
  }

  /** The elements that compare as equal to `v`, in list order. */
  function OfClass<T>(cmp: (T, T) -> int, xs: seq<T>, v: T): seq<T> {
    if xs == [] then [] else (if cmp(xs[0], v) == 0 then [xs[0]] else []) + OfClass(cmp, xs[1..], v)
  }

  /** Inserting one after the other sorts as well, the latest first among equals. */
  lemma InsertIsSort<T>(cmp: (T, T) -> int, xs: seq<T>, x: T)
    ensures Insert(cmp, Sort(cmp, Reversed(xs)), x) == Sort(cmp, Reversed(xs + [x]))
  {
    assert Reversed(xs + [x]) == [x] + Reversed(xs);
    assert ([x] + Reversed(xs))[1..] == Reversed(xs);
  }

  // ---------------------------------------------------------------- the same elements

  lemma {:induction false} InsertAdds<T>(cmp: (T, T) -> int, sorted: seq<T>, x: T)
    ensures multiset(Insert(cmp, sorted, x)) == multiset(sorted) + multiset{x}
  {
    if sorted != [] && cmp(x, sorted[0]) > 0 {
      InsertAdds(cmp, sorted[1..], x);
      assert sorted == [sorted[0]] + sorted[1..];
    }
  }

  lemma {:induction false} SortKeeps<T>(cmp: (T, T) -> int, xs: seq<T>)
    ensures multiset(Sort(cmp, xs)) == multiset(xs)
    ensures |Sort(cmp, xs)| == |xs|
  {
    if xs != [] {
      SortKeeps(cmp, xs[1..]);
      InsertAdds(cmp, Sort(cmp, xs[1..]), xs[0]);
      assert xs == [xs[0]] + xs[1..];
    }
    assert |multiset(Sort(cmp, xs))| == |multiset(xs)|;
  }

  // ---------------------------------------------------------------- order

  lemma {:induction false} InsertKeepsInOrder<T(!new)>(cmp: (T, T) -> int, sorted: seq<T>, x: T)
    requires Total(cmp) && InOrder(cmp, sorted)
    ensures InOrder(cmp, Insert(cmp, sorted, x))
    ensures Insert(cmp, sorted, x) != []
    ensures sorted != [] && cmp(x, sorted[0]) > 0 ==> Insert(cmp, sorted, x)[0] == sorted[0]
  {
    if sorted != [] && cmp(x, sorted[0]) > 0 {
      var rest := Insert(cmp, sorted[1..], x);
      InsertKeepsInOrder(cmp, sorted[1..], x);
      assert cmp(sorted[0], rest[0]) <= 0;
      assert InOrder(cmp, [sorted[0]] + rest);
    }
  }

  /** Whatever the comparator, no two neighbours of the sorted list are out of order. */
  lemma {:induction false} SortPutsInOrder<T(!new)>(cmp: (T, T) -> int, xs: seq<T>)
    requires Total(cmp)
    ensures InOrder(cmp, Sort(cmp, xs))
  {
    if xs != [] {
      SortPutsInOrder(cmp, xs[1..]);
      InsertKeepsInOrder(cmp, Sort(cmp, xs[1..]), xs[0]);
    }
  }

  lemma {:induction false} InOrderUpTo<T(!new)>(cmp: (T, T) -> int, xs: seq<T>, i: nat, j: nat)
    requires Transitive(cmp) && InOrder(cmp, xs) && i < j < |xs|
    ensures cmp(xs[i], xs[j]) <= 0
  {
    if i < j - 1 {
      InOrderUpTo(cmp, xs, i, j - 1);
    }
  }

  lemma InOrderIsSorted<T(!new)>(cmp: (T, T) -> int, xs: seq<T>)
    requires Transitive(cmp)
    ensures InOrder(cmp, xs) <==> Sorted(cmp, xs)
  {
    if InOrder(cmp, xs) {
      forall i, j | 0 <= i < j < |xs|
        ensures cmp(xs[i], xs[j]) <= 0
      {
        InOrderUpTo(cmp, xs, i, j);
      }
    }
  }

  /** A sorted list of the same elements. */
  lemma SortSorts<T(!new)>(cmp: (T, T) -> int, xs: seq<T>)
    requires Preorder(cmp)
    ensures Sorted(cmp, Sort(cmp, xs))
    ensures multiset(Sort(cmp, xs)) == multiset(xs)
  {
    SortKeeps(cmp, xs);
    SortPutsInOrder(cmp, xs);
    InOrderIsSorted(cmp, Sort(cmp, xs));
  }

  // ---------------------------------------------------------------- stability

  lemma OfClassFirst<T>(cmp: (T, T) -> int, x: T, xs: seq<T>, v: T)
    ensures OfClass(cmp, [x] + xs, v) == (if cmp(x, v) == 0 then [x] else []) + OfClass(cmp, xs, v)
  {
    assert ([x] + xs)[1..] == xs;
  }

  lemma {:induction false} OfClassLast<T>(cmp: (T, T) -> int, xs: seq<T>, x: T, v: T)
    ensures OfClass(cmp, xs + [x], v) == OfClass(cmp, xs, v) + if cmp(x, v) == 0 then [x] else []
  {
    if xs == [] {
      assert [] + [x] == [x] + [];
      OfClassFirst(cmp, x, [], v);
    } else {
      OfClassLast(cmp, xs[1..], x, v);
      OfClassFirst(cmp, xs[0], xs[1..] + [x], v);
      assert xs + [x] == [xs[0]] + (xs[1..] + [x]);
    }
  }

  lemma NotBothEqual<T(!new)>(cmp: (T, T) -> int, a: T, b: T, v: T)
    requires Preorder(cmp) && cmp(a, b) > 0
    ensures cmp(a, v) != 0 || cmp(b, v) != 0
  {
    assert cmp(a, v) <= 0 && cmp(v, b) <= 0 ==> cmp(a, b) <= 0;
  }

  lemma {:induction false} InsertOfClass<T(!new)>(cmp: (T, T) -> int, sorted: seq<T>, x: T, v: T)
    requires Preorder(cmp)
    ensures OfClass(cmp, Insert(cmp, sorted, x), v)
      == (if cmp(x, v) == 0 then [x] else []) + OfClass(cmp, sorted, v)
  {
    if sorted == [] || cmp(x, sorted[0]) <= 0 {
      OfClassFirst(cmp, x, sorted, v);
    } else {
      InsertOfClass(cmp, sorted[1..], x, v);
      OfClassFirst(cmp, sorted[0], Insert(cmp, sorted[1..], x), v);
      NotBothEqual(cmp, x, sorted[0], v);
    }
  }

  /** Elements that compare as equal keep their order. */
  lemma {:induction false} SortIsStable<T(!new)>(cmp: (T, T) -> int, xs: seq<T>, v: T)
    requires Preorder(cmp)
    ensures OfClass(cmp, Sort(cmp, xs), v) == OfClass(cmp, xs, v)
  {
    if xs != [] {
      SortIsStable(cmp, xs[1..], v);
      InsertOfClass(cmp, Sort(cmp, xs[1..]), xs[0], v);
    }
  }

  /** A stable sort, smallest first. */
  ghost predicate IsStableSort<T(!new)>(cmp: (T, T) -> int, sorted: seq<T>, xs: seq<T>) {
    && Sorted(cmp, sorted)
    && multiset(sorted) == multiset(xs)
    && forall v :: OfClass(cmp, sorted, v) == OfClass(cmp, xs, v)
  }

  lemma SortIsStableSort<T(!new)>(cmp: (T, T) -> int, xs: seq<T>)
    requires Preorder(cmp)
    ensures IsStableSort(cmp, Sort(cmp, xs), xs)
  {
    SortSorts(cmp, xs);
    forall v
      ensures OfClass(cmp, Sort(cmp, xs), v) == OfClass(cmp, xs, v)
    {
      SortIsStable(cmp, xs, v);
    }
  }

  lemma {:induction false} OfClassReversed<T>(cmp: (T, T) -> int, xs: seq<T>, v: T)
    ensures OfClass(cmp, Reversed(xs), v) == Reversed(OfClass(cmp, xs, v))
  {
    if xs != [] {
      OfClassReversed(cmp, xs[1..], v);
      OfClassLast(cmp, Reversed(xs[1..]), xs[0], v);
      assert Reversed(xs) == Reversed(xs[1..]) + [xs[0]];
    }
  }

  /** A stable sort, largest first. */
  ghost predicate IsStableDescending<T(!new)>(cmp: (T, T) -> int, sorted: seq<T>, xs: seq<T>) {
    && Descending(cmp, sorted)
    && multiset(sorted) == multiset(xs)
    && forall v :: OfClass(cmp, sorted, v) == OfClass(cmp, xs, v)
  }

  lemma SortDescendingIsStable<T(!new)>(cmp: (T, T) -> int, xs: seq<T>, v: T)
    requires Preorder(cmp)
    ensures OfClass(cmp, SortDescending(cmp, xs), v) == OfClass(cmp, xs, v)
  {
    SortIsStable(cmp, Reversed(xs), v);
    OfClassReversed(cmp, xs, v);
    OfClassReversed(cmp, Sort(cmp, Reversed(xs)), v);
    ReversedTwice(OfClass(cmp, xs, v));
  }

  lemma ReversedTwice<T>(xs: seq<T>)
    ensures Reversed(Reversed(xs)) == xs
  {
  }

  lemma ReversedIsDescending<T>(cmp: (T, T) -> int, xs: seq<T>)
    requires Sorted(cmp, xs)
    ensures Descending(cmp, Reversed(xs))
  {
  }

  lemma SortDescendingSorts<T(!new)>(cmp: (T, T) -> int, xs: seq<T>)
    requires Preorder(cmp)
    ensures IsStableDescending(cmp, SortDescending(cmp, xs), xs)
  {
    SortSorts(cmp, Reversed(xs));
    ReversedKeeps(xs);
    ReversedKeeps(Sort(cmp, Reversed(xs)));
    ReversedIsDescending(cmp, Sort(cmp, Reversed(xs)));
    forall v
      ensures OfClass(cmp, SortDescending(cmp, xs), v) == OfClass(cmp, xs, v)
    {
      SortDescendingIsStable(cmp, xs, v);
    }
  }

  lemma {:induction false} ReversedKeeps<T>(xs: seq<T>)
    ensures multiset(Reversed(xs)) == multiset(xs)
  {
    if xs != [] {
      ReversedKeeps(xs[1..]);
      assert Reversed(xs) == Reversed(xs[1..]) + [xs[0]];
      assert xs == [xs[0]] + xs[1..];
    }
  }

  // ---------------------------------------------------------------- uniqueness

  /** No two different elements of the list compare as equal. */
  predicate Distinguishes<T(==)>(cmp: (T, T) -> int, xs: seq<T>) {
    forall i, j :: 0 <= i < |xs| && 0 <= j < |xs| && cmp(xs[i], xs[j]) == 0 ==> xs[i] == xs[j]
  }

  lemma HeadIsSmallest<T(!new)>(cmp: (T, T) -> int, xs: seq<T>, x: T)
    requires Preorder(cmp) && Sorted(cmp, xs) && x in multiset(xs)
    ensures xs != [] && cmp(xs[0], x) <= 0
  {
    assert x in xs;
  }

  lemma HeadsAgree<T(!new)>(cmp: (T, T) -> int, xs: seq<T>, ys: seq<T>)
    requires Preorder(cmp) && Sorted(cmp, xs) && Sorted(cmp, ys) && Distinguishes(cmp, xs)
    requires multiset(xs) == multiset(ys) && xs != [] && ys != []
    ensures xs[0] == ys[0]
  {
    assert xs[0] in multiset(xs) && ys[0] in multiset(ys);
    HeadIsSmallest(cmp, xs, ys[0]);
    HeadIsSmallest(cmp, ys, xs[0]);
    assert ys[0] in xs;
  }

  /** Two sorted lists of the same elements are the same list, however they were sorted. */
  lemma {:induction false} SortedIsUnique<T(!new)>(cmp: (T, T) -> int, xs: seq<T>, ys: seq<T>)
    requires Preorder(cmp) && Sorted(cmp, xs) && Sorted(cmp, ys) && Distinguishes(cmp, xs)
    requires multiset(xs) == multiset(ys)
    ensures xs == ys
  {
    SameLength(xs, ys);
    if xs != [] {
      TailsAgree(cmp, xs, ys);
      SortedIsUnique(cmp, xs[1..], ys[1..]);
      assert xs == [xs[0]] + xs[1..] && ys == [ys[0]] + ys[1..];
    }
  }

  lemma TailsAgree<T(!new)>(cmp: (T, T) -> int, xs: seq<T>, ys: seq<T>)
    requires Preorder(cmp) && Sorted(cmp, xs) && Sorted(cmp, ys) && Distinguishes(cmp, xs)
    requires multiset(xs) == multiset(ys) && xs != [] && ys != []
    ensures xs[0] == ys[0] && multiset(xs[1..]) == multiset(ys[1..])
    ensures Sorted(cmp, xs[1..]) && Sorted(cmp, ys[1..]) && Distinguishes(cmp, xs[1..])
  {
    HeadsAgree(cmp, xs, ys);
    WithoutHead(xs);
    WithoutHead(ys);
    TailStaysSorted(cmp, xs);
    TailStaysSorted(cmp, ys);
  }

  lemma TailStaysSorted<T>(cmp: (T, T) -> int, xs: seq<T>)
    requires xs != [] && Sorted(cmp, xs)
    ensures Sorted(cmp, xs[1..])
    ensures Distinguishes(cmp, xs) ==> Distinguishes(cmp, xs[1..])
  {
  }

  lemma WithoutHead<T>(xs: seq<T>)
    requires xs != []
    ensures multiset(xs[1..]) == multiset(xs) - multiset{xs[0]}
  {
    assert xs == [xs[0]] + xs[1..];
  }

  lemma SameMembers<T>(xs: seq<T>, ys: seq<T>)
    requires multiset(xs) == multiset(ys)
    ensures |xs| == |ys| && forall x :: x in xs <==> x in ys
  {
    SameLength(xs, ys);
    forall x
      ensures x in xs <==> x in ys
    {
      assert x in xs <==> x in multiset(xs);
      assert x in ys <==> x in multiset(ys);
    }
  }

  lemma SameLength<T>(xs: seq<T>, ys: seq<T>)
    requires multiset(xs) == multiset(ys)
    ensures |xs| == |ys|
  {
    assert |multiset(xs)| == |xs| && |multiset(ys)| == |ys|;
  }

  // ---------------------------------------------------------------- duplicates

  lemma TwiceMeansDuplicate<T>(xs: seq<T>, i: nat, j: nat)
    requires i < j < |xs| && xs[i] == xs[j]
    ensures multiset(xs)[xs[i]] >= 2
  {
    assert xs == xs[..j] + [xs[j]] + xs[j + 1..];
    assert xs[..j][i] == xs[i];
    assert xs[i] in multiset(xs[..j]);
  }

  lemma {:induction false} NoDuplicatesCount<T>(xs: seq<T>, x: T)
    requires NoDuplicates(xs)
    ensures multiset(xs)[x] <= 1
  {
    if xs != [] {
      NoDuplicatesCount(xs[1..], x);
      assert xs == [xs[0]] + xs[1..];
      if x == xs[0] {
        assert forall i :: 0 <= i < |xs[1..]| ==> xs[1..][i] == xs[i + 1] != x;
      }
    }
  }

  lemma PermutationKeepsNoDuplicates<T>(xs: seq<T>, ys: seq<T>)
    requires multiset(xs) == multiset(ys) && NoDuplicates(xs)
    ensures NoDuplicates(ys)
  {
    forall i, j | 0 <= i < j < |ys|
      ensures ys[i] != ys[j]
    {
      if ys[i] == ys[j] {
        TwiceMeansDuplicate(ys, i, j);
        NoDuplicatesCount(xs, ys[i]);
      }
    }
  }
}
