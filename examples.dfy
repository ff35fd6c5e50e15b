/**
 * Concrete runs of the sorts on the inputs and expectations of the library's
 * test suite (tests/SplCollectionsSort/SplFixedArraySortTest.php), each proved
 * from the sorts' contracts rather than by evaluation: a sorted rearrangement
 * under a total order is unique (Ordering.SortedPermutationUnique), so the
 * contract fixes the output.
 */
module Examples {
  import opened Ordering
  import Insertion
  import Quick
  import Merging

  /** Under a total order a sorted rearrangement is determined by its values. */
  lemma SortsTo<T(!new)>(cmp: (T, T) -> int, r: seq<T>, s: seq<T>, expected: seq<T>, m: multiset<T>)
    requires IsTotalOrder(cmp)
    requires IsSortingOf(cmp, r, s)
    requires Sorted(cmp, expected) && multiset(s) == m && multiset(expected) == m
    ensures r == expected
  {
    SortedPermutationUnique(cmp, r, expected);
  }

  /** Insertion sort restricted to [2, 6] sorts that window and leaves the rest untouched. */
  method PartialInsertionSort() returns (r: seq<int>)
    ensures r == [18, -64, -77, 11, 62, 72, 94, 38, -46, -8]
  {
    var a := new int[] [18, -64, 94, 72, -77, 11, 62, 38, -46, -8];
    ghost var s0 := a[..];
    assert s0 == [18, -64, 94, 72, -77, 11, 62, 38, -46, -8];
    Insertion.InsertionSort(a, Comparison, 2, 6);
    WindowFacts(s0);
    WindowSorted();
    SortsTo(Comparison, a[2..7], s0[2..7], [-77, 11, 62, 72, 94], multiset{-77, 11, 62, 72, 94});
    r := a[..];
    WindowSplice(s0, r);
  }

  lemma WindowFacts(s: seq<int>)
    requires s == [18, -64, 94, 72, -77, 11, 62, 38, -46, -8]
    ensures multiset(s[2..7]) == multiset{-77, 11, 62, 72, 94}
  {
    assert s[2..7] == [s[2], s[3], s[4], s[5], s[6]];
  }

  lemma WindowSorted()
    ensures IsTotalOrder(Comparison)
    ensures Sorted(Comparison, [-77, 11, 62, 72, 94])
    ensures multiset([-77, 11, 62, 72, 94]) == multiset{-77, 11, 62, 72, 94}
  {
    ComparisonIsTotalOrder();
  }

  lemma WindowSplice(s: seq<int>, r: seq<int>)
    requires s == [18, -64, 94, 72, -77, 11, 62, 38, -46, -8]
    requires |r| == |s| && r[..2] == s[..2] && r[7..] == s[7..]
    requires r[2..7] == [-77, 11, 62, 72, 94]
    ensures r == [18, -64, -77, 11, 62, 72, 94, 38, -46, -8]
  {
    assert r == r[..2] + r[2..7] + r[7..];
  }

  /** Descending order, the comparator of the test suite, on [2, 4, 6, 3, 8, 1]. */
  lemma DescendingFacts(s: seq<int>)
    requires s == [2, 4, 6, 3, 8, 1]
    ensures multiset(s) == multiset{8, 6, 4, 3, 2, 1}
  {
  }

  lemma DescendingSorted()
    ensures IsTotalOrder(Descending)
    ensures Sorted(Descending, [8, 6, 4, 3, 2, 1])
    ensures multiset([8, 6, 4, 3, 2, 1]) == multiset{8, 6, 4, 3, 2, 1}
  {
    DescendingIsTotalOrder();
  }

  method DescendingQuickSort() returns (r: seq<int>)
    ensures r == [8, 6, 4, 3, 2, 1]
  {
    var a := new int[] [2, 4, 6, 3, 8, 1];
    ghost var s0 := a[..];
    assert s0 == [2, 4, 6, 3, 8, 1];
    Quick.QuickSort(a, Descending);
    DescendingFacts(s0);
    DescendingSorted();
    SortsTo(Descending, a[..], s0, [8, 6, 4, 3, 2, 1], multiset{8, 6, 4, 3, 2, 1});
    r := a[..];
  }

  method DescendingMergeSort() returns (r: seq<int>)
    ensures r == [8, 6, 4, 3, 2, 1]
  {
    var a := new int[] [2, 4, 6, 3, 8, 1];
    ghost var s0 := a[..];
    assert s0 == [2, 4, 6, 3, 8, 1];
    DescendingFacts(s0);
    DescendingSorted();
    Merging.MergeSort(a, Descending);
    SortsTo(Descending, a[..], s0, [8, 6, 4, 3, 2, 1], multiset{8, 6, 4, 3, 2, 1});
    r := a[..];
  }

  method DescendingInsertionSort() returns (r: seq<int>)
    ensures r == [8, 6, 4, 3, 2, 1]
  {
    var a := new int[] [2, 4, 6, 3, 8, 1];
    ghost var s0 := a[..];
    assert s0 == [2, 4, 6, 3, 8, 1];
    Insertion.InsertionSort(a, Descending);
    r := a[..];
    DescendingWhole(s0, r);
  }

  lemma DescendingWhole(s: seq<int>, r: seq<int>)
    requires s == [2, 4, 6, 3, 8, 1] && |r| == 6
    requires IsTotalPreorder(Descending) ==> IsSortingOf(Descending, r[0..6], s[0..6])
    ensures r == [8, 6, 4, 3, 2, 1]
  {
    DescendingIsTotalOrder();
    assert r[0..6] == r && s[0..6] == s;
    DescendingFacts(s);
    DescendingSorted();
    SortsTo(Descending, r, s, [8, 6, 4, 3, 2, 1], multiset{8, 6, 4, 3, 2, 1});
  }

  /**
   * Quick sort on seven elements, more than the insertion-sort threshold, so
   * the partition path is taken; the result is what the host's own sort gives.
   */
  method AscendingQuickSort() returns (r: seq<int>)
    ensures r == [0, 1, 3, 4, 5, 6, 8]
  {
    var a := new int[] [5, 3, 8, 6, 1, 0, 4];
    ghost var s0 := a[..];
    assert s0 == [5, 3, 8, 6, 1, 0, 4];
    Quick.QuickSort(a, Comparison);
    AscendingFacts(s0);
    AscendingSorted();
    SortsTo(Comparison, a[..], s0, [0, 1, 3, 4, 5, 6, 8], multiset{0, 1, 3, 4, 5, 6, 8});
    r := a[..];
  }

  lemma AscendingFacts(s: seq<int>)
    requires s == [5, 3, 8, 6, 1, 0, 4]
    ensures multiset(s) == multiset{0, 1, 3, 4, 5, 6, 8}
  {
  }

  lemma AscendingSorted()
    ensures IsTotalOrder(Comparison)
    ensures Sorted(Comparison, [0, 1, 3, 4, 5, 6, 8])
    ensures multiset([0, 1, 3, 4, 5, 6, 8]) == multiset{0, 1, 3, 4, 5, 6, 8}
  {
    ComparisonIsTotalOrder();
  }

  /** Compares non-negative integers by their tens digit and up: 10 and 11 tie. */
  function ByTens(x: int, y: int): (r: int)
    ensures r == 0 <==> x / 10 == y / 10
    ensures r < 0 <==> x / 10 < y / 10
  {
    Comparison(x / 10, y / 10)
  }

  lemma ByTensIsTotalPreorder()
    ensures IsTotalPreorder(ByTens)
  {
  }

  /**
   * For two elements, merge sort performs exactly one merge, of [0, 0] with
   * [1, 1]. With 10 and 11 tied, that merge puts 11 first: equal elements do
   * not keep their order.
   */
  method MergeOfTwoTies() returns (r: seq<int>)
    ensures r == [11, 10]
    ensures Ties(ByTens, r, 10) != Ties(ByTens, [10, 11], 10)
  {
    var a := new int[] [10, 11];
    var temp := new int[2];
    ghost var s0 := a[..];
    assert s0 == [10, 11];
    Merging.MergeSortMerge(a, temp, 0, 0, 1, ByTens);
    r := a[..];
    MergeOfTiesFacts(s0, r);
  }

  lemma MergeOfTiesFacts(s: seq<int>, r: seq<int>)
    requires s == [10, 11]
    requires r == s[..0] + Merging.Merge(ByTens, s[0..1], s[1..2]) + s[2..]
    ensures r == [11, 10]
    ensures Ties(ByTens, r, 10) != Ties(ByTens, [10, 11], 10)
  {
    assert s[0..1] == [10] && s[1..2] == [11];
    MergeTenEleven();
    assert r == [11, 10];
    TiesOfTwo(r);
    TiesOfTwo([10, 11]);
  }

  lemma MergeTenEleven()
    ensures Merging.Merge(ByTens, [10], [11]) == [11, 10]
  {
    assert Merging.Merge(ByTens, [10], [11]) == [11] + Merging.Merge(ByTens, [10], []);
  }

  /** A two-element sequence of values that tie with 10 is its own tie-class. */
  lemma TiesOfTwo(s: seq<int>)
    requires |s| == 2 && s[0] / 10 == 1 && s[1] / 10 == 1
    ensures Ties(ByTens, s, 10) == s
  {
    assert s[..1][..0] == [];
    assert s[..2][..1] == s[..1];
    assert s[..2] == s;
  }

  /** Insertion sort, by contrast, keeps tied elements in their order. */
  method InsertionOfTwoTies() returns (r: seq<int>)
    ensures r == [10, 11]
  {
    var a := new int[] [10, 11];
    ghost var s0 := a[..];
    assert s0 == [10, 11];
    Insertion.InsertionSort(a, ByTens);
    ByTensIsTotalPreorder();
    assert a[0..2] == a[..] && s0[0..2] == s0;
    r := a[..];
    StableOfTwoTies(s0, r);
  }

  lemma StableOfTwoTies(s: seq<int>, r: seq<int>)
    requires s == [10, 11]
    requires multiset(r) == multiset(s) && SameTies(ByTens, r, s)
    ensures r == [10, 11]
  {
    assert |r| == 2 by {
      assert |multiset(r)| == |multiset(s)|;
    }
    assert r[0] in multiset(s) && r[1] in multiset(s);
    assert Ties(ByTens, r, 10) == Ties(ByTens, s, 10);
    TiesOfTwo(s);
    TiesOfTwo(r);
  }
}
