/**
 * The ordering contract shared by every sort of SplFixedArraySort.
 *
 * A comparator is a three-way function: cmp(x, y) < 0 when x sorts before y,
 * > 0 when it sorts after, 0 when the two tie. The sorts only ever look at the
 * sign of the result, so the contract is stated on signs. The user-supplied
 * callable of the source becomes a parameter of arrow type; `Comparison` is the
 * default comparator, here over integers.
 */
module Ordering {

  /** Swapping the arguments flips the sign of the comparison. */
  ghost predicate Flips<T>(cmp: (T, T) -> int, x: T, y: T) {
    cmp(x, y) < 0 <==> cmp(y, x) > 0
  }

  /** "Does not sort after" chains. */
  ghost predicate Chains<T>(cmp: (T, T) -> int, x: T, y: T, z: T) {
    cmp(x, y) <= 0 && cmp(y, z) <= 0 ==> cmp(x, z) <= 0
  }

  /** The comparator is consistent: the sign flips when the arguments are
      swapped, and "does not sort after" is transitive. Reflexivity and totality
      follow (see PreorderFacts). The two quantifiers are stated over Flips and
      Chains so that they are used only where a proof asks for them, through
      PreorderFacts and LeTrans. */
  ghost predicate IsTotalPreorder<T(!new)>(cmp: (T, T) -> int) {
    && (forall x, y :: Flips(cmp, x, y))
    && (forall x, y, z :: Chains(cmp, x, y, z))
  }

  /** Only identical values tie. */
  ghost predicate Separates<T>(cmp: (T, T) -> int, x: T, y: T) {
    cmp(x, y) == 0 ==> x == y
  }

  /** A total order: a preorder in which only identical values tie. */
  ghost predicate IsTotalOrder<T(!new)>(cmp: (T, T) -> int) {
    && IsTotalPreorder(cmp)
    && (forall x, y :: Separates(cmp, x, y))
  }

  /** s is non-decreasing under cmp. */
  ghost predicate Sorted<T>(cmp: (T, T) -> int, s: seq<T>) {
    forall i, j :: 0 <= i < j < |s| ==> cmp(s[i], s[j]) <= 0
  }

  /** r is a sorted rearrangement of s: what any correct sort must produce. */
  ghost predicate IsSortingOf<T>(cmp: (T, T) -> int, r: seq<T>, s: seq<T>) {
    Sorted(cmp, r) && multiset(r) == multiset(s)
  }

  lemma PreorderFacts<T(!new)>(cmp: (T, T) -> int, x: T, y: T)
    requires IsTotalPreorder(cmp)
    ensures cmp(x, x) == 0
    ensures cmp(x, y) <= 0 || cmp(y, x) <= 0
    ensures cmp(x, y) == 0 ==> cmp(y, x) == 0
    ensures cmp(x, y) > 0 ==> cmp(y, x) < 0
    ensures cmp(x, y) < 0 ==> cmp(y, x) > 0
  {
    assert Flips(cmp, x, x) && Flips(cmp, x, y) && Flips(cmp, y, x);
  }

  lemma LeTrans<T(!new)>(cmp: (T, T) -> int, x: T, y: T, z: T)
    requires IsTotalPreorder(cmp)
    requires cmp(x, y) <= 0 && cmp(y, z) <= 0
    ensures cmp(x, z) <= 0
  {
    assert Chains(cmp, x, y, z);
  }

  /**
   * The default comparator: -1, 1 or 0 from `<` and `>`.
   */
  function Comparison(x: int, y: int): (r: int)
    ensures r < 0 <==> x < y
    ensures r > 0 <==> x > y
    ensures r == 0 <==> x == y
    ensures -1 <= r <= 1
  {
    if x < y then -1
    else if x > y then 1
    else 0
  }

  /** The descending comparator used by the source's tests. */
  function Descending(x: int, y: int): (r: int)
    ensures r < 0 <==> x > y
    ensures r > 0 <==> x < y
    ensures -1 <= r <= 1
  {
    if x > y then -1
    else if x < y then 1
    else 0
  }

  lemma ComparisonIsTotalOrder()
    ensures IsTotalOrder(Comparison)
  {
  }

  lemma DescendingIsTotalOrder()
    ensures IsTotalOrder(Descending)
  {
  }

  /** Sorted by Comparison is the usual ascending order on integers. */
  lemma SortedByComparison(s: seq<int>)
    ensures Sorted(Comparison, s) <==> forall i, j :: 0 <= i < j < |s| ==> s[i] <= s[j]
  {
  }

  /**
   * Any two sorted rearrangements of the same values agree exactly when the
   * comparator is a total order. So every correct sort of this library gives
   * the same array as the host's built-in sort does for such a comparator.
   */
  lemma {:induction false} SortedPermutationUnique<T(!new)>(cmp: (T, T) -> int, r1: seq<T>, r2: seq<T>)
    requires IsTotalOrder(cmp)
    requires Sorted(cmp, r1) && Sorted(cmp, r2)
    requires multiset(r1) == multiset(r2)
    ensures r1 == r2
    decreases |r1|
  {
    if r1 == [] {
      assert |multiset(r2)| == 0;
    } else {
      assert r2 != [] by {
        assert |multiset(r2)| == |r1|;
      }
      SortedHeadsAgree(cmp, r1, r2);
      MultisetOfTails(r1, r2);
      SortedPermutationUnique(cmp, r1[1..], r2[1..]);
      assert r1 == [r1[0]] + r1[1..];
      assert r2 == [r2[0]] + r2[1..];
    }
  }

  /** Two sorted rearrangements of the same values start with the same element. */
  lemma SortedHeadsAgree<T(!new)>(cmp: (T, T) -> int, r1: seq<T>, r2: seq<T>)
    requires IsTotalOrder(cmp)
    requires Sorted(cmp, r1) && Sorted(cmp, r2)
    requires multiset(r1) == multiset(r2)
    requires r1 != [] && r2 != []
    ensures r1[0] == r2[0]
  {
    var k := IndexOf(r2, r1[0]);
    var l := IndexOf(r1, r2[0]);
    assert cmp(r1[0], r2[0]) <= 0 by {
      if l != 0 {
        assert cmp(r1[0], r1[l]) <= 0;
      } else {
        PreorderFacts(cmp, r1[0], r1[0]);
      }
    }
    assert cmp(r2[0], r1[0]) <= 0 by {
      if k != 0 {
        assert cmp(r2[0], r2[k]) <= 0;
      } else {
        PreorderFacts(cmp, r2[0], r2[0]);
      }
    }
    PreorderFacts(cmp, r1[0], r2[0]);
    assert Separates(cmp, r1[0], r2[0]);
  }

  /** Some position of s holds x, when x occurs in s. */
  lemma IndexOf<T>(s: seq<T>, x: T) returns (k: int)
    requires x in multiset(s)
    ensures 0 <= k < |s| && s[k] == x
  {
    assert x in s;
    k :| 0 <= k < |s| && s[k] == x;
  }

  lemma MultisetOfTails<T>(r1: seq<T>, r2: seq<T>)
    requires r1 != [] && r2 != [] && r1[0] == r2[0]
    requires multiset(r1) == multiset(r2)
    ensures multiset(r1[1..]) == multiset(r2[1..])
  {
    assert r1 == [r1[0]] + r1[1..];
    assert r2 == [r2[0]] + r2[1..];
    assert multiset(r1[1..]) == multiset(r1) - multiset{r1[0]};
    assert multiset(r2[1..]) == multiset(r2) - multiset{r2[0]};
  }

  /**
   * The elements of s that tie with x, in their order in s. A sort is stable
   * when this sequence is the same before and after, for every x.
   */
  function Ties<T>(cmp: (T, T) -> int, s: seq<T>, x: T): (r: seq<T>)
    ensures |r| <= |s|
    decreases |s|
  {
    if s == [] then []
    else Ties(cmp, s[..|s| - 1], x) + (if cmp(s[|s| - 1], x) == 0 then [s[|s| - 1]] else [])
  }

  lemma {:induction false} TiesAppend<T>(cmp: (T, T) -> int, s: seq<T>, t: seq<T>, x: T)
    ensures Ties(cmp, s + t, x) == Ties(cmp, s, x) + Ties(cmp, t, x)
    decreases |t|
  {
    if t == [] {
      assert s + t == s;
    } else {
      var t' := t[..|t| - 1];
      assert (s + t)[..|s + t| - 1] == s + t';
      TiesAppend(cmp, s, t', x);
    }
  }

  /** Stable: the tie-classes keep their order. */
  ghost predicate SameTies<T(!new)>(cmp: (T, T) -> int, r: seq<T>, s: seq<T>) {
    forall x :: Ties(cmp, r, x) == Ties(cmp, s, x)
  }
}
