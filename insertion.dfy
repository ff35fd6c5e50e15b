/**
 * insertionSort of SplFixedArraySort: sorts the closed range [lo, hi] of the
 * buffer in place. Each element in turn is lifted out and the elements before
 * it that compare strictly greater are shifted one place right, so it lands
 * after every earlier element that does not sort after it.
 *
 * `Insert` and `InsertionSorted` give the same result as values; the method is
 * proved to produce exactly `InsertionSorted` of the range, and sortedness,
 * permutation and stability are proved about that function.
 */
module Insertion {
  import opened Ordering
  import opened Ranges

  /** x placed into s after the last element that does not compare greater than it. */
  function Insert<T>(cmp: (T, T) -> int, s: seq<T>, x: T): (r: seq<T>)
    ensures |r| == |s| + 1
    decreases |s|
  {
    if s == [] then [x]
    else if cmp(s[|s| - 1], x) > 0 then Insert(cmp, s[..|s| - 1], x) + [s[|s| - 1]]
    else s + [x]
  }

  /** The result of inserting the elements of s one by one, left to right. */
  function InsertionSorted<T>(cmp: (T, T) -> int, s: seq<T>): (r: seq<T>)
    ensures |r| == |s|
    decreases |s|
  {
    if s == [] then []
    else Insert(cmp, InsertionSorted(cmp, s[..|s| - 1]), s[|s| - 1])
  }

  lemma {:induction false} InsertPermutes<T>(cmp: (T, T) -> int, s: seq<T>, x: T)
    ensures multiset(Insert(cmp, s, x)) == multiset(s) + multiset{x}
    decreases |s|
  {
    if s != [] && cmp(s[|s| - 1], x) > 0 {
      InsertPermutes(cmp, s[..|s| - 1], x);
      assert s == s[..|s| - 1] + [s[|s| - 1]];
    }
  }

  /** The reference result is a rearrangement of its input. */
  lemma {:induction false} InsertionSortedPermutes<T>(cmp: (T, T) -> int, s: seq<T>)
    ensures multiset(InsertionSorted(cmp, s)) == multiset(s)
    decreases |s|
  {
    if s != [] {
      InsertionSortedPermutes(cmp, s[..|s| - 1]);
      InsertPermutes(cmp, InsertionSorted(cmp, s[..|s| - 1]), s[|s| - 1]);
      assert s == s[..|s| - 1] + [s[|s| - 1]];
    }
  }

  lemma {:induction false} InsertKeepsSorted<T(!new)>(cmp: (T, T) -> int, s: seq<T>, x: T)
    requires IsTotalPreorder(cmp)
    requires Sorted(cmp, s)
    ensures Sorted(cmp, Insert(cmp, s, x))
    decreases |s|
  {
    if s == [] {
    } else if cmp(s[|s| - 1], x) > 0 {
      var last := s[|s| - 1];
      var s' := s[..|s| - 1];
      InsertKeepsSorted(cmp, s', x);
      var r := Insert(cmp, s', x);
      InsertPermutes(cmp, s', x);
      forall e | e in r
        ensures cmp(e, last) <= 0
      {
        assert e in multiset(r);
        assert e in multiset(s') + multiset{x};
        if e in s' {
          var k :| 0 <= k < |s'| && s'[k] == e;
          assert s[k] == e;
        } else {
          PreorderFacts(cmp, last, x);
        }
      }
      forall i, j | 0 <= i < j < |r + [last]|
        ensures cmp((r + [last])[i], (r + [last])[j]) <= 0
      {
        if j == |r| {
          assert (r + [last])[i] == r[i];
          assert r[i] in r;
        }
      }
    } else {
      var last := s[|s| - 1];
      forall i, j | 0 <= i < j < |s + [x]|
        ensures cmp((s + [x])[i], (s + [x])[j]) <= 0
      {
        if j == |s| && i < |s| - 1 {
          LeTrans(cmp, s[i], last, x);
        }
      }
    }
  }

  /** The reference result is sorted. */
  lemma {:induction false} InsertionSortedIsSorted<T(!new)>(cmp: (T, T) -> int, s: seq<T>)
    requires IsTotalPreorder(cmp)
    ensures Sorted(cmp, InsertionSorted(cmp, s))
    decreases |s|
  {
    if s != [] {
      InsertionSortedIsSorted(cmp, s[..|s| - 1]);
      InsertKeepsSorted(cmp, InsertionSorted(cmp, s[..|s| - 1]), s[|s| - 1]);
    }
  }

  lemma TiesSnoc<T>(cmp: (T, T) -> int, s: seq<T>, e: T, y: T)
    ensures Ties(cmp, s + [e], y) == Ties(cmp, s, y) + Ties(cmp, [e], y)
  {
    TiesAppend(cmp, s, [e], y);
  }

  /** Inserting x adds it to its tie-class after every element already there. */
  lemma {:induction false} InsertTies<T(!new)>(cmp: (T, T) -> int, s: seq<T>, x: T, y: T)
    requires IsTotalPreorder(cmp)
    ensures Ties(cmp, Insert(cmp, s, x), y) == Ties(cmp, s, y) + Ties(cmp, [x], y)
    decreases |s|
  {
    if s == [] {
    } else if cmp(s[|s| - 1], x) > 0 {
      var last := s[|s| - 1];
      var s' := s[..|s| - 1];
      assert s == s' + [last];
      InsertTies(cmp, s', x, y);
      TiesSnoc(cmp, Insert(cmp, s', x), last, y);
      TiesSnoc(cmp, s', last, y);
      assert Ties(cmp, [x], y) == [] || Ties(cmp, [last], y) == [] by {
        assert [x][..0] == [] && [last][..0] == [];
        if cmp(x, y) == 0 && cmp(last, y) == 0 {
          PreorderFacts(cmp, x, y);
          LeTrans(cmp, last, y, x);
          assert false;
        }
      }
    } else {
      TiesSnoc(cmp, s, x, y);
    }
  }

  lemma {:induction false} InsertionSortedTies<T(!new)>(cmp: (T, T) -> int, s: seq<T>, y: T)
    requires IsTotalPreorder(cmp)
    ensures Ties(cmp, InsertionSorted(cmp, s), y) == Ties(cmp, s, y)
    decreases |s|
  {
    if s != [] {
      var s' := s[..|s| - 1];
      var last := s[|s| - 1];
      assert s == s' + [last];
      InsertionSortedTies(cmp, s', y);
      InsertTies(cmp, InsertionSorted(cmp, s'), last, y);
      TiesSnoc(cmp, s', last, y);
    }
  }

  /** Insertion sort is stable: every tie-class keeps its input order. */
  lemma InsertionSortedIsStable<T(!new)>(cmp: (T, T) -> int, s: seq<T>)
    requires IsTotalPreorder(cmp)
    ensures SameTies(cmp, InsertionSorted(cmp, s), s)
  {
    forall y
      ensures Ties(cmp, InsertionSorted(cmp, s), y) == Ties(cmp, s, y)
    {
      InsertionSortedTies(cmp, s, y);
    }
  }

  /** An already sorted range is left as it is. */
  lemma {:induction false} InsertionSortedOfSorted<T(!new)>(cmp: (T, T) -> int, s: seq<T>)
    requires IsTotalPreorder(cmp)
    requires Sorted(cmp, s)
    ensures InsertionSorted(cmp, s) == s
    decreases |s|
  {
    if s != [] {
      var s' := s[..|s| - 1];
      InsertionSortedOfSorted(cmp, s');
      if |s'| > 0 {
        assert cmp(s'[|s'| - 1], s[|s| - 1]) <= 0;
      }
      assert s == s' + [s[|s| - 1]];
    }
  }

  /** Inserting after the whole of s is inserting after s's last element. */
  lemma InsertionSortedSnoc<T>(cmp: (T, T) -> int, s: seq<T>, x: T)
    ensures InsertionSorted(cmp, s + [x]) == Insert(cmp, InsertionSorted(cmp, s), x)
  {
    assert (s + [x])[..|s|] == s;
  }

  /**
   * Where the shifting loop leaves x: after S[..m] when every element from m on
   * sorts after x and the one before m (if any) does not.
   */
  lemma {:induction false} InsertAt<T>(cmp: (T, T) -> int, S: seq<T>, m: int, x: T)
    requires 0 <= m <= |S|
    requires m == 0 || cmp(S[m - 1], x) <= 0
    requires forall k :: m <= k < |S| ==> cmp(S[k], x) > 0
    ensures Insert(cmp, S, x) == S[..m] + [x] + S[m..]
    decreases |S|
  {
    if m == |S| {
      assert S[..m] == S;
    } else {
      var S' := S[..|S| - 1];
      assert cmp(S[|S| - 1], x) > 0;
      assert Insert(cmp, S, x) == Insert(cmp, S', x) + [S[|S| - 1]];
      assert m == 0 || S'[m - 1] == S[m - 1];
      assert forall k :: m <= k < |S'| ==> S'[k] == S[k];
      InsertAt(cmp, S', m, x);
      assert S'[..m] == S[..m];
      assert S[m..] == S'[m..] + [S[|S| - 1]];
    }
  }

  /**
   * What the shifting loop leaves behind: t is s0 with s0[j..i-1] moved one
   * place right and s0[i] written at j, where j is the first place from which
   * every element up to i-1 sorts strictly after s0[i].
   */
  lemma ShiftedIsInsert<T>(cmp: (T, T) -> int, s0: seq<T>, t: seq<T>, lo: int, i: int, j: int)
    requires 0 <= lo <= j <= i < |s0| == |t|
    requires forall k :: 0 <= k < |t| && !(lo <= k <= i) ==> t[k] == s0[k]
    requires forall k :: lo <= k < j ==> t[k] == s0[k]
    requires forall k :: j < k <= i ==> t[k] == s0[k - 1]
    requires t[j] == s0[i]
    requires j == lo || cmp(s0[j - 1], s0[i]) <= 0
    requires forall k :: j <= k < i ==> cmp(s0[k], s0[i]) > 0
    ensures t == s0[..lo] + Insert(cmp, s0[lo..i], s0[i]) + s0[i + 1..]
  {
    var S := s0[lo..i];
    InsertAt(cmp, S, j - lo, s0[i]);
    var R := S[..j - lo] + [s0[i]] + S[j - lo..];
    assert |R| == i + 1 - lo;
    forall k | 0 <= k < |R|
      ensures t[lo + k] == R[k]
    {
      if k < j - lo {
        assert R[k] == S[k];
      } else if k > j - lo {
        assert R[k] == S[k - 1];
      }
    }
    assert t[lo..i + 1] == R;
    assert t[..lo] == s0[..lo];
    assert t[i + 1..] == s0[i + 1..];
    SplitThree(t, lo, i + 1);
  }

  /** A sequence is its prefix, middle and suffix put back together. */
  lemma SplitThree<T>(t: seq<T>, a: int, b: int)
    requires 0 <= a <= b <= |t|
    ensures t == t[..a] + t[a..b] + t[b..]
  {
    assert t[..a] + t[a..b] == t[..b];
  }

  /**
   * One pass of the outer loop: a[i] is lifted out, the elements of a[lo..i-1]
   * that compare strictly greater than it move one place right, and it is
   * written into the gap.
   */
  method InsertLast<T>(a: array<T>, cmp: (T, T) -> int, lo: int, i: int)
    requires 0 <= lo <= i < a.Length
    modifies a
    ensures a[..] == old(a[..lo]) + Insert(cmp, old(a[lo..i]), old(a[i])) + old(a[i + 1..])
  {
    ghost var s0 := a[..];
    var element := a[i];
    var j := i;
    while j > lo && cmp(a[j - 1], element) > 0
      invariant lo <= j <= i
      invariant forall k :: 0 <= k < a.Length && !(lo <= k <= i) ==> a[k] == s0[k]
      invariant forall k :: lo <= k < j ==> a[k] == s0[k]
      invariant forall k :: j < k <= i ==> a[k] == s0[k - 1]
      invariant forall k :: j <= k < i ==> cmp(s0[k], element) > 0
    {
      a[j] := a[j - 1];
      j := j - 1;
    }
    a[j] := element;
    ShiftedIsInsert(cmp, s0, a[..], lo, i, j);
  }

  /** One step of the outer loop extends the sorted prefix by one element. */
  lemma InsertionStep<T>(cmp: (T, T) -> int, s0: seq<T>, before: seq<T>, after: seq<T>, lo: int, i: int)
    requires 0 <= lo <= i < |s0|
    requires before == s0[..lo] + InsertionSorted(cmp, s0[lo..i]) + s0[i..]
    requires after == before[..lo] + Insert(cmp, before[lo..i], before[i]) + before[i + 1..]
    ensures after == s0[..lo] + InsertionSorted(cmp, s0[lo..i + 1]) + s0[i + 1..]
  {
    assert before[..lo] == s0[..lo];
    assert before[lo..i] == InsertionSorted(cmp, s0[lo..i]);
    assert before[i] == s0[i] && before[i + 1..] == s0[i + 1..];
    assert s0[lo..i + 1] == s0[lo..i] + [s0[i]];
    InsertionSortedSnoc(cmp, s0[lo..i], s0[i]);
  }

  /** Under a consistent comparator the reference result is a stable sort of s. */
  lemma InsertionSortedSorts<T(!new)>(cmp: (T, T) -> int, s: seq<T>)
    requires IsTotalPreorder(cmp)
    ensures IsSortingOf(cmp, InsertionSorted(cmp, s), s)
    ensures SameTies(cmp, InsertionSorted(cmp, s), s)
  {
    InsertionSortedPermutes(cmp, s);
    InsertionSortedIsSorted(cmp, s);
    InsertionSortedIsStable(cmp, s);
  }

  /**
   * Writing the reference result over a range rearranges that range and
   * nothing else, and under a consistent comparator sorts it stably.
   */
  lemma SpliceSorts<T(!new)>(cmp: (T, T) -> int, s: seq<T>, t: seq<T>, lo: int, hi: int)
    requires 0 <= lo <= hi < |s|
    requires t == s[..lo] + InsertionSorted(cmp, s[lo..hi + 1]) + s[hi + 1..]
    ensures PermutesRange(s, t, lo, hi)
    ensures IsTotalPreorder(cmp) ==>
      IsSortingOf(cmp, t[lo..hi + 1], s[lo..hi + 1]) && SameTies(cmp, t[lo..hi + 1], s[lo..hi + 1])
  {
    InsertionSortedPermutes(cmp, s[lo..hi + 1]);
    assert t[..lo] == s[..lo];
    assert t[lo..hi + 1] == InsertionSorted(cmp, s[lo..hi + 1]);
    assert t[hi + 1..] == s[hi + 1..];
    if IsTotalPreorder(cmp) {
      InsertionSortedSorts(cmp, s[lo..hi + 1]);
    }
  }

  /**
   * The outer loop of insertionSort: inserts a[lo+1], ..., a[hi] in turn into
   * the sorted prefix that starts at lo.
   */
  method InsertionPasses<T>(a: array<T>, cmp: (T, T) -> int, lo: int, hi: int)
    requires 0 <= lo <= hi < a.Length
    modifies a
    ensures a[..] == old(a[..lo]) + InsertionSorted(cmp, old(a[lo..hi + 1])) + old(a[hi + 1..])
  {
    ghost var s0 := a[..];
    var i := lo;
    while i <= hi
      invariant lo <= i <= hi + 1
      invariant a[..] == s0[..lo] + InsertionSorted(cmp, s0[lo..i]) + s0[i..]
    {
      ghost var before := a[..];
      InsertLast(a, cmp, lo, i);
      InsertionStep(cmp, s0, before, a[..], lo, i);
      i := i + 1;
    }
    assert s0[lo..i] == old(a[lo..hi + 1]) && s0[..lo] == old(a[..lo]) && s0[i..] == old(a[hi + 1..]);
  }

  /**
   * Sorts a[lo..hi] (both ends inclusive) in place. `hi` defaults to the last
   * index. A range with hi - lo < 1 is left alone without reading the buffer.
   */
  method InsertionSort<T(!new)>(a: array<T>, cmp: (T, T) -> int, lo: int := 0, hi: int := a.Length - 1)
    requires hi - lo >= 1 ==> 0 <= lo && hi < a.Length
    modifies a
    ensures hi - lo < 1 ==> a[..] == old(a[..])
    ensures hi - lo >= 1 ==>
      a[..] == old(a[..lo]) + InsertionSorted(cmp, old(a[lo..hi + 1])) + old(a[hi + 1..])
    ensures hi - lo >= 1 ==> PermutesRange(old(a[..]), a[..], lo, hi)
    ensures hi - lo >= 1 && IsTotalPreorder(cmp) ==>
      IsSortingOf(cmp, a[lo..hi + 1], old(a[lo..hi + 1])) &&
      SameTies(cmp, a[lo..hi + 1], old(a[lo..hi + 1]))
  {
    if hi - lo < 1 {
      return;
    }
    ghost var s0 := a[..];
    assert s0[lo..hi + 1] == old(a[lo..hi + 1]) && s0[..lo] == old(a[..lo]) && s0[hi + 1..] == old(a[hi + 1..]);
    InsertionPasses(a, cmp, lo, hi);
    SpliceSorts(cmp, s0, a[..], lo, hi);
  }
}
