/**
 * quickSort and quickSortPartition of SplFixedArraySort: an iterative
 * quicksort over an explicit stack of pending index ranges, with a Hoare
 * partition around the middle element and insertion sort for short ranges.
 *
 * The stack holds one (lo, hi) pair per pending range, top last; the source
 * pushes the two numbers separately and pops them in the reverse order.
 */
module Quick {
  import opened Ordering
  import opened Ranges
  import opened Insertion

  /** Ranges with hi - lo below this are finished by insertion sort. */
  const THRESHOLD_INSERTIONSORT := 6

  /**
   * The left cursor's scan: from `from` on, the first index whose element does
   * not compare below the pivot. The element at `stop` guarantees one exists.
   */
  method ScanUp<T>(a: array<T>, cmp: (T, T) -> int, pivot: T, from: int, ghost stop: int) returns (left: int)
    requires 0 <= from <= stop < a.Length && cmp(a[stop], pivot) >= 0
    ensures from <= left <= stop && cmp(a[left], pivot) >= 0
    ensures forall k :: from <= k < left ==> cmp(a[k], pivot) < 0
  {
    left := from;
    while cmp(a[left], pivot) < 0
      invariant from <= left <= stop
      invariant forall k :: from <= k < left ==> cmp(a[k], pivot) < 0
      decreases stop - left
    {
      left := left + 1;
    }
  }

  /**
   * The right cursor's scan: from `from` down, the first index whose element
   * does not compare above the pivot. The element at `stop` guarantees one exists.
   */
  method ScanDown<T>(a: array<T>, cmp: (T, T) -> int, pivot: T, from: int, ghost stop: int) returns (right: int)
    requires 0 <= stop <= from < a.Length && cmp(a[stop], pivot) <= 0
    ensures stop <= right <= from && cmp(a[right], pivot) <= 0
    ensures forall k :: right < k <= from ==> cmp(a[k], pivot) > 0
  {
    right := from;
    while cmp(a[right], pivot) > 0
      invariant stop <= right <= from
      invariant forall k :: right < k <= from ==> cmp(a[k], pivot) > 0
      decreases right - stop
    {
      right := right - 1;
    }
  }

  /**
   * The exchange of the two elements the scans stopped at: afterwards both
   * sides are in place up to and including the two cursors.
   */
  method Exchange<T>(a: array<T>, cmp: (T, T) -> int, pivot: T, ghost s0: seq<T>, lo: int, hi: int, left: int, right: int)
    requires 0 <= lo <= left < right <= hi < a.Length
    requires PermutesRange(s0, a[..], lo, hi)
    requires forall k :: lo <= k < left ==> cmp(a[k], pivot) <= 0
    requires forall k :: right < k <= hi ==> cmp(a[k], pivot) >= 0
    requires cmp(a[left], pivot) >= 0 && cmp(a[right], pivot) <= 0
    modifies a
    ensures PermutesRange(s0, a[..], lo, hi)
    ensures forall k :: lo <= k <= left ==> cmp(a[k], pivot) <= 0
    ensures forall k :: right <= k <= hi ==> cmp(a[k], pivot) >= 0
  {
    SwapAfterPermutesRange(s0, a[..], left, right, lo, hi);
    Swap(a, left, right);
  }

  /**
   * The state between two rounds of the partition loop: the cursors have not
   * crossed, everything left of `left` belongs to the low side and everything
   * right of `right` to the high side, and the elements at `sl` and `sr` will
   * stop the next scans.
   */
  ghost predicate Scanning<T>(s: seq<T>, s0: seq<T>, cmp: (T, T) -> int, pivot: T, lo: int, hi: int, m: int,
                              left: int, right: int, sl: int, sr: int)
  {
    0 <= lo <= m < hi < |s| &&
    lo - 1 <= left < right <= hi + 1 &&
    left < sl <= hi && cmp(s[sl], pivot) >= 0 &&
    lo <= sr < right && cmp(s[sr], pivot) <= 0 &&
    (right == hi + 1 ==> sl == m) &&
    (forall k :: lo <= k <= left ==> cmp(s[k], pivot) <= 0) &&
    (forall k :: right <= k <= hi ==> cmp(s[k], pivot) >= 0) &&
    PermutesRange(s0, s, lo, hi)
  }

  /**
   * One round of the partition loop: both scans, then either the cursors have
   * met and the right one is the split point, or the two elements are exchanged
   * and the loop goes on with the cursors strictly closer.
   */
  method PartitionRound<T>(a: array<T>, cmp: (T, T) -> int, pivot: T, ghost s0: seq<T>, lo: int, hi: int, ghost m: int,
                           left0: int, right0: int, ghost sl: int, ghost sr: int)
      returns (left: int, right: int, done: bool, ghost sl': int, ghost sr': int)
    requires Scanning(a[..], s0, cmp, pivot, lo, hi, m, left0, right0, sl, sr)
    modifies a
    ensures done ==> lo <= right < hi && PermutesRange(s0, a[..], lo, hi)
    ensures done ==> forall k :: lo <= k <= right ==> cmp(a[k], pivot) <= 0
    ensures done ==> forall k :: right < k <= hi ==> cmp(a[k], pivot) >= 0
    ensures !done ==> Scanning(a[..], s0, cmp, pivot, lo, hi, m, left, right, sl', sr')
    ensures !done ==> 0 <= right - left < right0 - left0
  {
    left := ScanUp(a, cmp, pivot, left0 + 1, sl);
    right := ScanDown(a, cmp, pivot, right0 - 1, sr);
    sl', sr' := right, left;
    done := left >= right;
    if done {
      CursorsMet(a[..], s0, cmp, pivot, lo, hi, m, left0, right0, sl, sr, left, right);
    } else {
      CursorsApart(a[..], s0, cmp, pivot, lo, hi, m, left0, right0, sl, sr, left, right);
      Exchange(a, cmp, pivot, s0, lo, hi, left, right);
      Exchanged(a[..], s0, cmp, pivot, lo, hi, m, left, right);
    }
  }

  /** Scans that meet or cross leave the right cursor as a split point inside [lo, hi). */
  lemma CursorsMet<T>(s: seq<T>, s0: seq<T>, cmp: (T, T) -> int, pivot: T, lo: int, hi: int, m: int,
                      left0: int, right0: int, sl: int, sr: int, left: int, right: int)
    requires Scanning(s, s0, cmp, pivot, lo, hi, m, left0, right0, sl, sr)
    requires left0 < left <= sl && sr <= right < right0 && right <= left
    requires forall k :: left0 < k < left ==> cmp(s[k], pivot) < 0
    requires forall k :: right < k < right0 ==> cmp(s[k], pivot) > 0
    requires cmp(s[right], pivot) <= 0
    ensures lo <= right < hi
    ensures forall k :: lo <= k <= right ==> cmp(s[k], pivot) <= 0
    ensures forall k :: right < k <= hi ==> cmp(s[k], pivot) >= 0
  {
  }

  /** Scans that stop short of each other leave both sides settled up to the cursors. */
  lemma CursorsApart<T>(s: seq<T>, s0: seq<T>, cmp: (T, T) -> int, pivot: T, lo: int, hi: int, m: int,
                        left0: int, right0: int, sl: int, sr: int, left: int, right: int)
    requires Scanning(s, s0, cmp, pivot, lo, hi, m, left0, right0, sl, sr)
    requires left0 < left <= sl && sr <= right < right0 && left < right
    requires forall k :: left0 < k < left ==> cmp(s[k], pivot) < 0
    requires forall k :: right < k < right0 ==> cmp(s[k], pivot) > 0
    ensures lo <= left && right <= hi && PermutesRange(s0, s, lo, hi)
    ensures forall k :: lo <= k < left ==> cmp(s[k], pivot) <= 0
    ensures forall k :: right < k <= hi ==> cmp(s[k], pivot) >= 0
  {
  }

  /** After the exchange the loop state holds again, with the exchanged elements as the next stops. */
  lemma Exchanged<T>(s: seq<T>, s0: seq<T>, cmp: (T, T) -> int, pivot: T, lo: int, hi: int, m: int, left: int, right: int)
    requires 0 <= lo <= m < hi < |s| && lo <= left < right <= hi
    requires PermutesRange(s0, s, lo, hi)
    requires forall k :: lo <= k <= left ==> cmp(s[k], pivot) <= 0
    requires forall k :: right <= k <= hi ==> cmp(s[k], pivot) >= 0
    ensures Scanning(s, s0, cmp, pivot, lo, hi, m, left, right, right, left)
  {
  }

  /**
   * Hoare partition of a[lo..hi] around the value at the middle index. Both
   * cursors stay inside [lo, hi]: the pivot itself, and after each exchange
   * the two exchanged elements, stop the scans.
   */
  method QuickSortPartition<T(!new)>(a: array<T>, cmp: (T, T) -> int, lo: int, hi: int) returns (p: int)
    requires IsTotalPreorder(cmp)
    requires 0 <= lo < hi < a.Length
    modifies a
    ensures lo <= p < hi
    ensures PermutesRange(old(a[..]), a[..], lo, hi)
    ensures forall k :: lo <= k <= p ==> cmp(a[k], old(a[lo + (hi - lo) / 2])) <= 0
    ensures forall k :: p < k <= hi ==> cmp(a[k], old(a[lo + (hi - lo) / 2])) >= 0
  {
    ghost var s0 := a[..];
    var m := lo + (hi - lo) / 2;
    var pivot := a[m];
    PreorderFacts(cmp, pivot, pivot);
    PermutesRangeRefl(s0, lo, hi);
    var left := lo - 1;
    var right := hi + 1;
    ghost var sl, sr := m, m;
    var done := false;
    while !done
      invariant !done ==> Scanning(a[..], s0, cmp, pivot, lo, hi, m, left, right, sl, sr)
      invariant done ==> lo <= right < hi && PermutesRange(s0, a[..], lo, hi)
      invariant done ==> forall k :: lo <= k <= right ==> cmp(a[k], pivot) <= 0
      invariant done ==> forall k :: right < k <= hi ==> cmp(a[k], pivot) >= 0
      decreases !done, right - left
    {
      left, right, done, sl, sr := PartitionRound(a, cmp, pivot, s0, lo, hi, m, left, right, sl, sr);
    }
    assert old(a[lo + (hi - lo) / 2]) == pivot;
    p := right;
  }

  /**
   * What the partition's postcondition gives under a consistent comparator:
   * every element of [lo, p] compares at most every element of [p+1, hi].
   */
  lemma PartitionOrdersHalves<T(!new)>(cmp: (T, T) -> int, s: seq<T>, lo: int, p: int, hi: int, pivot: T)
    requires IsTotalPreorder(cmp)
    requires 0 <= lo <= p < hi < |s|
    requires forall k :: lo <= k <= p ==> cmp(s[k], pivot) <= 0
    requires forall k :: p < k <= hi ==> cmp(s[k], pivot) >= 0
    ensures forall i, j :: lo <= i <= p < j <= hi ==> cmp(s[i], s[j]) <= 0
  {
    forall i, j | lo <= i <= p < j <= hi
      ensures cmp(s[i], s[j]) <= 0
    {
      PreorderFacts(cmp, s[j], pivot);
      LeTrans(cmp, s[i], pivot, s[j]);
    }
  }

  /** i and j (i < j) lie together inside one range still waiting on the stack. */
  ghost predicate Pending(stack: seq<(int, int)>, i: int, j: int)
    decreases |stack|
  {
    && stack != []
    && ((stack[|stack| - 1].0 <= i && j <= stack[|stack| - 1].1) || Pending(stack[..|stack| - 1], i, j))
  }

  /** Every pair out of order lies inside one pending range. */
  ghost predicate Settled<T>(cmp: (T, T) -> int, s: seq<T>, stack: seq<(int, int)>) {
    forall i, j :: 0 <= i < j < |s| && !Pending(stack, i, j) ==> cmp(s[i], s[j]) <= 0
  }

  /**
   * The pending ranges lie inside a buffer of length n, each holds at least two
   * elements, and each lies left of those below it.
   */
  ghost predicate Stacked(stack: seq<(int, int)>, n: int) {
    && (forall q :: 0 <= q < |stack| ==> 0 <= stack[q].0 < stack[q].1 < n)
    && (forall p, q :: 0 <= p < q < |stack| ==> stack[q].1 < stack[p].0)
  }

  /** Twice the width of each pending range, plus one: shrinks at every pass of the loop. */
  ghost function Weight(stack: seq<(int, int)>): nat
    decreases |stack|
  {
    if stack == [] then 0
    else
      var top := stack[|stack| - 1];
      Weight(stack[..|stack| - 1]) + (if top.1 < top.0 then 0 else 2 * (top.1 - top.0) + 1)
  }

  lemma PendingPush(stack: seq<(int, int)>, r: (int, int), i: int, j: int)
    ensures Pending(stack + [r], i, j) == ((r.0 <= i && j <= r.1) || Pending(stack, i, j))
  {
    assert (stack + [r])[..|stack|] == stack;
  }

  lemma WeightPush(stack: seq<(int, int)>, r: (int, int))
    ensures Weight(stack + [r]) == Weight(stack) + (if r.1 < r.0 then 0 else 2 * (r.1 - r.0) + 1)
  {
    assert (stack + [r])[..|stack|] == stack;
  }

  /** No pending range reaches down to index k when all of them start after it. */
  lemma {:induction false} NotPendingBelow(stack: seq<(int, int)>, k: int, j: int)
    requires forall q :: 0 <= q < |stack| ==> k < stack[q].0
    ensures !Pending(stack, k, j)
    decreases |stack|
  {
    if stack != [] {
      NotPendingBelow(stack[..|stack| - 1], k, j);
    }
  }

  /**
   * Rearranging the popped range [lo, hi] keeps in order every pair that does
   * not lie inside it: an element that moved came from inside the range, and
   * the ranges below it on the stack all lie to its right.
   */
  lemma CrossPairs<T>(cmp: (T, T) -> int, s: seq<T>, t: seq<T>, rest: seq<(int, int)>, lo: int, hi: int, i: int, j: int)
    requires Settled(cmp, s, rest + [(lo, hi)])
    requires forall q :: 0 <= q < |rest| ==> hi < rest[q].0
    requires PermutesRange(s, t, lo, hi)
    requires 0 <= i < j < |t| && !(lo <= i && j <= hi) && !Pending(rest, i, j)
    ensures cmp(t[i], t[j]) <= 0
  {
    var i' := PermutesRangeFrom(s, t, lo, hi, i);
    var j' := PermutesRangeFrom(s, t, lo, hi, j);
    assert i' < j' && !(lo <= i' && j' <= hi);
    assert !Pending(rest + [(lo, hi)], i', j') by {
      PendingPush(rest, (lo, hi), i', j');
      if i' != i || j' != j {
        NotPendingBelow(rest, i', j');
      }
    }
    assert cmp(s[i'], s[j']) <= 0;
  }

  /** The popped range, now sorted by insertion sort, leaves the stack settled. */
  lemma SettledAfterSort<T>(cmp: (T, T) -> int, s: seq<T>, t: seq<T>, rest: seq<(int, int)>, lo: int, hi: int)
    requires Settled(cmp, s, rest + [(lo, hi)])
    requires forall q :: 0 <= q < |rest| ==> hi < rest[q].0
    requires PermutesRange(s, t, lo, hi)
    requires Sorted(cmp, t[lo..hi + 1])
    ensures Settled(cmp, t, rest)
  {
    forall i, j | 0 <= i < j < |t| && !Pending(rest, i, j)
      ensures cmp(t[i], t[j]) <= 0
    {
      if lo <= i && j <= hi {
        assert t[i] == t[lo..hi + 1][i - lo] && t[j] == t[lo..hi + 1][j - lo];
      } else {
        CrossPairs(cmp, s, t, rest, lo, hi, i, j);
      }
    }
  }

  /** The ranges the source pushes after partitioning [lo, hi] at p: the right part, then the left. */
  function Split(rest: seq<(int, int)>, lo: int, p: int, hi: int): (r: seq<(int, int)>)
    ensures |rest| <= |r| <= |rest| + 2 && r[..|rest|] == rest
  {
    rest + (if p + 1 < hi then [(p + 1, hi)] else []) + (if p > lo then [(lo, p)] else [])
  }

  /** Partitioning the popped range and pushing its two parts leaves the stack settled. */
  lemma SettledAfterPartition<T(!new)>(cmp: (T, T) -> int, s: seq<T>, t: seq<T>, rest: seq<(int, int)>,
                                       lo: int, p: int, hi: int, pivot: T)
    requires IsTotalPreorder(cmp)
    requires Settled(cmp, s, rest + [(lo, hi)])
    requires forall q :: 0 <= q < |rest| ==> hi < rest[q].0
    requires PermutesRange(s, t, lo, hi)
    requires lo <= p < hi
    requires forall k :: lo <= k <= p ==> cmp(t[k], pivot) <= 0
    requires forall k :: p < k <= hi ==> cmp(t[k], pivot) >= 0
    ensures Settled(cmp, t, Split(rest, lo, p, hi))
  {
    var mid := rest + (if p + 1 < hi then [(p + 1, hi)] else []);
    forall i, j | 0 <= i < j < |t| && !Pending(Split(rest, lo, p, hi), i, j)
      ensures cmp(t[i], t[j]) <= 0
    {
      if p > lo {
        PendingPush(mid, (lo, p), i, j);
      } else {
        assert Split(rest, lo, p, hi) == mid;
      }
      if p + 1 < hi {
        PendingPush(rest, (p + 1, hi), i, j);
      } else {
        assert mid == rest;
      }
      if lo <= i && j <= hi {
        assert i <= p < j;
        PreorderFacts(cmp, t[j], pivot);
        LeTrans(cmp, t[i], pivot, t[j]);
      } else {
        CrossPairs(cmp, s, t, rest, lo, hi, i, j);
      }
    }
  }

  /** The popped range lies inside the buffer and left of every range below it. */
  lemma StackedTop(rest: seq<(int, int)>, lo: int, hi: int, n: int)
    requires Stacked(rest + [(lo, hi)], n)
    ensures 0 <= lo < hi < n
    ensures forall q :: 0 <= q < |rest| ==> hi < rest[q].0
    ensures Stacked(rest, n)
  {
    assert (rest + [(lo, hi)])[|rest|] == (lo, hi);
    forall q | 0 <= q < |rest|
      ensures (rest + [(lo, hi)])[q] == rest[q] && hi < rest[q].0
    {
      assert (rest + [(lo, hi)])[q] == rest[q];
      assert (rest + [(lo, hi)])[q].0 > (rest + [(lo, hi)])[|rest|].1;
    }
  }

  /** A range pushed left of every pending range keeps the stack's layout. */
  lemma StackedPush(stack: seq<(int, int)>, r: (int, int), n: int)
    requires Stacked(stack, n)
    requires 0 <= r.0 < r.1 < n
    requires forall q :: 0 <= q < |stack| ==> r.1 < stack[q].0
    ensures Stacked(stack + [r], n)
  {
    var s' := stack + [r];
    assert forall q :: 0 <= q < |stack| ==> s'[q] == stack[q];
  }

  /** The pushed parts keep the stack's layout. */
  lemma SplitStacked(rest: seq<(int, int)>, lo: int, p: int, hi: int, n: int)
    requires Stacked(rest + [(lo, hi)], n)
    requires lo <= p < hi
    ensures Stacked(Split(rest, lo, p, hi), n)
  {
    StackedTop(rest, lo, hi, n);
    var mid := rest + (if p + 1 < hi then [(p + 1, hi)] else []);
    assert Stacked(mid, n) && forall q :: 0 <= q < |mid| ==> p < mid[q].0 by {
      if p + 1 < hi {
        StackedPush(rest, (p + 1, hi), n);
        forall q | 0 <= q < |mid| ensures p < mid[q].0 {
          if q < |rest| {
            assert mid[q] == rest[q];
          }
        }
      } else {
        assert mid == rest;
      }
    }
    var r := Split(rest, lo, p, hi);
    if p > lo {
      StackedPush(mid, (lo, p), n);
      assert r == mid + [(lo, p)];
    } else {
      assert r == mid;
    }
  }

  /** The pushed parts weigh less than the popped range. */
  lemma SplitWeight(rest: seq<(int, int)>, lo: int, p: int, hi: int)
    requires lo <= p < hi
    ensures Weight(Split(rest, lo, p, hi)) < Weight(rest + [(lo, hi)])
  {
    WeightPush(rest, (lo, hi));
    var mid := rest + (if p + 1 < hi then [(p + 1, hi)] else []);
    if p + 1 < hi {
      WeightPush(rest, (p + 1, hi));
    } else {
      assert mid == rest;
    }
    if p > lo {
      WeightPush(mid, (lo, p));
      assert Split(rest, lo, p, hi) == mid + [(lo, p)];
    } else {
      assert Split(rest, lo, p, hi) == mid;
    }
  }

  /**
   * A popped range shorter than the threshold: insertion sort finishes it, and
   * the ranges left on the stack still cover every pair out of order.
   */
  method SortShortRange<T(!new)>(a: array<T>, cmp: (T, T) -> int, rest: seq<(int, int)>, lo: int, hi: int)
    requires IsTotalPreorder(cmp)
    requires Stacked(rest + [(lo, hi)], a.Length) && Settled(cmp, a[..], rest + [(lo, hi)])
    modifies a
    ensures Stacked(rest, a.Length) && Settled(cmp, a[..], rest)
    ensures multiset(a[..]) == multiset(old(a[..]))
    ensures Weight(rest) < Weight(rest + [(lo, hi)])
  {
    ghost var s := a[..];
    StackedTop(rest, lo, hi, a.Length);
    InsertionSort(a, cmp, lo, hi);
    ghost var t := a[..];
    SettledAfterSort(cmp, s, t, rest, lo, hi);
    PermutesRangeWhole(s, t, lo, hi);
    WeightPush(rest, (lo, hi));
  }

  /**
   * A popped range at or above the threshold: it is partitioned, and its right
   * part and then its left part are pushed when they hold two elements or more.
   */
  method PartitionRange<T(!new)>(a: array<T>, cmp: (T, T) -> int, rest: seq<(int, int)>, lo: int, hi: int)
      returns (stack: seq<(int, int)>)
    requires IsTotalPreorder(cmp)
    requires Stacked(rest + [(lo, hi)], a.Length) && Settled(cmp, a[..], rest + [(lo, hi)])
    modifies a
    ensures Stacked(stack, a.Length) && Settled(cmp, a[..], stack)
    ensures multiset(a[..]) == multiset(old(a[..]))
    ensures Weight(stack) < Weight(rest + [(lo, hi)])
  {
    ghost var s := a[..];
    StackedTop(rest, lo, hi, a.Length);
    var p := QuickSortPartition(a, cmp, lo, hi);
    ghost var t := a[..];
    SettledAfterPartition(cmp, s, t, rest, lo, p, hi, s[lo + (hi - lo) / 2]);
    SplitStacked(rest, lo, p, hi, a.Length);
    SplitWeight(rest, lo, p, hi);
    PermutesRangeWhole(s, t, lo, hi);
    stack := rest;
    if p + 1 < hi {
      stack := stack + [(p + 1, hi)];
    }
    if p > lo {
      stack := stack + [(lo, p)];
    }
    assert stack == Split(rest, lo, p, hi);
  }

  /**
   * Sorts the whole buffer in place. The early return on hi <= lo is taken
   * only for the first range of an empty or one-element buffer: every range
   * pushed afterwards holds at least two elements.
   */
  method QuickSort<T(!new)>(a: array<T>, cmp: (T, T) -> int)
    requires IsTotalPreorder(cmp)
    modifies a
    ensures IsSortingOf(cmp, a[..], old(a[..]))
  {
    var stack := [(0, a.Length - 1)];
    while stack != []
      invariant a.Length <= 1 ==> stack == [(0, a.Length - 1)]
      invariant a.Length > 1 ==> Stacked(stack, a.Length)
      invariant multiset(a[..]) == multiset(old(a[..]))
      invariant Settled(cmp, a[..], stack)
      decreases Weight(stack)
    {
      var top := stack[|stack| - 1];
      var rest := stack[..|stack| - 1];
      assert stack == rest + [top];
      var lo, hi := top.0, top.1;
      if hi <= lo {
        return;
      }
      if hi - lo < THRESHOLD_INSERTIONSORT {
        SortShortRange(a, cmp, rest, lo, hi);
        stack := rest;
      } else {
        stack := PartitionRange(a, cmp, rest, lo, hi);
      }
    }
  }
}
