/**
 * mergeSort and mergeSortMerge of SplFixedArraySort: a bottom-up merge sort.
 * Runs of length len = 1, 2, 4, ... are merged pairwise, left to right, through
 * one scratch buffer the size of the input.
 *
 * `Merge` is the merge as values. When the two heads tie it takes the head of
 * the RIGHT run, as the source does, so the sort is not stable.
 */
module Merging {
  import opened Ordering
  import opened Ranges

  /** The merge of xs and ys: the head of xs goes first only when the head of ys compares strictly greater. */
  function Merge<T>(cmp: (T, T) -> int, xs: seq<T>, ys: seq<T>): (r: seq<T>)
    ensures |r| == |xs| + |ys|
    decreases |xs| + |ys|
  {
    if xs == [] then ys
    else if ys == [] then xs
    else if cmp(ys[0], xs[0]) > 0 then [xs[0]] + Merge(cmp, xs[1..], ys)
    else [ys[0]] + Merge(cmp, xs, ys[1..])
  }

  /** On a tie between the two heads the merge takes the head of the right run. */
  lemma MergeTieTakesRight<T>(cmp: (T, T) -> int, xs: seq<T>, ys: seq<T>)
    requires xs != [] && ys != [] && cmp(ys[0], xs[0]) == 0
    ensures Merge(cmp, xs, ys) == [ys[0]] + Merge(cmp, xs, ys[1..])
  {
  }

  /** The merge is a rearrangement of the two runs together. */
  lemma {:induction false} MergePermutes<T>(cmp: (T, T) -> int, xs: seq<T>, ys: seq<T>)
    ensures multiset(Merge(cmp, xs, ys)) == multiset(xs) + multiset(ys)
    decreases |xs| + |ys|
  {
    if xs == [] || ys == [] {
    } else if cmp(ys[0], xs[0]) > 0 {
      MergePermutes(cmp, xs[1..], ys);
      assert Merge(cmp, xs, ys) == [xs[0]] + Merge(cmp, xs[1..], ys);
      assert xs == [xs[0]] + xs[1..];
    } else {
      MergePermutes(cmp, xs, ys[1..]);
      assert Merge(cmp, xs, ys) == [ys[0]] + Merge(cmp, xs, ys[1..]);
      assert ys == [ys[0]] + ys[1..];
    }
  }

  lemma SortedCons<T>(cmp: (T, T) -> int, h: T, t: seq<T>)
    requires Sorted(cmp, t)
    requires forall e :: e in t ==> cmp(h, e) <= 0
    ensures Sorted(cmp, [h] + t)
  {
    forall i, j | 0 <= i < j < |[h] + t|
      ensures cmp(([h] + t)[i], ([h] + t)[j]) <= 0
    {
      if i == 0 {
        assert ([h] + t)[j] == t[j - 1];
        assert t[j - 1] in t;
      }
    }
  }

  /** Merging two sorted runs gives a sorted run. */
  lemma {:induction false} MergeSorted<T(!new)>(cmp: (T, T) -> int, xs: seq<T>, ys: seq<T>)
    requires IsTotalPreorder(cmp)
    requires Sorted(cmp, xs) && Sorted(cmp, ys)
    ensures Sorted(cmp, Merge(cmp, xs, ys))
    decreases |xs| + |ys|
  {
    if xs == [] || ys == [] {
    } else if cmp(ys[0], xs[0]) > 0 {
      var x := xs[0];
      var tail := Merge(cmp, xs[1..], ys);
      MergeSorted(cmp, xs[1..], ys);
      MergePermutes(cmp, xs[1..], ys);
      PreorderFacts(cmp, ys[0], x);
      forall e | e in tail
        ensures cmp(x, e) <= 0
      {
        assert e in multiset(tail);
        if e in xs[1..] {
          var k :| 0 <= k < |xs[1..]| && xs[1..][k] == e;
          assert xs[k + 1] == e;
        } else {
          assert e in multiset(ys);
          var k :| 0 <= k < |ys| && ys[k] == e;
          if k > 0 {
            LeTrans(cmp, x, ys[0], e);
          } else {
            assert cmp(x, e) < 0;
          }
        }
      }
      SortedCons(cmp, x, tail);
    } else {
      var y := ys[0];
      var tail := Merge(cmp, xs, ys[1..]);
      MergeSorted(cmp, xs, ys[1..]);
      MergePermutes(cmp, xs, ys[1..]);
      forall e | e in tail
        ensures cmp(y, e) <= 0
      {
        assert e in multiset(tail);
        if e in ys[1..] {
          var k :| 0 <= k < |ys[1..]| && ys[1..][k] == e;
          assert ys[k + 1] == e;
        } else {
          assert e in multiset(xs);
          var k :| 0 <= k < |xs| && xs[k] == e;
          if k > 0 {
            LeTrans(cmp, y, xs[0], e);
          }
        }
      }
      SortedCons(cmp, y, tail);
    }
  }

  /** The first step of the merge, as the source's loop takes it. */
  lemma MergeHead<T>(cmp: (T, T) -> int, xs: seq<T>, ys: seq<T>)
    requires xs != [] || ys != []
    ensures xs == [] ==> Merge(cmp, xs, ys) == [ys[0]] + Merge(cmp, xs, ys[1..])
    ensures xs != [] && ys == [] ==> Merge(cmp, xs, ys) == [xs[0]] + Merge(cmp, xs[1..], ys)
    ensures xs != [] && ys != [] && cmp(ys[0], xs[0]) > 0 ==>
      Merge(cmp, xs, ys) == [xs[0]] + Merge(cmp, xs[1..], ys)
    ensures xs != [] && ys != [] && cmp(ys[0], xs[0]) <= 0 ==>
      Merge(cmp, xs, ys) == [ys[0]] + Merge(cmp, xs, ys[1..])
  {
    if xs == [] {
      assert ys == [ys[0]] + ys[1..];
    } else if ys == [] {
      assert xs == [xs[0]] + xs[1..];
    }
  }

  /**
   * Merges the sorted runs a[lo..mid] and a[mid+1..hi] through temp: copies
   * [lo, hi] into temp, then writes the merge back into a. Either run may be
   * empty. temp must be a separate buffer; only its [lo, hi] is overwritten.
   */
  method MergeSortMerge<T(!new)>(a: array<T>, temp: array<T>, lo: int, mid: int, hi: int, cmp: (T, T) -> int)
    requires a != temp
    requires 0 <= lo <= mid + 1 <= hi + 1 <= a.Length && hi < temp.Length
    modifies a, temp
    ensures a[..] == old(a[..lo]) + Merge(cmp, old(a[lo..mid + 1]), old(a[mid + 1..hi + 1])) + old(a[hi + 1..])
    ensures PermutesRange(old(a[..]), a[..], lo, hi)
    ensures IsTotalPreorder(cmp) && Sorted(cmp, old(a[lo..mid + 1])) && Sorted(cmp, old(a[mid + 1..hi + 1]))
      ==> Sorted(cmp, a[lo..hi + 1])
    ensures temp[..] == old(temp[..lo]) + old(a[lo..hi + 1]) + old(temp[hi + 1..])
  {
    ghost var s0, t0 := a[..], temp[..];
    CopyToTemp(a, temp, lo, hi);
    RunsOfCopy(temp[..], t0, s0, lo, mid, hi);
    MergeBack(a, temp, lo, mid, hi, cmp);
    MergeSplice(cmp, old(a[..]), a[..], lo, mid, hi);
  }

  /** After the copy, temp holds the two runs where a held them. */
  lemma RunsOfCopy<T>(t: seq<T>, t0: seq<T>, s: seq<T>, lo: int, mid: int, hi: int)
    requires 0 <= lo <= mid + 1 <= hi + 1 <= |s| && hi < |t0|
    requires t == t0[..lo] + s[lo..hi + 1] + t0[hi + 1..]
    ensures t[lo..mid + 1] == s[lo..mid + 1] && t[mid + 1..hi + 1] == s[mid + 1..hi + 1]
  {
    forall k | lo <= k <= hi ensures t[k] == s[k] {
      assert t[k] == s[lo..hi + 1][k - lo];
    }
    assert t[lo..mid + 1] == s[lo..mid + 1];
    assert t[mid + 1..hi + 1] == s[mid + 1..hi + 1];
  }

  /**
   * Replacing [lo, hi] by the merge of its two runs rearranges that range, and
   * sorts it when both runs were sorted.
   */
  lemma MergeSplice<T(!new)>(cmp: (T, T) -> int, s: seq<T>, t: seq<T>, lo: int, mid: int, hi: int)
    requires 0 <= lo <= mid + 1 <= hi + 1 <= |s|
    requires t == s[..lo] + Merge(cmp, s[lo..mid + 1], s[mid + 1..hi + 1]) + s[hi + 1..]
    ensures PermutesRange(s, t, lo, hi) && multiset(t) == multiset(s)
    ensures IsTotalPreorder(cmp) && Sorted(cmp, s[lo..mid + 1]) && Sorted(cmp, s[mid + 1..hi + 1])
      ==> Sorted(cmp, t[lo..hi + 1])
  {
    var m := Merge(cmp, s[lo..mid + 1], s[mid + 1..hi + 1]);
    SpliceParts(s, t, lo, hi, m);
    assert t[lo..hi + 1] == m;
    assert s[lo..hi + 1] == s[lo..mid + 1] + s[mid + 1..hi + 1];
    MergePermutes(cmp, s[lo..mid + 1], s[mid + 1..hi + 1]);
    PermutesRangeWhole(s, t, lo, hi);
    if IsTotalPreorder(cmp) && Sorted(cmp, s[lo..mid + 1]) && Sorted(cmp, s[mid + 1..hi + 1]) {
      MergeSorted(cmp, s[lo..mid + 1], s[mid + 1..hi + 1]);
    }
  }

  /** The copy loop of mergeSortMerge: temp[lo..hi] := a[lo..hi]. */
  method CopyToTemp<T>(a: array<T>, temp: array<T>, lo: int, hi: int)
    requires a != temp
    requires 0 <= lo <= hi + 1 <= a.Length && hi < temp.Length
    modifies temp
    ensures temp[..] == old(temp[..lo]) + a[lo..hi + 1] + old(temp[hi + 1..])
  {
    ghost var t0 := temp[..];
    var k := lo;
    while k <= hi
      invariant lo <= k <= hi + 1
      invariant temp[..] == t0[..lo] + a[lo..k] + t0[k..]
    {
      CopyGrows(t0, a[..], temp[..], lo, k);
      temp[k] := a[k];
      k := k + 1;
    }
  }

  /**
   * The merge loop of mergeSortMerge: writes the merge of temp[lo..mid] and
   * temp[mid+1..hi] into a[lo..hi], one element per step.
   */
  method MergeBack<T>(a: array<T>, temp: array<T>, lo: int, mid: int, hi: int, cmp: (T, T) -> int)
    requires a != temp
    requires 0 <= lo <= mid + 1 <= hi + 1 <= a.Length && hi < temp.Length
    modifies a
    ensures a[..] == old(a[..lo]) + Merge(cmp, temp[lo..mid + 1], temp[mid + 1..hi + 1]) + old(a[hi + 1..])
  {
    ghost var s0 := a[..];
    ghost var M := Merge(cmp, temp[lo..mid + 1], temp[mid + 1..hi + 1]);
    var left, right := lo, mid + 1;
    var k := lo;
    MergeStateStart(cmp, s0, temp[..], M, lo, mid, hi);
    while k <= hi
      invariant MergeState(cmp, s0, temp[..], M, a[..], lo, mid, hi, left, right, k)
      decreases hi + 1 - k
    {
      left, right := MergeStep(a, temp, lo, mid, hi, cmp, s0, M, left, right, k);
      k := k + 1;
    }
    MergeStateDone(cmp, s0, temp[..], M, a[..], lo, mid, hi, left, right, k);
  }

  /**
   * Where the merge loop stands before writing a[k]: a[lo..k-1] holds the
   * first k - lo elements of the merge m, the rest of a is as it was, and the
   * rest of m is the merge of what is left of the two runs in t.
   */
  ghost predicate MergeState<T>(cmp: (T, T) -> int, s0: seq<T>, t: seq<T>, m: seq<T>, s: seq<T>,
                                lo: int, mid: int, hi: int, left: int, right: int, k: int)
  {
    && 0 <= lo <= k <= hi + 1 <= |s0| && hi < |t|
    && lo <= left <= mid + 1 <= right <= hi + 1
    && (left - lo) + (right - mid - 1) == k - lo
    && |m| == hi + 1 - lo
    && s == s0[..lo] + m[..k - lo] + s0[k..]
    && Merge(cmp, t[left..mid + 1], t[right..hi + 1]) == m[k - lo..]
  }

  lemma MergeStateStart<T>(cmp: (T, T) -> int, s0: seq<T>, t: seq<T>, m: seq<T>, lo: int, mid: int, hi: int)
    requires 0 <= lo <= mid + 1 <= hi + 1 <= |s0| && hi < |t|
    requires m == Merge(cmp, t[lo..mid + 1], t[mid + 1..hi + 1])
    ensures MergeState(cmp, s0, t, m, s0, lo, mid, hi, lo, mid + 1, lo)
  {
    assert s0 == s0[..lo] + m[..0] + s0[lo..];
    assert m[0..] == m;
  }

  lemma MergeStateDone<T>(cmp: (T, T) -> int, s0: seq<T>, t: seq<T>, m: seq<T>, s: seq<T>,
                          lo: int, mid: int, hi: int, left: int, right: int, k: int)
    requires MergeState(cmp, s0, t, m, s, lo, mid, hi, left, right, k) && k > hi
    ensures s == s0[..lo] + m + s0[hi + 1..]
  {
    assert m[..k - lo] == m;
  }

  /** One pass of the merge loop's body: writes a[k] from whichever run comes first. */
  method MergeStep<T>(a: array<T>, temp: array<T>, lo: int, mid: int, hi: int, cmp: (T, T) -> int,
                      ghost s0: seq<T>, ghost m: seq<T>, left: int, right: int, k: int)
      returns (left': int, right': int)
    requires a != temp
    requires MergeState(cmp, s0, temp[..], m, a[..], lo, mid, hi, left, right, k) && k <= hi
    modifies a
    ensures MergeState(cmp, s0, temp[..], m, a[..], lo, mid, hi, left', right', k + 1)
  {
    if left > mid {
      StepRight(cmp, s0, temp[..], m, a[..], lo, mid, hi, left, right, k);
      a[k] := temp[right];
      left', right' := left, right + 1;
    } else if right > hi {
      StepLeft(cmp, s0, temp[..], m, a[..], lo, mid, hi, left, right, k);
      a[k] := temp[left];
      left', right' := left + 1, right;
    } else if cmp(temp[right], temp[left]) > 0 {
      StepLeft(cmp, s0, temp[..], m, a[..], lo, mid, hi, left, right, k);
      a[k] := temp[left];
      left', right' := left + 1, right;
    } else {
      StepRight(cmp, s0, temp[..], m, a[..], lo, mid, hi, left, right, k);
      a[k] := temp[right];
      left', right' := left, right + 1;
    }
  }

  /** Taking the head of the right run at k moves the merge loop to k + 1. */
  lemma StepRight<T>(cmp: (T, T) -> int, s0: seq<T>, t: seq<T>, m: seq<T>, s: seq<T>,
                     lo: int, mid: int, hi: int, left: int, right: int, k: int)
    requires MergeState(cmp, s0, t, m, s, lo, mid, hi, left, right, k) && k <= hi
    requires right <= hi && (left > mid || cmp(t[right], t[left]) <= 0)
    ensures MergeState(cmp, s0, t, m, s[k := t[right]], lo, mid, hi, left, right + 1, k + 1)
  {
    MergeTakesRight(cmp, t, m, lo, mid, hi, left, right, k);
    OutputGrows(s0, m, s, lo, k);
  }

  /** Taking the head of the left run at k moves the merge loop to k + 1. */
  lemma StepLeft<T>(cmp: (T, T) -> int, s0: seq<T>, t: seq<T>, m: seq<T>, s: seq<T>,
                    lo: int, mid: int, hi: int, left: int, right: int, k: int)
    requires MergeState(cmp, s0, t, m, s, lo, mid, hi, left, right, k) && k <= hi
    requires left <= mid && (right > hi || cmp(t[right], t[left]) > 0)
    ensures MergeState(cmp, s0, t, m, s[k := t[left]], lo, mid, hi, left + 1, right, k + 1)
  {
    MergeTakesLeft(cmp, t, m, lo, mid, hi, left, right, k);
    OutputGrows(s0, m, s, lo, k);
  }

  /** Copying the element at k into the scratch buffer extends the copied range by one. */
  lemma CopyGrows<T>(t0: seq<T>, s0: seq<T>, t: seq<T>, lo: int, k: int)
    requires 0 <= lo <= k < |t0| && k < |s0|
    requires t == t0[..lo] + s0[lo..k] + t0[k..]
    ensures t[k := s0[k]] == t0[..lo] + s0[lo..k + 1] + t0[k + 1..]
  {
    assert s0[lo..k + 1] == s0[lo..k] + [s0[k]];
  }

  /** One step of the merge loop that takes the next element of the right run. */
  lemma MergeTakesRight<T>(cmp: (T, T) -> int, t: seq<T>, m: seq<T>, lo: int, mid: int, hi: int, left: int, right: int, k: int)
    requires 0 <= lo <= left <= mid + 1 <= right <= hi + 1 <= |t|
    requires lo <= k <= hi && |m| == hi + 1 - lo
    requires Merge(cmp, t[left..mid + 1], t[right..hi + 1]) == m[k - lo..]
    requires right <= hi && (left > mid || cmp(t[right], t[left]) <= 0)
    ensures m[k - lo] == t[right]
    ensures Merge(cmp, t[left..mid + 1], t[right + 1..hi + 1]) == m[k + 1 - lo..]
  {
    var xs, ys := t[left..mid + 1], t[right..hi + 1];
    assert ys == [t[right]] + t[right + 1..hi + 1];
    TakeRight(cmp, m[k - lo..], xs, ys, t[right], t[right + 1..hi + 1]);
    assert m[k - lo..][1..] == m[k + 1 - lo..];
  }

  /** One step of the merge loop that takes the next element of the left run. */
  lemma MergeTakesLeft<T>(cmp: (T, T) -> int, t: seq<T>, m: seq<T>, lo: int, mid: int, hi: int, left: int, right: int, k: int)
    requires 0 <= lo <= left <= mid + 1 <= right <= hi + 1 <= |t|
    requires lo <= k <= hi && |m| == hi + 1 - lo
    requires Merge(cmp, t[left..mid + 1], t[right..hi + 1]) == m[k - lo..]
    requires left <= mid && (right > hi || cmp(t[right], t[left]) > 0)
    ensures m[k - lo] == t[left]
    ensures Merge(cmp, t[left + 1..mid + 1], t[right..hi + 1]) == m[k + 1 - lo..]
  {
    var xs, ys := t[left..mid + 1], t[right..hi + 1];
    assert xs == [t[left]] + t[left + 1..mid + 1];
    TakeLeft(cmp, m[k - lo..], xs, ys, t[left], t[left + 1..mid + 1]);
    assert m[k - lo..][1..] == m[k + 1 - lo..];
  }

  /** Writing the next merged element at k extends the merged prefix by one. */
  lemma OutputGrows<T>(s0: seq<T>, m: seq<T>, s: seq<T>, lo: int, k: int)
    requires 0 <= lo <= k < |s0| && k - lo < |m|
    requires s == s0[..lo] + m[..k - lo] + s0[k..]
    ensures s[k := m[k - lo]] == s0[..lo] + m[..k + 1 - lo] + s0[k + 1..]
  {
    assert m[..k + 1 - lo] == m[..k - lo] + [m[k - lo]];
  }

  /** When the merge of xs and ys starts with the head of ys, the rest is the merge of xs with the rest of ys. */
  lemma TakeRight<T>(cmp: (T, T) -> int, m: seq<T>, xs: seq<T>, ys: seq<T>, y: T, ys': seq<T>)
    requires m == Merge(cmp, xs, ys)
    requires ys == [y] + ys'
    requires xs == [] || cmp(y, xs[0]) <= 0
    ensures m[0] == y && m[1..] == Merge(cmp, xs, ys')
  {
    assert ys[1..] == ys';
    MergeHead(cmp, xs, ys);
  }

  /** When the merge of xs and ys starts with the head of xs, the rest is the merge of the rest of xs with ys. */
  lemma TakeLeft<T>(cmp: (T, T) -> int, m: seq<T>, xs: seq<T>, ys: seq<T>, x: T, xs': seq<T>)
    requires m == Merge(cmp, xs, ys)
    requires xs == [x] + xs'
    requires ys == [] || cmp(ys[0], x) > 0
    ensures m[0] == x && m[1..] == Merge(cmp, xs', ys)
  {
    assert xs[1..] == xs';
    MergeHead(cmp, xs, ys);
  }

  /**
   * Cut into consecutive runs of w elements from the left (the last run may
   * be shorter), every run of s is sorted.
   */
  ghost predicate RunsSorted<T>(cmp: (T, T) -> int, s: seq<T>, w: int)
    requires w >= 1
    decreases |s|
  {
    if |s| <= w then Sorted(cmp, s) else Sorted(cmp, s[..w]) && RunsSorted(cmp, s[w..], w)
  }

  /** s is a whole number of runs of w elements, every one sorted. */
  ghost predicate FullRunsSorted<T>(cmp: (T, T) -> int, s: seq<T>, w: int)
    requires w >= 1
    decreases |s|
  {
    s == [] || (w <= |s| && Sorted(cmp, s[..w]) && FullRunsSorted(cmp, s[w..], w))
  }

  /**
   * RunsSorted read block by block: for every k, the aligned block that starts
   * at b = k * w, s[b .. min(b + w, |s|) - 1], is sorted.
   */
  lemma {:induction false} RunsSortedBlock<T>(cmp: (T, T) -> int, s: seq<T>, w: int, k: nat, b: int)
    requires w >= 1 && RunsSorted(cmp, s, w)
    requires b == k * w && b < |s|
    ensures Sorted(cmp, s[b..if b + w < |s| then b + w else |s|])
    decreases k
  {
    if k == 0 {
      if |s| <= w {
        assert s[0..|s|] == s;
      } else {
        assert s[0..w] == s[..w];
      }
    } else {
      NextBlock(k, w);
      RunsSortedBlock(cmp, s[w..], w, k - 1, b - w);
      BlockOfTail(cmp, s, w, b);
    }
  }

  /** A block of s[w..] is the block of s one run further on. */
  lemma BlockOfTail<T>(cmp: (T, T) -> int, s: seq<T>, w: int, b: int)
    requires 1 <= w <= b < |s|
    requires Sorted(cmp, s[w..][b - w..if b < |s| - w then b else |s| - w])
    ensures Sorted(cmp, s[b..if b + w < |s| then b + w else |s|])
  {
    if b + w < |s| {
      assert s[b..b + w] == s[w..][b - w..b];
    } else {
      forall i | 0 <= i < |s| - b
        ensures s[b..|s|][i] == s[w..][b - w..|s| - w][i]
      {
      }
      assert s[b..|s|] == s[w..][b - w..|s| - w];
    }
  }

  /** Block k starts one run after block k - 1 does. */
  lemma NextBlock(k: int, w: int)
    ensures k * w == (k - 1) * w + w
  {
  }

  /** Runs of one element are always sorted: where the first pass starts. */
  lemma {:induction false} RunsOfOne<T>(cmp: (T, T) -> int, s: seq<T>)
    ensures RunsSorted(cmp, s, 1)
    decreases |s|
  {
    if |s| > 1 {
      RunsOfOne(cmp, s[1..]);
    }
  }

  lemma {:induction false} FullRunsAppend<T>(cmp: (T, T) -> int, s: seq<T>, b: seq<T>, w: int)
    requires w >= 1 && FullRunsSorted(cmp, s, w)
    requires |b| == w && Sorted(cmp, b)
    ensures FullRunsSorted(cmp, s + b, w)
    decreases |s|
  {
    if s == [] {
      assert s + b == b && b[..w] == b && b[w..] == [];
    } else {
      FullRunsAppend(cmp, s[w..], b, w);
      assert (s + b)[..w] == s[..w];
      assert (s + b)[w..] == s[w..] + b;
    }
  }

  lemma {:induction false} FullThenRuns<T>(cmp: (T, T) -> int, s: seq<T>, t: seq<T>, w: int)
    requires w >= 1 && FullRunsSorted(cmp, s, w) && RunsSorted(cmp, t, w)
    ensures RunsSorted(cmp, s + t, w)
    decreases |s|
  {
    if s == [] {
      assert s + t == t;
    } else if |s + t| <= w {
      assert t == [] && s + t == s[..w];
    } else {
      FullThenRuns(cmp, s[w..], t, w);
      assert (s + t)[..w] == s[..w];
      assert (s + t)[w..] == s[w..] + t;
    }
  }

  /**
   * Where the pass with run length len stands before merging at lo: what
   * lies before lo is whole sorted runs of 2len, what lies from lo on is
   * sorted runs of len. lo may pass the end of s after the last merge.
   */
  ghost predicate PassState<T>(cmp: (T, T) -> int, s: seq<T>, lo: int, len: int)
    requires len >= 1
  {
    && 0 <= lo
    && (lo <= |s| ==> FullRunsSorted(cmp, s[..lo], 2 * len) && RunsSorted(cmp, s[lo..], len))
    && (lo > |s| ==> RunsSorted(cmp, s, 2 * len))
  }

  /** A pass starts with s sorted runs of len and nothing merged. */
  lemma PassStart<T>(cmp: (T, T) -> int, s: seq<T>, len: int)
    requires len >= 1 && RunsSorted(cmp, s, len)
    ensures PassState(cmp, s, 0, len)
  {
    assert s[0..] == s;
  }

  /**
   * One call of mergeSortMerge inside the pass with run length len: when
   * s[..lo] is whole sorted runs of 2len and s[lo..] is sorted runs of len,
   * merging the two runs at lo leaves one more sorted run of 2len in front.
   */
  lemma MergePass<T(!new)>(cmp: (T, T) -> int, s: seq<T>, t: seq<T>, lo: int, mid: int, hi: int, len: int)
    requires IsTotalPreorder(cmp)
    requires len >= 1 && 0 <= lo && lo + len < |s|
    requires mid == lo + len - 1
    requires hi == if lo + len + len - 1 < |s| - 1 then lo + len + len - 1 else |s| - 1
    requires PassState(cmp, s, lo, len)
    requires t == s[..lo] + Merge(cmp, s[lo..mid + 1], s[mid + 1..hi + 1]) + s[hi + 1..]
    ensures multiset(t) == multiset(s)
    ensures PassState(cmp, t, lo + 2 * len, len)
  {
    var m := Merge(cmp, s[lo..mid + 1], s[mid + 1..hi + 1]);
    MergeSplice(cmp, s, t, lo, mid, hi);
    MergedRunSorted(cmp, s, lo, mid, hi, len);
    SpliceParts(s, t, lo, hi, m);
    if lo + 2 * len <= |t| {
      FullRunsAppend(cmp, s[..lo], m, 2 * len);
      TwoRuns(cmp, s[lo..], len);
      assert s[hi + 1..] == s[lo..][2 * len..];
    } else {
      FullThenRuns(cmp, s[..lo], m, 2 * len);
    }
  }

  /** The two sides of a splice t == s[..lo] + m + s[hi+1..]. */
  lemma SpliceParts<T>(s: seq<T>, t: seq<T>, lo: int, hi: int, m: seq<T>)
    requires 0 <= lo <= hi + 1 <= |s| && |m| == hi + 1 - lo
    requires t == s[..lo] + m + s[hi + 1..]
    ensures t[..hi + 1] == s[..lo] + m && t[hi + 1..] == s[hi + 1..]
    ensures hi + 1 == |s| ==> t == s[..lo] + m
  {
  }

  /** The two runs that one call merges are sorted, so what it writes back is sorted. */
  lemma MergedRunSorted<T(!new)>(cmp: (T, T) -> int, s: seq<T>, lo: int, mid: int, hi: int, len: int)
    requires IsTotalPreorder(cmp)
    requires len >= 1 && 0 <= lo && lo + len < |s| && mid == lo + len - 1
    requires hi == if lo + len + len - 1 < |s| - 1 then lo + len + len - 1 else |s| - 1
    requires RunsSorted(cmp, s[lo..], len)
    ensures Sorted(cmp, Merge(cmp, s[lo..mid + 1], s[mid + 1..hi + 1]))
  {
    TwoRuns(cmp, s[lo..], len);
    assert s[lo..][..len] == s[lo..mid + 1];
    assert s[lo..][len..hi + 1 - lo] == s[mid + 1..hi + 1];
    MergeSorted(cmp, s[lo..mid + 1], s[mid + 1..hi + 1]);
  }

  /** The first two runs of len in r, and the runs after them. */
  lemma TwoRuns<T>(cmp: (T, T) -> int, r: seq<T>, len: int)
    requires len >= 1 && |r| > len && RunsSorted(cmp, r, len)
    ensures Sorted(cmp, r[..len])
    ensures Sorted(cmp, r[len..if 2 * len < |r| then 2 * len else |r|])
    ensures 2 * len <= |r| ==> RunsSorted(cmp, r[2 * len..], len)
  {
    if |r[len..]| <= len {
      assert r[len..|r|] == r[len..];
      if 2 * len == |r| {
        assert r[2 * len..] == [];
      }
    } else {
      assert r[len..][..len] == r[len..2 * len];
      assert r[len..][len..] == r[2 * len..];
    }
  }

  /** The end of one pass: all of s is sorted runs of 2len. */
  lemma PassDone<T>(cmp: (T, T) -> int, s: seq<T>, lo: int, len: int)
    requires len >= 1 && |s| - len <= lo
    requires PassState(cmp, s, lo, len)
    ensures RunsSorted(cmp, s, 2 * len)
  {
    if lo <= |s| {
      FullThenRuns(cmp, s[..lo], s[lo..], 2 * len);
      assert s[..lo] + s[lo..] == s;
    }
  }

  /**
   * Bottom-up merge sort: for len = 1, 2, 4, ... while len < count, merges
   * each pair of neighbouring runs [lo, lo+len-1] and [lo+len, lo+2len-1]
   * (the second cut at the end of the array), left to right.
   */
  method MergeSort<T(!new)>(a: array<T>, cmp: (T, T) -> int)
    requires IsTotalPreorder(cmp)
    modifies a
    ensures IsSortingOf(cmp, a[..], old(a[..]))
    ensures a.Length <= 1 ==> a[..] == old(a[..])
  {
    var count := a.Length;
    if count <= 1 {
      return;
    }
    var first := a[0];
    var temp := new T[count](_ => first);
    var len := 1;
    RunsOfOne(cmp, a[..]);
    while len < count
      invariant 1 <= len
      invariant multiset(a[..]) == multiset(old(a[..]))
      invariant RunsSorted(cmp, a[..], len)
      decreases count - len
    {
      var lo := 0;
      PassStart(cmp, a[..], len);
      while lo < count - len
        invariant multiset(a[..]) == multiset(old(a[..]))
        invariant PassState(cmp, a[..], lo, len)
        decreases count - lo
      {
        var mid := lo + len - 1;
        var hi := if lo + len + len - 1 < count - 1 then lo + len + len - 1 else count - 1;
        ghost var before := a[..];
        MergeSortMerge(a, temp, lo, mid, hi, cmp);
        MergePass(cmp, before, a[..], lo, mid, hi, len);
        lo := lo + len + len;
      }
      PassDone(cmp, a[..], lo, len);
      len := len * 2;
    }
  }
}
