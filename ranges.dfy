/**
 * Closed index ranges [lo, hi] of a fixed-length buffer, and what it means for
 * an operation to rearrange one range while leaving the rest of the buffer as
 * it was. `Swap` is the source's private swap helper.
 */
module Ranges {

  /** t is s with the elements of [lo, hi] rearranged and nothing else changed. */
  ghost predicate PermutesRange<T>(s: seq<T>, t: seq<T>, lo: int, hi: int) {
    && |s| == |t|
    && 0 <= lo <= hi + 1 <= |s|
    && s[..lo] == t[..lo]
    && s[hi + 1..] == t[hi + 1..]
    && multiset(s[lo..hi + 1]) == multiset(t[lo..hi + 1])
  }

  lemma PermutesRangeRefl<T>(s: seq<T>, lo: int, hi: int)
    requires 0 <= lo <= hi + 1 <= |s|
    ensures PermutesRange(s, s, lo, hi)
  {
  }

  lemma PermutesRangeTrans<T>(s: seq<T>, t: seq<T>, u: seq<T>, lo: int, hi: int)
    requires PermutesRange(s, t, lo, hi) && PermutesRange(t, u, lo, hi)
    ensures PermutesRange(s, u, lo, hi)
  {
  }

  /** Rearranging one range rearranges the whole buffer. */
  lemma PermutesRangeWhole<T>(s: seq<T>, t: seq<T>, lo: int, hi: int)
    requires PermutesRange(s, t, lo, hi)
    ensures multiset(s) == multiset(t)
  {
    assert s == s[..lo] + s[lo..hi + 1] + s[hi + 1..];
    assert t == t[..lo] + t[lo..hi + 1] + t[hi + 1..];
  }

  /**
   * Where the element now at k came from: somewhere in the range when k is in
   * the range, k itself otherwise.
   */
  lemma PermutesRangeFrom<T>(s: seq<T>, t: seq<T>, lo: int, hi: int, k: int) returns (k': int)
    requires PermutesRange(s, t, lo, hi)
    requires 0 <= k < |t|
    ensures 0 <= k' < |s| && t[k] == s[k']
    ensures lo <= k <= hi ==> lo <= k' <= hi
    ensures !(lo <= k <= hi) ==> k' == k
  {
    if k < lo {
      assert t[k] == t[..lo][k] && s[k] == s[..lo][k];
      k' := k;
    } else if hi < k {
      assert t[k] == t[hi + 1..][k - hi - 1] && s[k] == s[hi + 1..][k - hi - 1];
      k' := k;
    } else {
      assert t[k] == t[lo..hi + 1][k - lo];
      assert t[k] in multiset(s[lo..hi + 1]);
      var i :| 0 <= i < hi + 1 - lo && s[lo..hi + 1][i] == t[k];
      k' := lo + i;
    }
  }

  /** Exchanges two elements of the buffer. */
  method Swap<T>(a: array<T>, i: int, j: int)
    requires 0 <= i < a.Length && 0 <= j < a.Length
    modifies a
    ensures a[..] == old(a[..])[i := old(a[j])][j := old(a[i])]
    ensures a[i] == old(a[j]) && a[j] == old(a[i])
    ensures forall k :: 0 <= k < a.Length && k != i && k != j ==> a[k] == old(a[k])
  {
    var tmp := a[i];
    a[i] := a[j];
    a[j] := tmp;
  }

  lemma SwapMultiset<T>(r: seq<T>, i: int, j: int)
    requires 0 <= i < |r| && 0 <= j < |r|
    ensures multiset(r[i := r[j]][j := r[i]]) == multiset(r)
  {
  }

  /** A swap inside [lo, hi] rearranges that range. */
  lemma SwapPermutesRange<T>(s: seq<T>, i: int, j: int, lo: int, hi: int)
    requires 0 <= lo <= i <= hi < |s| && lo <= j <= hi
    ensures PermutesRange(s, s[i := s[j]][j := s[i]], lo, hi)
  {
    var t := s[i := s[j]][j := s[i]];
    var r := s[lo..hi + 1];
    assert t[lo..hi + 1] == r[i - lo := r[j - lo]][j - lo := r[i - lo]];
    SwapMultiset(r, i - lo, j - lo);
    assert s[..lo] == t[..lo];
    assert s[hi + 1..] == t[hi + 1..];
  }

  /** A swap inside [lo, hi] after a rearrangement of it is still a rearrangement of it. */
  lemma SwapAfterPermutesRange<T>(s0: seq<T>, s: seq<T>, i: int, j: int, lo: int, hi: int)
    requires PermutesRange(s0, s, lo, hi)
    requires lo <= i <= hi && lo <= j <= hi
    ensures PermutesRange(s0, s[i := s[j]][j := s[i]], lo, hi)
  {
    SwapPermutesRange(s, i, j, lo, hi);
    PermutesRangeTrans(s0, s, s[i := s[j]][j := s[i]], lo, hi);
  }
}
