/**
 * The vocabulary the in-place sorts of sort/main.cpp are specified in: a range
 * of a vector being ascending, two states of a vector agreeing outside a range,
 * and `std::swap` of two elements.
 */
module SortSpec {

  /** `s[lo..hi)` is ascending. */
  ghost predicate SortedBetween(s: seq<int>, lo: int, hi: int)
  {
    0 <= lo <= hi <= |s| && forall i, j :: lo <= i < j < hi ==> s[i] <= s[j]
  }

  ghost predicate Sorted(s: seq<int>)
  {
    SortedBetween(s, 0, |s|)
  }

  /** `a` and `b` differ at most inside `[lo, hi)`. */
  ghost predicate SameOutside(a: seq<int>, b: seq<int>, lo: int, hi: int)
  {
    |a| == |b| && forall k :: 0 <= k < |a| && !(lo <= k < hi) ==> a[k] == b[k]
  }

  function Min(x: int, y: int): int
  {
    if x <= y then x else y
  }

  /** A permutation of the whole vector that leaves everything outside a range
      in place is a permutation of that range. */
  lemma RangeMultiset(a: seq<int>, b: seq<int>, lo: int, hi: int)
    requires 0 <= lo <= hi <= |a|
    requires SameOutside(a, b, lo, hi) && multiset(a) == multiset(b)
    ensures multiset(a[lo..hi]) == multiset(b[lo..hi])
  {
    SplitMultiset(a, lo, hi);
    SplitMultiset(b, lo, hi);
    assert a[..lo] == b[..lo] && a[hi..] == b[hi..];
    Cancel(multiset(a[..lo]), multiset(a[lo..hi]), multiset(b[lo..hi]), multiset(a[hi..]));
  }

  /** The elements of `s` split at `lo` and `hi`. */
  lemma SplitMultiset(s: seq<int>, lo: int, hi: int)
    requires 0 <= lo <= hi <= |s|
    ensures multiset(s) == multiset(s[..lo]) + multiset(s[lo..hi]) + multiset(s[hi..])
  {
    assert s == s[..lo] + s[lo..hi] + s[hi..];
  }

  lemma Cancel(p: multiset<int>, q: multiset<int>, r: multiset<int>, t: multiset<int>)
    requires p + q + t == p + r + t
    ensures q == r
  {
    forall e ensures q[e] == r[e] {
      assert (p + q + t)[e] == (p + r + t)[e];
    }
  }

  /** In such a permutation every value inside the range came from inside it. */
  lemma ValueFromRange(a: seq<int>, b: seq<int>, lo: int, hi: int, k: int)
    requires 0 <= lo <= k < hi <= |a|
    requires SameOutside(a, b, lo, hi) && multiset(a) == multiset(b)
    ensures exists m :: lo <= m < hi && a[m] == b[k]
  {
    RangeMultiset(a, b, lo, hi);
    assert b[k] == b[lo..hi][k - lo];
    assert b[k] in multiset(b[lo..hi]);
    assert b[k] in a[lo..hi];
    var m' :| 0 <= m' < hi - lo && a[lo..hi][m'] == b[k];
    assert a[lo + m'] == b[k];
  }

  lemma SwapMultiset(s: seq<int>, i: int, j: int)
    requires 0 <= i < |s| && 0 <= j < |s|
    ensures multiset(s[i := s[j]][j := s[i]]) == multiset(s)
  {
  }

  /** `std::swap(arr[i], arr[j])`. */
  method Swap(a: array<int>, i: int, j: int)
    requires 0 <= i < a.Length && 0 <= j < a.Length
    modifies a
    ensures a[i] == old(a[j]) && a[j] == old(a[i])
    ensures forall k :: 0 <= k < a.Length && k != i && k != j ==> a[k] == old(a[k])
    ensures multiset(a[..]) == old(multiset(a[..]))
  {
    ghost var before := a[..];
    a[i], a[j] := a[j], a[i];
    assert a[..] == before[i := before[j]][j := before[i]];
    SwapMultiset(before, i, j);
  }
}
