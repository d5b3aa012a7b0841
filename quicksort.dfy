/**
 * Lomuto partition and the quicksort built on it (sort/main.cpp). Ranges are
 * given as in the source, by the inclusive indices `low` and `high`.
 */
module QuickSort {
  import opened SortSpec

  /** `partition(arr, low, high)`: the pivot `arr[high]` ends at the returned index,
      with the smaller elements before it and the others after it. */
  method Partition(a: array<int>, low: int, high: int) returns (p: int)
    requires 0 <= low <= high < a.Length
    modifies a
    ensures low <= p <= high
    ensures a[p] == old(a[high])
    ensures forall k :: low <= k < p ==> a[k] < a[p]
    ensures forall k :: p < k <= high ==> a[k] >= a[p]
    ensures forall k :: 0 <= k < a.Length && !(low <= k <= high) ==> a[k] == old(a[k])
    ensures multiset(a[..]) == old(multiset(a[..]))
  {
    var pivot := a[high];
    var i := low - 1;
    for j := low to high
      invariant low - 1 <= i < j
      invariant a[high] == pivot
      invariant forall k :: low <= k <= i ==> a[k] < pivot
      invariant forall k :: i < k < j ==> a[k] >= pivot
      invariant forall k :: 0 <= k < a.Length && !(low <= k <= high) ==> a[k] == old(a[k])
      invariant multiset(a[..]) == old(multiset(a[..]))
    {
      if a[j] < pivot {
        i := i + 1;
        Swap(a, i, j);
      }
    }
    Swap(a, i + 1, high);
    p := i + 1;
  }

  /** Sorting both sides of a partition sorts the whole range. */
  lemma SortedAroundPivot(a1: seq<int>, a2: seq<int>, a3: seq<int>, low: int, p: int, high: int)
    requires 0 <= low <= p <= high < |a1|
    requires forall k :: low <= k < p ==> a1[k] < a1[p]
    requires forall k :: p < k <= high ==> a1[k] >= a1[p]
    requires SameOutside(a1, a2, low, p) && multiset(a1) == multiset(a2) && SortedBetween(a2, low, p)
    requires SameOutside(a2, a3, p + 1, high + 1) && multiset(a2) == multiset(a3)
    requires SortedBetween(a3, p + 1, high + 1)
    ensures SortedBetween(a3, low, high + 1)
  {
    forall k | low <= k < p ensures a3[k] < a3[p] {
      ValueFromRange(a1, a2, low, p, k);
    }
    forall k | p < k <= high ensures a3[k] >= a3[p] {
      ValueFromRange(a2, a3, p + 1, high + 1, k);
    }
  }

  /** `quickSort(arr, low, high)`: sorts `arr[low..high]`, a permutation that
      touches nothing outside that range; an empty or one-element range is left alone. */
  method QuickSort(a: array<int>, low: int, high: int)
    requires low >= high || (0 <= low && high < a.Length)
    modifies a
    ensures low < high ==> SortedBetween(a[..], low, high + 1)
    ensures forall k :: 0 <= k < a.Length && !(low <= k <= high) ==> a[k] == old(a[k])
    ensures multiset(a[..]) == old(multiset(a[..]))
    decreases high - low
  {
    if low < high {
      var p := Partition(a, low, high);
      ghost var a1 := a[..];
      QuickSort(a, low, p - 1);
      ghost var a2 := a[..];
      QuickSort(a, p + 1, high);
      ghost var a3 := a[..];
      SortedAroundPivot(a1, a2, a3, low, p, high);
    }
  }
}
