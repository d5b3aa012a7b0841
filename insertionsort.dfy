/**
 * The three insertion sorts of sort/main.cpp. Each outer step takes `key = arr[i]`
 * and puts it after the last element of the prefix `arr[0..i)` that is not above
 * it; the three differ only in how that slot is found (a guarded right-to-left
 * scan, a binary search, a scan stopped by a sentinel minimum at `arr[0]`).
 */
module InsertionSort {
  import opened SortSpec

  /** Where the right-to-left scan `while (j >= 0 && arr[j] > key) j--;` stops,
      plus one: every element from there on is above `key`, the one before it is not. */
  function UpperBound(s: seq<int>, key: int): (p: nat)
    ensures p <= |s|
    ensures forall k :: p <= k < |s| ==> s[k] > key
    ensures p > 0 ==> s[p - 1] <= key
    decreases |s|
  {
    if |s| == 0 then 0
    else if s[|s| - 1] > key then UpperBound(s[..|s| - 1], key)
    else |s|
  }

  /** The slot is determined by those two facts. */
  lemma {:induction false} UpperBoundAt(s: seq<int>, key: int, p: int)
    requires 0 <= p <= |s|
    requires p == 0 || s[p - 1] <= key
    requires forall k :: p <= k < |s| ==> s[k] > key
    ensures UpperBound(s, key) == p
    decreases |s|
  {
    if p < |s| {
      UpperBoundAt(s[..|s| - 1], key, p);
    }
  }

  /** `s` with `key` inserted at the slot the scan finds. */
  function Inserted(s: seq<int>, key: int): seq<int>
  {
    var p := UpperBound(s, key);
    s[..p] + [key] + s[p..]
  }

  /** Insertion adds exactly one `key` to the elements. */
  lemma InsertedMultiset(s: seq<int>, key: int)
    ensures multiset(Inserted(s, key)) == multiset(s) + multiset{key}
  {
    var p := UpperBound(s, key);
    assert s == s[..p] + s[p..];
  }

  /** Insertion into an ascending sequence keeps it ascending, and the
      elements before `key` are exactly those of the sequence that are not above it. */
  lemma InsertedSorted(s: seq<int>, key: int)
    requires Sorted(s)
    ensures Sorted(Inserted(s, key))
    ensures forall k :: 0 <= k < UpperBound(s, key) ==> s[k] <= key
  {
    var p := UpperBound(s, key);
    var r := Inserted(s, key);
    forall k | 0 <= k < p ensures s[k] <= key {
      assert s[k] <= s[p - 1];
    }
    forall x, y | 0 <= x < y < |r| ensures r[x] <= r[y] {
      InsertedAt(s, key, x);
      InsertedAt(s, key, y);
      if y < p {
        assert s[x] <= s[y];
      } else if x > p {
        assert s[x - 1] <= s[y - 1];
      } else if x < p && y > p {
        assert s[x] <= s[y - 1];
      }
    }
  }

  /** The element at each slot after insertion. */
  lemma InsertedAt(s: seq<int>, key: int, k: int)
    requires 0 <= k <= |s|
    ensures var p := UpperBound(s, key);
      Inserted(s, key)[k] == if k < p then s[k] else if k == p then key else s[k - 1]
  {
  }

  /** Insertion behind an element that is not above `key` keeps the first element. */
  lemma InsertedFirst(s: seq<int>, key: int)
    requires |s| > 0 && s[0] <= key
    ensures Inserted(s, key)[0] == s[0]
  {
    var p := UpperBound(s, key);
    assert p != 0 by {
      if p == 0 {
        assert false;
      }
    }
  }

  /** One outer step of `insertionSort` (sort/main.cpp): shift the elements above
      `key` one slot right, then store `key` in the hole. */
  method ScanInsert(a: array<int>, i: int)
    requires 0 < i < a.Length
    modifies a
    ensures a[..] == Inserted(old(a[..i]), old(a[i])) + old(a[i + 1..])
  {
    ghost var s := a[..];
    var key := a[i];
    var j := i - 1;
    while j >= 0 && a[j] > key
      invariant -1 <= j < i
      invariant forall k :: 0 <= k <= j ==> a[k] == s[k]
      invariant forall k :: j + 2 <= k <= i ==> a[k] == s[k - 1]
      invariant forall k :: i < k < a.Length ==> a[k] == s[k]
      invariant forall k :: j < k < i ==> s[k] > key
      decreases j
    {
      a[j + 1] := a[j];
      j := j - 1;
    }
    UpperBoundAt(s[..i], key, j + 1);
    a[j + 1] := key;
    Placed(a[..], s, i, j + 1);
  }

  /** The array after a step: the prefix below the slot kept, `key` in the slot,
      the rest of the prefix one slot right, everything after `i` kept. */
  lemma Placed(t: seq<int>, s: seq<int>, i: int, p: int)
    requires 0 < i < |s| && |t| == |s| && p == UpperBound(s[..i], s[i])
    requires forall k :: 0 <= k < p ==> t[k] == s[k]
    requires t[p] == s[i]
    requires forall k :: p < k <= i ==> t[k] == s[k - 1]
    requires forall k :: i < k < |s| ==> t[k] == s[k]
    ensures t == Inserted(s[..i], s[i]) + s[i + 1..]
  {
    var r := Inserted(s[..i], s[i]) + s[i + 1..];
    assert |r| == |t|;
    forall k | 0 <= k < |t| ensures t[k] == r[k] {
      if k < p {
      } else if k == p {
      } else if k <= i {
        assert r[k] == s[..i][k - 1];
      } else {
        assert r[k] == s[i + 1..][k - i - 1];
      }
    }
  }

  /** A step leaves the first `i + 1` slots ascending and the elements as they were. */
  lemma StepSorted(s: seq<int>, t: seq<int>, i: int)
    requires 0 <= i < |s| && SortedBetween(s, 0, i)
    requires t == Inserted(s[..i], s[i]) + s[i + 1..]
    ensures SortedBetween(t, 0, i + 1)
    ensures multiset(t) == multiset(s)
  {
    SortedSlice(s, i);
    InsertedSorted(s[..i], s[i]);
    InsertedMultiset(s[..i], s[i]);
    var r := Inserted(s[..i], s[i]);
    assert t[..i + 1] == r;
    assert s == s[..i] + [s[i]] + s[i + 1..];
    SortedSlice(t, i + 1);
  }

  /** `SortedBetween(s, 0, n)` is `Sorted` of the prefix of length `n`. */
  lemma SortedSlice(s: seq<int>, n: int)
    requires 0 <= n <= |s|
    ensures SortedBetween(s, 0, n) <==> Sorted(s[..n])
  {
    assert forall k :: 0 <= k < n ==> s[..n][k] == s[k];
  }

  /** The outer loop of `insertionSort`, run on the function's own copy of the vector. */
  method ScanSortInPlace(a: array<int>)
    modifies a
    ensures Sorted(a[..])
    ensures multiset(a[..]) == old(multiset(a[..]))
  {
    var n := a.Length;
    var i := 1;
    while i < n
      invariant 1 <= i && (i <= n || n == 0)
      invariant n == 0 || SortedBetween(a[..], 0, i)
      invariant multiset(a[..]) == old(multiset(a[..]))
    {
      ghost var s := a[..];
      ScanInsert(a, i);
      StepSorted(s, a[..], i);
      i := i + 1;
    }
  }

  /** `insertionSort(vector<int> arr)`: the vector is taken BY VALUE, so the caller's
      vector is never changed; `local` is the state of the function's own copy when it
      returns, an ascending permutation of `arr`. */
  method InsertionSort(arr: seq<int>) returns (local: seq<int>)
    ensures Sorted(local)
    ensures multiset(local) == multiset(arr)
  {
    var b := new int[|arr|](k requires 0 <= k < |arr| => arr[k]);
    assert b[..] == arr;
    ScanSortInPlace(b);
    local := b[..];
  }

  /** A caller passing its vector to `insertionSort` sees it unchanged. */
  method CallInsertionSort(a: array<int>) returns (local: seq<int>)
    ensures a[..] == old(a[..])
    ensures Sorted(local) && multiset(local) == multiset(a[..])
  {
    local := InsertionSort(a[..]);
  }

  /** The binary search of `insertionSortBinary` over an ascending prefix
      `a[0..i)`: the first slot whose element is above `key`. */
  method UpperBoundSearch(a: array<int>, i: int, key: int) returns (left: int)
    requires 0 <= i <= a.Length && SortedBetween(a[..], 0, i)
    ensures left == UpperBound(a[..i], key)
  {
    left := 0;
    var right := i - 1;
    while left <= right
      invariant 0 <= left <= right + 1 <= i
      invariant forall k :: 0 <= k < left ==> a[k] <= key
      invariant forall k :: right < k < i ==> a[k] > key
    {
      var mid := left + (right - left) / 2;
      if a[mid] > key {
        right := mid - 1;
      } else {
        left := mid + 1;
      }
    }
    UpperBoundAt(a[..i], key, left);
  }

  /** One outer step of `insertionSortBinary`: find the slot, shift `a[left..i)` one
      slot right, store `key`. */
  method BinaryInsert(a: array<int>, i: int)
    requires 0 < i < a.Length && SortedBetween(a[..], 0, i)
    modifies a
    ensures a[..] == Inserted(old(a[..i]), old(a[i])) + old(a[i + 1..])
  {
    ghost var s := a[..];
    var key := a[i];
    var left := UpperBoundSearch(a, i, key);
    var j := i - 1;
    while j >= left
      invariant left - 1 <= j < i
      invariant forall k :: 0 <= k <= j ==> a[k] == s[k]
      invariant forall k :: j + 2 <= k <= i ==> a[k] == s[k - 1]
      invariant forall k :: i < k < a.Length ==> a[k] == s[k]
      decreases j
    {
      a[j + 1] := a[j];
      j := j - 1;
    }
    a[left] := key;
    Placed(a[..], s, i, left);
  }

  /** `insertionSortBinary(arr)`: leaves the vector ascending, a permutation of its input. */
  method InsertionSortBinary(a: array<int>)
    modifies a
    ensures Sorted(a[..])
    ensures multiset(a[..]) == old(multiset(a[..]))
  {
    var n := a.Length;
    var i := 1;
    while i < n
      invariant 1 <= i && (i <= n || n == 0)
      invariant n == 0 || SortedBetween(a[..], 0, i)
      invariant multiset(a[..]) == old(multiset(a[..]))
    {
      ghost var s := a[..];
      BinaryInsert(a, i);
      StepSorted(s, a[..], i);
      i := i + 1;
    }
  }

  /** The first loop of `insertionSortWithSentinel`: the index of the first least element. */
  method MinIndex(a: array<int>) returns (m: int)
    requires a.Length > 0
    ensures 0 <= m < a.Length
    ensures forall k :: 0 <= k < a.Length ==> a[m] <= a[k]
    ensures forall k :: 0 <= k < m ==> a[k] > a[m]
  {
    m := 0;
    var i := 1;
    while i < a.Length
      invariant 1 <= i <= a.Length && 0 <= m < i
      invariant forall k :: 0 <= k < i ==> a[m] <= a[k]
      invariant forall k :: 0 <= k < m ==> a[k] > a[m]
    {
      if a[i] < a[m] {
        m := i;
      }
      i := i + 1;
    }
  }

  /** One outer step of `insertionSortWithSentinel`: the scan has no `j >= 0` test,
      and `a[0] <= key` is what keeps every `a[j]` it reads inside the vector. */
  method SentinelInsert(a: array<int>, i: int)
    requires 0 < i < a.Length && a[0] <= a[i]
    modifies a
    ensures a[..] == Inserted(old(a[..i]), old(a[i])) + old(a[i + 1..])
  {
    ghost var s := a[..];
    var key := a[i];
    var j := i - 1;
    while a[j] > key
      invariant 0 <= j < i
      invariant forall k :: 0 <= k <= j ==> a[k] == s[k]
      invariant forall k :: j + 2 <= k <= i ==> a[k] == s[k - 1]
      invariant forall k :: i < k < a.Length ==> a[k] == s[k]
      invariant forall k :: j < k < i ==> s[k] > key
      decreases j
    {
      a[j + 1] := a[j];
      j := j - 1;
    }
    UpperBoundAt(s[..i], key, j + 1);
    a[j + 1] := key;
    Placed(a[..], s, i, j + 1);
  }

  /** Every element of `s` is at least `m`. */
  ghost predicate AllAtLeast(s: seq<int>, m: int)
  {
    forall k :: 0 <= k < |s| ==> m <= s[k]
  }

  lemma AtLeastPermutation(s: seq<int>, t: seq<int>, m: int)
    requires AllAtLeast(s, m) && multiset(s) == multiset(t)
    ensures AllAtLeast(t, m)
  {
    forall k | 0 <= k < |t| ensures m <= t[k] {
      assert t[k] in multiset(t);
      assert t[k] in s;
    }
  }

  /** A sentinel step keeps the least element at slot 0. */
  lemma SentinelStep(s: seq<int>, t: seq<int>, i: int)
    requires 0 < i < |s| && SortedBetween(s, 0, i) && AllAtLeast(s, s[0])
    requires t == Inserted(s[..i], s[i]) + s[i + 1..]
    ensures SortedBetween(t, 0, i + 1) && multiset(t) == multiset(s)
    ensures t[0] == s[0] && AllAtLeast(t, t[0])
  {
    StepSorted(s, t, i);
    InsertedFirst(s[..i], s[i]);
    AtLeastPermutation(s, t, s[0]);
  }

  /** `insertionSortWithSentinel(arr)`: swaps a least element to the front, then
      insertion-sorts from slot 2 on; leaves the vector ascending, a permutation. */
  method InsertionSortWithSentinel(a: array<int>)
    modifies a
    ensures Sorted(a[..])
    ensures multiset(a[..]) == old(multiset(a[..]))
  {
    var n := a.Length;
    if n <= 1 {
      return;
    }
    var minIndex := MinIndex(a);
    Swap(a, 0, minIndex);
    assert AllAtLeast(a[..], a[0]);
    var i := 2;
    while i < n
      invariant 2 <= i <= n
      invariant SortedBetween(a[..], 0, i) && AllAtLeast(a[..], a[0])
      invariant multiset(a[..]) == old(multiset(a[..]))
    {
      ghost var s := a[..];
      SentinelInsert(a, i);
      SentinelStep(s, a[..], i);
      i := i + 1;
    }
  }
}
