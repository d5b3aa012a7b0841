/**
 * The merge sorts of sort/main.cpp: the top-down `merge`/`mergeHelper`/`mergeSort`
 * and the two bottom-up variants. Every merge loop is specified by `Merged`, the
 * merge of two sequences as a function, which differs between the variants
 * only in which side wins a tie.
 */
module MergeSort {
  import opened SortSpec

  /** Merging `xs` and `ys` by repeatedly taking the smaller head; on equal heads
      the left one is taken when `leftOnTie` (a `<=` test), the right one otherwise
      (a `<` test). */
  function Merged(xs: seq<int>, ys: seq<int>, leftOnTie: bool): (r: seq<int>)
    ensures |r| == |xs| + |ys|
    decreases |xs| + |ys|
  {
    if xs == [] then ys
    else if ys == [] then xs
    else if xs[0] < ys[0] || (leftOnTie && xs[0] == ys[0]) then [xs[0]] + Merged(xs[1..], ys, leftOnTie)
    else [ys[0]] + Merged(xs, ys[1..], leftOnTie)
  }

  /** A merge holds exactly the elements of its two inputs. */
  lemma {:induction false} MergedMultiset(xs: seq<int>, ys: seq<int>, leftOnTie: bool)
    ensures multiset(Merged(xs, ys, leftOnTie)) == multiset(xs) + multiset(ys)
    decreases |xs| + |ys|
  {
    if xs != [] && ys != [] {
      if xs[0] < ys[0] || (leftOnTie && xs[0] == ys[0]) {
        MergedMultiset(xs[1..], ys, leftOnTie);
        ConsMultiset(xs, Merged(xs[1..], ys, leftOnTie), multiset(ys));
      } else {
        MergedMultiset(xs, ys[1..], leftOnTie);
        ConsMultiset(ys, Merged(xs, ys[1..], leftOnTie), multiset(xs));
      }
    }
  }

  /** Putting the head of `zs` back in front of a sequence holding the rest of
      `zs` and `other`. */
  lemma ConsMultiset(zs: seq<int>, rest: seq<int>, other: multiset<int>)
    requires zs != [] && multiset(rest) == multiset(zs[1..]) + other
    ensures multiset([zs[0]] + rest) == multiset(zs) + other
  {
    assert zs == [zs[0]] + zs[1..];
  }

  /** A lower bound of both inputs bounds their merge. */
  lemma {:induction false} MergedAtLeast(xs: seq<int>, ys: seq<int>, leftOnTie: bool, v: int)
    requires forall k :: 0 <= k < |xs| ==> v <= xs[k]
    requires forall k :: 0 <= k < |ys| ==> v <= ys[k]
    ensures forall k :: 0 <= k < |Merged(xs, ys, leftOnTie)| ==> v <= Merged(xs, ys, leftOnTie)[k]
    decreases |xs| + |ys|
  {
    if xs != [] && ys != [] {
      if xs[0] < ys[0] || (leftOnTie && xs[0] == ys[0]) {
        MergedAtLeast(xs[1..], ys, leftOnTie, v);
      } else {
        MergedAtLeast(xs, ys[1..], leftOnTie, v);
      }
    }
  }

  lemma SortedCons(x: int, rest: seq<int>)
    requires Sorted(rest)
    requires forall k :: 0 <= k < |rest| ==> x <= rest[k]
    ensures Sorted([x] + rest)
  {
    var s := [x] + rest;
    forall i, j | 0 <= i < j < |s| ensures s[i] <= s[j] {
      if i > 0 {
        assert s[i] == rest[i - 1] && s[j] == rest[j - 1];
      }
    }
  }

  /** The merge of two ascending sequences is ascending. */
  lemma {:induction false} MergedSorted(xs: seq<int>, ys: seq<int>, leftOnTie: bool)
    requires Sorted(xs) && Sorted(ys)
    ensures Sorted(Merged(xs, ys, leftOnTie))
    decreases |xs| + |ys|
  {
    if xs != [] && ys != [] {
      if xs[0] < ys[0] || (leftOnTie && xs[0] == ys[0]) {
        MergedSorted(xs[1..], ys, leftOnTie);
        MergedAtLeast(xs[1..], ys, leftOnTie, xs[0]);
        SortedCons(xs[0], Merged(xs[1..], ys, leftOnTie));
      } else {
        MergedSorted(xs, ys[1..], leftOnTie);
        MergedAtLeast(xs, ys[1..], leftOnTie, ys[0]);
        SortedCons(ys[0], Merged(xs, ys[1..], leftOnTie));
      }
    }
  }

  /** The merge of `xs[i..]` and `ys[j..]`, by indices. */
  function MergeFrom(xs: seq<int>, ys: seq<int>, i: nat, j: nat, leftOnTie: bool): seq<int>
    requires i <= |xs| && j <= |ys|
    decreases |xs| - i + |ys| - j
  {
    if i == |xs| then ys[j..]
    else if j == |ys| then xs[i..]
    else if xs[i] < ys[j] || (leftOnTie && xs[i] == ys[j]) then [xs[i]] + MergeFrom(xs, ys, i + 1, j, leftOnTie)
    else [ys[j]] + MergeFrom(xs, ys, i, j + 1, leftOnTie)
  }

  /** The index form agrees with `Merged` on the remaining slices. */
  lemma {:induction false} MergeFromIsMerged(xs: seq<int>, ys: seq<int>, i: nat, j: nat, leftOnTie: bool)
    requires i <= |xs| && j <= |ys|
    ensures MergeFrom(xs, ys, i, j, leftOnTie) == Merged(xs[i..], ys[j..], leftOnTie)
    decreases |xs| - i + |ys| - j
  {
    var rx, ry := xs[i..], ys[j..];
    if i < |xs| && j < |ys| {
      assert rx[0] == xs[i] && rx[1..] == xs[i + 1..];
      assert ry[0] == ys[j] && ry[1..] == ys[j + 1..];
      if xs[i] < ys[j] || (leftOnTie && xs[i] == ys[j]) {
        MergeFromIsMerged(xs, ys, i + 1, j, leftOnTie);
      } else {
        MergeFromIsMerged(xs, ys, i, j + 1, leftOnTie);
      }
    }
  }

  lemma AppendAssoc(a: seq<int>, b: seq<int>, c: seq<int>)
    ensures (a + b) + c == a + (b + c)
  {
  }

  /** The loop that copies what is left of one run, `zs[k..]`, to the buffer. */
  method CopyRest(out: seq<int>, zs: seq<int>, k: int) returns (res: seq<int>)
    requires 0 <= k <= |zs|
    ensures res == out + zs[k..]
  {
    res := out;
    var i := k;
    while i < |zs|
      invariant k <= i <= |zs|
      invariant res == out + zs[k..i]
    {
      assert zs[k..i + 1] == zs[k..i] + [zs[i]];
      res := res + [zs[i]];
      i := i + 1;
    }
  }

  /** The three loops of a merge, filling the output buffer front to back: while
      both runs have elements take the smaller head, then copy what is left of the
      left run, then of the right run. */
  method MergeRuns(xs: seq<int>, ys: seq<int>, leftOnTie: bool) returns (out: seq<int>)
    ensures out == Merged(xs, ys, leftOnTie)
  {
    ghost var goal := MergeFrom(xs, ys, 0, 0, leftOnTie);
    var i, j := 0, 0;
    out := [];
    while i < |xs| && j < |ys|
      invariant 0 <= i <= |xs| && 0 <= j <= |ys|
      invariant out + MergeFrom(xs, ys, i, j, leftOnTie) == goal
    {
      if xs[i] < ys[j] || (leftOnTie && xs[i] == ys[j]) {
        assert MergeFrom(xs, ys, i, j, leftOnTie) == [xs[i]] + MergeFrom(xs, ys, i + 1, j, leftOnTie);
        AppendAssoc(out, [xs[i]], MergeFrom(xs, ys, i + 1, j, leftOnTie));
        out := out + [xs[i]];
        i := i + 1;
      } else {
        assert MergeFrom(xs, ys, i, j, leftOnTie) == [ys[j]] + MergeFrom(xs, ys, i, j + 1, leftOnTie);
        AppendAssoc(out, [ys[j]], MergeFrom(xs, ys, i, j + 1, leftOnTie));
        out := out + [ys[j]];
        j := j + 1;
      }
    }
    ghost var done := out;
    assert MergeFrom(xs, ys, i, j, leftOnTie) == xs[i..] + ys[j..];
    out := CopyRest(out, xs, i);
    out := CopyRest(out, ys, j);
    AppendAssoc(done, xs[i..], ys[j..]);
    MergeFromIsMerged(xs, ys, 0, 0, leftOnTie);
    assert xs[0..] == xs && ys[0..] == ys;
  }

  /** Copies `buf` into `a` from index `at` on; the copy-back loops of the merges. */
  method Store(a: array<int>, at: int, buf: seq<int>)
    requires 0 <= at && at + |buf| <= a.Length
    modifies a
    ensures a[at..at + |buf|] == buf
    ensures forall k :: 0 <= k < a.Length && !(at <= k < at + |buf|) ==> a[k] == old(a[k])
  {
    for p := 0 to |buf|
      invariant forall q :: 0 <= q < p ==> a[at + q] == buf[q]
      invariant forall k :: 0 <= k < a.Length && !(at <= k < at + p) ==> a[k] == old(a[k])
    {
      a[at + p] := buf[p];
    }
    assert a[at..at + |buf|] == buf;
  }

  /** A range of `s` is ascending exactly when its slice is. */
  lemma SortedSlice(s: seq<int>, lo: int, hi: int)
    requires 0 <= lo <= hi <= |s|
    ensures SortedBetween(s, lo, hi) <==> Sorted(s[lo..hi])
  {
    if Sorted(s[lo..hi]) {
      forall i, j | lo <= i < j < hi ensures s[i] <= s[j] {
        assert s[i] == s[lo..hi][i - lo] && s[j] == s[lo..hi][j - lo];
      }
    }
  }

  /** Replacing a range by a permutation of it permutes the whole vector. */
  lemma ReplaceRange(before: seq<int>, after: seq<int>, lo: int, hi: int)
    requires 0 <= lo <= hi <= |before|
    requires SameOutside(before, after, lo, hi)
    requires multiset(after[lo..hi]) == multiset(before[lo..hi])
    ensures multiset(after) == multiset(before)
  {
    assert after[..lo] == before[..lo] by {
      forall k | 0 <= k < lo ensures after[..lo][k] == before[..lo][k] {
        assert after[k] == before[k];
      }
    }
    assert after[hi..] == before[hi..] by {
      forall k | 0 <= k < |before| - hi ensures after[hi..][k] == before[hi..][k] {
        assert after[hi + k] == before[hi + k];
      }
    }
    assert before == before[..lo] + before[lo..hi] + before[hi..];
    assert after == after[..lo] + after[lo..hi] + after[hi..];
  }

  /** What copying the merge of `before[lo..mid)` and `before[mid..hi)` back over
      that range yields. */
  lemma MergeBack(before: seq<int>, after: seq<int>, lo: int, mid: int, hi: int, leftOnTie: bool)
    requires 0 <= lo <= mid <= hi <= |before|
    requires SameOutside(before, after, lo, hi)
    requires after[lo..hi] == Merged(before[lo..mid], before[mid..hi], leftOnTie)
    ensures multiset(after) == multiset(before)
    ensures SortedBetween(before, lo, mid) && SortedBetween(before, mid, hi) ==> SortedBetween(after, lo, hi)
  {
    var xs, ys := before[lo..mid], before[mid..hi];
    MergedMultiset(xs, ys, leftOnTie);
    assert before[lo..hi] == xs + ys;
    ReplaceRange(before, after, lo, hi);
    if SortedBetween(before, lo, mid) && SortedBetween(before, mid, hi) {
      SortedSlice(before, lo, mid);
      SortedSlice(before, mid, hi);
      MergedSorted(xs, ys, leftOnTie);
      SortedSlice(after, lo, hi);
    }
  }

  /** `merge(arr, low, mid, high)`: merges `arr[low..mid]` and `arr[mid+1..high]`
      (inclusive bounds) through a buffer, taking the right element on ties, and
      copies the buffer back. */
  method Merge(a: array<int>, low: int, mid: int, high: int)
    requires 0 <= low <= mid + 1 <= high + 1 <= a.Length
    modifies a
    ensures a[low..high + 1] == Merged(old(a[low..mid + 1]), old(a[mid + 1..high + 1]), false)
    ensures forall k :: 0 <= k < a.Length && !(low <= k <= high) ==> a[k] == old(a[k])
    ensures multiset(a[..]) == old(multiset(a[..]))
    ensures SortedBetween(old(a[..]), low, mid + 1) && SortedBetween(old(a[..]), mid + 1, high + 1) ==>
              SortedBetween(a[..], low, high + 1)
  {
    ghost var before := a[..];
    var xs, ys := a[low..mid + 1], a[mid + 1..high + 1];
    var tmp := MergeRuns(xs, ys, false);
    Store(a, low, tmp);
    MergeBack(before, a[..], low, mid + 1, high + 1, false);
  }

  /** A sorted range stays sorted when the vector only changed elsewhere. */
  lemma SortedBetweenFrame(s: seq<int>, t: seq<int>, lo: int, hi: int)
    requires SortedBetween(s, lo, hi) && |s| == |t|
    requires forall k :: lo <= k < hi ==> s[k] == t[k]
    ensures SortedBetween(t, lo, hi)
  {
  }

  /** `mergeHelper(arr, low, high)`: sorts `arr[low..high]` (inclusive), a
      permutation that touches nothing outside that range. */
  method MergeHelper(a: array<int>, low: int, high: int)
    requires low >= high || (0 <= low && high < a.Length)
    modifies a
    ensures low < high ==> SortedBetween(a[..], low, high + 1)
    ensures forall k :: 0 <= k < a.Length && !(low <= k <= high) ==> a[k] == old(a[k])
    ensures multiset(a[..]) == old(multiset(a[..]))
    decreases high - low
  {
    if low >= high {
      return;
    }
    var mid := low + (high - low) / 2;
    MergeHelper(a, low, mid);
    ghost var a1 := a[..];
    MergeHelper(a, mid + 1, high);
    ghost var a2 := a[..];
    if low < mid {
      SortedBetweenFrame(a1, a2, low, mid + 1);
    }
    Merge(a, low, mid, high);
  }

  /** `mergeSort(arr)`: `mergeHelper(arr, 0, arr.size() - 1)`; for an empty vector
      the upper bound is -1 and nothing happens. */
  method MergeSort(a: array<int>)
    modifies a
    ensures Sorted(a[..])
    ensures multiset(a[..]) == old(multiset(a[..]))
  {
    MergeHelper(a, 0, a.Length - 1);
  }

  /** Run `m` of width `w` of `s`, the range from `m * w` to `min(m * w + w, |s|)`,
      is ascending; a run starting past the end is empty. */
  ghost predicate RunSorted(s: seq<int>, m: nat, w: nat)
  {
    m * w >= |s| || SortedBetween(s, m * w, Min(m * w + w, |s|))
  }

  /** Every run of width `w` is ascending: the state between two passes of a
      bottom-up merge sort. */
  ghost predicate RunsSorted(s: seq<int>, w: nat)
  {
    forall m: nat :: RunSorted(s, m, w)
  }

  /** The first `blk` runs of width `w` are ascending. */
  ghost predicate RunsBelow(s: seq<int>, blk: nat, w: nat)
  {
    forall m: nat :: m < blk ==> RunSorted(s, m, w)
  }

  /** Before the first pass every run of width 1 is trivially ascending. */
  lemma SingletonRuns(s: seq<int>)
    ensures RunsSorted(s, 1)
  {
    forall m: nat ensures RunSorted(s, m, 1) {
      assert m * 1 == m;
    }
  }

  /** Once the width covers the whole vector, the single run is all of it. */
  lemma OneRun(s: seq<int>, w: nat)
    requires w >= |s| && RunsSorted(s, w)
    ensures Sorted(s)
  {
    assert RunSorted(s, 0, w);
    assert 0 * w == 0;
  }

  /** Runs `2 * blk` and `2 * blk + 1` of width `h` make up run `blk` of width `2 * h`. */
  lemma RunStarts(blk: nat, h: nat)
    ensures (2 * blk) * h == blk * (2 * h)
    ensures (2 * blk + 1) * h == blk * (2 * h) + h
  {
  }

  lemma {:induction false} RunsBefore(m: nat, blk: nat, w: nat)
    requires m < blk
    ensures m * w + w <= blk * w
    decreases blk
  {
    if m + 1 < blk {
      RunsBefore(m, blk - 1, w);
      assert (blk - 1) * w + w == blk * w;
    } else {
      assert (m + 1) * w == m * w + w;
    }
  }

  /** The two halves a pass merges for block `blk` are runs of the previous width,
      hence ascending. */
  lemma HalvesSorted(src: seq<int>, blk: nat, h: nat, left: int, mid: int, right: int)
    requires RunsSorted(src, h)
    requires left == blk * (2 * h) && left < |src|
    requires mid == Min(left + h, |src|) && right == Min(left + 2 * h, |src|)
    ensures SortedBetween(src, left, mid) && SortedBetween(src, mid, right)
  {
    RunStarts(blk, h);
    assert RunSorted(src, 2 * blk, h);
    assert RunSorted(src, 2 * blk + 1, h);
  }

  /** One merge of a pass: writing the merge of block `blk`'s halves of `src` over
      that block of `s` extends the ascending runs of width `2 * h` by one. */
  lemma PassStep(src: seq<int>, s: seq<int>, t: seq<int>, blk: nat, h: nat,
                 left: int, mid: int, right: int, leftOnTie: bool)
    requires left == blk * (2 * h) && 0 <= left <= mid <= right <= |src|
    requires SortedBetween(src, left, mid) && SortedBetween(src, mid, right)
    requires right == Min(left + 2 * h, |src|) && |s| == |src|
    requires RunsBelow(s, blk, 2 * h)
    requires SameOutside(s, t, left, right)
    requires t[left..right] == Merged(src[left..mid], src[mid..right], leftOnTie)
    ensures RunsBelow(t, blk + 1, 2 * h)
  {
    SortedSlice(src, left, mid);
    SortedSlice(src, mid, right);
    MergedSorted(src[left..mid], src[mid..right], leftOnTie);
    SortedSlice(t, left, right);
    forall m: nat | m <= blk ensures RunSorted(t, m, 2 * h) {
      if m < blk {
        RunsBefore(m, blk, 2 * h);
        assert RunSorted(s, m, 2 * h);
        if m * (2 * h) < |s| {
          SortedBetweenFrame(s, t, m * (2 * h), Min(m * (2 * h) + 2 * h, |s|));
        }
      }
    }
  }

  /** Whole-vector permutation for one merge of a pass. */
  lemma PassPrefix(src: seq<int>, s: seq<int>, t: seq<int>, left: int, mid: int, right: int, leftOnTie: bool)
    requires 0 <= left <= mid <= right <= |src| && |s| == |src|
    requires multiset(s[..left]) == multiset(src[..left])
    requires SameOutside(s, t, left, right)
    requires t[left..right] == Merged(src[left..mid], src[mid..right], leftOnTie)
    ensures multiset(t[..right]) == multiset(src[..right])
  {
    MergedMultiset(src[left..mid], src[mid..right], leftOnTie);
    PrefixMultiset(t, left, right, right);
    PrefixMultiset(src, left, mid, right);
    assert t[..left] == s[..left];
  }

  /** The elements of `s[..r]` split at `l` and `m`. */
  lemma PrefixMultiset(s: seq<int>, l: int, m: int, r: int)
    requires 0 <= l <= m <= r <= |s|
    ensures multiset(s[..r]) == multiset(s[..l]) + multiset(s[l..m]) + multiset(s[m..r])
  {
    assert s[..r] == s[..l] + s[l..m] + s[m..r];
  }

  /** Everything one merge of a pass establishes: the runs of the new width up to
      this block are ascending, and the filled prefix is a permutation of the
      same prefix of `src`. */
  lemma PassBlock(src: seq<int>, s: seq<int>, t: seq<int>, blk: nat, h: nat,
                  left: int, mid: int, right: int, leftOnTie: bool)
    requires |s| == |src| && left == blk * (2 * h) && 0 <= left < |src|
    requires mid == Min(left + h, |src|) && right == Min(left + 2 * h, |src|)
    requires RunsSorted(src, h)
    requires RunsBelow(s, blk, 2 * h)
    requires multiset(s[..left]) == multiset(src[..left])
    requires SameOutside(s, t, left, right)
    requires t[left..right] == Merged(src[left..mid], src[mid..right], leftOnTie)
    ensures RunsBelow(t, blk + 1, 2 * h)
    ensures multiset(t[..right]) == multiset(src[..right])
    ensures (blk + 1) * (2 * h) == left + 2 * h
  {
    HalvesSorted(src, blk, h, left, mid, right);
    PassStep(src, s, t, blk, h, left, mid, right, leftOnTie);
    PassPrefix(src, s, t, left, mid, right, leftOnTie);
  }

  /** `s` and `t` agree from index `lo` on. */
  ghost predicate AgreeFrom(s: seq<int>, t: seq<int>, lo: int)
  {
    |s| == |t| && forall k :: 0 <= k < |s| && lo <= k ==> s[k] == t[k]
  }

  /** Slices past `left` of two sequences that agree from `left` on. */
  lemma AgreeSlices(s: seq<int>, src: seq<int>, left: int, mid: int, right: int)
    requires 0 <= left <= mid <= right <= |s|
    requires AgreeFrom(s, src, left)
    ensures s[left..mid] == src[left..mid] && s[mid..right] == src[mid..right]
  {
  }

  /** The state of `arr` inside a pass of `mergeSortIterativeDS` over `src`:
      the first `blk` blocks, which end at `left`, are merged, the rest is as
      it was, and the whole is a permutation of `src`. */
  ghost predicate InPlaceState(src: seq<int>, s: seq<int>, blk: nat, h: nat, left: int)
  {
    left == blk * (2 * h) && 0 <= left && RunsBelow(s, blk, 2 * h) &&
    AgreeFrom(s, src, left) && multiset(s) == multiset(src)
  }

  /** One merge of a pass of `mergeSortIterativeDS`, which merges in place
      (through `temp`) and leaves the blocks after this one as they were. */
  lemma InPlaceBlock(src: seq<int>, s: seq<int>, t: seq<int>, blk: nat, h: nat,
                     left: int, mid: int, right: int)
    requires InPlaceState(src, s, blk, h, left) && mid == left + h && mid < |src|
    requires right == Min(left + 2 * h, |src|)
    requires RunsSorted(src, h)
    requires SameOutside(s, t, left, right)
    requires t[left..right] == Merged(s[left..mid], s[mid..right], true)
    ensures InPlaceState(src, t, blk + 1, h, left + 2 * h)
  {
    AgreeSlices(s, src, left, mid, right);
    HalvesSorted(src, blk, h, left, mid, right);
    PassStep(src, s, t, blk, h, left, mid, right, true);
    MergeBack(s, t, left, mid, right, true);
    assert (blk + 1) * (2 * h) == left + 2 * h;
  }

  /** After the last merge of a pass of `mergeSortIterativeDS` what is left is
      at most one run of the old width, already ascending. */
  lemma InPlaceTail(src: seq<int>, s: seq<int>, blk: nat, h: nat, left: int)
    requires InPlaceState(src, s, blk, h, left) && h >= 1 && left >= |s| - h
    requires RunsSorted(src, h)
    ensures RunsSorted(s, 2 * h)
  {
    forall m: nat ensures RunSorted(s, m, 2 * h) {
      if m == blk && left < |s| {
        RunStarts(blk, h);
        assert RunSorted(src, 2 * blk, h);
        SortedBetweenFrame(src, s, left, |s|);
      } else if m > blk {
        RunsBefore(blk, m, 2 * h);
      }
    }
  }

  /** The body of the `left` loop of `mergeSortIterativeDS`: copies
      `arr[left..right]` (inclusive) into `temp`, then merges its halves
      `temp[left..mid]` and `temp[mid+1..right]` back into `arr`, taking the left
      element on ties. */
  method MergeThroughTemp(a: array<int>, temp: array<int>, left: int, mid: int, right: int)
    requires temp != a && temp.Length == a.Length
    requires 0 <= left <= mid + 1 <= right + 1 <= a.Length
    modifies a, temp
    ensures a[left..right + 1] == Merged(old(a[left..mid + 1]), old(a[mid + 1..right + 1]), true)
    ensures SameOutside(old(a[..]), a[..], left, right + 1)
  {
    Store(temp, left, a[left..right + 1]);
    assert temp[left..mid + 1] == old(a[left..mid + 1]) && temp[mid + 1..right + 1] == old(a[mid + 1..right + 1]) by {
      assert temp[left..right + 1] == old(a[left..right + 1]);
      forall k | left <= k <= right ensures temp[k] == old(a[k]) {
        assert temp[k] == temp[left..right + 1][k - left];
      }
    }
    var merged := MergeRuns(temp[left..mid + 1], temp[mid + 1..right + 1], true);
    Store(a, left, merged);
  }

  /** One iteration of the `left` loop of `mergeSortIterativeDS`. */
  method InPlaceStep(a: array<int>, temp: array<int>, size: int, left: int, ghost src: seq<int>, ghost blk: nat)
    requires temp != a && temp.Length == a.Length && size >= 1
    requires RunsSorted(src, size) && InPlaceState(src, a[..], blk, size, left)
    requires left < a.Length - size
    modifies a, temp
    ensures InPlaceState(src, a[..], blk + 1, size, left + 2 * size)
  {
    var n := a.Length;
    var mid := left + size - 1;
    var right := Min(left + 2 * size - 1, n - 1);
    ghost var before := a[..];
    MergeThroughTemp(a, temp, left, mid, right);
    ghost var after := a[..];
    assert after[left..right + 1] == Merged(before[left..mid + 1], before[mid + 1..right + 1], true);
    InPlaceBlock(src, before, after, blk, size, left, mid + 1, right + 1);
  }

  /** One pass of `mergeSortIterativeDS`: the `left` loop, which merges the two
      halves of every block of width `2 * size` that has a second half. */
  method InPlacePass(a: array<int>, temp: array<int>, size: int)
    requires temp != a && temp.Length == a.Length
    requires size >= 1 && RunsSorted(a[..], size)
    modifies a, temp
    ensures RunsSorted(a[..], 2 * size)
    ensures multiset(a[..]) == old(multiset(a[..]))
  {
    var n := a.Length;
    ghost var src := a[..];
    var left := 0;
    ghost var blk: nat := 0;
    while left < n - size
      invariant InPlaceState(src, a[..], blk, size, left)
      decreases n - left
    {
      InPlaceStep(a, temp, size, left, src, blk);
      left := left + 2 * size;
      blk := blk + 1;
    }
    InPlaceTail(src, a[..], blk, size, left);
  }

  /** `mergeSortIterativeDS(arr)`: passes of width `size` = 1, 2, 4, ... while
      `size < n`, each merging neighbouring runs in place through `temp`,
      taking the left element on ties. */
  method MergeSortIterativeDS(a: array<int>)
    modifies a
    ensures Sorted(a[..])
    ensures multiset(a[..]) == old(multiset(a[..]))
  {
    var n := a.Length;
    var temp := new int[n];
    SingletonRuns(a[..]);
    var size := 1;
    while size < n
      invariant size >= 1
      invariant RunsSorted(a[..], size)
      invariant multiset(a[..]) == old(multiset(a[..]))
      decreases n - size
    {
      InPlacePass(a, temp, size);
      size := size * 2;
    }
    OneRun(a[..], size);
  }

  /** One pass of `mergeBottomModifyByAI`: the `seg` loop, which merges the two
      halves of every block of width `step` of `a` into the same block of `tmp`. */
  method MergePass(a: array<int>, tmp: array<int>, step: int, ghost h: nat)
    requires tmp != a && tmp.Length == a.Length
    requires step == 2 * h && h >= 1 && RunsSorted(a[..], h)
    modifies tmp
    ensures RunsSorted(tmp[..], step)
    ensures multiset(tmp[..]) == multiset(a[..])
  {
    var n := a.Length;
    ghost var src := a[..];
    var seg := 0;
    ghost var blk: nat := 0;
    ghost var done := 0;
    while seg < n
      invariant seg == blk * step && 0 <= seg
      invariant done == Min(seg, n) && a[..] == src
      invariant RunsBelow(tmp[..], blk, step)
      invariant multiset(tmp[..done]) == multiset(src[..done])
      decreases n - seg
    {
      assert step / 2 == h;
      var left := seg;
      var mid := Min(seg + step / 2, n);
      var right := Min(seg + step, n);
      var merged := MergeRuns(a[left..mid], a[mid..right], false);
      assert merged == Merged(src[left..mid], src[mid..right], false);
      assert |merged| == right - left;
      ghost var before := tmp[..];
      Store(tmp, left, merged);
      PassBlock(src, before, tmp[..], blk, h, left, mid, right, false);
      seg := seg + step;
      blk := blk + 1;
      done := right;
    }
    assert tmp[..done] == tmp[..] && src[..done] == src;
    forall m: nat ensures RunSorted(tmp[..], m, step) {
      if m > blk {
        RunsBefore(blk, m, step);
      }
    }
  }

  /** `mergeBottomModifyByAI(arr)`: passes of width `step` = 2, 4, 8, ... while
      `step <= 2 * n`; each pass merges the halves of every block of `arr` into
      `tmp` (taking the right element on ties), then copies `tmp` back. */
  method MergeBottomModifyByAI(a: array<int>)
    modifies a
    ensures Sorted(a[..])
    ensures multiset(a[..]) == old(multiset(a[..]))
  {
    var n := a.Length;
    var tmp := new int[n];
    var step := 2;
    ghost var h: nat := 1;
    SingletonRuns(a[..]);
    while step <= n * 2
      invariant step == 2 * h && h >= 1
      invariant RunsSorted(a[..], h)
      invariant multiset(a[..]) == old(multiset(a[..]))
      decreases 2 * n - step
    {
      MergePass(a, tmp, step, h);
      ghost var passed := tmp[..];
      Store(a, 0, tmp[..]);
      assert a[..] == passed;
      step := step * 2;
      h := h * 2;
    }
    OneRun(a[..], h);
  }
}
