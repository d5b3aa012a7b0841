/**
 * `Solution::jump` (1/jump.cpp): the greedy solution of Jump Game II. From
 * index `i` one may jump forward by any distance from 1 to `nums[i]`; the
 * answer is the least number of jumps from index 0 to the last index.
 */
module JumpGame {

  ghost predicate Wellformed(nums: seq<int>)
  {
    |nums| >= 1 && forall i :: 0 <= i < |nums| ==> nums[i] >= 0
  }

  /** Index `t` can be reached from index 0 in at most `s` jumps. */
  ghost predicate ReachIn(nums: seq<int>, t: int, s: nat)
  {
    if s == 0 then t == 0
    else ReachIn(nums, t, s - 1) ||
         exists j :: 0 <= j < t && j < |nums| && ReachIn(nums, j, s - 1) && t - j <= nums[j]
  }

  /** The largest `j + nums[j]` for `j` in `[0, m]`. */
  ghost function MaxReach(nums: seq<int>, m: int): int
    requires 0 <= m < |nums|
  {
    if m == 0 then nums[0]
    else
      var prev := MaxReach(nums, m - 1);
      if m + nums[m] > prev then m + nums[m] else prev
  }

  /** `MaxReach(m)` bounds every `j + nums[j]` with `j <= m` and is attained by one of them. */
  lemma {:induction false} MaxReachIsMax(nums: seq<int>, m: int) returns (best: int)
    requires 0 <= m < |nums|
    ensures forall j :: 0 <= j <= m ==> j + nums[j] <= MaxReach(nums, m)
    ensures 0 <= best <= m && best + nums[best] == MaxReach(nums, m)
  {
    if m == 0 {
      best := 0;
    } else {
      best := MaxReachIsMax(nums, m - 1);
      if m + nums[m] > MaxReach(nums, m - 1) {
        best := m;
      }
    }
  }

  /** The furthest index reachable in at most `s` jumps (it may lie past the end). */
  ghost function Far(nums: seq<int>, s: nat): (f: int)
    requires |nums| >= 1
    ensures f >= 0
  {
    if s == 0 then 0
    else
      var prev := Far(nums, s - 1);
      var m := if prev < |nums| - 1 then prev else |nums| - 1;
      var next := MaxReach(nums, m);
      if next > prev then next else prev
  }

  /** The end of the sequence is reachable in at most `s` jumps. */
  ghost predicate ReachesEnd(nums: seq<int>, s: nat)
  {
    ReachIn(nums, |nums| - 1, s)
  }

  lemma {:induction false} FarMonotone(nums: seq<int>, s: nat, t: nat)
    requires |nums| >= 1
    requires s <= t
    ensures Far(nums, s) <= Far(nums, t)
    decreases t - s
  {
    if s < t {
      FarMonotone(nums, s, t - 1);
      assert Far(nums, t) >= Far(nums, t - 1);
    }
  }

  /** Every index reached within `s` jumps lies at or before `Far(s)`. */
  lemma {:induction false} ReachBelowFar(nums: seq<int>, t: int, s: nat)
    requires Wellformed(nums)
    requires 0 <= t < |nums|
    requires ReachIn(nums, t, s)
    ensures t <= Far(nums, s)
  {
    if s > 0 {
      var prev := Far(nums, s - 1);
      var m := if prev < |nums| - 1 then prev else |nums| - 1;
      if ReachIn(nums, t, s - 1) {
        ReachBelowFar(nums, t, s - 1);
      } else {
        var j :| 0 <= j < t && j < |nums| && ReachIn(nums, j, s - 1) && t - j <= nums[j];
        ReachBelowFar(nums, j, s - 1);
        var _ := MaxReachIsMax(nums, m);
        assert j <= m;
      }
    }
  }

  /** One jump from an index reached within `s - 1` jumps. */
  lemma JumpFrom(nums: seq<int>, j: int, t: int, s: nat)
    requires s > 0 && 0 <= j < t && j < |nums|
    requires ReachIn(nums, j, s - 1) && t - j <= nums[j]
    ensures ReachIn(nums, t, s)
  {
  }

  /** Every index at or before `Far(s)` is reached within `s` jumps. */
  lemma {:induction false} FarIsReached(nums: seq<int>, t: int, s: nat)
    requires Wellformed(nums)
    requires 0 <= t < |nums|
    requires t <= Far(nums, s)
    ensures ReachIn(nums, t, s)
  {
    if s > 0 {
      var prev := Far(nums, s - 1);
      var m := if prev < |nums| - 1 then prev else |nums| - 1;
      if t <= prev {
        FarIsReached(nums, t, s - 1);
      } else {
        var j := MaxReachIsMax(nums, m);
        FarIsReached(nums, j, s - 1);
        JumpFrom(nums, j, t, s);
      }
    }
  }

  /** Reachability within `s` jumps is exactly the interval `[0, Far(s)]`. */
  lemma ReachInIffFar(nums: seq<int>, t: int, s: nat)
    requires Wellformed(nums)
    requires 0 <= t < |nums|
    ensures ReachIn(nums, t, s) <==> t <= Far(nums, s)
  {
    if ReachIn(nums, t, s) {
      ReachBelowFar(nums, t, s);
    }
    if t <= Far(nums, s) {
      FarIsReached(nums, t, s);
    }
  }

  /** Once the frontier stops moving it never moves again. */
  lemma {:induction false} StuckForever(nums: seq<int>, s: nat, t: nat)
    requires |nums| >= 1
    requires Far(nums, s + 1) == Far(nums, s)
    requires s <= t
    ensures Far(nums, t) == Far(nums, s)
    decreases t - s
  {
    if s < t {
      StuckForever(nums, s, t - 1);
    }
  }

  /** While the last index is out of reach but reachable eventually, the frontier moves. */
  lemma FrontierAdvances(nums: seq<int>, s: nat, s0: nat)
    requires Wellformed(nums)
    requires ReachesEnd(nums, s0)
    requires Far(nums, s) < |nums| - 1
    ensures Far(nums, s + 1) > Far(nums, s)
    ensures s < s0
  {
    ReachInIffFar(nums, |nums| - 1, s0);
    if s0 <= s {
      FarMonotone(nums, s0, s);
    }
    if Far(nums, s + 1) == Far(nums, s) {
      StuckForever(nums, s, s0);
    }
  }

  /** Nothing up to `s` jumps reaches the last index when `Far(s)` does not. */
  lemma NoFewerJumps(nums: seq<int>, s: nat)
    requires Wellformed(nums)
    requires Far(nums, s) < |nums| - 1
    ensures forall q: nat :: q <= s ==> !ReachesEnd(nums, q)
  {
    forall q: nat | q <= s ensures !ReachesEnd(nums, q) {
      FarMonotone(nums, q, s);
      ReachInIffFar(nums, |nums| - 1, q);
      assert !ReachIn(nums, |nums| - 1, q);
    }
  }

  /** A jump from `i` can land on the last index: `jumps + 1` is the answer. */
  lemma FinalJump(nums: seq<int>, jumps: nat, i: int)
    requires Wellformed(nums)
    requires 0 <= i < |nums| - 1
    requires Far(nums, jumps + 1) == i + nums[i] >= |nums| - 1
    requires jumps == 0 || Far(nums, jumps) < |nums| - 1
    ensures ReachesEnd(nums, jumps + 1)
    ensures forall s: nat :: s < jumps + 1 ==> !ReachesEnd(nums, s)
  {
    ReachInIffFar(nums, |nums| - 1, jumps + 1);
    NoFewerJumps(nums, jumps);
  }

  /** The greedy choice: when no jump from `i` lands on the last index, the index
      `idx` that reaches furthest carries the frontier one jump further. */
  lemma GreedyStep(nums: seq<int>, jumps: nat, i: int, idx: int, s0: nat)
    requires Wellformed(nums)
    requires ReachesEnd(nums, s0)
    requires 0 <= i < |nums| && i <= Far(nums, jumps)
    requires Far(nums, jumps + 1) == i + nums[i] < |nums| - 1
    requires i < idx <= i + nums[i]
    requires forall q :: i < q <= i + nums[i] ==> q + nums[q] <= idx + nums[idx]
    ensures Far(nums, jumps + 2) == idx + nums[idx]
    ensures nums[idx] >= 1
    ensures jumps + 1 < s0
  {
    var last := |nums| - 1;
    var m := i + nums[i];
    var prev := Far(nums, jumps);
    var mp := if prev < last then prev else last;
    var _ := MaxReachIsMax(nums, mp);
    assert MaxReach(nums, mp) <= m;
    assert m + nums[m] <= idx + nums[idx];
    forall j | 0 <= j <= m ensures j + nums[j] <= idx + nums[idx] {
      if j <= prev {
        assert j + nums[j] <= MaxReach(nums, mp);
      }
    }
    var _ := MaxReachIsMax(nums, m);
    assert MaxReach(nums, m) == idx + nums[idx];
    FrontierAdvances(nums, jumps + 1, s0);
  }

  /** The inner loop of `jump`: scan the indices `i + 1 .. i + nums[i]`; stop when one
      is the last index or beyond, otherwise return the one that reaches furthest
      (the first of them on ties). */
  method FurthestNext(nums: seq<int>, i: int, last: int) returns (lands: bool, idx: int)
    requires last == |nums| - 1
    requires forall q :: 0 <= q < |nums| ==> nums[q] >= 0
    requires 0 <= i < last && nums[i] >= 1
    ensures lands <==> i + nums[i] >= last
    ensures !lands ==> i < idx <= i + nums[i]
    ensures !lands ==> forall q :: i < q <= i + nums[i] ==> q + nums[q] <= idx + nums[idx]
  {
    var maxJumpAtI := 0;
    idx := 0;
    for k := 1 to nums[i] + 1
      invariant i + k - 1 < last
      invariant k == 1 ==> idx == 0 && maxJumpAtI == 0
      invariant k > 1 ==> i < idx < i + k && maxJumpAtI == idx - i + nums[idx]
      invariant k > 1 ==> forall q :: i < q < i + k ==> q + nums[q] <= idx + nums[idx]
    {
      if i + k >= last {
        return true, idx;
      }
      if nums[i + k] + k > maxJumpAtI {
        idx := i + k;
        maxJumpAtI := nums[i + k] + k;
      }
    }
    lands := false;
  }

  /** `jump`: from position `i`, among the indices one jump away pick the one that
      reaches furthest, until a jump can land on the last index. */
  method Jump(nums: seq<int>) returns (jumps: int)
    requires |nums| >= 1
    requires forall i :: 0 <= i < |nums| ==> nums[i] >= 0
    requires exists s: nat :: ReachesEnd(nums, s)
    ensures jumps >= 0 && ReachesEnd(nums, jumps)
    ensures forall s: nat :: s < jumps ==> !ReachesEnd(nums, s)
  {
    var last := |nums| - 1;
    ghost var s0: nat :| ReachesEnd(nums, s0);
    jumps := 0;
    var i := 0;
    if 0 < last {
      FrontierAdvances(nums, 0, s0);
    }
    while i < last
      invariant 0 <= jumps <= s0
      invariant 0 <= i < |nums|
      invariant jumps > 0 ==> i < last
      invariant i <= Far(nums, jumps)
      invariant Far(nums, jumps + 1) == i + nums[i]
      invariant jumps > 0 ==> Far(nums, jumps) < last
      invariant i < last ==> nums[i] >= 1
      decreases s0 - jumps
    {
      var lands, idx := FurthestNext(nums, i, last);
      if lands {
        FinalJump(nums, jumps, i);
        return jumps + 1;
      }
      // No jump from `i` lands on the last index; `idx` reaches furthest.
      GreedyStep(nums, jumps, i, idx, s0);
      i := idx;
      jumps := jumps + 1;
    }
  }

  /** The two short cases of the source: one element needs no jump; when the first
      element spans the whole sequence one jump suffices. */
  lemma ShortCases(nums: seq<int>)
    requires Wellformed(nums)
    ensures |nums| == 1 <==> ReachesEnd(nums, 0)
    ensures |nums| >= 2 && nums[0] >= |nums| - 1 ==> ReachesEnd(nums, 1)
  {
    if |nums| >= 2 && nums[0] >= |nums| - 1 {
      assert ReachIn(nums, 0, 0);
    }
  }

  /** The greedy loop only terminates on inputs whose end is reachable: from `[0, 1]`
      the frontier never leaves index 0. */
  lemma UnreachableExample(s: nat)
    ensures !ReachesEnd([0, 1], s)
  {
    var nums := [0, 1];
    assert Far(nums, 1) == Far(nums, 0);
    StuckForever(nums, 0, s);
    ReachInIffFar(nums, 1, s);
  }

  /** A sequence whose frontier is short of the end after one jump and past it after two. */
  lemma TwoJumps(nums: seq<int>)
    requires Wellformed(nums)
    requires Far(nums, 1) < |nums| - 1 <= Far(nums, 2)
    ensures ReachesEnd(nums, 2) && !ReachesEnd(nums, 1) && !ReachesEnd(nums, 0)
  {
    ReachInIffFar(nums, |nums| - 1, 2);
    NoFewerJumps(nums, 1);
  }

  lemma DemoReachability()
    ensures ReachesEnd([2, 1, 3, 4], 2) && !ReachesEnd([2, 1, 3, 4], 1)
    ensures ReachesEnd([2, 3, 0, 1, 4], 2) && !ReachesEnd([2, 3, 0, 1, 4], 1)
    ensures ReachesEnd([2, 3, 1, 1, 4], 2) && !ReachesEnd([2, 3, 1, 1, 4], 1)
  {
    var v1, v2, v3 := [2, 1, 3, 4], [2, 3, 0, 1, 4], [2, 3, 1, 1, 4];
    assert MaxReach(v1, 2) == 5 && Far(v1, 1) == 2 && Far(v1, 2) == 5;
    TwoJumps(v1);
    assert MaxReach(v2, 2) == 4 && Far(v2, 1) == 2 && Far(v2, 2) == 4;
    TwoJumps(v2);
    assert MaxReach(v3, 2) == 4 && Far(v3, 1) == 2 && Far(v3, 2) == 4;
    TwoJumps(v3);
  }

  /** `main`: the three demonstration inputs each need two jumps. */
  method Demo() returns (r1: int, r2: int, r3: int)
    ensures r1 == 2 && r2 == 2 && r3 == 2
  {
    DemoReachability();
    r1 := Jump([2, 1, 3, 4]);
    r2 := Jump([2, 3, 0, 1, 4]);
    r3 := Jump([2, 3, 1, 1, 4]);
  }
}
