/**
 * The sift-downs `heapify` (min-heap) and `heapify2` (max-heap) of sort/main.cpp
 * and the heap sort built on `heapify`. The heap lives in the first `n` slots of
 * the vector, the children of slot `i` being `2i+1` and `2i+2`; the heap property
 * is stated for the subtree below a slot.
 */
module HeapSort {
  import opened SortSpec

  datatype Order = MinHeap | MaxHeap

  /** `x` belongs strictly above `y`: `x < y` in a min-heap, `x > y` in a max-heap. */
  predicate Better(order: Order, x: int, y: int)
  {
    if order == MinHeap then x < y else x > y
  }

  /** `p` may sit above `c`. */
  predicate Above(order: Order, p: int, c: int)
  {
    !Better(order, c, p)
  }

  function Parent(k: nat): nat
    requires k > 0
  {
    (k - 1) / 2
  }

  /** Slot `k` is in the subtree below slot `i` (`i` itself included). */
  ghost predicate Desc(k: nat, i: nat)
  {
    k == i || (k > i && Desc(Parent(k), i))
  }

  /** The first `n` slots of `s`, restricted to the subtree below `i`, form a heap:
      every slot of it other than `i` sits below its parent. */
  ghost predicate SubHeap(s: seq<int>, n: int, i: nat, order: Order)
  {
    0 <= n <= |s| &&
    forall k: nat {:trigger s[Parent(k)], s[k]} :: k < n && k != i && Desc(k, i) ==> Above(order, s[Parent(k)], s[k])
  }

  /** `t` equals `s` outside the part of the subtree below `i` that lies in the
      first `n` slots. */
  ghost predicate OutsideSame(s: seq<int>, t: seq<int>, n: int, i: nat)
  {
    |s| == |t| && forall k: nat {:trigger t[k]} :: k < |s| && !(k < n && Desc(k, i)) ==> t[k] == s[k]
  }

  /** Every value of `t` in that part of the subtree was in it in `s`. */
  ghost predicate FromSubtree(s: seq<int>, t: seq<int>, n: int, i: nat)
  {
    n <= |s| && n <= |t| &&
    forall k: nat {:trigger t[k]} :: k < n && Desc(k, i) ==> exists m: nat :: m < n && Desc(m, i) && t[k] == s[m]
  }

  lemma {:induction false} DescAtLeast(k: nat, i: nat)
    requires Desc(k, i)
    ensures k >= i
  {
  }

  lemma {:induction false} DescTrans(k: nat, j: nat, i: nat)
    requires Desc(k, j) && Desc(j, i)
    ensures Desc(k, i)
    decreases k
  {
    if k != j {
      DescTrans(Parent(k), j, i);
      DescAtLeast(j, i);
    }
  }

  /** A slot strictly below `i` is below one of its two children. */
  lemma {:induction false} DescChild(k: nat, i: nat)
    requires Desc(k, i) && k != i
    ensures Desc(k, 2 * i + 1) || Desc(k, 2 * i + 2)
    decreases k
  {
    var p := Parent(k);
    if p != i {
      DescChild(p, i);
      if Desc(p, 2 * i + 1) {
        DescAtLeast(p, 2 * i + 1);
      } else {
        DescAtLeast(p, 2 * i + 2);
      }
    }
  }

  /** Two subtrees that share a slot are nested. */
  lemma {:induction false} DescNested(k: nat, i: nat, j: nat)
    requires Desc(k, i) && Desc(k, j)
    ensures Desc(i, j) || Desc(j, i)
    decreases k
  {
    if k != i && k != j {
      DescNested(Parent(k), i, j);
    }
  }

  /** The subtrees of two siblings are disjoint. */
  lemma SiblingsDisjoint(k: nat, i: nat)
    ensures !(Desc(k, 2 * i + 1) && Desc(k, 2 * i + 2))
  {
    if Desc(k, 2 * i + 1) && Desc(k, 2 * i + 2) {
      DescNested(k, 2 * i + 1, 2 * i + 2);
      assert false;
    }
  }

  /** The slot at the top of a heap subtree may sit above every slot in it. */
  lemma {:induction false} HeapTop(s: seq<int>, n: int, i: nat, order: Order, m: nat)
    requires SubHeap(s, n, i, order) && m < n && Desc(m, i)
    ensures Above(order, s[i], s[m])
    decreases m
  {
    if m != i {
      HeapTop(s, n, i, order, Parent(m));
    }
  }

  /** Every subtree of a heap subtree is a heap. */
  lemma SubHeapBelow(s: seq<int>, n: int, i: nat, j: nat, order: Order)
    requires SubHeap(s, n, i, order) && Desc(j, i)
    ensures SubHeap(s, n, j, order)
  {
    forall k: nat | k < n && k != j && Desc(k, j) ensures Above(order, s[Parent(k)], s[k]) {
      DescTrans(k, j, i);
      DescAtLeast(j, i);
    }
  }

  /** A heap subtree stays one when none of its values change. */
  lemma SubHeapFrame(s: seq<int>, t: seq<int>, n: int, i: nat, order: Order)
    requires SubHeap(s, n, i, order) && |t| == |s|
    requires forall k: nat :: k < n && Desc(k, i) ==> t[k] == s[k]
    ensures SubHeap(t, n, i, order)
  {
  }

  /** A slot above both of its children, whose subtrees are heaps, tops a heap. */
  lemma SubHeapJoin(s: seq<int>, n: int, i: nat, order: Order)
    requires SubHeap(s, n, 2 * i + 1, order) && SubHeap(s, n, 2 * i + 2, order)
    requires 2 * i + 1 < n ==> Above(order, s[i], s[2 * i + 1])
    requires 2 * i + 2 < n ==> Above(order, s[i], s[2 * i + 2])
    ensures SubHeap(s, n, i, order)
  {
    forall k: nat | k < n && k != i && Desc(k, i) ensures Above(order, s[Parent(k)], s[k]) {
      DescChild(k, i);
    }
  }

  /** A slot without children in the first `n` slots tops a heap. */
  lemma LeafHeap(s: seq<int>, n: int, i: nat, order: Order)
    requires 0 <= n <= |s| && 2 * i + 1 >= n
    ensures SubHeap(s, n, i, order)
  {
    forall k: nat | k != i && Desc(k, i) ensures k >= 2 * i + 1 {
      DescChild(k, i);
      if Desc(k, 2 * i + 1) {
        DescAtLeast(k, 2 * i + 1);
      } else {
        DescAtLeast(k, 2 * i + 2);
      }
    }
  }

  /** The subtree below a child of `i` lies inside the subtree below `i`. */
  lemma ChildSubtree(i: nat, c: nat)
    requires c == 2 * i + 1 || c == 2 * i + 2
    ensures forall k: nat :: Desc(k, c) ==> Desc(k, i) && k > i
  {
    assert Desc(c, i);
    forall k: nat | Desc(k, c) ensures Desc(k, i) && k > i {
      DescTrans(k, c, i);
      DescAtLeast(k, c);
    }
  }

  /** What the swap of slots `i` and `c` followed by the sift-down below `c`
      leaves outside the subtree below `i`: nothing changed. */
  lemma SiftFrame(s0: seq<int>, s1: seq<int>, s2: seq<int>, n: int, i: nat, c: nat)
    requires (c == 2 * i + 1 || c == 2 * i + 2) && c < n <= |s0|
    requires s1 == s0[c := s0[i]][i := s0[c]]
    requires OutsideSame(s1, s2, n, c)
    ensures OutsideSame(s0, s2, n, i)
  {
    ChildSubtree(i, c);
  }

  /** ... and inside it, every value comes from the subtree below `i`. */
  lemma SiftOrigin(s0: seq<int>, s1: seq<int>, s2: seq<int>, n: int, i: nat, c: nat)
    requires (c == 2 * i + 1 || c == 2 * i + 2) && c < n <= |s0|
    requires s1 == s0[c := s0[i]][i := s0[c]]
    requires OutsideSame(s1, s2, n, c) && FromSubtree(s1, s2, n, c)
    ensures FromSubtree(s0, s2, n, i)
  {
    ChildSubtree(i, c);
    assert Desc(i, i);
    forall k: nat | k < n && Desc(k, i) ensures exists m: nat :: m < n && Desc(m, i) && s2[k] == s0[m] {
      if Desc(k, c) {
        var m: nat :| m < n && Desc(m, c) && s2[k] == s1[m];
        if m == c {
          assert s2[k] == s0[i];
        } else {
          assert s2[k] == s0[m];
        }
      } else if k == i {
        assert s2[k] == s0[c];
      } else {
        assert s2[k] == s0[k];
      }
    }
  }

  /** The swap of slots `i` and `c` leaves the heaps below the children of `c` alone. */
  lemma SwapKeepsGrandchildren(s0: seq<int>, s1: seq<int>, n: int, i: nat, c: nat, g: nat, order: Order)
    requires (c == 2 * i + 1 || c == 2 * i + 2) && c < n <= |s0|
    requires g == 2 * c + 1 || g == 2 * c + 2
    requires s1 == s0[c := s0[i]][i := s0[c]]
    requires SubHeap(s0, n, c, order)
    ensures SubHeap(s1, n, g, order)
  {
    assert Desc(g, c);
    SubHeapBelow(s0, n, c, g, order);
    forall k: nat | k < n && Desc(k, g) ensures s1[k] == s0[k] {
      DescAtLeast(k, g);
    }
    SubHeapFrame(s0, s1, n, g, order);
  }

  /** The sift-down below `c` leaves the heap below its sibling alone. */
  lemma SiblingUntouched(s0: seq<int>, s1: seq<int>, s2: seq<int>, n: int, i: nat, c: nat, other: nat, order: Order)
    requires (c == 2 * i + 1 && other == 2 * i + 2) || (c == 2 * i + 2 && other == 2 * i + 1)
    requires c < n <= |s0|
    requires s1 == s0[c := s0[i]][i := s0[c]]
    requires OutsideSame(s1, s2, n, c)
    requires SubHeap(s0, n, other, order)
    ensures SubHeap(s2, n, other, order)
    ensures other < n ==> s2[other] == s0[other]
  {
    assert Desc(other, other);
    forall k: nat | k < n && Desc(k, other) ensures s2[k] == s0[k] {
      SiblingsDisjoint(k, i);
      DescAtLeast(k, other);
    }
    SubHeapFrame(s0, s2, n, other, order);
  }

  /** After the sift-down below `c`, the value the swap put at `i` is above the one at `c`. */
  lemma NewTopAbove(s0: seq<int>, s1: seq<int>, s2: seq<int>, n: int, i: nat, c: nat, order: Order)
    requires (c == 2 * i + 1 || c == 2 * i + 2) && c < n <= |s0|
    requires Better(order, s0[c], s0[i])
    requires s1 == s0[c := s0[i]][i := s0[c]]
    requires OutsideSame(s1, s2, n, c) && FromSubtree(s1, s2, n, c)
    requires SubHeap(s0, n, c, order)
    ensures s2[i] == s0[c] && Above(order, s2[i], s2[c])
  {
    assert Desc(c, c);
    assert !Desc(i, c) by {
      if Desc(i, c) {
        DescAtLeast(i, c);
      }
    }
    var m: nat :| m < n && Desc(m, c) && s2[c] == s1[m];
    if m != c {
      DescAtLeast(m, c);
      HeapTop(s0, n, c, order, m);
    }
  }

  /** ... and when both subtrees below `i` were heaps, the subtree below `i` is one. */
  lemma SiftHeap(s0: seq<int>, s1: seq<int>, s2: seq<int>, n: int, i: nat, c: nat, order: Order)
    requires (c == 2 * i + 1 || c == 2 * i + 2) && c < n <= |s0|
    requires Better(order, s0[c], s0[i])
    requires 2 * i + 1 < n ==> Above(order, s0[c], s0[2 * i + 1])
    requires 2 * i + 2 < n ==> Above(order, s0[c], s0[2 * i + 2])
    requires s1 == s0[c := s0[i]][i := s0[c]]
    requires SubHeap(s1, n, 2 * c + 1, order) && SubHeap(s1, n, 2 * c + 2, order) ==> SubHeap(s2, n, c, order)
    requires OutsideSame(s1, s2, n, c) && FromSubtree(s1, s2, n, c)
    requires SubHeap(s0, n, 2 * i + 1, order) && SubHeap(s0, n, 2 * i + 2, order)
    ensures SubHeap(s2, n, i, order)
  {
    var other := if c == 2 * i + 1 then 2 * i + 2 else 2 * i + 1;
    SwapKeepsGrandchildren(s0, s1, n, i, c, 2 * c + 1, order);
    SwapKeepsGrandchildren(s0, s1, n, i, c, 2 * c + 2, order);
    SiblingUntouched(s0, s1, s2, n, i, c, other, order);
    NewTopAbove(s0, s1, s2, n, i, c, order);
    assert SubHeap(s2, n, c, order);
    assert other < n ==> Above(order, s2[i], s2[other]);
    assert SubHeap(s2, n, 2 * i + 1, order);
    assert SubHeap(s2, n, 2 * i + 2, order);
    assert 2 * i + 1 < n ==> Above(order, s2[i], s2[2 * i + 1]);
    assert 2 * i + 2 < n ==> Above(order, s2[i], s2[2 * i + 2]);
    SubHeapJoin(s2, n, i, order);
  }

  /** The sift-down of `heapify` (`MinHeap`) and `heapify2` (`MaxHeap`): moves the
      value at slot `i` down the first `n` slots, swapping it with its best child
      while that child is better. */
  method SiftDown(a: array<int>, n: int, i: int, order: Order)
    requires 0 <= i && 0 <= n <= a.Length
    modifies a
    ensures SubHeap(old(a[..]), n, 2 * i + 1, order) && SubHeap(old(a[..]), n, 2 * i + 2, order) ==>
              SubHeap(a[..], n, i, order)
    ensures OutsideSame(old(a[..]), a[..], n, i)
    ensures FromSubtree(old(a[..]), a[..], n, i)
    ensures multiset(a[..]) == old(multiset(a[..]))
    decreases n - i
  {
    var left := 2 * i + 1;
    var right := 2 * i + 2;
    var best := i;
    if left < n && Better(order, a[left], a[best]) {
      best := left;
    }
    if right < n && Better(order, a[right], a[best]) {
      best := right;
    }
    if best != i {
      ghost var s0 := a[..];
      Swap(a, best, i);
      ghost var s1 := a[..];
      assert s1 == s0[best := s0[i]][i := s0[best]];
      SiftDown(a, n, best, order);
      SiftFrame(s0, s1, a[..], n, i, best);
      SiftOrigin(s0, s1, a[..], n, i, best);
      if SubHeap(s0, n, left, order) && SubHeap(s0, n, right, order) {
        SiftHeap(s0, s1, a[..], n, i, best, order);
      }
    } else {
      assert Desc(i, i);
      if SubHeap(a[..], n, left, order) && SubHeap(a[..], n, right, order) {
        SubHeapJoin(a[..], n, i, order);
      }
    }
  }

  /** `heapify(arr, n, i)`: the min-heap sift-down. */
  method Heapify(a: array<int>, n: int, i: int)
    requires 0 <= i && 0 <= n <= a.Length
    modifies a
    ensures SubHeap(old(a[..]), n, 2 * i + 1, MinHeap) && SubHeap(old(a[..]), n, 2 * i + 2, MinHeap) ==>
              SubHeap(a[..], n, i, MinHeap)
    ensures OutsideSame(old(a[..]), a[..], n, i)
    ensures FromSubtree(old(a[..]), a[..], n, i)
    ensures multiset(a[..]) == old(multiset(a[..]))
  {
    SiftDown(a, n, i, MinHeap);
  }

  /** `heapify2(arr, n, i)`: the max-heap sift-down. */
  method Heapify2(a: array<int>, n: int, i: int)
    requires 0 <= i && 0 <= n <= a.Length
    modifies a
    ensures SubHeap(old(a[..]), n, 2 * i + 1, MaxHeap) && SubHeap(old(a[..]), n, 2 * i + 2, MaxHeap) ==>
              SubHeap(a[..], n, i, MaxHeap)
    ensures OutsideSame(old(a[..]), a[..], n, i)
    ensures FromSubtree(old(a[..]), a[..], n, i)
    ensures multiset(a[..]) == old(multiset(a[..]))
  {
    SiftDown(a, n, i, MaxHeap);
  }

  /** Every slot is in the subtree below the root. */
  lemma {:induction false} DescRoot(k: nat)
    ensures Desc(k, 0)
    decreases k
  {
    if k > 0 {
      DescRoot(Parent(k));
    }
  }

  /** The root of a heap may sit above every value in it: the least value of a
      min-heap, the greatest of a max-heap. */
  lemma RootTop(s: seq<int>, n: int, m: nat, order: Order)
    requires SubHeap(s, n, 0, order) && m < n
    ensures Above(order, s[0], s[m])
  {
    DescRoot(m);
    HeapTop(s, n, 0, order, m);
  }

  /** The root of a min-heap holds its least value. */
  lemma RootLeast(s: seq<int>, n: int, m: nat)
    requires SubHeap(s, n, 0, MinHeap) && m < n
    ensures s[0] <= s[m]
  {
    RootTop(s, n, m, MinHeap);
  }

  /** `s` is non-increasing. */
  ghost predicate SortedDesc(s: seq<int>)
  {
    forall p, q :: 0 <= p < q < |s| ==> s[p] >= s[q]
  }

  /** Every later value of `s` may sit above every earlier one: `s` is in the order
      that repeatedly moving the top of an `order` heap to the end produces. */
  ghost predicate TopsLast(s: seq<int>, order: Order)
  {
    forall p, q :: 0 <= p < q < |s| ==> Above(order, s[q], s[p])
  }

  /** The subtrees below all slots after `i` are heaps. */
  ghost predicate HeapsAfter(s: seq<int>, n: int, i: int, order: Order)
  {
    forall k: nat :: i < k ==> SubHeap(s, n, k, order)
  }

  /** The slots from `n/2` on have no children, so their subtrees are heaps. */
  lemma LeavesHeaps(s: seq<int>, n: int, order: Order)
    requires 0 <= n <= |s|
    ensures HeapsAfter(s, n, n / 2 - 1, order)
  {
    forall k: nat | n / 2 - 1 < k ensures SubHeap(s, n, k, order) {
      LeafHeap(s, n, k, order);
    }
  }

  /** A sift-down at `i` over heaps below its children extends the heaps to `i`. */
  lemma BuildStep(s: seq<int>, t: seq<int>, n: int, i: nat, order: Order)
    requires 0 <= n <= |s| && HeapsAfter(s, n, i, order)
    requires SubHeap(s, n, 2 * i + 1, order) && SubHeap(s, n, 2 * i + 2, order) ==> SubHeap(t, n, i, order)
    requires OutsideSame(s, t, n, i)
    ensures HeapsAfter(t, n, i - 1, order)
  {
    assert SubHeap(s, n, 2 * i + 1, order) && SubHeap(s, n, 2 * i + 2, order);
    forall k: nat | i - 1 < k ensures SubHeap(t, n, k, order) {
      if Desc(k, i) {
        SubHeapBelow(t, n, i, k, order);
      } else {
        assert SubHeap(s, n, k, order);
        forall j: nat | j < n && Desc(j, k) ensures t[j] == s[j] {
          if Desc(j, i) {
            DescNested(j, i, k);
            if Desc(i, k) {
              DescAtLeast(i, k);
            }
          }
        }
        SubHeapFrame(s, t, n, k, order);
      }
    }
  }

  /** The state between two extractions: the first `i + 1` slots are a heap, the
      slots after them are in `TopsLast` order, and every one of them may sit above
      every value still in the heap. */
  ghost predicate Extracted(s: seq<int>, i: int, order: Order)
  {
    -1 <= i < |s| && SubHeap(s, i + 1, 0, order) &&
    (forall p, q :: i < p < q < |s| ==> Above(order, s[q], s[p])) &&
    (forall p, q :: 0 <= p <= i < q < |s| ==> Above(order, s[q], s[p]))
  }

  /** Swapping the root with the last heap slot `i` leaves heaps below both children
      of the root in the first `i` slots. */
  lemma ExtractChildren(s0: seq<int>, s1: seq<int>, i: int, c: nat, order: Order)
    requires 1 <= i < |s0| && Extracted(s0, i, order) && (c == 1 || c == 2)
    requires s1 == s0[0 := s0[i]][i := s0[0]]
    ensures SubHeap(s1, i, c, order)
  {
    DescRoot(c);
    SubHeapBelow(s0, i + 1, 0, c, order);
    forall k: nat {:trigger s1[Parent(k)], s1[k]} | k < i && k != c && Desc(k, c)
      ensures Above(order, s1[Parent(k)], s1[k])
    {
      DescAtLeast(k, c);
      DescAtLeast(Parent(k), c);
      assert Desc(Parent(k), c);
      assert Above(order, s0[Parent(k)], s0[k]);
    }
  }

  /** One extraction step: after the swap and the sift-down over the first `i`
      slots, the state holds for `i - 1`. */
  lemma ExtractStep(s0: seq<int>, s1: seq<int>, s2: seq<int>, i: int, order: Order)
    requires 1 <= i < |s0| && Extracted(s0, i, order)
    requires s1 == s0[0 := s0[i]][i := s0[0]]
    requires SubHeap(s1, i, 1, order) && SubHeap(s1, i, 2, order) ==> SubHeap(s2, i, 0, order)
    requires OutsideSame(s1, s2, i, 0) && FromSubtree(s1, s2, i, 0)
    ensures Extracted(s2, i - 1, order)
  {
    ExtractChildren(s0, s1, i, 1, order);
    ExtractChildren(s0, s1, i, 2, order);
    forall q | i <= q < |s0| ensures s2[q] == s1[q] {
    }
    forall p | 0 <= p < i
      ensures Above(order, s2[i], s2[p]) && forall q :: i < q < |s0| ==> Above(order, s2[q], s2[p])
    {
      DescRoot(p);
      var m: nat :| m < i && Desc(m, 0) && s2[p] == s1[m];
      var m0 := if m == 0 then i else m;
      assert s2[p] == s0[m0];
      RootTop(s0, i + 1, m0, order);
    }
  }

  /** The two loops of `heapSort` with the sift-down of `order`: build a heap over
      the whole vector, then repeatedly swap its root to the end of the shrinking
      heap and sift the new root down. */
  method SortByHeap(a: array<int>, order: Order)
    modifies a
    ensures TopsLast(a[..], order)
    ensures multiset(a[..]) == old(multiset(a[..]))
  {
    var n := a.Length;
    var i := n / 2 - 1;
    LeavesHeaps(a[..], n, order);
    while i >= 0
      invariant -1 <= i <= n / 2 - 1
      invariant HeapsAfter(a[..], n, i, order)
      invariant multiset(a[..]) == old(multiset(a[..]))
    {
      ghost var s := a[..];
      SiftDown(a, n, i, order);
      BuildStep(s, a[..], n, i, order);
      i := i - 1;
    }
    assert SubHeap(a[..], n, 0, order);
    i := n - 1;
    while i > 0
      invariant Extracted(a[..], i, order) && |a[..]| == n
      invariant multiset(a[..]) == old(multiset(a[..]))
    {
      ghost var s0 := a[..];
      Swap(a, 0, i);
      ghost var s1 := a[..];
      assert s1 == s0[0 := s0[i]][i := s0[0]];
      SiftDown(a, i, 0, order);
      ExtractStep(s0, s1, a[..], i, order);
      i := i - 1;
    }
    assert Extracted(a[..], i, order);
  }

  /** `heapSort(arr)` as written: the heap is built with `heapify`, a min-heap, so
      each extraction moves the least remaining value to the end and the vector
      ends up in non-increasing order. */
  method HeapSort(a: array<int>)
    modifies a
    ensures SortedDesc(a[..])
    ensures multiset(a[..]) == old(multiset(a[..]))
  {
    SortByHeap(a, MinHeap);
  }

  /** What `heapSort` does to `{1, 2}`: the only non-increasing arrangement of it
      is `{2, 1}`, which is not ascending. */
  lemma HeapSortReversesPair(t: seq<int>)
    requires SortedDesc(t) && multiset(t) == multiset([1, 2])
    ensures t == [2, 1] && !Sorted(t)
  {
    assert |t| == |multiset(t)| == 2;
    assert t[0] in multiset(t) && t[1] in multiset(t);
    assert t == [t[0], t[1]];
  }

  /** `heapSort` as its comments describe it, extracting the maximum each time:
      built on the max-heap sift-down `heapify2`, it sorts ascending. */
  method HeapSortMax(a: array<int>)
    modifies a
    ensures Sorted(a[..])
    ensures multiset(a[..]) == old(multiset(a[..]))
  {
    SortByHeap(a, MaxHeap);
  }
}
