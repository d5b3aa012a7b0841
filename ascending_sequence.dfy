/** `ascending_sequence`: a vector of ints kept sorted by inserting at the
    `lower_bound` position (hello/ascending_sequence.h). */
module AscendingSequence {

  ghost predicate Ascending(s: seq<int>)
  {
    forall i, j :: 0 <= i < j < |s| ==> s[i] <= s[j]
  }

  /** The sequence after inserting `x` before the first element that is not less than `x`. */
  function InsertSorted(s: seq<int>, x: int): seq<int>
  {
    if s == [] || s[0] >= x then [x] + s else [s[0]] + InsertSorted(s[1..], x)
  }

  /** `std::lower_bound` on an ascending sequence: a binary search for the first
      position whose element is not less than `x`. */
  method LowerBound(s: seq<int>, x: int) returns (pos: nat)
    requires Ascending(s)
    ensures pos <= |s|
    ensures forall i :: 0 <= i < pos ==> s[i] < x
    ensures forall i :: pos <= i < |s| ==> s[i] >= x
  {
    var lo, hi := 0, |s|;
    while lo < hi
      invariant 0 <= lo <= hi <= |s|
      invariant forall i :: 0 <= i < lo ==> s[i] < x
      invariant forall i :: hi <= i < |s| ==> s[i] >= x
    {
      var mid := lo + (hi - lo) / 2;
      if s[mid] < x {
        lo := mid + 1;
      } else {
        hi := mid;
      }
    }
    pos := lo;
  }

  /** Inserting at a position that splits the elements into those less than `x`
      and the rest is exactly `InsertSorted`. */
  lemma {:induction false} InsertAtLowerBound(s: seq<int>, x: int, pos: nat)
    requires pos <= |s|
    requires forall i :: 0 <= i < pos ==> s[i] < x
    requires forall i :: pos <= i < |s| ==> s[i] >= x
    ensures InsertSorted(s, x) == s[..pos] + [x] + s[pos..]
  {
    if pos == 0 {
      assert s[..0] + [x] + s[0..] == [x] + s;
    } else {
      InsertAtLowerBound(s[1..], x, pos - 1);
      assert s[..pos] == [s[0]] + s[1..][..pos - 1];
      assert s[pos..] == s[1..][pos - 1..];
    }
  }

  lemma SplitInsertAscending(s: seq<int>, x: int, pos: nat)
    requires Ascending(s)
    requires pos <= |s|
    requires forall i :: 0 <= i < pos ==> s[i] < x
    requires forall i :: pos <= i < |s| ==> s[i] >= x
    ensures Ascending(s[..pos] + [x] + s[pos..])
  {
    var r := s[..pos] + [x] + s[pos..];
    forall i, j | 0 <= i < j < |r| ensures r[i] <= r[j] {
      if j < pos {
        assert r[i] == s[i] && r[j] == s[j];
      } else if j == pos {
        assert r[j] == x;
      } else if i == pos {
        assert r[j] == s[j - 1];
      } else if i < pos {
        assert r[i] == s[i] && r[j] == s[j - 1];
      } else {
        assert r[i] == s[i - 1] && r[j] == s[j - 1];
      }
    }
  }

  lemma SplitInsertMultiset(s: seq<int>, x: int, pos: nat)
    requires pos <= |s|
    ensures multiset(s[..pos] + [x] + s[pos..]) == multiset(s) + multiset{x}
  {
    assert s == s[..pos] + s[pos..];
  }

  /** What `InsertSorted` keeps: ascending order, one more element, one more `x`,
      smaller elements before `x` and the others after it, in their old order. */
  lemma InsertSortedProperties(s: seq<int>, x: int)
    requires Ascending(s)
    ensures Ascending(InsertSorted(s, x))
    ensures |InsertSorted(s, x)| == |s| + 1
    ensures multiset(InsertSorted(s, x)) == multiset(s) + multiset{x}
    ensures exists pos :: 0 <= pos <= |s| && InsertSorted(s, x) == s[..pos] + [x] + s[pos..]
              && (forall i :: 0 <= i < pos ==> s[i] < x) && (forall i :: pos <= i < |s| ==> s[i] >= x)
  {
    var pos := 0;
    while pos < |s| && s[pos] < x
      invariant 0 <= pos <= |s|
      invariant forall i :: 0 <= i < pos ==> s[i] < x
    {
      pos := pos + 1;
    }
    InsertAtLowerBound(s, x, pos);
    SplitInsertAscending(s, x, pos);
    SplitInsertMultiset(s, x, pos);
  }

  class SortedStore {
    /** `seq_`, the underlying vector. */
    var elems: seq<int>

    ghost predicate Valid()
      reads this
    {
      Ascending(elems)
    }

    constructor ()
      ensures Valid() && elems == []
    {
      elems := [];
    }

    /** `insert`: binary search, then `vector::insert` at the found position. */
    method Insert(x: int)
      requires Valid()
      modifies this
      ensures Valid()
      ensures elems == InsertSorted(old(elems), x)
      ensures |elems| == |old(elems)| + 1
      ensures multiset(elems) == multiset(old(elems)) + multiset{x}
    {
      var pos := LowerBound(elems, x);
      InsertAtLowerBound(elems, x, pos);
      SplitInsertAscending(elems, x, pos);
      SplitInsertMultiset(elems, x, pos);
      elems := elems[..pos] + [x] + elems[pos..];
    }

    /** `operator[]`: reads the element, changes nothing. */
    function At(idx: nat): (v: int)
      reads this
      requires idx < |elems|
      ensures v in elems
    {
      elems[idx]
    }

    /** `size`. */
    function Size(): (n: nat)
      reads this
      ensures n == |elems|
    {
      |elems|
    }
  }

  lemma DemoInsertions()
    ensures InsertSorted(InsertSorted(InsertSorted(InsertSorted(InsertSorted([], 7), 2), 4), 9), 5)
            == [2, 4, 5, 7, 9]
  {
    assert InsertSorted([], 7) == [7];
    assert InsertSorted([7], 2) == [2, 7];
    assert InsertSorted([7], 4) == [4, 7];
    assert InsertSorted([2, 7], 4) == [2, 4, 7];
    assert InsertSorted([7], 9) == [7, 9];
    assert InsertSorted([4, 7], 9) == [4, 7, 9];
    assert InsertSorted([2, 4, 7], 9) == [2, 4, 7, 9];
    assert InsertSorted([7, 9], 5) == [5, 7, 9];
    assert InsertSorted([4, 7, 9], 5) == [4, 5, 7, 9];
    assert InsertSorted([2, 4, 7, 9], 5) == [2, 4, 5, 7, 9];
  }

  /** The commented-out demonstration: inserting 7, 2, 4, 9, 5 gives 2 4 5 7 9,
      and the element at index 3 is 7. */
  method Demo() returns (contents: seq<int>, third: int)
    ensures contents == [2, 4, 5, 7, 9]
    ensures third == 7
  {
    var s := new SortedStore();
    s.Insert(7);
    s.Insert(2);
    s.Insert(4);
    s.Insert(9);
    s.Insert(5);
    DemoInsertions();
    third := s.At(3);
    contents := s.elems;
  }
}
