/**
 * `MyVector<T>` of datastructure/myvector.cpp: a growable array that keeps its
 * elements in the first `size` slots of a buffer of `capacity` slots. A null buffer
 * is the buffer of length 0; element construction and destruction are value copies
 * and no-ops.
 */
module Vectors {
  import opened Wrappers

  /** The capacity `reallocate()` picks when called without an argument: 1 for an
      empty buffer, else `capacity * 1.5` truncated, raised to `capacity + 1` when
      that does not grow. */
  function Grown(cap: nat): (r: nat)
    ensures r > cap
    ensures cap > 0 ==> r <= cap * 3 / 2 + 1
  {
    if cap == 0 then 1
    else
      var c := cap * 3 / 2;
      if c <= cap then cap + 1 else c
  }

  /** 0 grows to 1, 1 to 2, and from 2 on the factor 1.5 alone already grows. */
  lemma GrownSteps(cap: nat)
    ensures Grown(cap) == if cap == 0 then 1 else if cap * 3 / 2 > cap + 1 then cap * 3 / 2 else cap + 1
    ensures cap >= 2 ==> Grown(cap) == cap * 3 / 2
  {
  }

  /** The capacity `reallocate(requested)` moves to; 0 is the default argument. */
  function NewCapacity(requested: nat, cap: nat): nat
  {
    if requested == 0 then Grown(cap) else requested
  }

  /** The capacity the written `shrink_to_fit` leaves. */
  function ShrunkAsWritten(size: nat, cap: nat): nat
  {
    if size < cap then NewCapacity(size, cap) else cap
  }

  /** On an empty vector with a buffer, the written `shrink_to_fit` grows the buffer. */
  lemma ShrinkEmptyGrows(cap: nat)
    requires cap > 0
    ensures ShrunkAsWritten(0, cap) > cap
  {
  }

  /** What `at(idx)` yields: an element, the `out_of_range` exception, or a read
      past the end of the buffer. */
  datatype Access<T> = Element(value: T) | OutOfRange | PastBuffer

  /** `std::copy(src, src + n, dst)`. */
  method CopyPrefix<T>(src: array<T>, dst: array<T>, n: nat)
    requires n <= src.Length && n <= dst.Length && src != dst
    modifies dst
    ensures dst[..n] == src[..n]
    ensures dst[n..] == old(dst[n..])
  {
    var i := 0;
    while i < n
      invariant 0 <= i <= n
      invariant dst[..i] == src[..i]
      invariant dst[n..] == old(dst[n..])
    {
      dst[i] := src[i];
      i := i + 1;
      assert dst[..i] == dst[..i - 1] + [dst[i - 1]];
    }
  }

  /** The loop of `resize` that stores `value` in the slots `[from, to)`. */
  method Fill<T>(a: array<T>, from: nat, to: nat, value: T)
    requires from <= to <= a.Length
    modifies a
    ensures a[..from] == old(a[..from])
    ensures forall k :: from <= k < to ==> a[k] == value
    ensures a[to..] == old(a[to..])
  {
    var i := from;
    while i < to
      invariant from <= i <= to
      invariant a[..from] == old(a[..from])
      invariant forall k :: from <= k < i ==> a[k] == value
      invariant a[to..] == old(a[to..])
    {
      a[i] := value;
      i := i + 1;
    }
  }

  class MyVector<T(0)> {
    var data: array<T>
    var size: nat
    var capacity: nat

    /** `size_ <= capacity_`, and the buffer has `capacity_` slots. */
    ghost predicate Valid()
      reads this
    {
      size <= capacity && data.Length == capacity
    }

    /** The stored elements. */
    ghost function Contents(): seq<T>
      reads this, data
      requires Valid()
    {
      data[..size]
    }

    /** `MyVector()`: no buffer, no elements. */
    constructor ()
      ensures Valid() && fresh(data)
      ensures size == 0 && capacity == 0 && Contents() == []
    {
      data := new T[0];
      size := 0;
      capacity := 0;
    }

    /** The copy constructor: a new buffer of the same capacity holding the same elements. */
    constructor CopyOf(other: MyVector<T>)
      requires other.Valid()
      ensures Valid() && fresh(data)
      ensures size == other.size && capacity == other.capacity
      ensures Contents() == other.Contents()
    {
      var d := new T[other.capacity];
      CopyPrefix(other.data, d, other.size);
      data := d;
      size := other.size;
      capacity := other.capacity;
    }

    /** The move constructor: takes over the buffer of `other`, which is left empty
        with no buffer. */
    constructor MovedFrom(other: MyVector<T>)
      requires other.Valid()
      modifies other
      ensures Valid() && other.Valid()
      ensures data == old(other.data) && size == old(other.size) && capacity == old(other.capacity)
      ensures other.size == 0 && other.capacity == 0
    {
      data := other.data;
      size := other.size;
      capacity := other.capacity;
      new;
      other.data := new T[0];
      other.size := 0;
      other.capacity := 0;
    }

    /** Copy assignment: unless `other` is this vector, a new buffer of the capacity of
        `other` holding the elements of `other`. */
    method CopyAssign(other: MyVector<T>)
      requires Valid() && other.Valid()
      modifies this
      ensures Valid()
      ensures other == this ==> size == old(size) && capacity == old(capacity) && data == old(data)
      ensures other != this ==> fresh(data) && size == other.size && capacity == other.capacity
      ensures Contents() == old(other.Contents())
    {
      if this != other {
        var d := new T[other.capacity];
        CopyPrefix(other.data, d, other.size);
        size := other.size;
        capacity := other.capacity;
        data := d;
      }
    }

    /** Move assignment: unless `other` is this vector, releases this buffer, takes over
        that of `other` and leaves `other` empty with no buffer. */
    method MoveAssign(other: MyVector<T>)
      requires Valid() && other.Valid()
      modifies this, other
      ensures Valid() && other.Valid()
      ensures other == this ==> size == old(size) && capacity == old(capacity) && data == old(data)
      ensures other != this ==> data == old(other.data) && size == old(other.size) && capacity == old(other.capacity)
      ensures other != this ==> other.size == 0 && other.capacity == 0
    {
      if this != other {
        Clear();
        data := other.data;
        size := other.size;
        capacity := other.capacity;
        other.data := new T[0];
        other.size := 0;
        other.capacity := 0;
      }
    }

    /** `reallocate(requested)`: moves the elements to a new buffer of
        `NewCapacity(requested, capacity)` slots. Its callers never ask for fewer slots
        than there are elements. */
    method Reallocate(requested: nat)
      requires Valid() && (requested == 0 || requested >= size)
      modifies this
      ensures Valid() && fresh(data)
      ensures capacity == NewCapacity(requested, old(capacity))
      ensures size == old(size) && Contents() == old(Contents())
    {
      var newCapacity := NewCapacity(requested, capacity);
      var newData := new T[newCapacity];
      CopyPrefix(data, newData, size);
      data := newData;
      capacity := newCapacity;
    }

    /** `push_back(value)` (both overloads) and `emplace_back(args...)`: grows the buffer
        when it is full, then appends the value. */
    method PushBack(value: T)
      requires Valid()
      modifies this, data
      ensures Valid()
      ensures Contents() == old(Contents()) + [value]
      ensures capacity == if old(size) == old(capacity) then Grown(old(capacity)) else old(capacity)
      ensures old(size) == old(capacity) ==> fresh(data)
      ensures old(size) < old(capacity) ==> data == old(data)
    {
      if size == capacity {
        Reallocate(0);
      }
      data[size] := value;
      size := size + 1;
      assert data[..size] == old(data[..size]) + [value];
    }

    /** `reserve(n)`: reallocates to exactly `n` slots when that is more than the
        capacity; the elements stay. */
    method Reserve(n: nat)
      requires Valid()
      modifies this
      ensures Valid()
      ensures capacity == if n > old(capacity) then n else old(capacity)
      ensures n > old(capacity) ==> fresh(data)
      ensures n <= old(capacity) ==> data == old(data)
      ensures size == old(size) && Contents() == old(Contents())
    {
      if n > capacity {
        Reallocate(n);
      }
    }

    /** `resize(n, value)`: `n` elements, the first ones kept, the new ones `value`. */
    method Resize(n: nat, value: T)
      requires Valid()
      modifies this, data
      ensures Valid()
      ensures capacity == if n > old(capacity) then n else old(capacity)
      ensures n <= old(size) ==> Contents() == old(Contents())[..n]
      ensures n > old(size) ==> Contents() == old(Contents()) + seq(n - old(size), _ => value)
    {
      if n > capacity {
        Reserve(n);
      }
      if n > size {
        Fill(data, size, n, value);
        assert data[..n] == data[..size] + data[size..n];
      }
      size := n;
    }

    /** `pop_back()`: drops the last element; nothing happens on an empty vector. */
    method PopBack()
      requires Valid()
      modifies this
      ensures Valid() && data == old(data) && capacity == old(capacity)
      ensures old(size) == 0 ==> size == 0
      ensures old(size) > 0 ==> Contents() == old(Contents())[..old(size) - 1]
    {
      if size > 0 {
        size := size - 1;
      }
    }

    /** `clear()`: no elements; the buffer stays. */
    method Clear()
      requires Valid()
      modifies this
      ensures Valid() && data == old(data) && capacity == old(capacity)
      ensures size == 0 && Contents() == []
    {
      size := 0;
    }

    /** `shrink_to_fit()` as written: `reallocate(size_)` when there are spare slots,
        which for an empty vector is the default argument and grows the buffer. */
    method ShrinkToFitAsWritten()
      requires Valid()
      modifies this
      ensures Valid() && size == old(size) && Contents() == old(Contents())
      ensures capacity == ShrunkAsWritten(old(size), old(capacity))
      ensures old(size) == 0 < old(capacity) ==> capacity > old(capacity)
    {
      if size < capacity {
        Reallocate(size);
      }
    }

    /** `shrink_to_fit()` as evidently intended: the capacity becomes the size, an empty
        vector giving up its buffer. */
    method ShrinkToFit()
      requires Valid()
      modifies this
      ensures Valid() && size == old(size) && Contents() == old(Contents())
      ensures capacity == size
    {
      if size < capacity {
        if size == 0 {
          data := new T[0];
          capacity := 0;
        } else {
          Reallocate(size);
        }
      }
    }

    /** `at(idx)` as written: throws only for `idx > size_`, so `idx == size_` reads the
        slot after the last element, or past the buffer when it is full. */
    method AtAsWritten(idx: nat) returns (r: Access<T>)
      requires Valid()
      ensures r == OutOfRange <==> idx > size
      ensures idx < size ==> r == Element(Contents()[idx])
      ensures idx == size ==> r != OutOfRange
      ensures idx == size == capacity ==> r == PastBuffer
    {
      if idx > size {
        return OutOfRange;
      }
      if idx < data.Length {
        return Element(data[idx]);
      }
      return PastBuffer;
    }

    /** `at(idx)` as evidently intended: the element at `idx`, `out_of_range` from `size_` on. */
    method At(idx: nat) returns (r: Access<T>)
      requires Valid()
      ensures r == OutOfRange <==> idx >= size
      ensures idx < size ==> r == Element(Contents()[idx])
    {
      if idx >= size {
        return OutOfRange;
      }
      return Element(data[idx]);
    }

    /** `operator[](idx)`: unchecked, so only meaningful below `size_`. */
    method Get(idx: nat) returns (v: T)
      requires Valid() && idx < size
      ensures v == Contents()[idx]
    {
      v := data[idx];
    }

    /** `empty()`. */
    method Empty() returns (e: bool)
      requires Valid()
      ensures e <==> Contents() == []
    {
      e := size == 0;
    }

    /** `swap(other)`: exchanges sizes, capacities and buffers. */
    method Swap(other: MyVector<T>)
      requires Valid() && other.Valid()
      modifies this, other
      ensures Valid() && other.Valid()
      ensures size == old(other.size) && capacity == old(other.capacity) && data == old(other.data)
      ensures other.size == old(size) && other.capacity == old(capacity) && other.data == old(data)
    {
      var s := size;
      size := other.size;
      other.size := s;
      var c := capacity;
      capacity := other.capacity;
      other.capacity := c;
      var d := data;
      data := other.data;
      other.data := d;
    }
  }

  /** The `main` of datastructure/myvector.cpp: eleven `push_back`s on a new vector
      take the capacity through 1, 2, 3, 4, 6, 9 to 13, and `shrink_to_fit` then
      brings it down to 11. */
  method PushTrace() returns (sizeBefore: nat, capacityBefore: nat, capacityAfter: nat, elements: seq<int>)
    ensures sizeBefore == 11 && capacityBefore == 13 && capacityAfter == 11
    ensures elements == [0, 1, 2, 3, 4, 5, 6, 7, 8, 9, 1]
  {
    var v := new MyVector<int>();
    var i := 0;
    while i < 10
      invariant 0 <= i <= 10
      invariant v.Valid() && fresh(v) && fresh(v.data)
      invariant v.Contents() == seq(i, k => k)
      invariant v.capacity == [0, 1, 2, 3, 4, 6, 6, 9, 9, 9, 13][i]
    {
      v.PushBack(i);
      i := i + 1;
    }
    v.PushBack(1);
    sizeBefore, capacityBefore := v.size, v.capacity;
    elements := v.data[..v.size];
    v.ShrinkToFitAsWritten();
    capacityAfter := v.capacity;
  }
}
