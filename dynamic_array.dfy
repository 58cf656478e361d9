/** The growable contiguous array (dynamic_array.h): a buffer `data` of
    `capacity` elements whose first `size` are live, grown geometrically by
    reallocation and shifted in place by insert and remove. */
module DynamicArray {
  import opened PowersOfTwo

  /** DYNAMIC_ARRAY_GROWTH_FACTOR. */
  const GrowthFactor: nat := 2

  // ---------------------------------------------------------------------
  // Growth policy
  // ---------------------------------------------------------------------

  /** ensure_capacity as written: the success it reports and the capacity it
      leaves. It always asks realloc for exactly double the capacity,
      whatever `minCapacity` is. `reallocFails` is a NULL result from
      realloc. That result includes realloc(ptr, 0) on C libraries that free
      `ptr` and return NULL for a zero size. */
  function EnsureCapacityAsWritten(capacity: nat, minCapacity: nat, reallocFails: bool): (r: (bool, nat))
    ensures r.0 == (minCapacity <= capacity || !reallocFails)
    ensures !r.0 ==> r.1 == capacity
    ensures r.0 ==> r.1 >= capacity && r.1 <= 2 * capacity
    ensures r.0 && capacity < minCapacity ==> r.1 == capacity * GrowthFactor
    ensures r.0 && minCapacity <= capacity + 1 && capacity >= 1 ==> r.1 >= minCapacity
  {
    if minCapacity <= capacity then (true, capacity)
    else if reallocFails then (false, capacity)
    else (true, capacity * GrowthFactor)
  }

  /** As written, growth from capacity 0 for the first push_back never
      yields a slot. Whether it reports success depends on realloc(ptr, 0).
      If realloc returns a non-NULL pointer, success is reported with
      capacity still 0, and push_back then writes index 0 of an empty
      buffer. If realloc frees `ptr` and returns NULL (glibc), failure is
      reported, and `data` is left dangling for the later free. Where
      malloc(0) returns NULL, create(0) itself fails. */
  lemma AsWrittenZeroCapacityNeverGrows(reallocFails: bool)
    ensures EnsureCapacityAsWritten(0, 0 + 1, reallocFails).1 == 0
    ensures EnsureCapacityAsWritten(0, 0 + 1, reallocFails).0 == !reallocFails
    ensures !(0 < EnsureCapacityAsWritten(0, 0 + 1, reallocFails).1)
  {
  }

  /** For every request the code makes (size + 1, with size <= capacity),
      the corrected growth agrees with the code as written from capacity 1
      on; only capacity 0 tells them apart. */
  lemma CorrectedAgreesFromOne(capacity: nat, size: nat, reallocFails: bool)
    requires 1 <= capacity && size <= capacity
    ensures var r := EnsureCapacityAsWritten(capacity, size + 1, reallocFails);
            r.0 == (size + 1 <= capacity || !reallocFails)
            && (r.0 ==> r.1 == CapacityForOneMore(capacity, size))
  {
  }

  /** The capacity ensure_capacity grows to: the doubled capacity, or
      `minCapacity` if doubling is not enough. */
  function NewCapacity(capacity: nat, minCapacity: nat): (c: nat)
    ensures c >= minCapacity && c >= capacity * GrowthFactor
    ensures c == capacity * GrowthFactor || c == minCapacity
    ensures capacity >= 1 && minCapacity <= capacity + 1 ==> c == capacity * GrowthFactor
  {
    if capacity * GrowthFactor >= minCapacity then capacity * GrowthFactor else minCapacity
  }

  /** Capacity after one successful push_back or insert on an array holding
      `size` elements. */
  function CapacityForOneMore(capacity: nat, size: nat): nat {
    if size + 1 <= capacity then capacity else NewCapacity(capacity, size + 1)
  }

  /** Capacity after `n` successful push_backs on an empty array created
      with capacity `c0`. */
  function CapacityAfterPushes(c0: nat, n: nat): nat {
    if n == 0 then c0 else CapacityForOneMore(CapacityAfterPushes(c0, n - 1), n - 1)
  }

  /** From a starting capacity c0 >= 1, the capacity after n pushes is
      c0 * 2^k for the least k with c0 * 2^k >= n. */
  lemma {:induction false} GeometricGrowth(c0: nat, n: nat)
    requires c0 >= 1
    ensures exists k: nat :: CapacityAfterPushes(c0, n) == c0 * Pow2(k) && c0 * Pow2(k) >= n
                            && (k == 0 || c0 * Pow2(k - 1) < n)
  {
    if n == 0 {
      assert CapacityAfterPushes(c0, n) == c0 * Pow2(0);
    } else {
      GeometricGrowth(c0, n - 1);
      var k: nat :| CapacityAfterPushes(c0, n - 1) == c0 * Pow2(k) && c0 * Pow2(k) >= n - 1
                    && (k == 0 || c0 * Pow2(k - 1) < n - 1);
      var c := c0 * Pow2(k);
      if n <= c {
        assert CapacityForOneMore(c, n - 1) == c;
        assert CapacityAfterPushes(c0, n) == c0 * Pow2(k);
      } else {
        assert c >= 1 && n == c + 1;
        assert CapacityForOneMore(c, n - 1) == 2 * c;
        DoubleOfMultiple(c0, k);
        assert CapacityAfterPushes(c0, n) == c0 * Pow2(k + 1);
        assert c0 * Pow2((k + 1) - 1) < n;
      }
    }
  }

  lemma DoubleOfMultiple(c0: nat, k: nat)
    ensures c0 * Pow2(k + 1) == 2 * (c0 * Pow2(k))
  {
  }

  // ---------------------------------------------------------------------
  // The sequence a successful insert or remove produces
  // ---------------------------------------------------------------------

  /** `s` with `v` placed at `i`, the elements from `i` on moved one up. */
  function Inserted<T>(s: seq<T>, i: nat, v: T): (r: seq<T>)
    requires i <= |s|
    ensures |r| == |s| + 1 && r[i] == v
    ensures forall j :: 0 <= j < i ==> r[j] == s[j]
    ensures forall j :: i < j < |r| ==> r[j] == s[j - 1]
  {
    s[..i] + [v] + s[i..]
  }

  /** `s` without its element at `i`, the later elements moved one down. */
  function Removed<T>(s: seq<T>, i: nat): (r: seq<T>)
    requires i < |s|
    ensures |r| == |s| - 1
    ensures forall j :: 0 <= j < i ==> r[j] == s[j]
    ensures forall j :: i <= j < |r| ==> r[j] == s[j + 1]
  {
    s[..i] + s[i + 1..]
  }

  /** Removing at the index just inserted at gives the original sequence. */
  lemma RemoveUndoesInsert<T>(s: seq<T>, i: nat, v: T)
    requires i <= |s|
    ensures Removed(Inserted(s, i, v), i) == s
  {
    var r := Removed(Inserted(s, i, v), i);
    assert |r| == |s|;
    forall j | 0 <= j < |s| ensures r[j] == s[j] {
    }
  }

  // ---------------------------------------------------------------------
  // The container
  // ---------------------------------------------------------------------

  class DynArray<T> {
    var data: array<T>
    var size: nat
    var capacity: nat
    /** (TYPE)0: what an out-of-range get and a pop of an empty array yield. */
    const zero: T

    ghost predicate Valid()
      reads this
    {
      data.Length == capacity && size <= capacity
    }

    /** The live elements, in order. */
    ghost function Elements(): seq<T>
      reads this, data
      requires Valid()
    {
      data[..size]
    }

    /** create: an empty array with room for `startingCapacity` elements. */
    constructor (startingCapacity: nat, zero: T)
      ensures Valid() && fresh(data)
      ensures Elements() == [] && capacity == startingCapacity && this.zero == zero
    {
      data := new T[startingCapacity](_ => zero);
      size := 0;
      capacity := startingCapacity;
      this.zero := zero;
    }

    /** ensure_capacity: keep the buffer if it holds `minCapacity` elements,
        otherwise reallocate it to NewCapacity, keeping the old contents;
        `allocFails` stands for realloc returning NULL. */
    method EnsureCapacity(minCapacity: nat, allocFails: bool) returns (ok: bool)
      requires Valid()
      modifies this
      ensures Valid() && size == old(size) && Elements() == old(Elements())
      ensures minCapacity <= old(capacity) ==> ok && capacity == old(capacity) && data == old(data)
      ensures old(capacity) < minCapacity && allocFails ==>
                !ok && capacity == old(capacity) && data == old(data)
      ensures old(capacity) < minCapacity && !allocFails ==>
                ok && capacity == NewCapacity(old(capacity), minCapacity)
                && fresh(data) && data[..old(capacity)] == old(data[..])
    {
      if minCapacity <= capacity {
        return true;
      }
      var newCapacity := NewCapacity(capacity, minCapacity);
      if allocFails {
        return false;
      }
      var oldData := data;
      var newData := new T[newCapacity](j reads oldData => if 0 <= j < oldData.Length then oldData[j] else zero);
      assert newData[..oldData.Length] == oldData[..];
      data := newData;
      capacity := newCapacity;
      ok := true;
    }

    /** push_back: append `value`, growing first when the buffer is full. */
    method PushBack(value: T, allocFails: bool) returns (ok: bool)
      requires Valid()
      modifies this, data
      ensures Valid() && (data == old(data) || fresh(data))
      ensures ok == (old(size) < old(capacity) || !allocFails)
      ensures Elements() == if ok then old(Elements()) + [value] else old(Elements())
      ensures capacity == if ok then CapacityForOneMore(old(capacity), old(size)) else old(capacity)
    {
      ok := EnsureCapacity(size + 1, allocFails);
      if !ok {
        return;
      }
      data[size] := value;
      size := size + 1;
    }

    /** pop_back: the last element, removed; the zero value when empty. */
    method PopBack() returns (value: T)
      requires Valid()
      modifies this`size
      ensures Valid()
      ensures old(size) == 0 ==> value == zero && size == 0
      ensures old(size) > 0 ==> value == old(Elements())[old(size) - 1]
                                && Elements() == old(Elements())[..old(size) - 1]
    {
      if size == 0 {
        return zero;
      }
      size := size - 1;
      value := data[size];
    }

    /** get: the element at `index`, or the zero value out of range. */
    method Get(index: nat) returns (value: T)
      requires Valid()
      ensures value == if index < |Elements()| then Elements()[index] else zero
    {
      if index >= size {
        return zero;
      }
      value := data[index];
    }

    /** set: overwrite the element at `index`; fails out of range. */
    method Set(index: nat, value: T) returns (ok: bool)
      requires Valid()
      modifies data
      ensures Valid()
      ensures ok == (index < |old(Elements())|)
      ensures Elements() == if ok then old(Elements())[index := value] else old(Elements())
    {
      if index >= size {
        return false;
      }
      data[index] := value;
      ok := true;
    }

    /** insert: place `value` at `index` (at most size), shifting the tail
        right; fails out of range or when growth fails. */
    method Insert(index: nat, value: T, allocFails: bool) returns (ok: bool)
      requires Valid()
      modifies this, data
      ensures Valid() && (data == old(data) || fresh(data))
      ensures ok == (index <= old(size) && (old(size) < old(capacity) || !allocFails))
      ensures Elements() == if ok then Inserted(old(Elements()), index, value) else old(Elements())
      ensures capacity == if ok then CapacityForOneMore(old(capacity), old(size)) else old(capacity)
    {
      if index > size {
        return false;
      }
      ok := EnsureCapacity(size + 1, allocFails);
      if !ok {
        return;
      }
      ghost var s := data[..size];
      // the memmove of the tail one slot up, last element first
      var j := size;
      while j > index
        modifies data
        invariant index <= j <= size
        invariant forall k :: 0 <= k < j ==> data[k] == s[k]
        invariant forall k :: j < k <= size ==> data[k] == s[k - 1]
      {
        data[j] := data[j - 1];
        j := j - 1;
      }
      data[index] := value;
      size := size + 1;
      assert Elements() == Inserted(s, index, value);
    }

    /** remove: delete the element at `index`, shifting the tail left;
        fails out of range. */
    method Remove(index: nat) returns (ok: bool)
      requires Valid()
      modifies this`size, data
      ensures Valid()
      ensures ok == (index < old(size))
      ensures Elements() == if ok then Removed(old(Elements()), index) else old(Elements())
    {
      if index >= size {
        return false;
      }
      ghost var s := data[..size];
      // the memmove of the tail one slot down, first element first
      var j := index;
      while j < size - 1
        modifies data
        invariant index <= j <= size - 1
        invariant forall k :: 0 <= k < index ==> data[k] == s[k]
        invariant forall k :: index <= k < j ==> data[k] == s[k + 1]
        invariant forall k :: j <= k < size ==> data[k] == s[k]
      {
        data[j] := data[j + 1];
        j := j + 1;
      }
      size := size - 1;
      ok := true;
      assert Elements() == Removed(s, index);
    }

    /** size: the number of live elements. */
    method Size() returns (n: nat)
      requires Valid()
      ensures n == |Elements()|
    {
      n := size;
    }

    /** capacity: the number of elements the buffer holds. */
    method Capacity() returns (c: nat)
      requires Valid()
      ensures c == data.Length
    {
      c := capacity;
    }

    /** clear: forget every element, keeping the buffer. */
    method Clear()
      requires Valid()
      modifies this`size
      ensures Valid() && Elements() == [] && capacity == old(capacity)
    {
      size := 0;
    }
  }
}
