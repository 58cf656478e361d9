/** Client code that replays the unit tests of both containers against
    the model, with every expected outcome stated as a postcondition. */
module Scenarios {
  import opened PowersOfTwo
  import opened HashProbe
  import opened DynamicArray
  import opened HashMap

  /** Three pushes onto an array created with capacity 2: the third grows
      the buffer to 4, and the elements are the ones pushed, in order. */
  method ThirdPushDoublesCapacity() returns (capacity: nat, elements: seq<int>)
    ensures capacity == 4 && elements == [10, 20, 30]
  {
    var a := new DynArray<int>(2, 0);
    var ok := a.PushBack(10, false);
    ok := a.PushBack(20, false);
    assert a.capacity == 2;
    ok := a.PushBack(30, false);
    capacity := a.Capacity();
    var x := a.Get(0);
    var y := a.Get(1);
    var z := a.Get(2);
    elements := [x, y, z];
  }

  /** A new array of capacity 2 is empty and has capacity 2. */
  method CreateIsEmpty() returns (size: nat, capacity: nat)
    ensures size == 0 && capacity == 2
  {
    var a := new DynArray<int>(2, 0);
    size := a.Size();
    capacity := a.Capacity();
  }

  /** Pop 2, then 1, then pop the empty array: 0. */
  method PopBackAndEmptyPop() returns (first: int, second: int, sizeBetween: nat, third: int)
    ensures first == 2 && sizeBetween == 1 && second == 1 && third == 0
  {
    var a := new DynArray<int>(2, 0);
    var ok := a.PushBack(1, false);
    ok := a.PushBack(2, false);
    first := a.PopBack();
    sizeBetween := a.Size();
    second := a.PopBack();
    third := a.PopBack();
  }

  /** Any get on an empty array yields 0. */
  method GetOnEmpty() returns (value: int)
    ensures value == 0
  {
    var a := new DynArray<int>(2, 0);
    value := a.Get(0);
  }

  /** Set inside the live elements succeeds and is read back; set at 5 on
      a one-element array fails. */
  method SetAndSetOutOfRange() returns (setOk: bool, readBack: int, setOutOk: bool)
    ensures setOk && readBack == 42 && !setOutOk
  {
    var a := new DynArray<int>(2, 0);
    var ok := a.PushBack(5, false);
    setOk := a.Set(0, 42);
    readBack := a.Get(0);
    setOutOk := a.Set(5, 7);
  }

  /** [1, 3] with 2 inserted at 1 is [1, 2, 3]; inserting 99 at the front
      then gives four elements starting with 99. */
  method InsertMiddleAndFront() returns (middle: seq<int>, front: int, size: nat)
    ensures middle == [1, 2, 3] && front == 99 && size == 4
  {
    var a := new DynArray<int>(2, 0);
    var ok := a.PushBack(1, false);
    ok := a.PushBack(3, false);
    ok := a.Insert(1, 2, false);
    var x := a.Get(0);
    var y := a.Get(1);
    var z := a.Get(2);
    middle := [x, y, z];
    ok := a.Insert(0, 99, false);
    front := a.Get(0);
    size := a.Size();
  }

  /** Removing index 2 from [1, 2, 3, 4, 5] gives [1, 2, 4, 5]; removing at
      10 then fails. */
  method RemoveShifts() returns (removed: bool, after: seq<int>, removedOut: bool)
    ensures removed && after == [1, 2, 4, 5] && !removedOut
  {
    var a := OneToFive();
    removed := a.Remove(2);
    var n := a.Size();
    var w := a.Get(0);
    var x := a.Get(1);
    var y := a.Get(2);
    var z := a.Get(3);
    after := if n == 4 then [w, x, y, z] else [];
    removedOut := a.Remove(10);
  }

  /** The array of the removal test: pushes of i + 1 for i from 0 to 4
      onto an array created with capacity 2. */
  method OneToFive() returns (a: DynArray<int>)
    ensures fresh(a) && fresh(a.data) && a.Valid() && a.Elements() == [1, 2, 3, 4, 5]
  {
    a := new DynArray<int>(2, 0);
    for i := 0 to 5
      invariant fresh(a) && fresh(a.data) && a.Valid() && |a.Elements()| == i
      invariant forall j :: 0 <= j < i ==> a.Elements()[j] == j + 1
    {
      var ok := a.PushBack(i + 1, false);
    }
  }

  /** Clear empties the array and keeps its capacity of at least 2. */
  method ClearKeepsCapacity() returns (size: nat, capacity: nat)
    ensures size == 0 && capacity >= 2
  {
    var a := new DynArray<int>(2, 0);
    var ok := a.PushBack(10, false);
    ok := a.PushBack(20, false);
    a.Clear();
    size := a.Size();
    capacity := a.Capacity();
  }

  /** Map creation with 8 requested slots yields exactly 8. */
  method CreateKeepsPowerOfTwo(hash: int -> bv64) returns (capacity: nat, occupancy: nat)
    ensures capacity == 8 && occupancy == 0
  {
    var m := new HashMap<int, int>(8, (a: int, b: int) => a == b, hash, 0, 0);
    assert IsPowerOfTwo(8);
    capacity, occupancy := m.capacity, m.occupancy;
  }

  /** Insert, find, overwrite, find again; erase, find, erase an absent key. */
  method InsertFindErase(hash: int -> bv64) returns (found: Option<int>, updated: Option<int>,
                                                     erased: bool, gone: Option<int>, erasedAbsent: bool)
    ensures found == Some(100) && updated == Some(999)
    ensures erased && gone == None && !erasedAbsent
  {
    var m := new HashMap<int, int>(4, (a: int, b: int) => a == b, hash, 0, 0);
    m.NotFullResolves(42);
    var ok := m.Insert(42, 100);
    found := m.Find(42);
    ok := m.Insert(42, 999);
    updated := m.Find(42);
    assert m.occupancy == 1;
    erased := m.Erase(42);
    gone := m.Find(42);
    m.NotFullResolves(123);
    erasedAbsent := m.Erase(123);
  }

  /** With capacity 2, two inserts fill every slot; a third key then has no
      slot to stop at, so find_entry would never return. The map never
      grows, contrary to what its rehash test expects. */
  method ThirdInsertIntoTwoSlotsCannotResolve(hash: int -> bv64) returns (m: HashMap<int, int>)
    ensures m.Valid() && m.capacity == 2 && m.occupancy == 2 && !m.CanResolve(3)
  {
    var eq := (a: int, b: int) => a == b;
    m := new HashMap<int, int>(2, eq, hash, 0, 0);
    assert IsPowerOfTwo(2);
    assert m.capacity == 2 && m.keysEqual == eq;
    ghost var s0 := m.Slots();
    m.NotFullResolves(1);
    ghost var i1 := m.ResolvedSlot(1);
    var ok := m.Insert(1, 10);
    m.NotFullResolves(2);
    ghost var i2 := m.ResolvedSlot(2);
    ghost var s1 := m.Slots();
    assert s1 == s0[i1 := Entry(1, 10)] && IsStop(s1[i2], 2, 0, eq);
    TwoKeysFillTwoSlots(s0, i1, i2, eq);
    ok := m.Insert(2, 20);
    assert m.Slots() == s1[i2 := Entry(2, 20)];
  }

  /** Keys 1 and 2 written into a two-slot table that starts empty, each
      into a slot where its probe stops: the second lands in the slot the
      first left empty, and then no slot stops a probe for key 3. */
  lemma TwoKeysFillTwoSlots(s0: seq<Entry<int, int>>, i1: nat, i2: nat, eq: (int, int) -> bool)
    requires |s0| == 2 && s0[0].key == 0 && s0[1].key == 0 && i1 < 2 && i2 < 2
    requires forall a, b :: eq(a, b) <==> a == b
    requires IsStop(s0[i1 := Entry(1, 10)][i2], 2, 0, eq)
    ensures s0[i1 := Entry(1, 10)][i2].key == 0
    ensures !HasStop(s0[i1 := Entry(1, 10)][i2 := Entry(2, 20)], 3, 0, eq)
  {
    var s2 := s0[i1 := Entry(1, 10)][i2 := Entry(2, 20)];
    assert i1 != i2;
    forall j | 0 <= j < 2 ensures !IsStop(s2[j], 3, 0, eq) {
      assert s2[j].key == 1 || s2[j].key == 2;
    }
  }

  /** The iteration loop of the iterator test: it_begin, then it_next
      while there are more, recording the slot index at each stop. It
      stops at exactly the occupied slots, in ascending order, `occupancy`
      of them. */
  method VisitAll<V>(m: HashMap<int, V>) returns (visited: seq<nat>)
    requires m.Valid()
    ensures forall j :: j in visited <==> 0 <= j < m.capacity && m.Slots()[j].key != m.zero
    ensures StrictlyAscending(visited) && |visited| == m.occupancy
  {
    ghost var slots := m.Slots();
    ghost var all := OccupiedFrom(slots, m.zero, 0);
    var it := new MapIterator.Begin(m);
    SkipEmptySlots(slots, m.zero, 0);
    visited := [];
    var more := it.index < m.capacity;
    while more
      invariant it.owner == m && m.Slots() == slots && m.Valid()
      invariant more == (it.index < m.capacity) && (more ==> slots[it.index].key != m.zero)
      invariant visited + OccupiedFrom(slots, m.zero, it.index) == all
      decreases m.capacity - it.index
    {
      var i := it.index;
      ghost var next := NextOccupied(slots, m.zero, i + 1);
      RecordVisit(slots, m.zero, visited, i, all);
      visited := visited + [i];
      more := it.Next();
      assert it.index == next;
    }
    assert visited == visited + [] == all;
    FullPass(slots, m.zero);
  }

  /** Recording the slot an iterator stands at moves it from the slots
      still to come to the ones already seen. */
  lemma RecordVisit<K, V>(slots: seq<Entry<K, V>>, zero: K, visited: seq<nat>, i: nat, all: seq<nat>)
    requires i < |slots| && slots[i].key != zero
    requires visited + OccupiedFrom(slots, zero, i) == all
    ensures (visited + [i]) + OccupiedFrom(slots, zero, NextOccupied(slots, zero, i + 1)) == all
  {
    IterationStep(slots, zero, i);
    assert (visited + [i]) + OccupiedFrom(slots, zero, NextOccupied(slots, zero, i + 1))
           == visited + ([i] + OccupiedFrom(slots, zero, NextOccupied(slots, zero, i + 1)));
  }
}
