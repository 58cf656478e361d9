/** The value-level specification of the open-addressing hash map of
    hash_map.h: slots, the start index `hash & (capacity - 1)`, linear
    probing to the first empty-or-matching slot, the occupancy count and
    the slot order of the iterator. A slot is empty exactly when its key is
    the key type's zero value; there is no status tag and no tombstone. */
module HashProbe {
  import opened PowersOfTwo

  /** One slot: the C struct holding a key and a value. */
  datatype Entry<K, V> = Entry(key: K, value: V)

  /** find's result: a NULL pointer, or (a pointer to) a value. */
  datatype Option<T> = None | Some(value: T)

  // ---------------------------------------------------------------------
  // The start index: hash & (capacity - 1)
  // ---------------------------------------------------------------------

  /** Bitwise AND of two naturals, binary digit by binary digit (C's `&`
      on unsigned operands). */
  function BitAnd(a: nat, b: nat): (r: nat)
    ensures r <= a && r <= b
    decreases a
  {
    if a == 0 || b == 0 then 0
    else 2 * BitAnd(a / 2, b / 2) + (if a % 2 == 1 && b % 2 == 1 then 1 else 0)
  }

  lemma MulMonotone(m: nat, a: nat, b: nat)
    requires a <= b
    ensures m * a <= m * b
  {
  }

  /** Division with remainder has one answer. */
  lemma ModUnique(x: nat, m: nat, a: nat, c: nat)
    requires m >= 1 && x == m * a + c && c < m
    ensures x % m == c && x / m == a
  {
    var d, r := x / m, x % m;
    assert x == m * d + r;
    if a > d {
      MulMonotone(m, d + 1, a);
    } else if a < d {
      MulMonotone(m, a + 1, d);
    }
  }

  lemma ModOfDouble(x: nat, p: nat)
    requires p >= 1
    ensures x % (2 * p) == 2 * ((x / 2) % p) + x % 2
  {
    var q, r := x / 2, x % 2;
    var a, b := q / p, q % p;
    assert q == p * a + b;
    assert x == (2 * p) * a + (2 * b + r);
    ModUnique(x, 2 * p, a, 2 * b + r);
  }

  /** Masking with capacity - 1 keeps the remainder modulo a power-of-two
      capacity. */
  lemma {:induction false} MaskIsMod(x: nat, capacity: nat)
    requires IsPowerOfTwo(capacity)
    ensures BitAnd(x, capacity - 1) == x % capacity
    decreases capacity
  {
    if capacity == 1 {
      assert BitAnd(x, 0) == 0;
    } else if x == 0 {
      assert BitAnd(0, capacity - 1) == 0;
    } else {
      var p := capacity / 2;
      assert capacity == 2 * p;
      assert (capacity - 1) / 2 == p - 1 && (capacity - 1) % 2 == 1;
      MaskIsMod(x / 2, p);
      calc {
        BitAnd(x, capacity - 1);
        2 * BitAnd(x / 2, p - 1) + x % 2;
        2 * ((x / 2) % p) + x % 2;
        { ModOfDouble(x, p); }
        x % capacity;
      }
    }
  }

  /** find_entry's first index, `hash & (capacity - 1)` for the 64-bit hash
      read as a natural: for a power-of-two capacity it is the hash modulo
      the capacity. */
  function StartIndex(hash: nat, capacity: nat): (i: nat)
    requires IsPowerOfTwo(capacity)
    ensures i == hash % capacity && i < capacity
  {
    MaskIsMod(hash, capacity);
    BitAnd(hash, capacity - 1)
  }

  /** find_entry's step, `(index + 1) & (capacity - 1)`: the next slot,
      wrapping from the last one to slot 0. */
  function NextIndex(index: nat, capacity: nat): (i: nat)
    requires IsPowerOfTwo(capacity) && index < capacity
    ensures i == (index + 1) % capacity
    ensures i == if index + 1 == capacity then 0 else index + 1
  {
    MaskIsMod(index + 1, capacity);
    StepWraps(index, capacity);
    BitAnd(index + 1, capacity - 1)
  }

  /** One step past `index`, modulo the capacity: the next index, or 0 past
      the last one. */
  lemma StepWraps(index: nat, capacity: nat)
    requires index < capacity
    ensures (index + 1) % capacity == if index + 1 == capacity then 0 else index + 1
  {
    if index + 1 == capacity {
      ModUnique(index + 1, capacity, 1, 0);
    } else {
      ModUnique(index + 1, capacity, 0, index + 1);
    }
  }

  // ---------------------------------------------------------------------
  // Linear probing
  // ---------------------------------------------------------------------

  /** A slot where probing for `key` stops: an empty one, or one whose key
      the map's equality function relates to `key`. */
  predicate IsStop<K(==), V>(e: Entry<K, V>, key: K, zero: K, keysEqual: (K, K) -> bool) {
    e.key == zero || keysEqual(e.key, key)
  }

  /** The slot `d` steps along the probe path that starts at `start`, one
      lap at most: (start + d) mod n. */
  function SlotAt(start: nat, d: nat, n: nat): (i: nat)
    requires start < n && d < n
    ensures i < n
  {
    if start + d < n then start + d else start + d - n
  }

  /** Some slot stops a probe for `key`; without one, find_entry never returns. */
  ghost predicate HasStop<K, V>(slots: seq<Entry<K, V>>, key: K, zero: K, keysEqual: (K, K) -> bool) {
    exists j :: 0 <= j < |slots| && IsStop(slots[j], key, zero, keysEqual)
  }

  /** The number of steps to the first stop at or after step `d` of the
      probe path, or |slots| when there is none before the lap ends. */
  function StopDistance<K(==), V>(slots: seq<Entry<K, V>>, start: nat, key: K, zero: K,
                                  keysEqual: (K, K) -> bool, d: nat): (r: nat)
    requires start < |slots| && d <= |slots|
    ensures d <= r <= |slots|
    ensures r < |slots| ==> IsStop(slots[SlotAt(start, r, |slots|)], key, zero, keysEqual)
    ensures forall e :: d <= e < r ==> !IsStop(slots[SlotAt(start, e, |slots|)], key, zero, keysEqual)
    decreases |slots| - d
  {
    if d == |slots| then d
    else if IsStop(slots[SlotAt(start, d, |slots|)], key, zero, keysEqual) then d
    else StopDistance(slots, start, key, zero, keysEqual, d + 1)
  }

  /** If some slot stops the probe, one lap from any start reaches a stop. */
  lemma StopWithinOneLap<K, V>(slots: seq<Entry<K, V>>, start: nat, key: K, zero: K,
                                   keysEqual: (K, K) -> bool)
    requires start < |slots| && HasStop(slots, key, zero, keysEqual)
    ensures StopDistance(slots, start, key, zero, keysEqual, 0) < |slots|
  {
    var n := |slots|;
    var j :| 0 <= j < n && IsStop(slots[j], key, zero, keysEqual);
    var d := if j >= start then j - start else j + n - start;
    assert SlotAt(start, d, n) == j;
  }

  /** The slot find_entry resolves `key` to: the first slot on the probe
      path from `start` that is empty or holds a key equal to `key`. */
  function Resolve<K(==), V>(slots: seq<Entry<K, V>>, start: nat, key: K, zero: K,
                             keysEqual: (K, K) -> bool): (i: nat)
    requires start < |slots| && HasStop(slots, key, zero, keysEqual)
    ensures i < |slots| && IsStop(slots[i], key, zero, keysEqual)
  {
    StopWithinOneLap(slots, start, key, zero, keysEqual);
    SlotAt(start, StopDistance(slots, start, key, zero, keysEqual, 0), |slots|)
  }

  /** A stop `d` steps along the path, with no stop before it, is the slot
      Resolve picks. */
  lemma {:induction false} ResolveIsFirstStop<K, V>(slots: seq<Entry<K, V>>, start: nat, key: K,
                                                        zero: K, keysEqual: (K, K) -> bool, d: nat)
    requires start < |slots| && d < |slots|
    requires IsStop(slots[SlotAt(start, d, |slots|)], key, zero, keysEqual)
    requires forall e :: 0 <= e < d ==> !IsStop(slots[SlotAt(start, e, |slots|)], key, zero, keysEqual)
    ensures HasStop(slots, key, zero, keysEqual)
    ensures Resolve(slots, start, key, zero, keysEqual) == SlotAt(start, d, |slots|)
  {
    assert IsStop(slots[SlotAt(start, d, |slots|)], key, zero, keysEqual);
  }

  /** Writing a stop for `key` into the slot `key` resolves to leaves that
      the resolved slot: the slots before it on the path are untouched. */
  lemma ResolveAfterWrite<K, V>(slots: seq<Entry<K, V>>, start: nat, key: K, zero: K,
                                    keysEqual: (K, K) -> bool, e: Entry<K, V>)
    requires start < |slots| && HasStop(slots, key, zero, keysEqual)
    requires IsStop(e, key, zero, keysEqual)
    ensures var i := Resolve(slots, start, key, zero, keysEqual);
            HasStop(slots[i := e], key, zero, keysEqual)
            && Resolve(slots[i := e], start, key, zero, keysEqual) == i
  {
    var n := |slots|;
    var d := StopDistance(slots, start, key, zero, keysEqual, 0);
    var i := Resolve(slots, start, key, zero, keysEqual);
    var slots' := slots[i := e];
    forall x | 0 <= x < d
      ensures !IsStop(slots'[SlotAt(start, x, n)], key, zero, keysEqual)
    {
      assert SlotAt(start, x, n) != i;
    }
    ResolveIsFirstStop(slots', start, key, zero, keysEqual, d);
  }

  // ---------------------------------------------------------------------
  // Occupancy
  // ---------------------------------------------------------------------

  /** 1 for a slot whose key is not the zero value, 0 for an empty one. */
  function Occupied<K(==), V>(e: Entry<K, V>, zero: K): nat {
    if e.key != zero then 1 else 0
  }

  /** The number of slots whose key is not the zero value. */
  function CountOccupied<K(==), V>(slots: seq<Entry<K, V>>, zero: K): (c: nat)
    ensures c <= |slots|
  {
    if |slots| == 0 then 0 else Occupied(slots[0], zero) + CountOccupied(slots[1..], zero)
  }

  /** Overwriting one slot changes the count by what leaves and what enters. */
  lemma {:induction false} CountAfterWrite<K, V>(slots: seq<Entry<K, V>>, zero: K, i: nat, e: Entry<K, V>)
    requires i < |slots|
    ensures CountOccupied(slots, zero) >= Occupied(slots[i], zero)
    ensures CountOccupied(slots[i := e], zero)
            == CountOccupied(slots, zero) - Occupied(slots[i], zero) + Occupied(e, zero)
  {
    if i == 0 {
      assert slots[i := e][1..] == slots[1..];
    } else {
      assert slots[i := e][1..] == slots[1..][i - 1 := e];
      CountAfterWrite(slots[1..], zero, i - 1, e);
    }
  }

  /** A table that is not full has an empty slot. */
  lemma {:induction false} NotFullHasEmptySlot<K, V>(slots: seq<Entry<K, V>>, zero: K)
    requires CountOccupied(slots, zero) < |slots|
    ensures exists j :: 0 <= j < |slots| && slots[j].key == zero
  {
    if slots[0].key != zero {
      NotFullHasEmptySlot(slots[1..], zero);
      var j :| 0 <= j < |slots[1..]| && slots[1..][j].key == zero;
      assert slots[j + 1].key == zero;
    }
  }

  /** In a full table every key is non-zero, so a probe for a key that no
      slot holds never stops: find_entry would loop forever. */
  lemma {:induction false} FullTableHasNoStop<K, V>(slots: seq<Entry<K, V>>, key: K, zero: K,
                                                        keysEqual: (K, K) -> bool)
    requires CountOccupied(slots, zero) == |slots|
    requires forall j :: 0 <= j < |slots| ==> !keysEqual(slots[j].key, key)
    ensures !HasStop(slots, key, zero, keysEqual)
  {
    if |slots| > 0 {
      assert Occupied(slots[0], zero) <= 1;
      assert CountOccupied(slots[1..], zero) <= |slots[1..]|;
      FullTableHasNoStop(slots[1..], key, zero, keysEqual);
      forall j | 0 <= j < |slots| ensures !IsStop(slots[j], key, zero, keysEqual) {
        if j > 0 {
          assert slots[j] == slots[1..][j - 1];
        }
      }
    }
  }

  /** A table with fewer occupied slots than slots stops every probe. */
  lemma NotFullHasStop<K, V>(slots: seq<Entry<K, V>>, key: K, zero: K, keysEqual: (K, K) -> bool)
    requires CountOccupied(slots, zero) < |slots|
    ensures HasStop(slots, key, zero, keysEqual)
  {
    NotFullHasEmptySlot(slots, zero);
    var j :| 0 <= j < |slots| && slots[j].key == zero;
    assert IsStop(slots[j], key, zero, keysEqual);
  }

  /** A table whose every key is the zero value counts no occupied slot. */
  lemma {:induction false} CountAllEmpty<K, V>(slots: seq<Entry<K, V>>, zero: K)
    requires forall j :: 0 <= j < |slots| ==> slots[j].key == zero
    ensures CountOccupied(slots, zero) == 0
  {
    if |slots| > 0 {
      CountAllEmpty(slots[1..], zero);
    }
  }

  // ---------------------------------------------------------------------
  // Lookup: what find answers
  // ---------------------------------------------------------------------

  /** find on a map with at least one occupied slot: the value of the slot
      `key` resolves to, absent when that slot is empty. */
  function Lookup<K(==), V>(slots: seq<Entry<K, V>>, start: nat, key: K, zero: K,
                            keysEqual: (K, K) -> bool): (r: Option<V>)
    requires start < |slots| && HasStop(slots, key, zero, keysEqual)
    ensures r.Some? ==> exists j :: 0 <= j < |slots| && slots[j].key != zero
                                    && keysEqual(slots[j].key, key) && slots[j].value == r.value
  {
    var i := Resolve(slots, start, key, zero, keysEqual);
    if slots[i].key == zero then None else Some(slots[i].value)
  }

  /** A key stored `d` steps along its probe path, behind only occupied
      slots holding other keys, is found with its value. */
  lemma LookupFindsKeyInCluster<K, V>(slots: seq<Entry<K, V>>, start: nat, key: K, zero: K,
                                      keysEqual: (K, K) -> bool, d: nat)
    requires start < |slots| && d < |slots|
    requires var e := slots[SlotAt(start, d, |slots|)]; e.key != zero && keysEqual(e.key, key)
    requires forall x :: 0 <= x < d ==> var e := slots[SlotAt(start, x, |slots|)];
                                        e.key != zero && !keysEqual(e.key, key)
    ensures HasStop(slots, key, zero, keysEqual)
    ensures Lookup(slots, start, key, zero, keysEqual) == Some(slots[SlotAt(start, d, |slots|)].value)
  {
    ResolveIsFirstStop(slots, start, key, zero, keysEqual, d);
  }

  /** After insert writes a non-zero `key` into the slot it resolves to,
      a lookup of that key finds the written value (given that the key is
      equal to itself). */
  lemma LookupAfterInsert<K, V>(slots: seq<Entry<K, V>>, start: nat, key: K, zero: K,
                                keysEqual: (K, K) -> bool, value: V)
    requires start < |slots| && HasStop(slots, key, zero, keysEqual)
    requires key != zero && keysEqual(key, key)
    ensures var slots' := slots[Resolve(slots, start, key, zero, keysEqual) := Entry(key, value)];
            HasStop(slots', key, zero, keysEqual)
            && Lookup(slots', start, key, zero, keysEqual) == Some(value)
  {
    ResolveAfterWrite(slots, start, key, zero, keysEqual, Entry(key, value));
  }

  /** After erase zeroes the key of the slot `key` resolves to, a lookup of
      that key finds nothing. */
  lemma LookupAfterErase<K, V>(slots: seq<Entry<K, V>>, start: nat, key: K, zero: K,
                               keysEqual: (K, K) -> bool)
    requires start < |slots| && HasStop(slots, key, zero, keysEqual)
    ensures var i := Resolve(slots, start, key, zero, keysEqual);
            var slots' := slots[i := slots[i].(key := zero)];
            HasStop(slots', key, zero, keysEqual)
            && Lookup(slots', start, key, zero, keysEqual) == None
  {
    var i := Resolve(slots, start, key, zero, keysEqual);
    ResolveAfterWrite(slots, start, key, zero, keysEqual, slots[i].(key := zero));
  }

  /** Erasing empties a slot and leaves no tombstone, so a key stored
      further along the same cluster can no longer be found: here keys 1
      and 2 both start at slot 0, and erasing 1 hides 2. */
  lemma EraseCanHideLaterKey()
    ensures var eq := (a: int, b: int) => a == b;
            var before := [Entry(1, 10), Entry(2, 20), Entry(0, 0)];
            var after := before[0 := before[0].(key := 0)];
            HasStop(before, 2, 0, eq) && HasStop(after, 2, 0, eq)
            && Lookup(before, 0, 2, 0, eq) == Some(20)
            && Lookup(after, 0, 2, 0, eq) == None
  {
    var eq := (a: int, b: int) => a == b;
    var before := [Entry(1, 10), Entry(2, 20), Entry(0, 0)];
    var after := before[0 := before[0].(key := 0)];
    assert SlotAt(0, 1, 3) == 1 && SlotAt(0, 0, 3) == 0;
    LookupFindsKeyInCluster(before, 0, 2, 0, eq, 1);
    ResolveIsFirstStop(after, 0, 2, 0, eq, 0);
  }

  /** Continuing that table: the hidden key 2 now resolves to the emptied
      slot 0, so inserting it again stores a second copy. Two slots then
      count as occupied for one distinct key. Erasing 2 removes only the
      first copy; find then reports 2 absent, while iteration still
      visits slot 1, which holds 2. */
  lemma ReinsertDuplicatesHiddenKey()
    ensures var eq := (a: int, b: int) => a == b;
            var after := [Entry(0, 10), Entry(2, 20), Entry(0, 0)];
            var reinserted := after[0 := Entry(2, 99)];
            var erased := reinserted[0 := Entry(0, 99)];
            HasStop(after, 2, 0, eq) && Resolve(after, 0, 2, 0, eq) == 0
            && HasStop(reinserted, 2, 0, eq) && Resolve(reinserted, 0, 2, 0, eq) == 0
            && reinserted[0].key == 2 && reinserted[1].key == 2
            && CountOccupied(reinserted, 0) == 2
            && HasStop(erased, 2, 0, eq) && Lookup(erased, 0, 2, 0, eq) == None
            && 1 in OccupiedFrom(erased, 0, 0) && erased[1].key == 2
  {
    var eq := (a: int, b: int) => a == b;
    var after := [Entry(0, 10), Entry(2, 20), Entry(0, 0)];
    assert SlotAt(0, 0, 3) == 0;
    ResolveIsFirstStop(after, 0, 2, 0, eq, 0);
    var reinserted := after[0 := Entry(2, 99)];
    ResolveIsFirstStop(reinserted, 0, 2, 0, eq, 0);
    var erased := reinserted[0 := Entry(0, 99)];
    ResolveIsFirstStop(erased, 0, 2, 0, eq, 0);
    OccupiedFromIsExact(erased, 0, 0);
    assert reinserted[1..][1..][1..] == [];
    assert CountOccupied(reinserted[1..][1..], 0) == 0;
    assert CountOccupied(reinserted[1..], 0) == 1;
  }

  // ---------------------------------------------------------------------
  // Iteration order
  // ---------------------------------------------------------------------

  /** The first index at or after `from` whose slot is non-empty, or `from`
      itself once it is past the last slot. */
  function NextOccupied<K(==), V>(slots: seq<Entry<K, V>>, zero: K, from: nat): (r: nat)
    ensures from <= r && (from <= |slots| ==> r <= |slots|)
    ensures r < |slots| ==> slots[r].key != zero
    ensures forall j :: from <= j < r && j < |slots| ==> slots[j].key == zero
    decreases |slots| - from
  {
    if from >= |slots| then from
    else if slots[from].key != zero then from
    else NextOccupied(slots, zero, from + 1)
  }

  /** The indices of the non-empty slots at or after `from`, ascending:
      the reference for what iteration visits. */
  function OccupiedFrom<K(==), V>(slots: seq<Entry<K, V>>, zero: K, from: nat): seq<nat>
    decreases |slots| - from
  {
    if from >= |slots| then []
    else (if slots[from].key != zero then [from] else []) + OccupiedFrom(slots, zero, from + 1)
  }

  predicate StrictlyAscending(s: seq<nat>) {
    forall a, b :: 0 <= a < b < |s| ==> s[a] < s[b]
  }

  /** The occupied indices from `from` start at the first occupied slot
      NextOccupied finds: skipping empty slots loses nothing. */
  lemma {:induction false} SkipEmptySlots<K, V>(slots: seq<Entry<K, V>>, zero: K, from: nat)
    ensures OccupiedFrom(slots, zero, from) == OccupiedFrom(slots, zero, NextOccupied(slots, zero, from))
    decreases |slots| - from
  {
    if from < |slots| && slots[from].key == zero {
      SkipEmptySlots(slots, zero, from + 1);
      assert OccupiedFrom(slots, zero, from) == [] + OccupiedFrom(slots, zero, from + 1);
    }
  }

  /** An iterator standing at occupied slot `i` has `i` next, then the
      slots it_next moves on to. */
  lemma IterationStep<K, V>(slots: seq<Entry<K, V>>, zero: K, i: nat)
    requires i < |slots| && slots[i].key != zero
    ensures OccupiedFrom(slots, zero, i) == [i] + OccupiedFrom(slots, zero, NextOccupied(slots, zero, i + 1))
  {
    SkipEmptySlots(slots, zero, i + 1);
  }

  /** The occupied indices from `from` are exactly the non-empty slots at
      or after `from`, strictly ascending, as many as the occupied slots
      there. */
  lemma {:induction false} OccupiedFromIsExact<K, V>(slots: seq<Entry<K, V>>, zero: K, from: nat)
    requires from <= |slots|
    ensures forall j :: j in OccupiedFrom(slots, zero, from) <==> from <= j < |slots| && slots[j].key != zero
    ensures forall j :: j in OccupiedFrom(slots, zero, from) ==> from <= j
    ensures StrictlyAscending(OccupiedFrom(slots, zero, from))
    ensures |OccupiedFrom(slots, zero, from)| == CountOccupied(slots[from..], zero)
    decreases |slots| - from
  {
    if from < |slots| {
      OccupiedFromIsExact(slots, zero, from + 1);
      var head: seq<nat> := if slots[from].key != zero then [from] else [];
      var rest := OccupiedFrom(slots, zero, from + 1);
      var w := OccupiedFrom(slots, zero, from);
      assert w == head + rest;
      assert slots[from..][1..] == slots[from + 1..];
      forall j ensures j in w <==> j in head || j in rest {
      }
      forall a, b | 0 <= a < b < |w| ensures w[a] < w[b] {
        if |head| == 1 {
          assert w[b] == rest[b - 1] && rest[b - 1] in rest;
          if a > 0 {
            assert w[a] == rest[a - 1];
          }
        } else {
          assert w[a] == rest[a] && w[b] == rest[b];
        }
      }
    }
  }

  /** A full pass of the iterator, from it_begin to the last it_next,
      visits every non-empty slot once, in ascending order: `occupancy`
      entries in all. */
  lemma FullPass<K, V>(slots: seq<Entry<K, V>>, zero: K)
    ensures var all := OccupiedFrom(slots, zero, NextOccupied(slots, zero, 0));
            (forall j :: j in all <==> 0 <= j < |slots| && slots[j].key != zero)
            && StrictlyAscending(all) && |all| == CountOccupied(slots, zero)
  {
    SkipEmptySlots(slots, zero, 0);
    OccupiedFromIsExact(slots, zero, 0);
    assert slots[0..] == slots;
  }
}
