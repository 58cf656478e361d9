/** The open-addressing hash map of hash_map.h: a power-of-two array of
    key/value slots, probed linearly; a slot is empty exactly when its key
    is the key type's zero value. */
module HashMap {
  import opened PowersOfTwo
  import opened HashProbe

  /** find_entry: probe from `hash & (capacity - 1)`, one slot at a time
      with wrap-around, up to the first slot that is empty or holds a key
      equal to `key`. The code's tombstone pointer is never set, so the
      slot reached is the one returned. Without such a slot the C loop does
      not terminate; here its existence is required. */
  method FindEntry<K(==), V>(entries: array<Entry<K, V>>, capacity: nat, key: K, zero: K,
                             keysEqual: (K, K) -> bool, hash: K -> bv64) returns (index: nat)
    requires entries.Length == capacity && IsPowerOfTwo(capacity)
    requires HasStop(entries[..], key, zero, keysEqual)
    ensures index < capacity && IsStop(entries[index], key, zero, keysEqual)
    ensures index == Resolve(entries[..], StartIndex(hash(key) as nat, capacity), key, zero, keysEqual)
  {
    ghost var slots := entries[..];
    var start := StartIndex(hash(key) as nat, capacity);
    StopWithinOneLap(slots, start, key, zero, keysEqual);
    ghost var dist := StopDistance(slots, start, key, zero, keysEqual, 0);
    ghost var steps := 0;
    index := start;
    while entries[index].key != zero && !keysEqual(entries[index].key, key)
      invariant steps <= dist && index == SlotAt(start, steps, capacity)
      decreases dist - steps
    {
      index := NextIndex(index, capacity);
      steps := steps + 1;
    }
    assert slots[index] == entries[index];
  }

  /** The capacity create settles on: 1, doubled while below
      `initialCapacity`. Past 2^63 the C shift wraps to 0 and the loop never
      ends, hence the bound. */
  method RoundUpToPowerOfTwo(initialCapacity: nat) returns (capacity: nat)
    requires initialCapacity <= 0x8000_0000_0000_0000
    ensures IsPowerOfTwo(capacity) && capacity >= 1 && capacity >= initialCapacity
    ensures forall p: nat :: IsPowerOfTwo(p) && p >= initialCapacity ==> capacity <= p
  {
    capacity := 1;
    while capacity < initialCapacity
      invariant IsPowerOfTwo(capacity) && 1 <= capacity
      invariant capacity == 1 || capacity < 2 * initialCapacity
      decreases initialCapacity - capacity
    {
      assert (2 * capacity) / 2 == capacity;
      capacity := 2 * capacity;
    }
    forall p: nat | IsPowerOfTwo(p) && p >= initialCapacity ensures capacity <= p {
      if p < capacity {
        PowersOfTwoDoubleApart(p, capacity);
      }
    }
  }

  class HashMap<K(==), V> {
    var capacity: nat
    var occupancy: nat
    var entries: array<Entry<K, V>>
    /** (KEY_TYPE)0: the key of an empty slot. */
    const zero: K
    const keysEqual: (K, K) -> bool
    const hash: K -> bv64

    /** The slot array matches the capacity, which is a power of two, and
        the occupancy counts the slots with a non-zero key. */
    ghost predicate Valid()
      reads this, entries
    {
      entries.Length == capacity && IsPowerOfTwo(capacity)
      && occupancy == CountOccupied(entries[..], zero)
    }

    ghost function Slots(): seq<Entry<K, V>>
      reads this, entries
    {
      entries[..]
    }

    /** Where find_entry starts probing for `key`. */
    ghost function Start(key: K): (i: nat)
      reads this, entries
      requires Valid()
      ensures i < |Slots()|
    {
      StartIndex(hash(key) as nat, capacity)
    }

    /** find_entry terminates for `key`: some slot is empty or equal. */
    ghost predicate CanResolve(key: K)
      reads this, entries
    {
      HasStop(entries[..], key, zero, keysEqual)
    }

    /** The slot find_entry returns for `key`. */
    ghost function ResolvedSlot(key: K): (i: nat)
      reads this, entries
      requires Valid() && CanResolve(key)
      ensures i < capacity
    {
      Resolve(Slots(), Start(key), key, zero, keysEqual)
    }

    /** What find answers for `key`. */
    ghost function Found(key: K): (r: Option<V>)
      reads this, entries
      requires Valid() && (occupancy == 0 || CanResolve(key))
      ensures r.Some? ==> exists j :: 0 <= j < capacity && entries[j].key != zero
                                      && keysEqual(entries[j].key, key) && entries[j].value == r.value
    {
      if occupancy == 0 then None else Lookup(Slots(), Start(key), key, zero, keysEqual)
    }

    /** create: capacity rounded up to a power of two, every slot zeroed
        (calloc): zero key, `zeroValue` value. */
    constructor (initialCapacity: nat, keysEqual: (K, K) -> bool, hash: K -> bv64, zero: K, zeroValue: V)
      requires initialCapacity <= 0x8000_0000_0000_0000
      ensures Valid() && fresh(entries) && occupancy == 0
      ensures capacity >= initialCapacity
      ensures forall p: nat :: IsPowerOfTwo(p) && p >= initialCapacity ==> capacity <= p
      ensures forall j :: 0 <= j < capacity ==> entries[j] == Entry(zero, zeroValue)
      ensures this.zero == zero && this.keysEqual == keysEqual && this.hash == hash
    {
      var c := RoundUpToPowerOfTwo(initialCapacity);
      capacity := c;
      entries := new Entry<K, V>[c](_ => Entry(zero, zeroValue));
      occupancy := 0;
      this.zero := zero;
      this.keysEqual := keysEqual;
      this.hash := hash;
      new;
      CountAllEmpty(entries[..], zero);
    }

    /** A map that is not full resolves every key. */
    lemma NotFullResolves(key: K)
      requires Valid() && occupancy < capacity
      ensures CanResolve(key)
    {
      NotFullHasStop(entries[..], key, zero, keysEqual);
    }

    /** find: absent on an empty map, otherwise the value in the slot `key`
        resolves to when that slot is occupied. */
    method Find(key: K) returns (r: Option<V>)
      requires Valid() && (occupancy == 0 || CanResolve(key))
      ensures r == Found(key)
    {
      if occupancy == 0 {
        return None;
      }
      var i := FindEntry(entries, capacity, key, zero, keysEqual, hash);
      r := if entries[i].key == zero then None else Some(entries[i].value);
    }

    /** insert: write `key` and `value` into the slot `key` resolves to,
        counting the slot if it was empty; an existing key is overwritten. */
    method Insert(key: K, value: V) returns (ok: bool)
      requires Valid() && key != zero && CanResolve(key)
      modifies this`occupancy, entries
      ensures Valid() && ok
      ensures var i := old(ResolvedSlot(key));
              entries[..] == old(entries[..])[i := Entry(key, value)]
              && occupancy == old(occupancy) + (if old(entries[i].key) == zero then 1 else 0)
      ensures keysEqual(key, key) ==> CanResolve(key) && Found(key) == Some(value)
    {
      ghost var slots := entries[..];
      ghost var start := Start(key);
      var i := FindEntry(entries, capacity, key, zero, keysEqual, hash);
      if entries[i].key == zero {
        occupancy := occupancy + 1;
      }
      entries[i] := Entry(key, value);
      ghost var slots' := slots[i := Entry(key, value)];
      assert entries[..] == slots';
      CountAfterWrite(slots, zero, i, Entry(key, value));
      if keysEqual(key, key) {
        LookupAfterInsert(slots, start, key, zero, keysEqual, value);
        assert occupancy >= 1 && Slots() == slots' && Start(key) == start;
        assert Found(key) == Lookup(slots', start, key, zero, keysEqual);
      }
      ok := true;
    }

    /** erase: on a non-empty map, zero the key of the slot `key` resolves
        to if it is occupied and uncount it; the value is left in place. */
    method Erase(key: K) returns (ok: bool)
      requires Valid() && (occupancy == 0 || CanResolve(key))
      modifies this`occupancy, entries
      ensures Valid()
      ensures ok == old(Found(key)).Some?
      ensures !ok ==> entries[..] == old(entries[..]) && occupancy == old(occupancy)
      ensures ok ==> var i := old(ResolvedSlot(key));
                     entries[..] == old(entries[..])[i := old(entries[i]).(key := zero)]
                     && occupancy == old(occupancy) - 1
      ensures CanResolve(key) && Found(key) == None
    {
      if occupancy == 0 {
        return false;
      }
      ghost var slots := entries[..];
      var i := FindEntry(entries, capacity, key, zero, keysEqual, hash);
      LookupAfterErase(slots, Start(key), key, zero, keysEqual);
      if entries[i].key == zero {
        assert slots[i := slots[i].(key := zero)] == slots;
        return false;
      }
      entries[i] := entries[i].(key := zero);
      occupancy := occupancy - 1;
      CountAfterWrite(slots, zero, i, slots[i].(key := zero));
      assert entries[..] == slots[i := slots[i].(key := zero)];
      ok := true;
    }
  }

  /** The iterator: a map (possibly null) and the slot index it stands at. */
  class MapIterator<K(==), V> {
    var owner: HashMap?<K, V>
    var index: nat

    /** it_begin: stand at the first occupied slot, or at the capacity when
        there is none. */
    constructor Begin(owner: HashMap<K, V>)
      requires owner.Valid()
      ensures this.owner == owner
      ensures index == NextOccupied(owner.Slots(), owner.zero, 0)
      ensures index < owner.capacity ==> owner.Slots()[index].key != owner.zero
    {
      this.owner := owner;
      var i := 0;
      while i < owner.capacity && owner.entries[i].key == owner.zero
        invariant i <= owner.capacity
        invariant NextOccupied(owner.Slots(), owner.zero, i) == NextOccupied(owner.Slots(), owner.zero, 0)
      {
        i := i + 1;
      }
      index := i;
    }

    /** it_next: false on a null owner; otherwise move to the next occupied
        slot after the current one, and report whether one was found. */
    method Next() returns (more: bool)
      requires owner != null ==> owner.Valid()
      modifies this`index
      ensures owner == null ==> !more && index == old(index)
      ensures owner != null ==> (index == NextOccupied(owner.Slots(), owner.zero, old(index) + 1)
                                 && more == (index < owner.capacity)
                                 && (more ==> owner.Slots()[index].key != owner.zero))
    {
      if owner == null {
        return false;
      }
      index := index + 1;
      ghost var from := index;
      while index < owner.capacity && owner.entries[index].key == owner.zero
        invariant from <= index
        invariant NextOccupied(owner.Slots(), owner.zero, index) == NextOccupied(owner.Slots(), owner.zero, from)
      {
        index := index + 1;
      }
      more := index < owner.capacity;
    }

    /** it_key: the key in the slot the iterator stands at. */
    method Key() returns (k: K)
      requires owner != null && owner.Valid() && index < owner.capacity
      ensures k == owner.Slots()[index].key
    {
      k := owner.entries[index].key;
    }

    /** it_value: the value in the slot the iterator stands at. */
    method Value() returns (v: V)
      requires owner != null && owner.Valid() && index < owner.capacity
      ensures v == owner.Slots()[index].value
    {
      v := owner.entries[index].value;
    }
  }
}
