# Growable array and open-addressing hash map, modelled in Dafny

This project models the two generic C containers of the `data-structures`
library and proves what they promise.

- **Growable array** (`dynamic_array.h`). The buffer `data` holds `capacity`
  elements, and the first `size` of them are live. When the buffer is full
  it is reallocated to twice its capacity. `insert` and `remove` shift the
  tail with `memmove`. Out-of-range reads return the element type's zero
  value, and out-of-range writes return 0.
- **Hash map** (`hash_map.h`). It holds a power-of-two array of key/value
  slots. Collisions are resolved by linear probing from
  `hash & (capacity - 1)`. The default hash is FNV-1a (Fowler–Noll–Vo).

The model follows the code as written. That matters where the code falls
short of what its own source points to. `find_entry` declares and tests a
`tombstone` pointer but never sets it (hash_map.h:89, 94). A unit test
expects inserts to rehash (tests/test_hash_map.c:69-88). In detail:

- A slot is empty exactly when its key equals the key type's zero value.
  There is no status tag.
- `find_entry` declares a tombstone pointer but never sets it. `erase`
  therefore empties a slot outright, and a key stored later in the same
  probe cluster can become unreachable. `HashProbe.EraseCanHideLaterKey`
  exhibits this on three slots.
- `occupancy` counts non-empty slots, not distinct keys. A key hidden by
  an erase resolves to the emptied slot, so inserting it again stores a
  second copy. Erasing it then removes only that copy: `find` reports the
  key absent while iteration still visits the stale one.
  `HashProbe.ReinsertDuplicatesHiddenKey` exhibits this, continuing the
  same table.
- `insert` never rehashes and has no load factor. Once every slot holds
  another key, a probe for a new key never stops.
  `Scenarios.ThirdInsertIntoTwoSlotsCannotResolve` shows this for the
  library's own rehash test: creating a map with 2 slots and inserting
  keys 1, 2 and 3 never grows the map. Instead, the third insert has no
  slot to stop at.
- The FNV offset constant in the code is `1469598103934665603`. The
  published 64-bit basis is `14695981039346656037`, one digit longer. The
  model keeps the code's constant.

## Structure

| file | module | what it holds |
|---|---|---|
| `powers_of_two.dfy` | `PowersOfTwo` | `Pow2`, `IsPowerOfTwo` (by halving), the doubling gap between powers of two |
| `dynamic_array.dfy` | `DynamicArray` | the growth policy, `Inserted`/`Removed` on sequences, and the class `DynArray<T>` over `array<T>` |
| `fnv_hash.dfy` | `Fnv` | FNV-1a as a fold over bytes in `bv64`, and the byte loop verified against it |
| `hash_probe.dfy` | `HashProbe` | the value-level specification of the map: start index, probing, the resolved slot, occupancy, lookup, iteration order |
| `hash_map.dfy` | `HashMap` | the `find_entry` probe loop, the `create` sizing loop, and the classes `HashMap<K, V>` and `MapIterator<K, V>` |
| `scenarios.dfy` | `Scenarios` | the unit tests of both containers replayed as client code, with expected outcomes as postconditions |

Modelling choices:

- The macros' per-type instantiation becomes Dafny generics.
- `(TYPE)0` and `(KEY_TYPE)0` become a `zero` value fixed at construction.
- The map's `keys_equal_fn` and `hash_fn` become function-valued fields.
- `realloc` returning NULL is the parameter `allocFails`.
- `hash & (capacity - 1)` is computed on naturals by `HashProbe.BitAnd`.
  It is proved equal to `hash % capacity` for a power-of-two capacity.
- A find whose probe never stops is excluded by the precondition
  `CanResolve` (some slot is empty or holds an equal key).

## Model

| member | source | states |
|---|---|---|
| DynamicArray.NewCapacity | data-structures/dynamic_array.h:77-85 | the capacity growth settles on is at least the requested minimum and at least double the old capacity; it is exactly the doubled capacity whenever the old capacity is at least 1 and at most one more element is needed |
| DynamicArray.EnsureCapacityAsWritten | data-structures/dynamic_array.h:77-85 | the code's growth step: success exactly when the minimum already fits or realloc returns non-NULL; on failure the capacity is unchanged; on a successful growth the capacity is exactly double, whatever the minimum, so it lies between the old capacity and its double and covers a request of one more element whenever the capacity is at least 1 |
| DynamicArray.AsWrittenZeroCapacityNeverGrows | data-structures/dynamic_array.h:79-91 | from capacity 0, the growth for the first push_back leaves capacity 0 either way, so slot 0, the one push_back writes next, is not below the capacity; the growth reports success exactly when realloc(ptr, 0) returns non-NULL |
| DynamicArray.CorrectedAgreesFromOne | data-structures/dynamic_array.h:77-91 | for the requests the code makes (size + 1 with size <= capacity), the corrected growth and the code's growth agree in outcome and capacity whenever the capacity is at least 1 |
| DynamicArray.GeometricGrowth | data-structures/dynamic_array.h:87-91 | from a starting capacity c0 >= 1, the capacity after n pushes is c0 * 2^k for the least k with c0 * 2^k >= n |
| DynamicArray.Inserted | data-structures/dynamic_array.h:113-121 | inserting at i gives one more element: the new value at i, the elements before i unchanged, the elements from i on moved up by one |
| DynamicArray.Removed | data-structures/dynamic_array.h:123-128 | removing at i gives one element fewer: the elements before i unchanged, the later ones moved down by one |
| DynamicArray.RemoveUndoesInsert | data-structures/dynamic_array.h:113-128 | removing at the index just inserted at restores the original sequence |
| DynamicArray.DynArray.constructor | data-structures/dynamic_array.h:64-75 | create yields an empty array whose capacity is the requested starting capacity |
| DynamicArray.DynArray.EnsureCapacity | data-structures/dynamic_array.h:77-85 | returns success with nothing changed when the minimum fits; on allocation failure returns failure with nothing changed; otherwise the capacity becomes NewCapacity and the live elements are kept |
| DynamicArray.DynArray.PushBack | data-structures/dynamic_array.h:87-91 | succeeds unless the buffer is full and growth fails; on success the elements become the old ones plus the value, on failure they are unchanged; size <= capacity is kept |
| DynamicArray.DynArray.PopBack | data-structures/dynamic_array.h:93-98 | on an empty array returns the zero value and changes nothing; otherwise returns the last element and drops exactly it |
| DynamicArray.DynArray.Get | data-structures/dynamic_array.h:100-105 | the element at the index, or the zero value when the index is not below size |
| DynamicArray.DynArray.Set | data-structures/dynamic_array.h:107-111 | fails and changes nothing when the index is out of range; otherwise only the element at the index changes, to the value |
| DynamicArray.DynArray.Insert | data-structures/dynamic_array.h:113-121 | fails with no change when the index exceeds size or growth fails; otherwise the elements become Inserted(old, index, value), by the backward shifting loop |
| DynamicArray.DynArray.Remove | data-structures/dynamic_array.h:123-128 | fails with no change when the index is not below size; otherwise the elements become Removed(old, index), by the forward shifting loop |
| DynamicArray.DynArray.Size | data-structures/dynamic_array.h:130 | the number of live elements |
| DynamicArray.DynArray.Capacity | data-structures/dynamic_array.h:132 | the length of the buffer |
| DynamicArray.DynArray.Clear | data-structures/dynamic_array.h:143 | no live elements remain, and the capacity is kept |
| Fnv.FoldSnoc | data-structures/hash_map.h:34-37 | folding a string with one byte appended mixes that byte into the fold of the string |
| Fnv.Fnv1aAppend | data-structures/hash_map.h:31-39 | the hash of the empty string is 1469598103934665603, and the hash of s + [b] is (hash(s) xor b) * 1099511628211 modulo 2^64 |
| Fnv.HashBytes | data-structures/hash_map.h:31-39 | the accumulating loop computes the FNV-1a fold of its bytes |
| HashProbe.BitAnd | data-structures/hash_map.h:88 | bitwise AND of two naturals is at most either operand |
| HashProbe.MaskIsMod | data-structures/hash_map.h:88 | masking with capacity - 1 equals the remainder modulo a power-of-two capacity |
| HashProbe.StartIndex | data-structures/hash_map.h:87-88 | the first probed index is the hash modulo the capacity, and lies below the capacity |
| HashProbe.NextIndex | data-structures/hash_map.h:99 | the probe step is (index + 1) mod capacity: the next slot, wrapping from the last to slot 0 |
| HashProbe.StepWraps | data-structures/hash_map.h:99 | (index + 1) mod capacity is index + 1 below the last slot and 0 past it |
| HashProbe.StopDistance | data-structures/hash_map.h:91-100 | the number of steps from the start to the first empty-or-equal slot: a stop there, and none before it |
| HashProbe.StopWithinOneLap | data-structures/hash_map.h:91-100 | when some slot is empty or holds an equal key, one lap of probing from any start reaches such a slot |
| HashProbe.Resolve | data-structures/hash_map.h:84-101 | the resolved slot lies within the table and is empty or holds an equal key |
| HashProbe.ResolveIsFirstStop | data-structures/hash_map.h:91-100 | a stopping slot with no stopping slot before it on the probe path is the resolved slot |
| HashProbe.ResolveAfterWrite | data-structures/hash_map.h:129-133 | writing a stopping entry into the resolved slot leaves that slot the resolved one |
| HashProbe.CountOccupied | data-structures/hash_map.h:131 | the count of non-empty slots never exceeds the slot count |
| HashProbe.CountAfterWrite | data-structures/hash_map.h:131-143 | overwriting one slot changes the count of non-empty slots by what leaves and what enters |
| HashProbe.NotFullHasEmptySlot | data-structures/hash_map.h:93 | a table with fewer non-empty slots than slots has an empty slot |
| HashProbe.NotFullHasStop | data-structures/hash_map.h:91-100 | in a table that is not full, every probe stops |
| HashProbe.FullTableHasNoStop | data-structures/hash_map.h:91-100 | in a full table holding no equal key, no slot stops the probe, so find_entry never returns |
| HashProbe.CountAllEmpty | data-structures/hash_map.h:108 | a table whose keys are all zero counts no occupied slot |
| HashProbe.Lookup | data-structures/hash_map.h:121-126 | a value found belongs to a non-empty slot whose key is equal to the one asked for |
| HashProbe.LookupFindsKeyInCluster | data-structures/hash_map.h:91-100 | a key stored along its probe path behind only occupied slots with other keys is found with its value |
| HashProbe.LookupAfterInsert | data-structures/hash_map.h:128-135 | after writing a non-zero, self-equal key into its resolved slot, a lookup finds the written value |
| HashProbe.LookupAfterErase | data-structures/hash_map.h:137-145 | after zeroing the key of the resolved slot, a lookup of that key finds nothing |
| HashProbe.ReinsertDuplicatesHiddenKey | data-structures/hash_map.h:128-145 | continuing the erase witness, the hidden key resolves to the emptied slot, so re-inserting it stores a second copy: two slots count as occupied for one distinct key; erasing it again leaves find reporting it absent while iteration still visits the stale copy |
| HashProbe.EraseCanHideLaterKey | data-structures/hash_map.h:89-94 | with no tombstone, erasing the first key of a cluster makes a key stored after it in the cluster unfindable |
| HashProbe.NextOccupied | data-structures/hash_map.h:150-161 | the first non-empty slot at or after an index, with every slot skipped empty |
| HashProbe.SkipEmptySlots | data-structures/hash_map.h:147-163 | skipping empty slots loses no occupied index |
| HashProbe.IterationStep | data-structures/hash_map.h:156-163 | from an occupied slot, iteration visits that slot and then those that it_next moves on to |
| HashProbe.OccupiedFromIsExact | data-structures/hash_map.h:147-163 | the indices iteration visits from a point are exactly the non-empty slots from there on, strictly ascending, as many as those slots |
| HashProbe.FullPass | data-structures/hash_map.h:147-163 | a pass from it_begin visits every non-empty slot once, in ascending order, occupancy entries in all |
| HashMap.FindEntry | data-structures/hash_map.h:84-101 | the probe loop returns the resolved slot, the first empty-or-equal slot on the path from hash & (capacity - 1) |
| HashMap.RoundUpToPowerOfTwo | data-structures/hash_map.h:105-107 | create's capacity is the least power of two that is at least the requested capacity, and at least 1 |
| HashMap.HashMap.Found | data-structures/hash_map.h:121-126 | absent on an empty map; a value present is stored under a key equal to the one asked for |
| HashMap.HashMap.constructor | data-structures/hash_map.h:103-112 | create yields occupancy 0, every slot with a zero key, and a capacity that is the least power of two at least the requested one |
| HashMap.HashMap.NotFullResolves | data-structures/hash_map.h:91-100 | while the map is not full, every key resolves |
| HashMap.HashMap.Find | data-structures/hash_map.h:121-126 | absent when occupancy is 0; otherwise the resolved slot's value exactly when that slot's key is non-zero |
| HashMap.HashMap.Insert | data-structures/hash_map.h:128-135 | always returns true; writes the key and value into the resolved slot only; occupancy grows by one exactly when that slot was empty; find then yields the value; the occupancy invariant is kept |
| HashMap.HashMap.Erase | data-structures/hash_map.h:137-145 | returns true exactly when find would have found the key; then zeroes only that slot's key and decrements occupancy, otherwise changes nothing; find then yields nothing |
| HashMap.MapIterator.Begin | data-structures/hash_map.h:147-154 | it_begin stands at the first non-empty slot, or at the capacity when there is none |
| HashMap.MapIterator.Next | data-structures/hash_map.h:156-163 | false with nothing changed on a null map; otherwise moves to the first non-empty slot after the current one and returns whether the index is below the capacity |
| HashMap.MapIterator.Key | data-structures/hash_map.h:165 | the key in the slot the iterator stands at |
| HashMap.MapIterator.Value | data-structures/hash_map.h:167 | the value in the slot the iterator stands at |
| Scenarios.ThirdPushDoublesCapacity | tests/test_dyn_array.c:31-46 | three pushes onto an array created with capacity 2 leave capacity 4 and the elements 10, 20, 30 |
| Scenarios.CreateIsEmpty | tests/test_dyn_array.c:22-29 | an array created with capacity 2 has size 0 and capacity 2 |
| Scenarios.PopBackAndEmptyPop | tests/test_dyn_array.c:48-61 | after pushing 1 and 2, pops yield 2 (leaving size 1), then 1, then 0 from the empty array |
| Scenarios.GetOnEmpty | tests/test_dyn_array.c:63-68 | get on an empty array yields 0 |
| Scenarios.SetAndSetOutOfRange | tests/test_dyn_array.c:70-78 | set at 0 succeeds and get reads 42 back; set at 5 on a one-element array fails |
| Scenarios.InsertMiddleAndFront | tests/test_dyn_array.c:80-97 | inserting 2 at 1 into [1, 3] gives [1, 2, 3]; inserting 99 at 0 then gives size 4 with 99 first |
| Scenarios.RemoveShifts | tests/test_dyn_array.c:99-114 | removing index 2 from [1, 2, 3, 4, 5] succeeds and gives [1, 2, 4, 5]; removing at 10 fails |
| Scenarios.ClearKeepsCapacity | tests/test_dyn_array.c:116-126 | clear leaves size 0 and capacity at least 2 |
| Scenarios.CreateKeepsPowerOfTwo | tests/test_hash_map.c:15-23 | a map created with 8 slots has capacity 8 and occupancy 0 |
| Scenarios.InsertFindErase | tests/test_hash_map.c:25-67 | insert then find yields the value; re-insert overwrites it; erase succeeds and find is then absent; erasing an absent key fails |
| Scenarios.ThirdInsertIntoTwoSlotsCannotResolve | tests/test_hash_map.c:69-88 | after two inserts into a map of capacity 2, the map is full and a probe for a third key never stops |
| Scenarios.TwoKeysFillTwoSlots | tests/test_hash_map.c:69-88 | two keys written into an empty two-slot table land in different slots, and no slot then stops a probe for a third key |
| Scenarios.VisitAll | tests/test_hash_map.c:90-111 | the begin/next loop stops at exactly the occupied slots, in ascending order, occupancy of them |

## Left out

- Memory management is out: `free` on both containers and the allocators themselves. The array's `create` returning NULL when `calloc` or `malloc` fails is not modelled, since constructors cannot fail in Dafny; growth failure is the `allocFails` parameter.
- The map's `create` does not check its `calloc`: on failure `entries` is NULL and later `find`, `insert` and `erase` dereference it. That unchecked failure is not modelled; the constructor always allocates the slots.
- `size_t` arithmetic is unbounded: `size`, `capacity` and `index` are naturals, so overflow of `size + 1` or of the byte count passed to `realloc` is not modelled.
- `DynamicArray.DynArray.EnsureCapacity`: grows to `NewCapacity`, the corrected policy, rather than the code's bare doubling (`DynamicArray.EnsureCapacityAsWritten`). The two differ in two cases. From capacity 0 the code never grows (see Findings). When `minCapacity` exceeds twice the capacity, the code doubles once and reports success below the minimum, while the model grows to the minimum. The code itself only ever requests `size + 1`, so at its call sites only capacity 0 differs (`DynamicArray.CorrectedAgreesFromOne`).
- `DynamicArray.DynArray.PushBack`: inherits the capacity-0 difference. On an array of capacity 0 the model's push succeeds with capacity 1, where the code writes past an empty buffer or fails.
- `DynamicArray.DynArray.Insert`: inherits the same capacity-0 difference as `PushBack`.
- `HashMap.FindEntry`: requires that some slot is empty or holds an equal key; without one the C loop never ends, so that case is not modelled, and `HashProbe.FullTableHasNoStop` shows when it arises.
- `HashMap.HashMap.Insert`: requires a non-zero key, because inserting the zero key counts a slot that stays empty; it requires the key to resolve for the same reason as `FindEntry`.
- `HashMap.HashMap.Insert`: promises that find then yields the value only when `keys_equal_fn` relates the key to itself, which the code does not check.
- `HashMap.HashMap.Erase`: promises nothing about other keys, since without tombstones they can become unfindable (`HashProbe.EraseCanHideLaterKey`).
- `HashMap.RoundUpToPowerOfTwo`: requires at most 2^63 requested slots; beyond that the C shift wraps to 0 and the loop never ends.
- `HashMap.MapIterator.Key`: requires the index to be below the capacity; the C code reads past the slot array otherwise.
- `HashMap.MapIterator.Value`: requires the index to be below the capacity, for the same reason as `Key`.
- `HashMap.HashMap.Find`: returns the value rather than a pointer into the slot array, so writes through that pointer are not modelled.
- `Scenarios.VisitAll`: records the slot indices it stops at rather than the keys, and uses a `while` loop guarded by the iterator's position rather than the test's `do`/`while`, which reads a key before the first check and so would read past the slots of an empty map.
- Rehashing and a load factor are not modelled, because the code has neither.
- `default_hash_uint64`, `default_hash_int`, `default_hash_double` and `default_hash_cstr` are left out. They hash the raw bytes of integers, doubles and C strings. `default_hash_uint64` and `default_hash_cstr` return the 64-bit hash. `default_hash_int` narrows it to `int`, and `default_hash_double` converts it to `double`. The map's hash stays an abstract function from keys to 64-bit values. FNV-1a itself is modelled on byte sequences.
- `data-structures/string.h` and `data-structures/main.c` are not part of this model. They are written against an array API (`IMPLEMENT_DYN_ARRAY`, `*_init`) that `dynamic_array.h` does not define.
- The macro expansion and the branch-prediction hints are out: they do not change behaviour.

## Findings

| source | as written | input that shows it | evidently intended | confidence | as-written member | corrected member |
|---|---|---|---|---|---|---|
| data-structures/dynamic_array.h:79 | growth doubles the capacity, so from capacity 0 it asks realloc for 0 elements and never yields a slot. Where realloc(ptr, 0) returns non-NULL, success is reported with capacity 0 and push_back writes slot 0 of an empty buffer. Where it frees and returns NULL (glibc), push_back fails and `data` is left dangling. Where malloc(0) returns NULL, create(0) already fails | `create(0)` then `push_back(x)` | grow to at least the required capacity: `max(2 * capacity, min_capacity)` | not executed | DynamicArray.AsWrittenZeroCapacityNeverGrows | DynamicArray.NewCapacity |
