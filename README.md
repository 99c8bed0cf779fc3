# Generic-C-Map in Dafny

A model of the table engine of `map.h`, a header-only C hash map. The map is generic over its
key and value types. It has a fixed capacity of `2^bits` slots, each holding a key, a value,
a stored hash and an in-use flag. It uses open addressing with robin-hood insertion: an entry
being placed takes the slot of any resident that is less displaced from its own ideal slot,
and the resident is carried on instead. Lookup stops early by the same rule, and deletion uses
backward shift. The header also ships the djb hashes and fixed-width integer equalities.

The model is layered like the header:

- `Probe` (probe.dfy): `_map_pow2`, `_map_dib`, and the `size_t` constants.
- `Table` (table.dfy): the slot record and cyclic slot arithmetic. It also defines the
  invariants the operations keep:
  - `Occupied`: the set of in-use slots;
  - `HashesAgree`: stored hashes are the hash of the key;
  - `Distinct`: no key in two slots;
  - `Ordered`: the robin-hood order;
  - `Contents`: the map the table stands for.
- `Lookup`, `Insert`, `Removal`: pure functions that follow the loops of `_map_key_exists`,
  `_map_set` and `_map_remove` step by step, with the lemmas about them.
- `Maps` (map.dfy): the `map(K, V)` object as a class holding the table array, `_bits`,
  `_nelem`, `status` and the scratch slot `_tmp`. Each macro is a method with the source's
  `while` loops, proved to leave exactly the state the pure function describes, `_tmp`
  included. The two places where the method departs from the source are listed under Left out:
  `Maps.Map.ShiftBack` at stop slot 0, and the fields `Maps.Map.Init` sets on an out-of-range
  exponent.
- `Djb` (djb.dfy): `djb_str` and `djb_general` as loops against a fold of the djb step
  `(33 * hash) ^ byte` (C's `*` binds tighter than `^`), plus
  `int32_eq` and `int64_eq` on little-endian bytes.
- `Scenarios` (scenarios.dfy): the layouts and results that test/map.test.c expects, proved
  from the model, with the identity `hash_int`.
- `Findings` (findings.dfy): inputs where the code departs from the robin-hood scheme, set
  against the corrected definitions.

Key equality (`_key_eq_f`) is the key type's own equality. `_hash_f` is a function field
`hashFn: K -> nat`.

Where a description of the scheme and the code disagree, the model follows the code. There
are two such places:

- **Lookup condition.** The rule says the lookup continues while the resident is at least as
  displaced as the probe. `_map_key_exists` tests the reverse (map.h:191-193). `Lookup.Find`
  models the code. `Lookup.FindIntended` models the rule.
- **Removal stop test.** The rule says the scan stops at an entry sitting in its own ideal
  slot. `_map_remove` never looks at the resident's displacement (map.h:225-226).
  `Removal.Remove` models the code. `Removal.RemoveIntended` models the rule.

## Model

| member | source | states |
|---|---|---|
| Probe.Pow2 | map.h:74-77 | the table length is positive, and even for a positive exponent |
| Probe.Dib | map.h:79-82 | the displacement is below the table length, and moving that many slots forward from the hash's slot reaches `curr` |
| Probe.DibMatchesSizeT | map.h:79-82 | taking `curr - hash` modulo 2^64 first, as `size_t` subtraction does, gives the same displacement |
| Table.DibIsDist | map.h:79-82 | the displacement is the forward ring distance from the ideal slot `hash % 2^bits` to `curr` |
| Table.DibHome | map.h:79-82 | the displacement is 0 at the ideal slot |
| Table.DibNext | map.h:147-153 | one slot further the displacement grows by one, wrapping to 0 after the last slot |
| Table.Next | map.h:153 | the cursor step `(curr + 1) % table_len` stays in the table |
| Table.Prev | map.h:232-240 | the slot before a slot, taken cyclically, is the one whose successor it is |
| Table.FreeSlotExists | map.h:135 | a table with fewer occupied slots than slots has a free slot, so `_map_set` and `_map_key_exists` can start |
| Table.ContentsUpdate | map.h:141-142 | writing an entry into one slot rebinds its key and drops only the binding it overwrote |
| Lookup.FindFrom | map.h:191-207 | the probe loop as written, from any slot, reports a hit only on a slot holding the key |
| Lookup.Find | map.h:183-209 | the probe as written reports only a slot holding the key, and never a key the table lacks |
| Lookup.FindAsWritten | map.h:191-193 | on a well-formed table, the probe as written finds a present key exactly when every slot between its ideal slot and its own holds an entry with that same ideal slot |
| Lookup.FindIntended | map.h:183-209 | the corrected probe reports only a slot holding the key, and never a key the table lacks |
| Lookup.FindIntendedFindsPresent | map.h:191-193 | on a well-formed table, the corrected probe finds every present key in its own slot |
| Lookup.FindIntendedExact | map.h:183-209 | on a well-formed table, the corrected probe reports a key exactly when the map holds it, at a slot holding its value |
| Insert.InsertFrom | map.h:132-154 | the robin-hood walk from a slot, given a free slot ahead, ends on an occupied slot of the same-length table |
| Insert.Insert | map.h:123-164 | the set ends on an occupied slot of the same-length table |
| Insert.InsertAtHome | map.h:133-163 | a key whose ideal slot is free or already holds it lands there, counted as new exactly when the slot was free |
| Insert.InsertFromPresent | map.h:137-146 | setting a key already in a well-formed table overwrites that key's slot only, and adds nothing |
| Insert.InsertOccupied | map.h:155-163 | the occupied slots grow by the landing slot, and by exactly one when the key was new |
| Insert.InsertHashes | map.h:127-130 | every stored hash is still the hash of its key |
| Insert.InsertOrdered | map.h:147-153 | a set keeps the robin-hood order |
| Insert.InsertContents | map.h:123-164 | a set binds the key to the value and keeps every other binding; keys stay distinct; an entry is added exactly when the key was new |
| Insert.InsertThenFind | map.h:123-209 | after a set, the corrected probe finds the key with the new value, and every other key is found exactly when it was before |
| Removal.StopFrom | map.h:225-229 | the stop scan from any slot ends on a free slot or back at the target |
| Removal.StopPos | map.h:223-229 | the stop slot is free, or is the target itself |
| Removal.StopPosFirstFree | map.h:223-229 | the stop slot as written is the first free slot after the target, or the target itself when every other slot is occupied |
| Removal.StopPosIntendedRun | map.h:223-229 | the corrected stop slot is the first slot after the target that is free or holds an entry in its own ideal slot; with a free slot in the table it is not the target |
| Removal.Shifted | map.h:231-240 | the shift frees the slot before the stop slot and leaves as they were the slots from the stop slot round to, but not including, the target |
| Removal.ShiftedUpToEnds | map.h:231-240 | the shift loop starts from the table as it was and ends, after the clear, in the shifted table |
| Removal.ShiftedOccupied | map.h:231-242 | the shift frees exactly the slot before the stop slot, so one occupied slot fewer remains |
| Removal.ShiftedContents | map.h:231-240 | shifting back a run of occupied slots over the target deletes exactly the target's binding, and keys stay distinct |
| Removal.ShiftedOrdered | map.h:231-240 | shifting back up to a corrected stop slot keeps the robin-hood order |
| Removal.Remove | map.h:211-249 | a miss leaves the table as it was; a hit means the key was present |
| Removal.RemoveAt | map.h:221-243 | deleting the entry found in a slot keeps the table length |
| Removal.RemoveAtContents | map.h:221-243 | removing the entry found in a slot drops exactly its key, and one occupied slot |
| Removal.RemoveContents | map.h:211-249 | removal succeeds exactly when the lookup finds the key; the key is then gone, every other binding stays, and one occupied slot fewer remains |
| Removal.RemoveIntended | map.h:211-249 | a miss leaves the table as it was; a hit means the key was present |
| Removal.RemoveIntendedExact | map.h:211-249 | corrected removal succeeds exactly when the map holds the key, deletes just that binding, and keeps the robin-hood order when the table had a free slot |
| Maps.Map.Init | map.h:95-113 | an exponent wider than `size_t` gives `MAP_INPUT_OUT_OF_RANGE` and no table; a failed allocation gives `MAP_ALLOC_FAILURE`; otherwise `MAP_SUCCESS`, no element, every slot free |
| Maps.Map.Deinit | map.h:115-121 | the table is released and the status is `MAP_SUCCESS` |
| Maps.Map.MemSwap | map.h:84-93 | the scratch slot and table slot `i` exchange their entries |
| Maps.Map.Set | map.h:123-164 | the table becomes the one `Insert.Insert` gives; `_nelem` grows by one exactly when the key was new; the status is `MAP_SUCCESS`; the map stays valid |
| Maps.Map.InsertionLoop | map.h:132-154 | the loop stops on the slot `InsertFrom` lands on, having overwritten an equal key or carrying the entry still to be written to the free slot; `status` is `MAP_SUCCESS` after an overwrite and untouched otherwise |
| Maps.Map.KeyExists | map.h:183-209 | the answer is whether `Lookup.Find` hits; a hit leaves the value and slot index in `_tmp`; the status is always `MAP_SUCCESS` |
| Maps.Map.Get | map.h:166-181 | a hit returns the slot's value with `MAP_SUCCESS`; a miss leaves the answer as it was, with `MAP_KEY_NOT_FOUND`; `_tmp` is left as `_map_key_exists` writes it: the key, plus the value and slot index on a hit or the key's hash on a miss |
| Maps.Map.Remove | map.h:211-249 | the table becomes the one `Removal.Remove` gives, `_nelem` drops by one on a hit, and the status is `MAP_SUCCESS` or `MAP_KEY_NOT_FOUND`; `_tmp` is left as the lookup wrote it, holding the removed value and its slot index on a hit |
| Maps.Map.StopScan | map.h:223-229 | the scan loop returns `Removal.StopPos` |
| Maps.Map.ShiftBack | map.h:231-240 | the shift loop and clear leave `Removal.Shifted` |
| Maps.Map.Length | map.h:251-255 | the length is the number of occupied slots |
| Maps.Map.LoadFactor | map.h:257-261 | the load factor times the table length is the number of occupied slots, between 0 and 1 |
| Djb.Step | map.h:269-281 | xoring the byte back out of a step gives the shift-and-add `(hash << 5) + hash`, wrapped to 64 bits, so the byte is xored into the product `33 * hash` |
| Djb.KnownHashes | map.h:263-283 | the string "a" hashes to 177604 and "ab" to 5860902 |
| Djb.HashSnoc | map.h:267-270 | hashing one more byte is one more step on the hash so far |
| Djb.HashFromAppend | map.h:263-283 | hashing a concatenation continues the hash of the first part over the second |
| Djb.DjbGeneral | map.h:274-283 | the loop returns the djb fold over the first `size` bytes |
| Djb.DjbStr | map.h:263-272 | the loop returns the djb fold over the bytes before the terminating NUL |
| Djb.NulIndex | map.h:267 | the first NUL, with no NUL before it |
| Djb.StrIsGeneral | map.h:263-283 | a C string hashes under `djb_str` as its bytes do under `djb_general` with its length, whatever follows the NUL |
| Djb.Int32Eq | map.h:296-299 | two keys are equal as `int32_t` exactly when their first four bytes are equal |
| Djb.Int64Eq | map.h:306-309 | two keys are equal as `int64_t` exactly when their first eight bytes are equal |
| Djb.SignedInjective | map.h:296-309 | two's-complement decoding of one width is one-to-one |
| Scenarios.InitAndDeinit | test/map.test.c:22-29 | `map_init` with 100 bits reports `MAP_INPUT_OUT_OF_RANGE`; with 16 bits it reports `MAP_SUCCESS`, no element and 16 bits |
| Scenarios.BasicSet | test/map.test.c:45-61 | setting 0→3, 1→5, 1→7 counts 1, 2, 2 elements, with (0, 3) in slot 0 and (1, 7) in slot 1 |
| Scenarios.ComplexSetSteps | test/map.test.c:76-89 | each of the seven sets lands in the next slot, filling slots 0 to 6 with a, b, c, d, r, s, t |
| Scenarios.ComplexSetWithSwaps | test/map.test.c:92-100 | setting 3→x then leaves a, b, c, d, r, x, t, s in slots 0 to 7 |
| Scenarios.KeyExistsAndGet | test/map.test.c:113-148 | on an empty map key 0 is missing; after setting 0→3 it is found, with value 3; each `map_key_exists` reports `MAP_SUCCESS`, the get on the empty map `MAP_KEY_NOT_FOUND` and the later get `MAP_SUCCESS` |
| Scenarios.BasicRemove | test/map.test.c:156-164 | removing the only key succeeds and leaves no element; the key is then missing, and a second removal reports `MAP_KEY_NOT_FOUND` |
| Scenarios.ComplexRemoveWithSwaps | test/map.test.c:196-202 | removing 2 + C leaves a, b, c, r, s, t in slots 0 to 5 and slots 6 and 7 free |
| Scenarios.LengthAndLoadFactor | test/map.test.c:240-271 | on four slots, setting 0, 0, 1, 2, 3 gives lengths 0, 1, 1, 2, 3, 4 and load factors 0, 0.25, 0.25, 0.5, 0.75, 1 |
| Findings.SkewedFromSets | map.h:123-164 | setting keys 0, 4, 1 into four slots puts 0, 4, 1 in slots 0, 1, 2 |
| Findings.SkewedWellFormed | map.h:147-153 | that layout is in robin-hood order with distinct keys |
| Findings.LookupMissesDisplacedKey | map.h:191-193 | in that layout key 1 is present, the lookup as written misses it, and the corrected lookup finds it in slot 2 |
| Findings.TestLayoutMissesKey | map.h:191-193 | in the seven-key test layout key 4 is present in slot 5, the lookup as written misses it, and the corrected lookup finds it |
| Findings.RemoveShiftsHomeEntry | map.h:225-226 | removing key 0 from keys 0 and 1 in their own slots shifts key 1 out of its own slot |
| Findings.StrandedEntryIsLost | map.h:225-226 | after that, the table is out of robin-hood order, lookup misses key 1 although it is present, and setting key 1 again stores it twice |
| Findings.RemoveIntendedKeepsHomeEntry | map.h:225-226 | the corrected removal only frees slot 0, keeps the order, and key 1 is still found |
| Findings.LastAgreesAwayFromZero | map.h:232-240 | away from slot 0, `__stop_pos - 1` is the cyclic predecessor |
| Findings.StopAtZeroUnderflows | map.h:232-240 | removing the last slot's entry when slot 0 is free stops the scan at 0, and `__stop_pos - 1` becomes 2^64 - 1, past every slot; the cyclic predecessor is the last slot, which the model frees |

## Left out

- Probe.Pow2: models only exponents up to 30. `1 << x` on a 32-bit `int` is undefined beyond that.
- Maps.Map.Init: requires an exponent of at most 30 or above 64. Exponents 31 to 64 pass the source's guard but reach the undefined shift.
- Maps.Map.Init: `calloc` is the parameter `allocOk`. A failed or refused init gets a zero-length table instead of an unset pointer.
- Maps.Map.Init: `zeroKey` and `zeroValue` stand for the all-zero bytes `calloc` gives.
- Maps.Map.Init: on an out-of-range exponent the source stops before setting `_nelem` and `_hash_f` (map.h:98-106). The constructor still assigns `hashFn`, `nelem` and `tmp`, since a Dafny object's fields must be set. Its contract claims nothing about `nelem` or `tmp` in that case, but it does state `hashFn`, a constant field that has to be set on every path.
- Maps.Map.Deinit: `free` and the NULL pointer are modelled as a fresh zero-length table.
- Maps.Map.Set: requires a free slot. With a full table and a new key the source loops forever (map.h:135). The requirement also excludes overwriting a key already present in a full table, which the source does (map.h:137-146). That case is left out because on a full table that is not in robin-hood order the walk can carry a swapped entry round forever, so it needs another termination argument.
- Maps.Map.KeyExists: requires a free slot or the key present. Otherwise the source's probe can loop forever on a full table.
- Maps.Map.Get: the same requirement as `Maps.Map.KeyExists`.
- Maps.Map.Remove: the same requirement as `Maps.Map.KeyExists`.
- Removal.Remove: the removal follows the scan as written. When the stop slot is 0 the source never finishes: its shift index stays below the table length and never equals `__stop_pos - 1`, which is 2^64 - 1; the model instead ends the shift at the cyclic predecessor and frees it. Findings.StopAtZeroUnderflows shows the difference.
- Maps.Map.ShiftBack: the loop stops at the cyclic predecessor `Prev(stop, len)`, where map.h:232 tests `__stop_pos - 1`. The two agree except at stop slot 0, where the source loops forever and the method frees the last slot.
- Insert.InsertFrom: its own contract states only where the walk lands. What it does to the slots is stated by Insert.InsertOccupied, Insert.InsertContents and Insert.InsertOrdered.
- Removal.RemoveAt: its own contract states only the table length. What it does to the bindings is stated by Removal.RemoveAtContents.
- Removal.RemoveIntendedExact: the robin-hood order is proved only for tables that had a free slot. On a full table the corrected scan can come back to the target.
- Byte-level `memcpy`, `memmove` and the byte loop of `_map_memswap` are whole-slot copies and swaps.
- `void*` casts and the macro-generated struct layout are not modelled.
- `_hash_f` is a Dafny function and `_key_eq_f` is the key type's equality, so a user-supplied equality that is not an equivalence is not modelled.
- `int32_hash`, `int64_hash`, `str_hash` and `str_eq`: the hashes are `djb_general`/`djb_str` on raw key bytes, which depend on endianness; `str_eq` is `strcmp`. They are not modelled beyond the djb functions.
- Maps.Map.LoadFactor: the `double` division is an exact `real`. Rounding is not modelled.
- `size_t` is 64 bits. `_nelem` and the cursors are unbounded naturals, which no reachable state can overflow.
- Scenarios.LengthAndLoadFactor: the `map_length` test (test/map.test.c:215-238) is checked on the four-slot map of the load-factor test, not on a default-sized one.
- The test harness `EMUtest.h` is not part of this model.

## Findings

| source | as written | input that shows it | evidently intended | confidence | as-written member | corrected member |
|---|---|---|---|---|---|---|
| map.h:191-193 | the lookup continues while the probe's displacement is at least the resident's | four slots, identity hash, keys 0, 4, 1 set in order; looking up key 1 stops at slot 1 and misses the key in slot 2 | continue while the resident is at least as displaced as the probe | high (not executed) | Findings.LookupMissesDisplacedKey | Lookup.FindIntendedFindsPresent |
| map.h:225-226 | the removal scan stops only at a free slot or back at the target; the resident's own displacement is not tested | four slots, key 0 in slot 0 and key 1 in slot 1; removing 0 moves 1 to slot 0, where the lookup for 1 no longer finds it | also stop at an entry in its own ideal slot | high (not executed) | Findings.StrandedEntryIsLost | Removal.RemoveIntendedExact |
| map.h:232, map.h:240 | `__stop_pos - 1` wraps to 2^64 - 1 when the stop slot is 0 | four slots, only key 3 in slot 3; removing it stops the scan at slot 0, and the shift index, which stays below the table length, never equals `__stop_pos - 1`, so the shift loop never ends | the slot before slot 0 is the last slot | high (not executed) | Findings.StopAtZeroUnderflows | Table.Prev |
