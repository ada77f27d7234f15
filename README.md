# bowl: a verified model of the node/array/hash engine

`bowl` is a C container engine built around one node type. A node is a
LEAF holding a scalar (a string literal, an integer, a real, a boolean or
an unmanaged pointer), an ARRAY of child nodes, or a HASH of keyed child
nodes. HASH nodes sit on the same resizable slot array as ARRAY nodes. The
engine grows and shrinks that array linearly, hashes keys with a
Murmur-style 32-bit digest, and resolves every hash collision by doubling
the table and re-inserting. Release cascades depth-first from a node
through everything it owns.

This project models that engine in Dafny and proves properties of the
model:

- `bowl.dfy` (module `Bowl`) holds the shared data model from bowl.h:
  - `err_t` and the node and data tags;
  - the `Bowl`, `Data` and `BowlArr` records, as classes;
  - the `CHECK` and `REAL_STRLEN` macros.
- `utils.dfy` (`Utils`) holds utils.c's array primitives: the rescale
  rule, the search and the compacting remove.
- `murmur.dfy` (`Murmur`) holds `_hash`:
  - every `uint32_t` operation wraps modulo 2^32 explicitly;
  - the C loops are methods proved against a pure definition of the
    digest.
- `array_store.dfy` (`ArrayStore`) holds array.c's operations, as methods
  on the node's store.
- `hash_layer.dfy` (`HashLayer`) holds hash.c: insert with
  grow-and-rehash, and remove.
- `leaf_data.dfy` (`LeafData`) holds data.c.
- `cascade.dfy` (`Cascade`) holds `bowl_free` and `array_free`, which
  recurse into each other.
- `dispatcher.dfy` (`Dispatcher`) holds `bowl_malloc`, `_get_data` and the
  `bowl_*` entry points of bowl.c.
- `scenarios.dfy` (`Scenarios`) runs whole sequences through the entry
  points.

How memory is represented:

- Nodes, data records, stores and slot buffers are objects. The slot
  buffer is a Dafny `array<Slot>`, where a `Slot` is NULL, a child node, or
  a hash entry (key copy and child).
- `free` does not change state in the model. Each releasing operation
  returns the objects it hands to `free`, in order, as `released`.
- `realloc` is a fresh slot buffer that keeps the old slots up to the
  shorter length. The slots it adds are indeterminate, as in C, so the
  model states nothing about them.
- An out-parameter the code leaves untouched on a failed check is the
  argument `prior`: the result is then `prior`, whatever the caller held.
- Where the C code contains an evident defect, the model follows the
  evident intent and the literal code is modelled beside it; see
  "## Findings".

Where the code and the design description disagree, the model follows the
code:

- The search keeps the LAST match, not the first.
- A missing child is reported as INVALID_PARAMS, not NOT_FOUND. `err_t`
  has no NOT_FOUND; the search reports `SIZE_MAX` and the remove's bounds
  check rejects it.
- Hash insertion never changes `used`, so it stays 0. As a result
  `array_free` on a hash node never visits its entries, and the entries
  and their children are not released (`Cascade.HashFreeLeaksEntries`).
- `hash_remove_key` hands back the hash entry occupying the slot, not the
  child node, and compares no keys.
- An unknown node type passed to `bowl_malloc` still allocates the node
  and returns it along with INVALID_STATE.

## Model

| member | source | states |
|---|---|---|
| Bowl.Code | bowl.h:15-23 | each `err_t` has its enumerator value; only OK is 0, and all lie in -1..4 |
| Bowl.FromCode | bowl.h:15-23 | an integer decodes to an error exactly when it is one of the enumerator values |
| Bowl.CodeRoundTrip | bowl.h:15-23 | decoding an error's code gives back that error, so no two errors share a code |
| Bowl.FirstFailureFirst | hash.c:39-48 | a chain of `if(e) return e;` steps returns OK when every step succeeded; otherwise it returns the first failing step's error, which is one of the step errors |
| Bowl.FirstFailureStops | hash.c:39-48 | the chain's result is its first failure, whatever follows it |
| Bowl.FirstFailureSnoc | array.c:113-116 | one more step at the end changes the chain's result only when every earlier step succeeded, and then to that step's error |
| Bowl.Check | bowl.h:12 | `CHECK(c, err)` falls through exactly when `c` holds and otherwise returns `err` |
| Bowl.Strlen | bowl.h:11 | `strlen` is the position of the first NUL, and no earlier byte is NUL |
| Bowl.TerminatedRoundTrip | data.c:21-30 | the copy of a NUL-free string has REAL_STRLEN bytes, and `strlen` reads the string back out of it |
| Bowl.NoKindIsZero | bowl.h:33-35 | node types start at LEAF = 1, so a cleared tag (0) is no type |
| Bowl.Bowl.constructor | bowl.c:26-30 | a new node has the given type and a cleared payload |
| Bowl.Data.constructor | data.c:14-16 | a new data record has the given tag and all payload members zero |
| Bowl.BowlArr.constructor | array.c:13-20 | a new store has capacity `size`, no live slots, and `size` NULL slots |
| Utils.Int32 | data.c:34-35 | the `long` argument stored through an `int` lies in the 32-bit range, is unchanged when it already fits, and is congruent to the argument modulo 2^32 |
| Utils.RescaledCapacity | utils.c:16-17 | the new capacity leaves room for the next insert (at least `use + DELTA`), moves by at most OVERSHOOT down or DELTA up, and shrinks or grows only under the rule's conditions |
| Utils.RescaleOutcomes | utils.c:16-17 | the four outcomes of the rule, including shrink-then-grow when the shrink lands exactly on `use + DELTA` |
| Utils.RescaleSettles | utils.c:16-17 | the capacity is kept exactly when it lies strictly between `use + DELTA` and `use + DELTA + OVERSHOOT`, and such a capacity is kept on the next call |
| Utils.RescaleAsWrittenAgrees | utils.c:16 | below 2^31 - 2 slots, the rule with its `int` casts (`RescaledCapacityAsWritten`) agrees with the intended rule |
| Utils.RescaleAsWrittenOverflows | utils.c:16 | at 2^31 - 2 slots the casts of `RescaledCapacityAsWritten` let the store shrink below its live count |
| Utils.Rescale | utils.c:9-21 | a count above the capacity is INVALID_PARAMS with nothing changed; otherwise a fresh buffer of the rescaled capacity holds the old slots up to the shorter length, and the slots `realloc` adds are left indeterminate |
| Utils.ReallocKeepsLive | utils.c:19 | a reallocation to at least the live count keeps every live slot |
| Utils.LastMatch | utils.c:28-31 | finds nothing exactly when the slot is absent; otherwise finds the last index holding it |
| Utils.Search | utils.c:23-34 | a NULL needle or an empty range is INVALID_PARAMS; otherwise the result is the last index of the needle, or SIZE_MAX if it is absent |
| Utils.SearchAsWrittenMisses | utils.c:30-31 | with two children, the search as written (`SearchAsWritten`, which compares only slot 0) misses the second child and misplaces the first |
| Utils.CompactLeftAt | utils.c:42-44 | the compaction `CompactLeft` after removing slot `idx`: earlier slots stay, later slots in range move down by one, the last slot in range is duplicated, and slots past the range stay |
| Utils.CompactLeftCounts | utils.c:42-44 | the compaction takes out one copy of the removed slot and adds one copy of the last slot |
| Utils.Remove | utils.c:36-47 | an index outside the range is INVALID_PARAMS with the buffer unchanged; otherwise the removed slot is handed back and the rest compacted left |
| Utils.RemoveRoundsAsWritten | utils.c:43-44 | each round of the loop as written shifts one slot down and keeps the length |
| Utils.RemoveRoundsAt | utils.c:43-44 | after `n` rounds, the `n` slots from `idx` hold their successors and all others are unchanged |
| Utils.RemoveAsWrittenOverruns | utils.c:43-44 | the loop as written reaches the intended compaction after `len - idx - 1` rounds; its guard still holds there, and the next round reads slot `len`, past the buffer |
| Murmur.RotlBound | utils.c:66 | ROTL32, with its two parts added together, stays below 2^32 |
| Murmur.SlotOf | utils.c:113-114 | the slot of a key is below the table size |
| Murmur.MixBlocks | utils.c:79-87 | the block loop computes `Blocks`, the running hash after all full 4-byte blocks, each `Round` of it scrambling one `Block` |
| Murmur.MixTail | utils.c:89-102 | the fall-through switch computes `Tail`: exactly the trailing `len % 4` bytes are mixed in |
| Murmur.Hash | utils.c:49-116 | a NULL key or a zero size is INVALID_PARAMS; otherwise the result is the key's `Digest` (blocks, tail, then `Finalise` with the length) modulo the size, a valid slot |
| Murmur.HashAsWrittenRejectsAll | utils.c:52 | the size check as written rejects every call |
| Murmur.DigestIgnoresEarlyBlocks | utils.c:84-85 | because each round overwrites the running hash, two keys of one length that agree from their last full block on have the same digest |
| Murmur.DigestCollides | utils.c:84-85 | "abcdXXXX" and "efghXXXX" fall into the same slot in every table size |
| ArrayStore.InsertAtAt | array.c:53-57 | `InsertAt`, opening a gap at `idx`: slot by slot, earlier slots stay, live slots from `idx` move up one, the new slot is at `idx` |
| ArrayStore.InsertAtLive | array.c:53-57 | the live slots after `InsertAt` are those before `idx`, the new slot, and the rest, as a multiset the old ones plus the new one |
| ArrayStore.RemoveUndoesInsert | array.c:53-57 | compacting the live slots at `idx` right after inserting there restores the old slots |
| ArrayStore.AppendLive | array.c:34-37 | appending after the rescale extends the live slots by the new child, whatever `realloc` left in the added slots |
| ArrayStore.ArrayMalloc | array.c:8-24 | a NULL node is INVALID_STATE, size 0 is INVALID_PARAMS; otherwise the node gets a fresh valid store of `size` NULL slots and its type and data are kept |
| ArrayStore.ArrayInsert | array.c:26-39 | NULL arguments are INVALID_PARAMS and a missing store is INVALID_STATE, with nothing changed; otherwise the store is rescaled, the child becomes the last live slot, and spare slots that were already there keep their contents |
| ArrayStore.OpenGap | array.c:53-54 | the shift loop, run from the top down, moves the live slots from `idx` up one without overwriting any |
| ArrayStore.ArrayInsertKey | array.c:41-60 | errors as for append, plus `idx >= used` is INVALID_PARAMS; otherwise the live slots are those before `idx`, the child, then the rest |
| ArrayStore.GapFilled | array.c:53-56 | writing the child into the opened gap gives the insertion |
| ArrayStore.InsertKeyLive | array.c:50-57 | rescaling and then inserting gives the expected live slots, whatever `realloc` left in the added slots |
| ArrayStore.InsertRoundsAsWritten | array.c:53-54 | each round of the loop as written copies one slot upward and keeps the length |
| ArrayStore.InsertRoundsAt | array.c:53-54 | after `n` rounds, every slot from `idx` to `idx + n` holds a copy of slot `idx` |
| ArrayStore.InsertAsWrittenSmears | array.c:53-54 | the loop as written smears slot `idx` over the rest of the buffer and loses the slot after it |
| ArrayStore.ArraySwapKey | array.c:62-77 | errors leave the store unchanged; a NULL argument or a missing store leaves `*old` as it was, and `idx >= used` sets it to NULL first; otherwise slot `idx` now holds the child and its old contents are handed back |
| ArrayStore.SwapBackRestores | array.c:73-74 | swapping the old occupant back restores the store |
| ArrayStore.ArrayRemove | array.c:79-93 | the call succeeds exactly when the child is among the live slots; its last occurrence is removed, the live slots are compacted and one fewer; errors change nothing |
| ArrayStore.CompactLeftLive | array.c:91 | compacting the live slots leaves the old live slots without the removed one |
| ArrayStore.RemoveAsWritten | array.c:87-91 | the removal as written, over all `size` slots, succeeds exactly when the child is anywhere in the buffer, and keeps the buffer's length |
| ArrayStore.RemoveAsWrittenExposesSpare | array.c:88-102 | as written, the first spare slot moves into the last live place, where the intended removal counts one live slot less |
| ArrayStore.RemoveAsWrittenMatchesSpare | array.c:88-91 | as written, a child found only in a spare slot is reported removed while every live slot stays |
| ArrayStore.ArrayRemoveKey | array.c:95-104 | succeeds exactly when `idx < used`; the live slot `idx` is handed back, the live slots compacted and one fewer; errors leave `*out` as it was |
| ArrayStore.ArrayFreeShallow | array.c:123-129 | a NULL store is INVALID_STATE; otherwise the slot buffer and then the store header are released, and nothing else |
| HashLayer.EqualDigestsCollide | utils.c:113 | keys with equal digests share a slot in every table size |
| HashLayer.DistinctDigestsSeparate | utils.c:113 | keys with different digests are separated by every table larger than 2^32 slots |
| HashLayer.StoredKeyNotFresh | hash.c:28 | a stored key sits in its own slot, and a new insert of it collides |
| HashLayer.CollisionBound | hash.c:28-32 | a collision between keys with different digests is only possible while the table has at most 2^32 slots |
| HashLayer.InsertItems | hash.c:51-60 | placing an entry into its empty slot keeps every entry in its slot and adds exactly that entry |
| HashLayer.RemoveItems | hash.c:81-82 | clearing a slot keeps every entry in its slot and drops exactly the entry that was there |
| HashLayer.Rehashed | hash.c:35-42 | the re-insertion loop fills a table of twice the size |
| HashLayer.DoubledSlot | hash.c:32-39 | a key's slot in the doubled table, modulo the old size, is its old slot |
| HashLayer.RehashedNone | hash.c:32 | before re-insertion the doubled table is empty and well placed |
| HashLayer.RehashStep | hash.c:35-42 | each round re-inserts one entry into its slot in the doubled table, which is still free |
| HashLayer.RehashedPlaced | hash.c:35-42 | every prefix of the re-insertion leaves entries in their slots, and every later entry finds its slot free |
| HashLayer.RehashedFresh | hash.c:35-47 | a pending key that collides with no stored digest still collides with none after the rehash |
| HashLayer.RehashedItems | hash.c:35-42 | the rehash keeps exactly the old entries |
| HashLayer.HashInsertKey | hash.c:13-64 | NULL arguments or a missing store are INVALID_STATE with nothing changed; otherwise the entries grow by exactly the new one; a free slot is filled in place; a collision replaces the store by a fresh one at least twice as large and releases the old one; everything released is a store superseded during the call, never the node's current store nor the child |
| HashLayer.Put | hash.c:23-61 | once the checks pass, a free target slot is filled in place and nothing is released; an occupied one sends the insertion down the growth path, which leaves a fresh store at least twice as large and releases the old slot buffer and header first; either way the entries grow by exactly the new one |
| HashLayer.Grow | hash.c:28-49 | for a table of at most 2^32 slots (every collision of a fresh key implies that bound, `CollisionBound`), the growth path ends with a valid table at least twice as large holding the old entries and the new one; it releases the old slot buffer and header first, then only stores superseded meanwhile, never the current store nor the child |
| HashLayer.Retry | hash.c:47-48 | the last step inserts the pending key into the doubled store, which may grow again; the entries grow by exactly the new one, and what it releases is only stores superseded meanwhile, never the current store nor the child |
| HashLayer.Double | hash.c:31-45 | the doubling step gives the node a fresh valid store of twice the size holding exactly the old entries, releases exactly the old slot buffer and header, and keeps the pending key collision-free |
| HashLayer.Rehash | hash.c:35-42 | the re-insertion loop leaves the new store equal to the rehash of the old one, without replacing it |
| HashLayer.Reinsert | hash.c:36-41 | one round of the loop puts the old store's entry `i`, if any, into its free slot of the new store |
| HashLayer.HashRemoveKey | hash.c:66-84 | NULL arguments or a missing store are INVALID_STATE and `*child` is left as it was; otherwise whatever occupies the key's slot is handed back and the slot is cleared, with no key comparison |
| HashLayer.RemoveUndoesInsert | hash.c:81-82 | removing a key right after inserting it into a free slot hands back its entry and restores the table |
| HashLayer.RemoveTakesOtherKey | hash.c:77-82 | removing a key whose slot holds another key's entry evicts that other entry |
| HashLayer.GrowthReleaseAsWrittenDangles | hash.c:29-44 | as written, `array_free(prev)` is the release cascade (`GrowthReleaseAsWritten`) run on the node after it took the new store: it releases exactly the new store the node keeps, never the old one, and returns the uninitialised `e` |
| LeafData.DataMalloc | data.c:9-68 | succeeds exactly for the five data tags, and an unknown tag produces no node; otherwise the result is a fresh LEAF whose fresh record holds the argument converted for its tag: a NUL-terminated copy, a 32-bit integer, `b != 0`, or the raw pointer |
| LeafData.DataFree | data.c:71-81 | a NULL record is INVALID_PARAMS; otherwise exactly the objects the record owns are released: a literal's buffer, then the record |
| LeafData.OwnedShape | data.c:73-80 | the record is released last, only a literal owns a buffer, and a RAW pointer is never released |
| Cascade.FreeDispatch | bowl.c:140-144 | leaves go to `data_free`, array and hash nodes to `array_free`, anything else is refused |
| Cascade.FreeDispatchAsWrittenRejectsArrays | bowl.c:142 | `case ARRAY \| HASH:` is the label HASH alone, so the dispatch as written (`FreeDispatchAsWritten`) refuses an ARRAY node; all other types are routed as intended |
| Cascade.ErrorPersists | array.c:113-116 | after the first failing child, no later child is visited |
| Cascade.BowlFree | bowl.c:135-149 | returns and releases exactly what the recursive definition of the cascade (`FreeNode`) prescribes for the node's tree |
| Cascade.ArrayFree | array.c:106-121 | a NULL node is INVALID_PARAMS and a missing store INVALID_STATE; otherwise the live children are released in order up to the first failure, then the slot buffer and store (`FreeStore`), and the result is the first failure among the children's results, or OK |
| Cascade.KidsFirstFailure | array.c:113-116 | the child loop (`FreeKids`) returns the first failure among the children's results, as a chain of `if(e) break;` steps does |
| Cascade.FreeSucceedsIff | bowl.c:135-149 | the cascade returns OK exactly when the tree is well formed: no NULL live slot, no leaf without a record, no unknown type |
| Cascade.KidsSucceedIff | array.c:113-116 | the child loop finishes with OK exactly when every child's subtree is well formed |
| Cascade.NodeReleasedLastIffOk | bowl.c:145-148 | a node is released, and released last, exactly when its cascade returns OK |
| Cascade.FreeWithinFootprint | bowl.c:135-149 | only objects the tree owns are released |
| Cascade.KidsWithinFootprint | array.c:113-119 | the child loop releases only objects the children own |
| Cascade.KidsFootprintMember | array.c:113-116 | an object owned by the first `n` children is owned by one of them |
| Cascade.FreeReleasesFootprint | bowl.c:135-149 | on a well-formed tree in which no object is owned twice, the cascade returns OK and releases exactly what the tree owns, each object once |
| Cascade.StoreReleasesFootprint | bowl.c:142-148 | on an array or hash node of such a tree, `array_free` and then `free(self)` release the children's objects, then the slot buffer, the store and the node, each once, which is exactly what the node owns |
| Cascade.KidsReleaseFootprint | array.c:113-116 | under the same conditions the child loop returns OK and releases exactly what the children own, each object once |
| Cascade.KidsApart | array.c:113-116 | what the earlier children own is apart from what the next child owns |
| Cascade.HashFreeLeaksEntries | array.c:113-119 | freeing a hash node releases its slot buffer, its store and the node, and none of its entries |
| Cascade.ArrayFreeAsWrittenUndefined | array.c:112-120 | with live children the code as written agrees with the intent; with none it returns the uninitialised `e` where OK is meant |
| Dispatcher.Dispatch | bowl.c:41-133 | keyed operations reach only hash nodes and positional ones only array nodes; leaves are refused with INVALID_PARAMS, and so is every non-hash node by `bowl_insert_key`; other refusals are INVALID_STATE |
| Dispatcher.MallocOutcome | bowl.c:22-39 | allocation succeeds exactly for LEAF, ARRAY and HASH; type 0 is INVALID_PARAMS and any other type INVALID_STATE |
| Dispatcher.StartSize | bowl.c:9-10 | only array and hash nodes start with a store, of a valid positive size |
| Dispatcher.MallocAsWrittenRefusesHash | bowl.c:32-36 | as written (`MallocOutcomeAsWritten`) only HASH is treated differently: it is refused and never gets a store |
| Dispatcher.BowlMalloc | bowl.c:22-39 | returns the outcome above; type 0 is refused before `*ptr` is written, so the caller's pointer (`prior`) comes back; any other type returns a fresh node of the type; array and hash nodes get a fresh store of their start size with all slots NULL, and a hash node starts valid and empty |
| Dispatcher.GetData | bowl.c:12-20 | returns the payload member the node's type selects: the store of array and hash nodes, the record of a leaf |
| Dispatcher.GetDataAsWrittenMissesArrays | bowl.c:15 | as written (`GetDataAsWritten`) an ARRAY node's store is not returned; other types agree |
| Dispatcher.BowlAppend | bowl.c:41-54 | NULL arguments are INVALID_PARAMS and other types are refused by the dispatch; on an array node the child becomes the last live slot of the rescaled store and existing spare slots keep their contents |
| Dispatcher.BowlInsertKey | bowl.c:56-66 | NULL arguments and non-hash nodes are INVALID_PARAMS; on a hash node the entries grow by exactly the new one, the table stays valid, and only superseded stores are released |
| Dispatcher.BowlInsertIdx | bowl.c:68-80 | on an array node with `idx < used` the child is inserted before position `idx`; otherwise the dispatch or the bounds check refuses |
| Dispatcher.BowlSwapIdx | bowl.c:82-94 | on an array node with `idx < used` the child replaces slot `idx`, whose old contents are handed back; `idx >= used` hands back NULL; every other refusal leaves `*prev` as it was |
| Dispatcher.BowlRemove | bowl.c:96-107 | on an array node it succeeds exactly when the child is live; its last occurrence is removed and one fewer slot is live |
| Dispatcher.BowlRemoveKey | bowl.c:109-120 | on a hash node the key's slot is handed back and cleared; every refusal leaves `*prev` as it was |
| Dispatcher.BowlRemoveIdx | bowl.c:122-133 | on an array node with `idx < used` live slot `idx` is handed back, the live slots compacted and one fewer; every refusal leaves `*prev` as it was |
| Scenarios.EmptyArray | bowl.c:22-39 | a new array node has two NULL slots and none live |
| Scenarios.Push | array.c:26-39 | an append extends the live slots by the child and grows or keeps the capacity by the rescale rule |
| Scenarios.AppendThree | array.c:26-39 | appending A, B, C grows the store 2 → 4 → 4 → 6 and keeps the children in order |
| Scenarios.AppendThenRemove | array.c:79-93 | append A, B, C and remove B gives the live slots A, C |
| Scenarios.AppendThenInsert | array.c:41-60 | append A, B and insert X at 1 gives A, X, B |
| Scenarios.ThreeLeavesFree | bowl.c:135-149 | freeing an array of three integer leaves releases each record and leaf in slot order, then the slot buffer, the store and the node, with OK |
| Scenarios.FreeArrayOfLeaves | bowl.c:135-149 | the same through the entry points: OK, and nine objects released |
| Scenarios.OnlyEntryRemoved | hash.c:77-83 | in a table with one entry, that entry sits in its key's slot, and clearing the slot empties the table |
| Scenarios.HashOfOne | hash.c:50-61 | inserting a key into a new hash node leaves exactly that entry |
| Scenarios.InsertThenRemoveKey | hash.c:66-84 | removing that key hands back its entry and leaves the node empty |
| Scenarios.IntegerLeaf | data.c:33-37 | a new integer leaf holds its value as a 32-bit `int` |

## Left out

- Allocation failure. `malloc`, `calloc` and `realloc` returning NULL (MALLOC_FAILED in array.c, data.c, hash.c and bowl.c) are not modelled. The only MALLOC_FAILED in the model is `ArrayStore.ArrayMalloc` asked for `SIZE_MAX` or more slots.
- NULL out-pointers and NULL buffer pointers. `prev`, `out` and `child` are results in the model, so they cannot be NULL. This drops the `CHECK(child, …)` of `hash_remove_key` and the `CHECK(ptr)` and `CHECK(len)` guards of utils.c.
- The LINKED node type and its `b_ptr` list. It is routed by the dispatch functions, and `_get_data` reports it, but its list is not modelled.
- The REAL payload is floating point. `LeafData.DataMalloc` records the tag only.
- Payload unions. `struct bowl` and `struct data` hold unions; the model keeps one field per member and leaves the unused ones zero, so aliasing between members is not captured.
- Hash entry memory. Entries (`hash_item` and its key copy) are values in the model, so allocating, leaking and releasing them is not tracked.
- Use after free and double free. Release is a list of objects, not a change of state.
- 32-bit counters. The `int` loop counters and the `(int) key_len / 4` of `_hash` are modelled as unbounded, so arrays and keys of 2^31 or more elements are not.
- `data_malloc`'s failure path. It calls `bowl_free` on whatever the caller's pointer held; the model produces no node on failure.
- Scenarios with several keys. A scenario with three concrete keys would need the verifier to evaluate `Murmur.Digest` on literal keys, which is too costly for it; `Scenarios.InsertThenRemoveKey` covers one key of any value.
- HashLayer.HashInsertKey: requires the new key's digest to differ from every stored digest. With two equal digests the C code doubles the table at each collision until `array_malloc` fails with MALLOC_FAILED, or until `arr->size * 2` wraps to 0 and `array_malloc` returns INVALID_PARAMS; allocation failure and `size_t` wrap-around are not modelled, so the model states no result for that case.
- Dispatcher.BowlInsertKey: forwards the same requirement to `HashLayer.HashInsertKey`, for the same reason: the key's digest must differ from every stored digest.
- Utils.Rescale: `realloc` is always a fresh buffer. A `realloc` that returns the same block (as in the 4 to 4 step of `Scenarios.AppendThree`) is modelled as a fresh buffer, and the release of the old block when `realloc` moves it is not recorded in any `released` sequence.
- HashLayer.HashInsertKey: takes keys as the bytes before their NUL without requiring them to be NUL-free. Its entry point `Dispatcher.BowlInsertKey` requires that, and the re-insertion only passes keys already stored.
- ArrayStore.ArrayInsert, ArrayStore.ArrayInsertKey, Dispatcher.BowlAppend, Dispatcher.BowlInsertIdx: require `size + DELTA < SIZE_MAX`. The `size_t` wrap-around of `*len += DELTA` is not modelled.
- Cascade.ArrayFree: requires an array or hash node. Both callers pass one: `bowl_free`'s switch (bowl.c:142) and the growth path of `hash_insert_key` (hash.c:44), which passes the hash node itself; the latter is modelled as written by `HashLayer.GrowthReleaseAsWritten`, which runs the cascade on the node, and as intended by the shallow release in `HashLayer.Double`, see "## Findings".
- Cascade.FreeReleasesFootprint: requires an ownership tree (`Separate`): no object is owned by two nodes. The C code does not check this; a child appended twice is released twice.

## Findings

| source | as written | input that shows it | evidently intended | confidence | as-written member | corrected member |
|---|---|---|---|---|---|---|
| utils.c:16 | both sides of the shrink test are cast to `int` | `len = use = 0x7FFF_FFFE`: the capacity drops to `0x7FFF_FFF8`, below the live count | compare as unbounded numbers, `*len >= use + DELTA + OVERSHOOT`, which also avoids the unsigned wrap of `*len - OVERSHOOT` below 8 | not executed | Utils.RescaleAsWrittenOverflows | Utils.RescaledCapacity |
| utils.c:31 | every round compares slot 0 (`*ptr`) with the needle | slots `[A, B]`, search for B: not found | compare `ptr[i]` | not executed | Utils.SearchAsWrittenMisses | Utils.Search |
| utils.c:43 | the loop guard `idx < len` never changes, so the loop runs past the buffer | any call | guard on `i < len` | not executed | Utils.RemoveAsWrittenOverruns | Utils.Remove |
| array.c:53-54 | the guard `idx < arr->used` never changes, and slots are copied upward from `idx` | slots `[A, B, C]`, insert at 0: B and C are overwritten by A | shift from the top down while `i > idx` | not executed | ArrayStore.InsertAsWrittenSmears | ArrayStore.OpenGap |
| utils.c:52 | `CHECK((len < 0), …)` rejects every call | any key and size 24: INVALID_PARAMS | reject only `len == 0` | not executed | Murmur.HashAsWrittenRejectsAll | Murmur.Hash |
| hash.c:29 | `prev = self`, so `array_free(prev)` at hash.c:44 frees the new store | the first collision | release the old store shallowly | not executed | HashLayer.GrowthReleaseAsWrittenDangles | HashLayer.Double |
| bowl.c:142 | `case ARRAY \| HASH:` is the single label HASH | `bowl_free` on an ARRAY node: INVALID_STATE, nothing released | one label each for ARRAY and HASH | not executed | Cascade.FreeDispatchAsWrittenRejectsArrays | Cascade.BowlFree |
| array.c:88-91 | the search and the compaction of `array_remove` run over all `size` slots and `used` is never decremented | live `[A, B, C]` in a six-slot store after growth, with slot 3 left indeterminate by `realloc`: removing B gives live `[A, C, j]` for whatever `j` slot 3 held | search and compact the `used` live slots and decrement `used`, giving live `[A, C]` | not executed | ArrayStore.RemoveAsWrittenExposesSpare | ArrayStore.ArrayRemove |
| array.c:100-102 | `array_remove_key` compacts over `size` and never decrements `used` | the same store, removing index 1: live `[A, C, j]` | compact the live slots and decrement `used` | not executed | ArrayStore.RemoveAsWrittenExposesSpare | ArrayStore.ArrayRemoveKey |
| bowl.c:15 | `case ARRAY \| HASH:` is the single label HASH | `_get_data` on an ARRAY node: NULL | one label each for ARRAY and HASH | not executed | Dispatcher.GetDataAsWrittenMissesArrays | Dispatcher.GetData |
| bowl.c:32-36 | no HASH case; HASH_START_SIZE is never used | `bowl_malloc(&p, HASH)`: INVALID_STATE and no store | allocate a HASH_START_SIZE store | not executed | Dispatcher.MallocAsWrittenRefusesHash | Dispatcher.BowlMalloc |
| array.c:112 | `err_t e;` is only assigned in the loop | `array_free` on a store with no live slot (every hash node): an indeterminate code, and `bowl_free` then keeps the node | start from OK | not executed | Cascade.ArrayFreeAsWrittenUndefined | Cascade.ArrayFree |
