# Persistent reference manager, in Dafny

This project models `PersistentReferenceManager<T>` and its handle `PersistentReference<T>`. Together they form a handle-based object pool. The pool keeps its payloads in a dense vector, `models`, for cache-friendly iteration. A `std::map`, the map from handle id to 1-based slot, lets callers refer to entries by a stable id instead of a raw index. A counter, `last`, issues the ids.

Files:

- `pool_spec.dfy` (module `PoolSpec`): the pool's state as a value, `Pool(models, slots, last)`.
  - The invariant `Valid`: every slot lies in `1..|models|`, no two ids share a slot, there are as many ids as entries, and every id is below the counter.
  - One function per operation: `Created`, `Written`, `OrderedDestroyed`, `SwapBackDestroyed`, plus the corrected `FixedSwapBackDestroyed`.
  - The scan result `LastId`.
  - The lemmas about these functions.
- `persistent_reference.dfy` (module `PersistentReferences`): the class `PersistentReferenceManager<T>`.
  - Its fields are `models: seq<T>`, `slots: map<nat, nat>` (the source's `map`) and `last: nat`, plus the payload default `dflt` that `Create` appends.
  - Each method updates those fields in place and is proved against the matching `PoolSpec` function.
  - The handle is the datatype `PersistentReference(id)`.
- `pool_runs.dfy` (module `PoolRuns`): arbitrary sequences of `Create` and `Destroy` calls, and what holds across all of them.
- `scenarios.dfy` (module `Scenarios`): three client methods in the manner of the demo driver, with `int` payloads. They have no contracts of their own. Their assertions check what a caller can conclude from the contracts:
  - `DestroyMiddleEntry`: destroy the middle of three entries; the other two keep their payloads.
  - `CopiedHandleSharesPayload`: a write through a copied handle is read back through the original.
  - `DestroyNewestEntry`: the aliasing described under "Findings".

Notes on what the source does, where its names or comments suggest otherwise (such as `NULL_ID`'s comment at line 30):

- The first id issued is 0, not 1. `last` starts at 0 and `Create` issues `last++`. `NULL_ID` is only ever compared with slot values, never with ids.
- A failed lookup is an `assert`, not a returned error. It is modelled as a precondition (`Live`: the id is a key and its slot is not `NULL_ID`).
- `Destroy` checks nothing beyond `map.at`. Its precondition is `Destroyable`: the id is a key, and the 0-based index it maps to is in range. The C++ would otherwise throw or index out of bounds.
- Swap-and-pop finds the id to repoint with a linear scan over the map, in ascending key order, stopping at the first match. `FindLastId` models that scan.
- Swap-and-pop does not keep the invariant when the destroyed entry is in the last slot. See "Findings".

## Model

| member | source | states |
|---|---|---|
| PersistentReferences.PersistentReferenceManager.constructor | src/main.cpp:25-28 | a new pool has no entries and no ids, its counter is 0, and it satisfies the invariant |
| PersistentReferences.PersistentReference.Get | src/main.cpp:18-20 | a handle resolves, through its pool, to the payload of its id's slot |
| PersistentReferences.PersistentReferenceManager.GetModelById | src/main.cpp:38-43 | under the liveness asserts and an in-range slot, returns `models[slot - 1]`; under the invariant no other live id holds that slot, so only this id and its copies read that payload |
| PersistentReferences.PersistentReferenceManager.GetPersistentReference | src/main.cpp:45-47 | the same lookup, with the same precondition |
| PersistentReferences.PersistentReferenceManager.SetModelById | src/main.cpp:38-43 | a write through the returned reference replaces exactly the id's slot; map and counter unchanged; the invariant is kept |
| PersistentReferences.PersistentReferenceManager.GetById | src/main.cpp:97-103 | requires the two liveness asserts; returns a handle with the same id; under the invariant that handle can be dereferenced |
| PersistentReferences.PersistentReferenceManager.Create | src/main.cpp:50-58 | appends the default payload; maps the old counter to the new length; advances the counter by one; returns the old counter as the id; the id was not in use; the invariant is kept |
| PersistentReferences.PersistentReferenceManager.FindLastId | src/main.cpp:78-86 | returns the least key whose slot equals the storage length, or 0 when no key has that slot |
| PersistentReferences.PersistentReferenceManager.DestroyOrdered | src/main.cpp:61-74 | the new state is `OrderedDestroyed` of the old one; the invariant is kept |
| PersistentReferences.PersistentReferenceManager.DestroySwapBack | src/main.cpp:61-93 | the new state is `SwapBackDestroyed` of the old one (lines 76-93); the invariant is kept unless the target was in the last slot; in that case the invariant is broken and the destroyed id is still live |
| PoolSpec.LiveIsResolvable | src/main.cpp:38-42 | under the invariant the two asserts are enough for an in-range vector index |
| PoolSpec.ResolveSharesSlotOnlyForSameId | src/main.cpp:204-207 | two live ids share a slot if and only if they are the same id, so handle copies, and only they, share a payload |
| PoolSpec.WrittenResolves | src/main.cpp:38-43 | after a write, the id reads back the written value; every other live id reads what it read before; the invariant is kept |
| PoolSpec.CreatePreservesValid | src/main.cpp:54-57 | the issued id was not a key, and `Create` keeps the invariant |
| PoolSpec.CreateResolves | src/main.cpp:50-58 | the new id resolves to the default payload, and every previously resolvable id resolves to the same payload as before |
| PoolSpec.OrderedPreservesValid | src/main.cpp:64-74 | ordered `Destroy` keeps the invariant and removes exactly one entry |
| PoolSpec.OrderedStability | src/main.cpp:64-74 | ordered `Destroy` removes the id; every other id still resolves, to the same payload; the survivors keep their relative storage order (both directions) |
| PoolSpec.LastIdIsUnique | src/main.cpp:78-86 | under the invariant a non-empty pool has exactly one id in its last slot, and the scan returns it |
| PoolSpec.LastIdIsLeast | src/main.cpp:79-85 | the scan returns the least key holding the last slot |
| PoolSpec.SwapBackPreservesValid | src/main.cpp:76-93 | swap-and-pop of an entry not in the last slot keeps the invariant and removes exactly one entry |
| PoolSpec.SwapBackStability | src/main.cpp:88-93 | swap-and-pop of an entry not in the last slot: the old last payload moves into the hole; the id found by the scan now names the hole; the destroyed id is gone; every other id resolves to the same payload |
| PoolSpec.SwapBackLastSlotBreaksValid | src/main.cpp:79-93 | swap-and-pop of the last-slot entry leaves the destroyed id live, at a slot one past the end; there is one more key than entries, and the invariant fails |
| PoolSpec.SwapBackLastSlotAliasesNextCreate | src/main.cpp:54-55 | after that, the next `Create` gives the new id the dead id's slot, so both resolve to the same entry |
| PoolSpec.FixedSwapBackPreservesValid | src/main.cpp:76-93 | the corrected swap-and-pop keeps the invariant for every destroyable id and removes exactly one entry |
| PoolSpec.FixedSwapBackStability | src/main.cpp:76-93 | the corrected swap-and-pop removes the id; every other id resolves to the same payload |
| PoolRuns.StepPreservesValid | src/main.cpp:50-93 | each `Create` and each `Destroy` (ordered or corrected swap-and-pop) keeps the invariant and never lowers the counter |
| PoolRuns.RunPreservesValid | src/main.cpp:50-93 | after any sequence of calls the invariant holds, so storage length equals the number of live ids |
| PoolRuns.IssuedIdsAreFresh | src/main.cpp:55-57 | the ids returned along any sequence of calls are strictly increasing; they are at least the starting counter and below the final one; none was in use before |
| PoolRuns.StepKeys | src/main.cpp:55-93 | a step only removes keys or adds the counter, and a `Destroy` removes its id |
| PoolRuns.RetiredStaysRetired | src/main.cpp:55-93 | an issued id that has left the map never comes back, whatever calls follow |
| PoolRuns.DestroyedIdIsNeverLiveAgain | src/main.cpp:97-103 | after `Destroy` of an id, no later state lets that id pass the lookup asserts |
| PoolRuns.LiveIdKeepsPayload | src/main.cpp:61-93 | an id that no call destroys keeps resolving to the same payload across any sequence of calls |

## Left out

- `DebugScene` and `main` (console output and the demo driver) are not modelled. `scenarios.dfy` replays small parts of the driver.
- The payload types `Model` and `Texture` are not modelled. The payload is an opaque `T`, and the caller supplies the default value that `Create` appends.
- The handle's back-reference to its manager is not modelled. A handle is its id, and the manager is passed to `Get` explicitly. Aliasing and lifetime of that reference are not modelled.
- `std::vector` capacity, reallocation and the commented-out `reserve` are not modelled.
- PersistentReferences.PersistentReferenceManager.Create: does not model the 32-bit wrap-around of `last`. Ids and slots are unbounded naturals, so freshness holds only while `last` stays below 2^32.
- `map.at(id) - 1` underflowing to 2^32 - 1 for a slot of 0 is not modelled. `Destroyable` excludes it, and a valid pool never has a slot of 0.
- `T&`, the mutable reference that `Get` returns, is split in two. `GetModelById` reads through it, and `SetModelById` writes through it.
- The `SWAP_BACK` compile-time switch is not modelled. Both variants of `Destroy` are separate methods, `DestroyOrdered` and `DestroySwapBack`.
- PersistentReferences.PersistentReferenceManager.DestroyOrdered: visits the map's keys in an arbitrary order rather than ascending. Each step only decrements its own key, so the final state is the same.
- The corrected swap-and-pop exists only as the state function `FixedSwapBackDestroyed`, which `PoolRuns` uses. The class keeps the method as written.
- `PoolRuns` covers `Create` and `Destroy` only. Writes through a reference change no map entry.

## Findings

| source | as written | input that shows it | evidently intended | confidence | as-written member | corrected member |
|---|---|---|---|---|---|---|
| src/main.cpp:92-93 | When the destroyed entry is in the last slot, the scan finds that same id. `map.erase(go.id)` then removes it, and `map[lastId] = mi + 1` re-inserts it with the old storage length. | Two entries, ids 0 and 1 at slots 1 and 2; swap-and-pop `Destroy` of id 1. The demo driver hits this at line 181 (id 5) and, in the loop at line 197, for each of ids 129 to 149, leaving dead id 149 at slot 105 over 104 entries. The new `go4` (line 204) is then also given slot 105, so the writes at lines 205-207 land in the entry the dead id 149 resolves to; at line 211 the scan picks 149, not `go4`, and leaves it pointing past the end. | Id 1 is absent and the map is `{0: 1}` over one entry. Instead id 1 stays live at slot 2 over one entry, and the next `Create` also gets slot 2, so the dead handle aliases the new entry. | not executed | PoolSpec.SwapBackLastSlotBreaksValid | PoolSpec.FixedSwapBackPreservesValid |
