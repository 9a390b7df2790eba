# Virtual-memory map of a small kernel, in Dafny

This project models the core of the kernel's virtual-memory map (`sys/vm_map.c`):

- **Entry collection.** Each address-space map (`vm_map_t`) keeps its entries (`vm_map_entry_t`) in two places: a TAILQ list in address order and a splay tree keyed by `start`. It also keeps a counter `nentries`. The model holds the list as `seq<Entry>` and the tree as the set of starts it holds. A log of the objects passed to `vm_object_free` stands for the freeing of backing objects. The modelled operations are insert, lookup, remove, whole-map delete and add.
- **Active-map registry.** It holds the kernel map `kspace`, the calling thread's user map `td_uspace` and the page table last given to `pmap_activate`. The modelled operations are activate, the two accessors and resolving an address to its map. The accessors `UserMap` and `KernelMap` and the range test `InRange` are plain field reads; their meaning is stated through `Activate`, `KernelMapStable` and `MapByAddr`.
- **Page-fault decision procedure.** It runs lookup, then the permission checks in source order, then page and offset computation, then a pager call only on a cache miss, then the `pmap_map` install. Every `panic` and failed `assert` becomes an outcome of `FaultResult`.

Modules:

- `VmTypes` (`vm_types.dfy`): addresses, `PAGESIZE`, protections, frames and page tables.
- `VmMapEntries` (`vm_map_entries.dfy`): the map state and its operations.
- `VmMapProperties` (`vm_map_properties.dfy`): lemmas that relate the operations to each other.
- `VmMapRegistry` (`vm_map_registry.dfy`): the active-map registry.
- `VmPageFault` (`vm_page_fault.dfy`): the fault procedure.
- `VmMapScenarios` (`vm_map_scenarios.dfy`): concrete runs.

Quirks of the code that the model keeps:

- `vm_map_remove_entry` unlinks an entry from the list only. Its start stays in the tree (`RemoveLeavesStaleStart`). If a range is later added at that start, the entry is returned but never linked (`ReAddAfterRemoveNotLinked`). These stale-start states cannot be reached through the file's public functions: `vm_map_remove_entry` is `static`, and its only caller is `vm_map_delete`, which frees the map right after draining it. The lemmas describe what the two functions would do if they were combined, and the `InsertDefined` precondition of `InsertEntry` and `AddEntry` always holds on maps built only by adds (`CoherentInsertDefined`).
- `vm_map_add_entry` ignores the result of the insertion. An entry whose start is already in the tree is returned and the map does not change.
- `vm_map_add_entry` has no `start < end` check at all. Its overlap checks are disabled under `#if 0`, and even those would only look up the two endpoints. So the invariant `Wf` asks only for sortedness by start, alignment and bounds. Lookup properties that need disjoint entries state that as a precondition.
- New entries have a NULL object. The fault path treats a NULL object as a failed assertion (`NullObject`). An entry gets an object only when a caller outside this file attaches one.
- The fault offset is taken from the rounded-down page, so it is always page-aligned. For example, a fault at `0x2050` in an entry that starts at `0x2000` uses offset 0, not the byte offset `0x50`.
- `pmap_map` is called for `[fault_addr, fault_addr + PAGESIZE)` and not for the aligned page.
- Only a fault type that is exactly READ, or exactly WRITE, is checked against the entry. EXEC faults, and combinations of access bits, pass every permission check that follows a protection other than NONE.

## Model

| member | source | states |
|---|---|---|
| `VmTypes.PageTrunc` | sys/vm_map.c:165 | `fault_addr & -PAGESIZE` is page-aligned, at most `fault_addr`, and less than one page below it |
| `VmTypes.PageTruncUnique` | sys/vm_map.c:165 | the rounded-down page is the only aligned address that is at most `a` and less than one page below it |
| `VmMapEntries.EmptyMap` | sys/vm_map.c:44-47 | a freshly set-up map has an empty list and an empty tree, and it satisfies the map invariant with the tree and list in agreement |
| `VmMapEntries.EntryCmp` | sys/vm_map.c:35-39 | the comparator's sign is negative, zero or positive exactly when the first start is below, equal to or above the second |
| `VmMapEntries.Successor` | sys/vm_map.c:70 | `SPLAY_NEXT` gives the least tree start above the new start, or none exactly when no tree start is above it |
| `VmMapEntries.IndexOfStart` | sys/vm_map.c:72 | finds the first list entry with a given start; it is found exactly when some listed entry has that start |
| `VmMapEntries.InsertPosition` | sys/vm_map.c:69-74 | the new entry goes just before its tree successor, or at the tail when there is none; in a sorted list whose starts the tree holds, every entry before the slot starts lower and every entry after it starts higher |
| `VmMapEntries.InsertEntry` | sys/vm_map.c:68-79 | a start already in the tree gives `false` and changes nothing; otherwise the result is `true`, the entry is linked at its slot, the tree gains the start, `nentries` rises by one, and a sorted list stays sorted |
| `VmMapEntries.FindEntry` | sys/vm_map.c:81-87 | returns the first list entry with `start <= vaddr < end`, and returns none exactly when no list entry contains `vaddr` |
| `VmMapEntries.RemoveEntry` | sys/vm_map.c:89-94 | `nentries` falls by one and the entry's object is freed once; the entry leaves the list and the other entries keep their order; the tree and page table are untouched |
| `VmMapEntries.Delete` | sys/vm_map.c:96-100 | removes the list head `nentries` times, freeing exactly the objects of the first `nentries` entries, in order; on a well-formed map this leaves the list empty and frees every entry's object exactly once |
| `VmMapEntries.AddEntry` | sys/vm_map.c:102-122 | the four assertions are checked in source order and each failure is reported; on success the returned entry is exactly `(start, end, prot, NULL object)`; it is linked, with `nentries` one higher, when its start is new, and otherwise the map is unchanged |
| `VmMapProperties.CoherentInsertDefined` | sys/vm_map.c:68-74 | while the tree and list agree, the tree successor is always a live list entry, so every insertion is defined |
| `VmMapProperties.AddPreservesWf` | sys/vm_map.c:102-122 | adding keeps the map invariant: the list is sorted, its starts are in the tree, the counter equals the length, and every range is aligned and in bounds |
| `VmMapProperties.AddPreservesCoherent` | sys/vm_map.c:102-122 | adding keeps the tree and the list holding the same starts |
| `VmMapProperties.RemovePreservesWf` | sys/vm_map.c:89-94 | removing keeps the map invariant |
| `VmMapProperties.RemoveLeavesStaleStart` | sys/vm_map.c:89-94 | after a removal the tree still holds the removed start but no listed entry has it, so the tree and list disagree |
| `VmMapProperties.FindInNonOverlapping` | sys/vm_map.c:81-87 | among disjoint entries, lookup returns the one entry that contains the address |
| `VmMapProperties.RemoveThenFind` | sys/vm_map.c:81-94 | among disjoint entries, after an entry is removed, no address of its range is found |
| `VmMapProperties.InsertionNonOverlapping` | sys/vm_map.c:72-74 | linking an entry at a slot after every entry that ends by its start, and before every entry that starts after its end, keeps a disjoint list disjoint |
| `VmMapProperties.AddPreservesNonOverlapping` | sys/vm_map.c:102-122 | adding a non-empty range that overlaps nothing to a map of non-empty, disjoint entries keeps the entries disjoint |
| `VmMapProperties.FindAfterDisjointInsertion` | sys/vm_map.c:72-87 | in a disjoint list with a new entry linked, lookup finds the new entry at its addresses and each old entry at its own, and finds nothing elsewhere |
| `VmMapProperties.AddThenFind` | sys/vm_map.c:81-122 | after a disjoint add, lookup finds the new entry in its range, still finds every earlier entry in its range, and finds nothing in the gaps; with `AddPreservesNonOverlapping` this carries over any sequence of disjoint adds |
| `VmMapProperties.FindAfterInsertion` | sys/vm_map.c:72-87 | an entry linked among entries that do not contain the address is what lookup returns, and unlinking it gives back the original list |
| `VmMapProperties.AddFindRemoveRoundTrip` | sys/vm_map.c:81-122 | add a free range, then lookup inside it finds the new entry; removing that entry restores the list and counter, and the same lookup then finds nothing |
| `VmMapProperties.ReAddAfterRemoveNotLinked` | sys/vm_map.c:68-122 | after a removal, adding a range at the removed start returns a new entry but leaves the map unchanged, and the address stays unmapped |
| `VmMapRegistry.Activate` | sys/vm_map.c:13-21 | afterwards `get_user_vm_map` (`UserMap`) returns the given map and the active page table is its `pmap`, or NULL for a NULL map; `get_kernel_vm_map` (`KernelMap`) returns the same map as before |
| `VmMapRegistry.MapByAddr` | sys/vm_map.c:23-33 | the user map wins whenever its range contains the address, even if the kernel range does too; otherwise the kernel map is returned if its range contains the address; the result is NULL exactly when neither range does; a NULL user map never matches (the range test `in_range` is `InRange`) |
| `VmMapRegistry.ActivateThenResolve` | sys/vm_map.c:13-33 | after activating a map, every address in its range resolves to it; other kernel addresses resolve to the kernel map; with a NULL user map only the kernel map can be found |
| `VmMapRegistry.ResolveReadsOnlyBounds` | sys/vm_map.c:23-33 | resolution depends only on the page tables of the user and kernel maps: registries whose maps share page tables resolve every address to maps with the same page table, and to NULL for the same addresses |
| `VmMapRegistry.KernelMapStable` | sys/vm_map.c:13-21 | after any sequence of activations the kernel map is the same, the user map is the last one activated, and the active page table matches it |
| `VmPageFault.PageFault` | sys/vm_map.c:142-173 | the result is unmapped exactly when no entry covers the address, a protection panic exactly when the first covering entry does not permit the access, and a failed object assertion exactly when that entry permits the access but has no object; on success the page is the rounded-down fault address and the offset is page minus entry start (aligned, and within the entry, for an aligned entry); the pager is called exactly when the object has no resident page at that offset; one `pmap_map` is made for `[fault_addr, fault_addr + PAGESIZE)` with the frame's address and the entry's protection |
| `VmPageFault.PageTruncMonotone` | sys/vm_map.c:165-166 | an aligned entry start at or below the fault address is at or below its page, so the offset is never negative |
| `VmPageFault.FaultCheckOrder` | sys/vm_map.c:147-163 | NONE is refused first, whatever the access; a pure write without WRITE and a pure read without READ are refused; every other access type passes; a missing object is reported only after all permission checks pass |
| `VmMapScenarios.ScenarioAddLinks` | sys/vm_map.c:102-122 | adding `[0x2000, 0x4000)` to an empty map over `[0x1000, 0x9000)` returns the entry `(0x2000, 0x4000, READ\|WRITE, NULL)` and a map whose list is exactly that entry, whose tree is `{0x2000}` and whose counter is 1 |
| `VmMapScenarios.ScenarioMap` | sys/vm_map.c:102-122 | the map from that add, with object 7 attached to the linked entry, has one entry and keeps the tree and list in agreement |
| `VmMapScenarios.ScenarioWriteFaults` | sys/vm_map.c:159-172 | faults at `0x2050` and `0x2800` both map page `0x2000` at offset 0, a fault at `0x3800` uses offset `0x1000`, and the install for `0x2050` covers `[0x2050, 0x3050)` |
| `VmMapScenarios.ScenarioUnmapped` | sys/vm_map.c:147-148 | a fault at `0x5000`, where no entry lies, is the unmapped-access panic |
| `VmMapScenarios.ScenarioWriteToReadOnly` | sys/vm_map.c:153-154 | a write at `0x2100` into a read-only entry is the write panic |
| `VmMapScenarios.ScenarioFreshEntryHasNoObject` | sys/vm_map.c:161-163 | an entry straight from `vm_map_add_entry` has no object, so an allowed fault on it ends at the object assertion |

## Left out

- `sys/drv/plic.c`: an interrupt-controller driver. It is register access and device plumbing, and is not part of the map core.
- Splay-tree internals (`SPLAY_GENERATE`): the tree is the set of starts it holds, with successor lookup.
- `EntryCmp`: integers are unbounded. The source returns `a->start - b->start` as an `int`, which can give the wrong sign for starts far apart. That truncation is not modelled.
- Addresses are unbounded. So `fault_addr + PAGESIZE` never wraps. The model also does not wrap an unsigned offset for an unaligned entry start; it gives a negative offset instead. Entries made by `vm_map_add_entry` are always aligned.
- `PAGESIZE` is taken as 4096. Its definition is in a header that is not part of this model.
- `Delete`: requires `nentries <= |list|`. The source dereferences `TAILQ_FIRST` on every iteration, and with fewer entries than the counter says it would dereference NULL. Maps satisfying `Wf` always meet the requirement.
- `vm_map_init` and `vm_map_new`: pool and page-table allocation are not modelled. A new map is `EmptyMap` over given page-table bounds.
- Registry: maps are held by value, not by pointer. A map changed after it was activated, for example by `AddEntry`, is not seen through `UserMap` or `MapByAddr`. Those return the map as it was when it was activated. Resolution reads only the maps' `pmap` bounds (`ResolveReadsOnlyBounds`), and no operation of the model changes a map's `pmap`, so the choice of map is unaffected. A caller that feeds the resolved map to `PageFault` must pass the current map value.
- `cs_enter`/`cs_leave` and `thread_self`: `Activate` is one atomic update, and the registry holds only the calling thread's user map.
- `kfree` of entries and of the map: memory reclamation is not modelled. `Delete` returns the drained map just before it is freed.
- `vm_object_find_page`, `pgr_fault`, `pmap_map`, `pmap_activate`, `vm_object_free`: the first two are function parameters of `PageFault`. The last three are recorded as values: the `PmapMapCall` in the result, the registry's active page table, and the map's freed-object log. A pager that returns NULL is not modelled.
- `PageFault`: only the READ, WRITE and EXEC bits of a protection are modelled.
- `vm_map_protect`: an empty stub with no effect.
- `vm_map_dump` and the `log` call in the fault path: diagnostic output only.
- `InsertEntry`: the case where the tree successor was already unlinked by a removal is undefined behaviour in the source, so `InsertDefined` is a precondition.
