# Proofs about the seL4 user-level libraries

A Dafny model of the parts of these libraries that keep state in place and whose invariants are not visible in any one
function. Each module follows one source file, or one part of it; the header comment of every file names it.

- `LevelIndex`, `PageTables`, `Reservations`, `Unmapping`, `VSpaceManager`, `VSpaceRuns` - the book-keeping of a virtual
  address space. A tree of tables, where a whole subtree can be collapsed to the word Empty or Reserved and is pushed
  down on demand, behaves like one flat map from 4K page to Empty, Reserved or (cap, cookie). A linked list of
  reservations, a first-fit search and a move or resize sit on top. The number of levels and the fan-out are parameters.
- `BuddyForest`, `BuddyLists`, `Buddy`, `BuddyRuns` - the split allocator for untypeds: nodes with parent and sibling
  pointers, three pools of doubly linked free lists, recursive splitting, recursive coalescing, allocation at a physical
  address, and what holds over whole runs.
- `Alignment`, `DeviceMemory` - the client that cuts a device untyped into aligned pieces along the RAM regions, proved
  together with the split allocator it uses.
- `FreeBlocks`, `KRHeap` - the K&R heap: an address-ordered ring of free blocks in raw memory.
- `AllocationManager`, `AllocmanCalls`, `AllocmanResources`, `AllocmanWatermark`, `AllocmanConservation`,
  `AllocmanDrain`, `AllocmanService` - the allocation manager as a machine with an explicit stack of active calls, in
  which the underlying allocators may call back in any way at any time: what never happens, what is conserved, and what
  each call and each refill brings.
- `Threads`, `BinarySemaphore`, `ConditionVariable`, `RecursiveMutex` - the synchronisation primitives: any number of
  threads, interleaved after every access to shared state, over a notification that is one bit.
- `IrqTables` - the two-way tables of IRQs and notifications.
- `Twinkle`, `Slab` - the bump allocator for untypeds, and the slab allocator that relies on its rule.
- `Environment` - the answers to requests for memory, slots and retypes.
- `Arithmetic`, `Options` - facts about quotients, remainders and products; a value that may be missing.

How to read it: a class holds the fields of the source's structure, its `Valid()` is the invariant that every method
keeps, and ghost fields (`items`, `contents`, `forest`, `free`) name the abstract value. What the abstract values promise
is proved in lemmas beside the class. Whether a request for memory, a slot or a retype is granted is a parameter
(`Environment.Answers`), and the code counts its requests. A contract that mentions `oom`, `aborted` or a cause
(`DeviceMemory.Fault`, `Slab.Failure`) says that this happens exactly if one of the requests made was refused
(`Denied`; `UnmapPages` only if), so no operation can fail for any other reason than those its contract names.

Eight places where the code does less than one could expect, each with its exact condition:

- `_refill_pool` never splits a node of size 2^63, although `find_head_for_paddr` may pick its pool
  (`Buddy.TooBigToSplit`). `Buddy.SplitAllocator.Alloc` succeeds exactly if `Servable` holds, and `Buddy.RoomIsServable`
  says when that is just the choice of a pool.
- A reserved subtree that is still collapsed cannot be cleared, and `sel4utils_free_reservation` ignores that. Of a fresh
  range that is reserved and freed again, everything becomes Empty exactly if the range fills no bottom table, that is
  `end < AlignUp(start, FAN) + FAN`; otherwise all pages from `AlignUp(start, FAN)` on stay Reserved, in no reservation
  (`VSpaceManager.VSpace.ReserveThenFree`, and an address space in which it happens in `VSpaceManager.LeavesReserved`).
- `sel4utils_unmap_pages` decides by the first page what all pages become. A range that starts outside every reservation
  and has a page of a reservation given back leaves that reservation with an Empty page; for mapped pages this happens
  exactly if the range meets a reservation (`VSpaceManager.VSpace.UnmapPages`, `VSpaceRuns.UnmapRunsIntoReservation`).
  A range that starts in a reservation and leaves it keeps the invariant, and the pages behind become Reserved.
- `handle_device_untyped_cap` never goes back. RAM is labelled as a device exactly where the first RAM region in the list
  that ends above an address does not contain it; for regions of the untyped that do not overlap, exactly if they are
  not sorted (`DeviceMemory.LabelsDecide`, `DeviceMemory.OrderDecides`, `DeviceMemory.LateRegionIsMissed`).
- `find_free_ntfn_id` masks a word chosen by the number of IRQ ids. It returns the lowest free id exactly if the mask
  spares that one, and an id past `ntfn_table` exactly if it hides all free ones (`IrqTables.FindsLowest`,
  `IrqTables.IrqCookie.ProvideNtfn`). No id is ever hidden exactly if
  `maxNtfns <= 64 * (WordsFor(maxIrqs) - 1) + 4` (`IrqTables.NoNtfnIsHidden`); `IrqTables.OverrunHappens` runs into the
  other case.
- A refill that takes a deferred free from the queue of the loop it is in serves it exactly if that space permits a free
  on top of what is active; otherwise it never ends (`AllocmanDrain.HangsIff`). This can happen exactly if some space may
  queue a free and does not allow frees inside both its own alloc and its own free (`AllocmanDrain.CanHangIff`); in the
  runs that show it `allocman_fill_reserves` is called from inside one of them. A refill at the end of a root operation
  always serves it (`AllocmanDrain.RootRefillServes`).
- `find_range` returns the address it found, and NULL if it found none. A search that starts at page 0 and fits there
  therefore looks like a failure, although `last_allocated` has moved on (`VSpaceManager.VSpace.FindRange`).
- `sync_cv_wait` clears `broadcasting`. A broadcast reaches all waiters if no thread enters wait before that
  (`ConditionVariable.BroadcastReachesAll`); a step stops it with waiters left exactly if it is that step of a new waiter
  (`ConditionVariable.BroadcastStops`).

## Model

| member | source | states |
|---|---|---|
| `LevelIndex.EntryBlock` | libsel4utils/include/sel4utils/vspace_internal.h:21-28 | two pages of a table select the same entry exactly if they lie in the same aligned block of that level, for any fan-out and any level |
| `PageTables.BottomLevel.Reserve` | libsel4utils/include/sel4utils/vspace_internal.h:61-79 | reserving a range of a bottom table reserves exactly the pages before the first one that may not be reserved, and fails exactly if there is one |
| `PageTables.BottomLevel.Clear` | libsel4utils/include/sel4utils/vspace_internal.h:138-152 | the same for clearing: it stops at the first page that may not be cleared |
| `PageTables.MidLevel.Expand` | libsel4utils/include/sel4utils/vspace_internal.h:91-121 | pushing a collapsed Empty or Reserved word down into a new table leaves the page map as it is; without memory nothing changes |
| `PageTables.MidLevel.Reserve` | libsel4utils/include/sel4utils/vspace_internal.h:81-136 | on the page map a reservation through all levels is the reservation of the pages of the range up to the first one that stops it, whether subtrees are collapsed, expanded or pushed down; every other page stays. If it succeeds, a page has a word of its own in a bottom table exactly if it had one or its bottom table lies across an end of the range; a range of whole words of the table never needs memory |
| `PageTables.MidLevel.Update` | libsel4utils/include/sel4utils/vspace_internal.h:205-244 | recording a frame changes exactly the pages of the range up to the first occupied one |
| `PageTables.MidLevel.Clear` | libsel4utils/include/sel4utils/vspace_internal.h:154-186 | clearing changes exactly a prefix of the range, and it stops early exactly at a page without a word of its own that is Reserved, or at one the caller may not clear |
| `PageTables.MidLevel.IsReservedOrEmpty` | libsel4utils/include/sel4utils/vspace_internal.h:260-291 | the query is true if and only if every page of the range has the given word |
| `PageTables.MidLevel.GetPage` | libsel4utils/include/sel4utils/vspace_internal.h:371-407 | the walk returns the word and the cookie of a page that has its own word, and nothing for a page inside a collapsed subtree |
| `PageTables.MidLevel.HeldOrCollapsed` | libsel4utils/include/sel4utils/vspace_internal.h:371-388 | a page that holds a cap has its own word in a bottom table |
| `Reservations.ReservationList.Insert` | libsel4utils/src/vspace/vspace.c:59-91 | inserting keeps the linked list and puts the reservation in front of the first one that starts below it |
| `Reservations.ReservationList.Remove` | libsel4utils/src/vspace/vspace.c:93-119 | removing takes exactly that reservation out and leaves the order of the others |
| `Reservations.ReservationList.Find` | libsel4utils/src/vspace/vspace.c:230-244 | find_reserve returns a listed reservation that contains the page, and NULL only if none does |
| `Reservations.FindIsUnique` | libsel4utils/src/vspace/vspace.c:230-244 | in a list sorted by descending start without overlap at most one reservation contains a page |
| `Reservations.InsertKeepsSorted` | libsel4utils/src/vspace/vspace.c:59-91 | a reservation that overlaps no other keeps the list sorted and disjoint at its place |
| `VSpaceManager.VSpace.ReserveEntries` | libsel4utils/include/sel4utils/vspace_internal.h:302-313 | page map after reserve_entries_range: Reserved up to the first obstacle, unchanged elsewhere; keeps the invariant of the whole manager |
| `VSpaceManager.VSpace.UpdateEntries` | libsel4utils/include/sel4utils/vspace_internal.h:294-300 | page map after update_entries |
| `VSpaceManager.VSpace.ClearEntries` | libsel4utils/include/sel4utils/vspace_internal.h:315-335 | page map after clear_entries_range, when it covers the whole range, and how last_allocated moves down |
| `VSpaceManager.VSpace.IsAvailable` | libsel4utils/include/sel4utils/vspace_internal.h:351-359 | true if and only if every page of the range is Empty |
| `VSpaceManager.VSpace.IsReserved` | libsel4utils/include/sel4utils/vspace_internal.h:361-369 | true if and only if every page of the range is Reserved |
| `VSpaceManager.VSpace.FindRange` | libsel4utils/src/vspace/vspace.c:246-280 | first fit: the range found is Empty, aligned, above last_allocated, no aligned range before it fits, and last_allocated becomes its end; the answer is 0 exactly if no aligned range fits below the kernel, or the search starts at page 0 and the range fits there |
| `VSpaceManager.VSpace.EmptyRangeIsUnreserved` | libsel4utils/src/vspace/vspace.c:246-280 | a range of Empty pages meets no listed reservation, so a range that find_range returns never does |
| `VSpaceManager.VSpace.PerformReservation` | libsel4utils/src/vspace/vspace.c:121-140 | pages of the range become Reserved, all others stay, the reservation is listed at its place, and the reservations stay disjoint, sorted and free of Empty pages |
| `VSpaceManager.VSpace.ReserveRangeAt` | libsel4utils/src/vspace/vspace.c:590-602 | an assertion fails exactly if memory for a table was refused, which takes a range that cuts a word; otherwise it succeeds exactly if the range is Empty, and changes nothing if it is not |
| `VSpaceManager.VSpace.ReserveRange` | libsel4utils/src/vspace/vspace.c:535-557 | finds the first Empty aligned range below the kernel, reserves and lists exactly it, and the next search begins behind it; an assertion fails exactly if memory for a table was refused, -1 is returned exactly if find_range finds nothing |
| `VSpaceManager.VSpace.FreeReservation` | libsel4utils/src/vspace/vspace.c:636-646 | the reservation leaves the list; its pages become Empty up to the first one that cannot be cleared, so all of them exactly if each has its own word and is Reserved; only then the next search may begin at its start |
| `VSpaceManager.VSpace.ReserveThenFree` | libsel4utils/src/vspace/vspace.c:590-646 | a range no page of which has a word of its own, reserved and freed again: the freeing stops exactly at the first bottom table that the range fills, so it is complete exactly if the range fills none; from there on the pages stay Reserved and belong to no reservation |
| `VSpaceManager.FilledStops` | libsel4utils/include/sel4utils/vspace_internal.h:81-136 | the range cuts the bottom table of every page before the first bottom table that it fills, and does not cut that one |
| `VSpaceManager.LeavesReserved` | libsel4utils/src/vspace/vspace.c:590-646 | a new address space in which reserving and freeing one bottom table's worth of pages leaves all of them Reserved with no reservation listed |
| `VSpaceManager.VSpace.MapPagesAt` | libsel4utils/src/vspace/vspace.c:282-387 | for a reservation of the right kind whose pages are all still Reserved, every frame up to the first one that the kernel refuses is recorded and its error is returned, unless memory for a table was refused, which takes a page without a word of its own; in every other case -1 and nothing changes; page p gets the cap and cookie of the frame that covers it |
| `VSpaceManager.FrameOf` | libsel4utils/src/vspace/vspace.c:282-298 | page i of the request covers exactly the 4K pages from start + i * size on |
| `VSpaceManager.VSpace.UnmapPages` | libsel4utils/src/vspace/vspace.c:435-483 | for any range: which pages are given back, Reserved if the first page lies in a reservation and else Empty; an assertion of the source fails exactly at the first page whose cap does not change; the invariant survives exactly if the first page lies in a reservation or no page given back does; if all pages are mapped no assertion fails, all are given back, and it survives exactly if the first page lies in a reservation or the range meets none |
| `Unmapping.UnmappedMore` | libsel4utils/src/vspace/vspace.c:452-482 | one more page of any size: the pages up to the first one that stops it are given back, and the assertions made before still stand for the pages they were made for |
| `Unmapping.MappedIsUnmapped` | libsel4utils/src/vspace/vspace.c:452-482 | mapped pages are all given back, and the assertions about them hold |
| `Unmapping.NoneLost` | libsel4utils/src/vspace/vspace.c:473-477 | a reservation without Empty pages stays so exactly if the first page lies in a reservation or none of its pages is given back |
| `VSpaceRuns.UnmapRunsIntoReservation` | libsel4utils/src/vspace/vspace.c:435-483 | a new address space in which unmapping two mapped pages, the second one alone in a reservation, leaves that reservation with an Empty page |
| `VSpaceManager.VSpace.GetCap` | libsel4utils/src/vspace/vspace.c:418-427 | the cap mapped at the page, and 0 for an Empty or Reserved page |
| `VSpaceManager.VSpace.MoveResize` | libsel4utils/src/vspace/vspace.c:656-716 | fails exactly if a new page is not Empty; an assertion fails exactly if memory for a table was refused, which takes a new page without a word of its own, so a shrink never gets there; otherwise mapped pages keep their caps, every new page is Reserved, released Reserved pages with their own word become Empty, the next search begins at the least of them if that is lower than before, and the reservation is listed with its new bounds |
| `VSpaceManager.VSpace.NewRangeIsSpared` | libsel4utils/src/vspace/vspace.c:656-690 | the availability checks of a move keep the new range clear of every other reservation |
| `VSpaceManager.VSpace.Relist` | libsel4utils/src/vspace/vspace.c:703-713 | after a move the list is sorted and disjoint whether or not the reservation was listed anew |
| `VSpaceManager.AlignUpIsLeast` | libsel4utils/src/vspace/vspace.c:246-280 | the start of the search is rounded up to the least aligned page |
| `BuddyLists.FreeLists.Insert` | libsel4allocman/src/utspace/split.c:30-40 | _insert_node puts the node in front of its list: a doubly linked list stays one, and no other list changes |
| `BuddyLists.FreeLists.Remove` | libsel4allocman/src/utspace/split.c:16-28 | _remove_node takes the node out of the middle or the front of its list, keeps all lists doubly linked, and notes the list in head |
| `BuddyForest.Forest.SplitIsValid` | libsel4allocman/src/utspace/split.c:189-213 | splitting keeps every node aligned to its size, with the two halves as parent, sibling and address say |
| `BuddyForest.Forest.MergeIsValid` | libsel4allocman/src/utspace/split.c:321-339 | rejoining two halves keeps the forest well formed |
| `BuddyForest.Forest.LeavesTileRoots` | libsel4allocman/src/utspace/split.c:123-217 | the free and the handed-out nodes with known addresses cover exactly the untypeds that were added, and never two of them one address |
| `BuddyForest.Forest.SomeLeafCovers` | libsel4allocman/src/utspace/split.c:123-217 | every address of a node lies in an unsplit node below it |
| `BuddyForest.Forest.OnlyOneLeafCovers` | libsel4allocman/src/utspace/split.c:123-217 | and in only one |
| `BuddyForest.Forest.SplitNodeHasUser` | libsel4allocman/src/utspace/split.c:199-216 | if no two halves of a node are both free, a node is split only because something below it is handed out |
| `BuddyForest.Forest.EverythingFreed` | libsel4allocman/src/utspace/split.c:305-339 | full coalescing: with everything given back, in whatever order, only the untypeds that were added exist and all are free |
| `BuddyForest.Forest.HandedOutDecides` | libsel4allocman/src/utspace/split.c:123-339 | a coalesced allocator is determined by its untypeds and by what is handed out |
| `BuddyForest.Forest.ReleaseFacts` | libsel4allocman/src/utspace/split.c:321-339 | the recursive free hands back that node and no other, and drops no untyped |
| `BuddyForest.Forest.ReleaseKeepsCoalesced` | libsel4allocman/src/utspace/split.c:321-339 | after the recursive free no two halves of a node are both free |
| `BuddyForest.Forest.AddRootKeeps` | libsel4allocman/src/utspace/split.c:67-121 | an added untyped that overlaps no other keeps the forest coalesced and the untypeds apart |
| `Buddy.SplitAllocator.AddUntypeds` | libsel4allocman/src/utspace/split.c:94-121 | the untypeds become roots of their pool; an unknown type adds nothing; it fails exactly if a request for memory was refused, and then a prefix has been added |
| `Buddy.SplitAllocator.Refill` | libsel4allocman/src/utspace/split.c:123-217 | _refill_pool succeeds only if some node from the requested size up matches, then the list has a match; without a refused request it fails exactly if none does, with nothing changed; only nodes that match the address are split, and only the new pair on the list can be free together; without an address the list then begins with its old first node or, if it was empty, with the lower half of what serves the next size |
| `Buddy.SplitAllocator.FindHead` | libsel4allocman/src/utspace/split.c:219-236 | a pool is chosen if and only if one of its free nodes has room for the whole block at the address |
| `Buddy.SplitAllocator.FindExact` | libsel4allocman/src/utspace/split.c:260-266 | the node that starts at the address is on the list after a refill: the assertion of the source holds |
| `Buddy.SplitAllocator.Alloc` | libsel4allocman/src/utspace/split.c:238-319 | the node handed out has the requested size, the requested address and comes from the first pool in the order of the source; without an address it is the first node of its list, or if the list was empty the lower half of what serves the next size; unless a request for memory or a retype was refused it fails exactly if the request cannot be served; it keeps the allocator coalesced |
| `Buddy.SplitAllocator.Free` | libsel4allocman/src/utspace/split.c:321-339 | _utspace_split_free, on the linked lists and the nodes, does what the recursive merge says |
| `Buddy.RoomIsServable` | libsel4allocman/src/utspace/split.c:219-280 | while no free node is too big to be split, a pool that find_head_for_paddr returns can always serve the request |
| `Buddy.TooBigToSplit` | libsel4allocman/src/utspace/split.c:146-151 | a node of 2^63 bytes is chosen by find_head_for_paddr but never split, so the request fails |
| `Buddy.ExactMatch` | libsel4allocman/src/utspace/split.c:260-266 | an aligned address inside a node of the requested size is its start |
| `Buddy.TakeKeepsCoalesced` | libsel4allocman/src/utspace/split.c:123-319 | the splits of one request leave no pair of free halves once its node is handed out |
| `Buddy.AllocThenFree` | libsel4allocman/src/utspace/split.c:238-339 | giving back what was just allocated restores the allocator exactly |
| `BuddyRuns.RunStaysGood` | libsel4allocman/src/utspace/split.c:94-339 | after any run of adding untypeds, getting and giving back: well formed, coalesced, roots are exactly the untypeds that were added, and handed out is exactly what was got and not given back |
| `BuddyRuns.RunTiles` | libsel4allocman/src/utspace/split.c:94-339 | and free and handed-out nodes tile the untypeds that were added |
| `BuddyRuns.RunEndsCoalesced` | libsel4allocman/src/utspace/split.c:305-339 | and once everything was given back, in any order, the allocator holds exactly the untypeds that were added, all of them free |
| `BuddyRuns.Serve` | libsel4allocman/src/utspace/split.c:94-339 | whatever an allocator is asked for, what it does is such a run, until memory or a retype for a request is refused; if the caller holds nothing at the end, the allocator is exactly the added untypeds, all free and unsplit |
| `Alignment.NextPieceIsBiggest` | libsel4allocman/src/bootstrap.c:1011-1027 | the piece is the biggest power of two that is aligned at base, within the limit and does not pass the goal |
| `Alignment.CtzDecides` | libsel4allocman/src/bootstrap.c:1011-1016 | a number is a multiple of exactly the powers of two up to its trailing zeros |
| `Alignment.PiecesReachGoal` | libsel4allocman/src/bootstrap.c:1011-1027 | repeating the choice reaches the goal exactly |
| `Alignment.PiecesRiseAndFall` | libsel4allocman/src/bootstrap.c:1011-1027 | if the goal is at most 2^limit away the sizes strictly increase and then strictly decrease |
| `Alignment.NoSizeThrice` | libsel4allocman/src/bootstrap.c:1011-1027 | so no size is used three times |
| `DeviceMemory.BlockAtCur` | libsel4allocman/src/bootstrap.c:1035-1050 | what is left of the untyped always has a free buddy block with room for an aligned piece at the current address |
| `DeviceMemory.StepRemaining` | libsel4allocman/src/bootstrap.c:1035-1050 | after the piece is taken, exactly the rest of the untyped is free again |
| `DeviceMemory.PerformSubAllocation` | libsel4allocman/src/bootstrap.c:1035-1050 | the piece has the size that get_next_alignment_bits chooses; the sub-allocation fails exactly if a slot, the piece's deposit, memory for a node or a retype was refused, never because no node is there; what is left of the untyped stays free |
| `DeviceMemory.CutRegion` | libsel4allocman/src/bootstrap.c:1080-1104 | the pieces for one RAM region; a failure exactly if a request was refused |
| `DeviceMemory.HandleDeviceUntyped` | libsel4allocman/src/bootstrap.c:1065-1119 | an abort exactly if a request was refused, never for want of a node; otherwise the pieces follow one another from the start to the end of the untyped; each is aligned, ends no later than its goal, and is as big as the limit allows (the goal is the end of the region it lies in or the start of the next one, or the end of the untyped); every DEV_MEM piece lies in a RAM region; for regions in any order an address is labelled DEV_MEM exactly if the first RAM region in the list that ends above it contains it, so with sorted regions all RAM is; the sub-allocator ends up empty, ready for the next untyped |
| `DeviceMemory.LeadsToGoal` | libsel4allocman/src/bootstrap.c:1065-1119 | from each piece on the pieces have exactly the sizes that lead from its base to its goal, where one of them ends; so up to there none of the sizes occurs three times |
| `DeviceMemory.GoalStays` | libsel4allocman/src/bootstrap.c:1080-1098 | the goal of every address up to the goal is the same |
| `DeviceMemory.LabelsDecide` | libsel4allocman/src/bootstrap.c:1075-1106 | all RAM of the untyped is labelled DEV_MEM if and only if each of its addresses lies in the first RAM region in the list that ends above it |
| `DeviceMemory.OrderDecides` | libsel4allocman/src/bootstrap.c:1075-1106 | for RAM regions in the untyped that do not overlap this is so if and only if they are sorted |
| `DeviceMemory.LateRegionIsMissed` | libsel4allocman/src/bootstrap.c:1065-1119 | two regions in the wrong order: the RAM of the second one is labelled DEV |
| `DeviceMemory.TilesCover` | libsel4allocman/src/bootstrap.c:1065-1119 | pieces that follow one another cover every address exactly once |
| `FreeBlocks.FreeUnitsDecide` | libsel4allocman/src/mspace/k_r_malloc.c:55-85 | the free list is determined by the set of free units |
| `FreeBlocks.UnitsCount` | libsel4allocman/src/mspace/k_r_malloc.c:55-85 | the sizes of the free blocks add up to the number of free units |
| `FreeBlocks.InsertedIsOrdered` | libsel4allocman/src/mspace/k_r_malloc.c:63-83 | inserting a block with its joins keeps the list ordered and never leaves two adjacent blocks |
| `FreeBlocks.InsertedUnits` | libsel4allocman/src/mspace/k_r_malloc.c:63-83 | exactly the units of the block become free |
| `KRHeap.RelinkedIsRing` | libsel4allocman/src/mspace/k_r_malloc.c:69-81 | the pointer updates of free turn the ring of the old list into the ring of the new one, whichever neighbours are joined and wherever the ring wraps |
| `KRHeap.UnitsSuffice` | libsel4allocman/src/mspace/k_r_malloc.c:25 | behind the header there is room for the bytes asked for, with less than one unit to spare |
| `KRHeap.Heap.FindPlace` | libsel4allocman/src/mspace/k_r_malloc.c:64-67 | the search of free ends at the block behind which the address belongs |
| `KRHeap.Heap.Free` | libsel4allocman/src/mspace/k_r_malloc.c:55-85 | the block leaves the live ones, exactly its units become free, the free list is again one address-ordered cycle without adjacent blocks, and freep is left at the block in front of the freed one |
| `KRHeap.Heap.Alloc` | libsel4allocman/src/mspace/k_r_malloc.c:21-53 | next fit: without morecore the block is the tail of the first block after freep that is big enough, and freep is left at the block in front of it; with morecore its units are first put on the list as free does and the search goes on from there; morecore is asked exactly if no block fits, at most once; NULL exactly if it was asked and failed; the search ends |
| `KRHeap.UnitsAreConserved` | libsel4allocman/src/mspace/k_r_malloc.c:21-85 | free and live sizes add up to the units obtained from morecore |
| `KRHeap.AllocThenFree` | libsel4allocman/src/mspace/k_r_malloc.c:21-85 | free undoes alloc: the free list is the one from before |
| `KRHeap.Heap.AllocAndFree` | libsel4allocman/src/mspace/k_r_malloc.c:21-85 | the two calls in turn: unless morecore added units, the free list and the pointers and sizes of its ring are as before; live blocks always are |
| `KRHeap.RingIsDetermined` | libsel4allocman/src/mspace/k_r_malloc.c:21-85 | and with it the pointers of the ring |
| `AllocmanCalls.CallsApply` | libsel4allocman/src/allocman.c:34-49 | every step keeps: the depth counters count the active calls, each of them was permitted when it started, and a root operation starts only when none is active |
| `AllocmanCalls.NeverReentered` | libsel4allocman/src/allocman.c:18-32 | with the default properties at most one call into a space's allocator is on the stack |
| `AllocmanCalls.FreeNeverNested` | libsel4allocman/src/allocman.c:18-32 | an allocator that does not declare free_can_free never has two frees active |
| `AllocmanCalls.RootRefillIsAlone` | libsel4allocman/src/allocman.c:41-49 | a refill at the end of a root operation, or of allocman_fill_reserves called outside every operation, has no active allocator below it |
| `AllocmanResources.CopiesApply` | libsel4allocman/src/allocman.c:95-320 | a step brings in a resource only when an underlying alloc succeeds; otherwise resources only move |
| `AllocmanResources.StaysExclusive` | libsel4allocman/src/allocman.c:124-177 | no resource is ever in two places |
| `AllocmanResources.ReservedIsNotHandedOut` | libsel4allocman/src/allocman.c:124-177 | what is in a reserve is neither with a client nor queued to be freed |
| `AllocmanConservation.StaysPolite` | libsel4allocman/src/allocman.c:95-320 | what a call returns always reaches a caller that takes it |
| `AllocmanConservation.NothingIsLost` | libsel4allocman/src/allocman.c:51-432 | exact accounting of every step, for every resource: what a successful underlying alloc brings in is there, and at most one copy goes, that of the one resource the step passes to ALLOCMAN_FREE, and this exactly if it is not put on the queue |
| `AllocmanConservation.NothingIsEverLost` | libsel4allocman/src/allocman.c:51-432 | so in every step from every reachable state; a resource that goes has its underlying free running on top, or its queue was full |
| `AllocmanWatermark.WatermarkApply` | libsel4allocman/src/allocman.c:338-432 | every step keeps: reserves stay at or below their level, one refill at most, and what it has seen to be full is full |
| `AllocmanWatermark.RefillEnds` | libsel4allocman/src/allocman.c:427-431 | the flag is cleared only after a round that found every reserve full |
| `AllocmanWatermark.AlwaysInv` | libsel4allocman/src/allocman.c:18-432 | all invariants hold in every reachable state, whatever the allocators and the clients do |
| `AllocmanWatermark.FlagIsSound` | libsel4allocman/src/allocman.c:338-432 | in every reachable state outside a refill a cleared flag means full reserves; levels are never exceeded; a refill is in one of four rounds |
| `AllocmanWatermark.AtMostOneActivation` | libsel4allocman/src/allocman.c:18-32 | in every reachable state an allocator with default properties is active at most once |
| `AllocmanDrain.AlwaysFit` | libsel4allocman/src/allocman.c:51-86 | in every reachable state the queues of deferred frees are within their bounds and hold resources of their own space |
| `AllocmanDrain.DrainServes` | libsel4allocman/src/allocman.c:362-376 | a refill that takes a deferred free from the queue of the loop it is in gets it served if and only if the depth counters of that space permit a free; otherwise the resource goes back on the queue, and two steps later the refill is where it was |
| `AllocmanDrain.HangsIff` | libsel4allocman/src/allocman.c:362-376 | in every reachable state in which a refill is in one of its three loops with something in the queue of that loop: no client and no allocator ever runs again if and only if that space does not permit the free |
| `AllocmanDrain.RootRefillServes` | libsel4allocman/src/allocman.c:41-49 | a refill at the end of a root operation always gets the deferred free of its loop served |
| `AllocmanDrain.CanHangIff` | libsel4allocman/src/allocman.c:444-455 | a refill that hangs is reachable if and only if some space has room to queue a free and does not declare both alloc_can_free and free_can_free |
| `AllocmanService.RefusedAllocIsServed` | libsel4allocman/src/allocman.c:179-194 | an allocation that its allocator must not be asked for: the first reserve for such objects that has any gives its last entry, its stock shrinks by it and the flag is set; an object's capability is moved and its slot given back; NULL if an address is asked for |
| `AllocmanService.FailedAllocIsServed` | libsel4allocman/src/allocman.c:195-226 | the same for an allocation that the underlying allocator fails to serve, unless an address is asked for or the caller is the refill of that reserve; then the operation ends, and a refill follows if it was the root |
| `AllocmanService.NothingIffEmpty` | libsel4allocman/src/allocman.c:124-177 | such a request gets nothing if and only if all reserves for it are empty, or the capability of the object it would get cannot be moved; what it gets is the last entry of the first one that is not empty |
| `AllocmanService.SwappedIsDelivered` | libsel4allocman/src/allocman.c:160-177 | the object taken from a reserve reaches the caller once its slot has been given back |
| `AllocmanService.ReserveBrings` | libsel4allocman/src/allocman.c:187-194 | a whole nested call: the client has the last entry of the reserve, the reserve is one shorter, the flag is set, and nothing else changed |
| `AllocmanService.AllocBrings` | libsel4allocman/src/allocman.c:228-252 | a whole call whose underlying alloc succeeds: the client has the resource and nothing else changed |
| `AllocmanService.FreeTakes` | libsel4allocman/src/allocman.c:95-107 | a whole permitted free: the client no longer has the resource and nothing else changed |
| `AllocmanService.FreeGivesBack` | libsel4allocman/src/allocman.c:51-107 | every free enters the underlying free if it is permitted, and otherwise puts the resource at the end of its queue, unless that is full |
| `AllocmanService.SuccessIsAnswered` | libsel4allocman/src/allocman.c:41-49 | a root operation after which the flag is set is followed by a refill before it returns, unless one is running |
| `AllocmanService.FillStartsRefill` | libsel4allocman/src/allocman.c:445-455 | allocman_fill_reserves sets the flag and starts a refill unless one is running |
| `AllocmanService.AsksWhenLacking` | libsel4allocman/src/allocman.c:377-419 | at a reserve below its level the refill asks for what it lacks: a slot or memory directly, an object only after a slot for it |
| `AllocmanService.RootRefillBeginsAlone` | libsel4allocman/src/allocman.c:41-49 | every refill that follows a root operation begins with no allocator active |
| `AllocmanService.RefillRestores` | libsel4allocman/src/allocman.c:338-432 | such a refill, with nothing waiting to be freed and with allocators that serve every request and do not call back, ends, whatever they bring; each reserve below its level has then four entries more or is full, no other has changed, and the flag is cleared exactly if none lacked more than three |
| `BinarySemaphore.StepInv` | libsel4sync/include/sync/bin_sem_bare.h:20-47 | every step of every thread keeps the one token (a holder, a poster about to signal, the pending signal or the value 1) and the value is 1 minus holders minus waiters |
| `BinarySemaphore.AlwaysInv` | libsel4sync/include/sync/bin_sem_bare.h:20-47 | so in every reachable state |
| `BinarySemaphore.MutualExclusion` | libsel4sync/include/sync/mutex.h:19-35 | no two threads hold the mutex |
| `BinarySemaphore.WakeupIsComing` | libsel4sync/include/sync/bin_sem_bare.h:27-45 | while a thread waits there is a holder, a pending signal or a signal about to be sent |
| `BinarySemaphore.SignalsDoNotMerge` | libsel4sync/include/sync/bin_sem_bare.h:41-45 | no signal is pending when a poster is about to send one |
| `BinarySemaphore.PostAssertion` | libsel4sync/include/sync/bin_sem_bare.h:42 | the assertion of post reads the value again; in every reachable state it holds |
| `BinarySemaphore.DecrementSucceeds` | libsel4sync/include/sync/bin_sem_bare.h:20-26 | with at most 2^31 threads wait never fails: the caller holds the semaphore or waits for it |
| `BinarySemaphore.WaitTakesOrBlocks` | libsel4sync/include/sync/bin_sem_bare.h:20-35 | wait takes the semaphore exactly if no thread holds it or waits for it and queues up otherwise; it returns -1, with nothing changed, exactly if 2^31 + 1 threads hold it or wait for it |
| `BinarySemaphore.PostHandsOver` | libsel4sync/include/sync/bin_sem_bare.h:36-47 | post without waiters leaves the semaphore free; with waiters a signal is pending, and whichever waiter receives it holds the semaphore |
| `BinarySemaphore.WaiterGetsIn` | libsel4sync/include/sync/bin_sem_bare.h:20-47 | in every reachable state a waiter is at most four steps from holding the semaphore, none of them a new wait |
| `ConditionVariable.StepInv` | libsel4sync/include/sync/condition_var.h:55-159 | every step of every thread, in the functions here and in the lock, keeps the invariant of the monitor |
| `ConditionVariable.BatonKept` | libsel4sync/include/sync/condition_var.h:55-159 | the baton of a broadcast is never dropped by a step |
| `ConditionVariable.BroadcastNeverStalls` | libsel4sync/include/sync/condition_var.h:55-159 | in every reachable state: a broadcast with waiters left has a pending notification, a woken waiter or a thread about to signal; waiters counts the threads between increment and decrement; at most one thread is inside |
| `ConditionVariable.BroadcastReachesAll` | libsel4sync/include/sync/condition_var.h:55-159 | in every run after a broadcast in which no thread enters wait: either no waiters are left, or the broadcast goes on and its baton is there |
| `ConditionVariable.BroadcastStops` | libsel4sync/include/sync/condition_var.h:63-65 | a step stops a broadcast that has waiters left if and only if it is the step of a new waiter that clears broadcasting |
| `ConditionVariable.SignalSends` | libsel4sync/include/sync/condition_var.h:100-110 | signal sends exactly if there are waiters |
| `ConditionVariable.BroadcastSends` | libsel4sync/include/sync/condition_var.h:117-130 | broadcast sets broadcasting and sends exactly if there are waiters |
| `ConditionVariable.ReleaseSends` | libsel4sync/include/sync/condition_var.h:139-159 | with waiters the releasing form sets broadcasting before it gives up the lock and sends afterwards |
| `ConditionVariable.WokenPassesOn` | libsel4sync/include/sync/condition_var.h:79-92 | a woken waiter that has the lock passes a broadcast on while there are more, ends it if it was the last, and sends nothing without a broadcast |
| `ConditionVariable.WaitBlocks` | libsel4sync/include/sync/condition_var.h:62-72 | waiting counts the caller, stops a broadcast, and leaves the lock free or signalled to those that wait for it before it blocks |
| `ConditionVariable.WaitReturns` | libsel4sync/include/sync/condition_var.h:71-81 | a blocked waiter that finds a signal and the lock free returns with the lock |
| `RecursiveMutex.StepInv` | libsel4sync/src/recursive_mutex.c:23-83 | every step keeps the one token, and no assertion of the source fails |
| `RecursiveMutex.OwnerIsTheHolder` | libsel4sync/src/recursive_mutex.c:43-83 | in every reachable state at most one thread has an unfinished outermost lock, owner is that thread and held its nesting depth; the unprotected test in lock is right |
| `RecursiveMutex.LockFailsOnlyAtTheLimit` | libsel4sync/src/recursive_mutex.c:59-64 | in every reachable state the lock of a thread fails if and only if its nesting depth is UINT_MAX, and changes nothing then; otherwise it owns the mutex with depth and held one higher |
| `RecursiveMutex.LockAgain` | libsel4sync/src/recursive_mutex.c:49-66 | the owner locks again without waiting |
| `RecursiveMutex.LockFirst` | libsel4sync/src/recursive_mutex.c:49-66 | the outermost lock takes the signal and owns the mutex once |
| `RecursiveMutex.UnlockUndoesOne` | libsel4sync/src/recursive_mutex.c:68-83 | an inner unlock keeps the mutex with one less, the outermost one gives it up and signals |
| `RecursiveMutex.OthersStayOut` | libsel4sync/src/recursive_mutex.c:43-83 | no step of another thread changes owner, held or the signal while a thread has the mutex |
| `RecursiveMutex.WaiterGetsIn` | libsel4sync/src/recursive_mutex.c:43-83 | in every reachable state a thread that waits for the mutex gets it after steps of which none is a new lock: the thread that has it only needs to unlock as often as it locked |
| `IrqTables.BitIsTakenByOneIrq` | libsel4platsupport/src/irq.c:209-282 | bit b of a notification's status is set if and only if exactly one IRQ in use is paired with it there |
| `IrqTables.BindKeepsIndex` | libsel4platsupport/src/irq.c:268-279 | pairing keeps the two-way index and the popcount |
| `IrqTables.UnbindKeepsIndex` | libsel4platsupport/src/irq.c:456-460 | unpairing keeps them too |
| `IrqTables.DetachKeepsIndex` | libsel4platsupport/src/irq.c:685-709 | so does returning a notification with all its IRQs |
| `IrqTables.FindFree` | libsel4platsupport/src/irq.c:151-195 | for all words: the least id whose bit is not set and not masked away, and -1 if there is none |
| `IrqTables.FindsLowest` | libsel4platsupport/src/irq.c:151-195 | in every state with a free id something is returned; it is the lowest free id if and only if the mask spares that one, and past the table if and only if the mask spares no free id |
| `IrqTables.NoIrqIsHidden` | libsel4platsupport/src/irq.c:151-172 | the mask of find_free_irq_id hides no id, so IRQ ids are always the lowest free ones |
| `IrqTables.WordsSuffice` | libsel4platsupport/src/irq.c:350 | the word that gets masked lies behind all ids |
| `IrqTables.NoNtfnIsHidden` | libsel4platsupport/src/irq.c:174-195 | the mask of find_free_ntfn_id hides no notification id if and only if at most 4 of them lie in the last word of the bitfield for the IRQ ids or behind it |
| `IrqTables.LastIdsAreHidden` | libsel4platsupport/src/irq.c:174-195 | with 1 IRQ id and 456, 464, ... or 512 notification ids every id from 448 on is hidden |
| `IrqTables.OverrunHappens` | libsel4platsupport/src/irq.c:605-630 | such an interface hands out 448 ids, and the next id it returns lies past its table |
| `IrqTables.OverrunByOne` | libsel4platsupport/src/irq.c:174-195 | with 456 notification ids of which 448 are in use the id returned is 456 |
| `IrqTables.IrqCookie.Register` | libsel4platsupport/src/irq.c:284-326 | gives the lowest free id; fails exactly if all are in use, there is no callback or the kernel refuses |
| `IrqTables.IrqCookie.Unregister` | libsel4platsupport/src/irq.c:428-477 | the entry is reset and its bit at the notification is free again |
| `IrqTables.IrqCookie.SetNtfn` | libsel4platsupport/src/irq.c:209-282 | pairs with the lowest usable free bit; each error exactly in its case, with nothing changed |
| `IrqTables.IrqCookie.UnsetNtfn` | libsel4platsupport/src/irq.c:742-793 | undoes a pairing |
| `IrqTables.IrqCookie.ProvideNtfn` | libsel4platsupport/src/irq.c:605-630 | for all numbers of ids: gives the lowest free notification id exactly if the mask spares it; the id lies past the table exactly if the mask hides all free ids; otherwise it is a free one and its entry has no bit taken |
| `IrqTables.IrqCookie.ReturnNtfn` | libsel4platsupport/src/irq.c:659-714 | every IRQ paired with the notification is unpaired, no other one |
| `Twinkle.RoundUpIsLeast` | libsel4allocman/src/utspace/twinkle.c:15-22 | rounding up gives the least aligned offset |
| `Twinkle.Allocator.Alloc` | libsel4allocman/src/utspace/twinkle.c:58-110 | the first untyped that fits decides the run of equal sizes, and in it the one that wastes least is used; fails exactly if none fits or the request or kernel refuses; leaves the error unset exactly if an address is asked for |
| `Slab.CalculateTotalSize` | libsel4utils/src/slab.c:109-122 | the sum of the sizes, and 0 if a kind that is asked for has no size |
| `Slab.SumOfPermutation` | libsel4utils/src/slab.c:208-215 | sorting does not change the total |
| `Slab.NoPadding` | libsel4allocman/src/utspace/twinkle.c:15-22 | at an offset aligned to the size nothing is lost |
| `Slab.AllocObjectSlab` | libsel4utils/src/slab.c:150-174 | objects of one size are packed, the untyped always has room for them, and it fails exactly if memory or a slot was refused |
| `Slab.SlabInit` | libsel4utils/src/slab.c:176-232 | fails exactly if memory, a slot or the untyped was refused; otherwise every object asked for is created in the size of its kind, they are packed without padding in the untyped that was allocated, which has the least power of two above the total and never runs out, and the final offset is the calculated total |
| `Slab.PackedObjects` | libsel4utils/src/slab.c:217-229 | packed objects are aligned and do not overlap |

## Left out

- VSpaceManager.VSpace.constructor: models an address space without pre-reserved regions; the kernel and loader regions that the real initialisation reserves are not created.
- VSpaceManager.VSpace.ReserveRangeAt: addresses are 4K page numbers, so unaligned addresses and byte lengths are not modelled; the source checks the raw address but reserves the rounded one.
- VSpaceManager.VSpace.UnmapPages: what the kernel and the allocator do with the caps, and how far last_allocated moves down; a refused request for memory shows in `oom` only where the page was Empty, and the pages behind it in the same frame are left open.
- VSpaceManager.VSpace.MapPagesAt: the kernel's answers to the hardware mapping of the frames are a parameter; the choice of rights and cacheability is not modelled.
- VSpaceManager: new_pages, share_mem, tear_down, get_paddr and the bootstrap of the tables' own memory; address arithmetic that wraps around.
- Buddy.SplitAllocator.AddUntypeds: addresses that are not multiples of the size are excluded; the kernel hands out none.
- Buddy: capabilities and slots of the nodes, and the order in which a failed refill deletes them; creating a node or a pair of halves is one request.
- DeviceMemory.HandleDeviceUntyped: region bounds are multiples of 4K and the untyped does not overlap one seen before.
- DeviceMemory: adding kernel untypeds, and fetching the list of regions.
- KRHeap.Heap.Alloc: morecore is a parameter that obeys its contract (fresh units, not next to the list header from below); alignment of raw memory and the padding of the fixed pool are not modelled.
- AllocationManager: configuring and attaching allocators, which happen before the modelled run; the manager is modelled on values, as a machine of steps, because calls and call-backs interleave.
- AllocmanWatermark.FlagIsSound: says nothing about how soon deferred frees are served, which the flag does not promise.
- AllocmanService.RefillRestores: allocators that call back or fail are not part of it; what holds for them is in the other modules.
- AllocmanDrain.RootRefillServes: one step; that draining ends is not claimed, since an allocator may queue new frees each time.
- BinarySemaphore: the initial value 0, and posting by a thread that does not hold.
- ConditionVariable.BroadcastNeverStalls: assumes as the documentation does that callers hold the lock, and that no decrement fails (at most 2^31 threads, BinarySemaphore.DecrementSucceeds); a signal may merge with another.
- ConditionVariable.ReleaseSends: the steps that give up the lock in between are those of BinarySemaphore and are not repeated.
- IrqTables.IrqCookie.ProvideNtfn: the write past the end of the table, when the id returned lies there, is not followed further; usable bits are bits of a badge.
- IrqTables: callback delivery, pending bits, id hints, the mini interface, and the slots and capabilities of handlers.
- Slab.SlabInit: qsort is a parameter that obeys its contract; handing objects out of a slab is an index step and is left out.
- CSpace allocators, serial server, process loading, timers and drivers.
