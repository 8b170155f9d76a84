# HobOS: a verified model of its memory management, core hand-off and queues

HobOS is a small AArch64 kernel. This project models the parts of it that carry invariants and
proves what they promise.

**Buddy allocator** (`page_alloc.c`). `Dyadic` is the address arithmetic, down to the exclusive or
that finds a buddy. `BuddyTiling` treats the memory as a set of blocks: what one split and one merge do
to a tiling, and what maximal coalescing implies. `BuddyLists` defines what `page_alloc` and `page_free`
compute on the per-order lists and proves the theorems about every run: tiling, disjointness, coalescing,
completeness of allocation, restoration. `PageAlloc` is the code's own form, linked lists with counts and
the `last_entry` shortcut, each method shown to compute exactly the functions of `BuddyLists`.
`BuddyAsWritten` and `BuddyLosses` are the code where it falls short of them, each call and run described up
to the first loss, and `BuddyBase` what a range that is not aligned does.

**Page-table mapper** (`pt.c`, `usr_entry.c`). `PageTable` has the 64-bit words of the Armv8-A stage 1
format (DDI 0487, "Translation table descriptor formats") and the walks of the hardware; `PageMapper` the
tree of descriptors the kernel keeps beside the raw tables; `PageRange` and `IdentityMaps` the loops that
map ranges. Each map call has an exact frame: which page changes, and that no other does. `TableCount` and
`RangeCost` count the tables a range is missing, so that the range maps say exactly when they complete;
`UnzeroedTables` is about pages for tables that are not cleared.

**Hand-off between cores** (`smp.c`, `mutex.h`). `Exclusive` models the instructions (DDI 0487,
"Synchronization and semaphores"), `Mutex` the lock and `Handoff` the two-mutex protocol, one instruction a
step, for any number of cores and every interleaving. `WorkerJobs` is the job list a core works off.

**Objects, `kmalloc` and `kfree`** (`slub.c`, `mm.c`). `Slub` has slabs, slots and the moves of objects
between lists; `Kmalloc` composes them with the buddy allocator into one system with any number of cores
and tasks, and proves the invariant of all runs. `SlubLists`, `Caches` and `KernelMemory` are the linked
structures; `KernelMemory.Kernel` holds both allocators in one heap, and its `Kmalloc` and `Kfree` are shown
to be exactly the steps of the system. `ObjectsAsWritten` is `kmalloc` and `kfree` with the object lists as the
code has them.

**Queues and printing** (`workqueue.c`, `printf.c`). `Workqueue` proves round-robin fairness and
conservation; `Printf` that printed numbers read back.

`Links` has the chains that all lists share, `Folding` a device of the proofs.

## Where the code departs from what it is for

For each of these the code is modelled as it stands, with a lemma or contract that says exactly when it
is right. The system theorems are about the repaired operation.

- `page_alloc.c:208-231` (`remove_page_block`) cannot unlink the first of several records, so a merge can
  lose a block. `BuddyAsWritten.FreeMeetsContract` says when `page_free` is right, `FreeKeepsMemory` when it
  loses nothing, and `BuddyLosses.LosesFreedPage` is a run that loses a page. Repair: the first record is
  tested too.
- `page_alloc.c:237-267` (`remove_next_free_block`) never tries the first of several records and cuts off
  everything behind the record it removes. `BuddyAsWritten.AllocMeetsContract` says when `page_alloc` is
  right; `BuddyLosses.RefusesFreePages` and `DropsLiveBlock` are runs in which it is not. Repair: unlink the
  last free record wherever it stands. Where the conditions of both are met, `GuardedRun` carries the theorems
  about runs to the code as it is. Beyond its first loss the code is not described: `last_entry` may then name
  a lost record, and a count exceed its chain.
- `kernel.c:87` passes the page allocator a base that `linker.ld:107-113` aligns to a page, not to the range's
  size of 1 MB. `BuddyBase.InRangeMeansAligned`, and `PagesInRangeAsWritten` for the code as it is, say that this
  alignment is exactly what keeps memory in use inside the range, and `FirstPage` where the first page handed
  out lies without it. The theorems about runs from boot take an aligned base.
- `slub.c:240-255`: the only object of a cache stays in it when it is taken, and is handed out twice
  (`SlubLists.HandOutTwice`). `ObjectsAsWritten.KmallocMeetsContract` says when `kmalloc` is right, and
  `FirstCacheRunsOut` is a run from boot in which two requests get the same memory. Repair: the list becomes
  empty.
- `slub.c:325-378`: freeing the first of a task's objects takes the second, or leaves a sole one in place
  (`SlubLists.ObjList.ExtractAsWritten`; the runs `ObjectsAsWritten.WrongObject` and `KeptObject`). Repair: the
  first object is unlinked.
- `slub.c:420-427`: the cache made for an object of another core is never linked, so an object that has been
  unlinked is lost (the run `ObjectsAsWritten.LostObject`). Repair: it is linked.
  `ObjectsAsWritten.KfreeMeetsContract` says when `kfree` is right and `KfreeCases` what it does otherwise; where
  the conditions of `kmalloc` and `kfree` are met, `GuardedRunsAreSafe` carries the theorems about runs to the
  object lists as they are, and `PagesAsWritten` to both layers.
- `slub.c:141-142` and `slub.c:187-196`: the metadata page is not checked for its end, and the descriptors of
  a core's caches always run past it (`Slub.MetadataOverruns`). Repair: descriptors are objects of their own.
- `slub.c:187-202`: a new cache's first pointer is not cleared, so a page with old contents makes its list
  begin anywhere. Repair: a new cache is empty.
- `mm.c:31-56`: sizes from 1025 to 4095 index past the caches, and a core's first object request does not
  survive a shortage of pages (`Kmalloc.KmallocFaults`); freeing the first object of a slab by a task that
  does not own it frees the slab (`Kmalloc.KfreeSafe`).
- `pt.c:122-128`: pages for tables are not cleared, so hanging one can change translations
  (`UnzeroedTables.HangKeepsLeafIff`). Repair: they are.
- `include/hobos/lib/pt_lib.h:63-65`: the word for user pages leaves AP at 0, which gives EL0 neither read nor write
  access to them (`PageTable.FlagWords`).
- `pt.c:24`: KERNEL_START itself is not translated (`PageTable.SubtractIsMask`).
- `workqueue.c:88` leaves the next pointer of a pushed task alone and `task.c:71` copies it into a clone,
  so a thread created among several tasks closes a cycle (`Workqueue.CreateAndQueue`).
- `printf.c:74-85`: the digit count overflows above 214748364 (`Printf.WidthRight`), and for numbers such as 0
  the text is written behind the buffer (`Printf.InsideBuffer`, `ZeroGoesOutside`).
- `smp.c:156-178` needs the firmware's loop to hold a core until the dispatcher has the second mutex
  (`Handoff.FirmwareTooEarly`).

## Model

| member | source | states |
|---|---|---|
| `Dyadic.XorBit` | page_alloc.c:49-52 | On a multiple of PAGE_SIZE << k, the exclusive or with PAGE_SIZE << k adds or subtracts that size, by the parity of the quotient |
| `Dyadic.SplitNeedsAlignment` | page_alloc.c:307-318 | The upper half a split computes by XOR lies behind the lower one exactly when the block is aligned to its full size |
| `Dyadic.BuddyHalves` | page_alloc.c:49-52 | get_buddy_pfn is an involution without fixed points, and a block and its buddy are the two halves of one block of the next order, whichever of the two asks |
| `Dyadic.Nested` | page_alloc.c:49-52 | Two aligned blocks that meet are nested |
| `BuddyTiling.SplitKeeps` | page_alloc.c:298-322 | Replacing a free block by its halves keeps the tiling, and at most the two halves are free buddies afterwards |
| `BuddyTiling.MergeKeeps` | page_alloc.c:543-575 | Replacing two free buddies by their union keeps the tiling, and the union is of at most the initial order |
| `BuddyTiling.RunInBlock` | page_alloc.c:442-459 | In a coalesced tiling every wholly free aligned run of 2^k pages lies inside one free block: what makes looking at block lists a complete search for free memory |
| `BuddyTiling.NothingUsed` | page_alloc.c:543-575 | A coalesced tiling with nothing in use is the single initial block |
| `BuddyTiling.Canonical` | page_alloc.c:543-575 | The blocks in use determine every block of a coalesced tiling: how memory was split and merged before leaves no trace |
| `BuddyLists.LastFree` | page_alloc.c:272-293 | The last free block of a list: everything behind it is used |
| `BuddyLists.FirstOrder` | page_alloc.c:442-459 | The least order, from the requested one up to MAX_PAGE_ORDER - 1, that has a free block |
| `BuddyLists.PageOrder` | page_alloc.c:428-437 | The least order whose blocks hold the requested pages |
| `BuddyLists.SplitKeepsState` | page_alloc.c:298-322 | A split of the lists is the split of the set of blocks, keeps the invariant, and leaves the new upper half as the last free block of its list |
| `BuddyLists.ReduceKeepsState` | page_alloc.c:329-343 | Splitting down to the target order keeps the invariant, changes nothing in use, and ends at a free block that was free memory before |
| `BuddyLists.NoBlockNoRun` | page_alloc.c:442-459 | When the search by order finds nothing, no aligned free run of the size exists |
| `BuddyLists.AllocCorrect` | page_alloc.c:482-501 | page_alloc keeps tiling and coalescing; on success one block of the least sufficient order is newly in use, out of free memory; it returns 0 exactly when the request is 0 or above MAX_PAGE_BLOCK or no wholly free aligned run of the size exists, and then changes nothing |
| `BuddyLists.NoBuddyCoalesced` | page_alloc.c:543-562 | Where the merge stops, no two free buddies are left anywhere |
| `BuddyLists.MergeKeepsState` | page_alloc.c:543-575 | merge_buddy ends with the tiling coalesced and nothing in use changed |
| `BuddyLists.MergeStaysBelow` | page_alloc.c:567-574 | merge_buddy never adds a block above the initial order, so it stays inside the array of lists although it does not test for its end |
| `BuddyLists.FreeCorrect` | page_alloc.c:581-590 | page_free keeps the invariant and takes out of use exactly the block that starts at the address; any other address changes nothing in use |
| `BuddyLists.SameLiveSameBlocks` | page_alloc.c:482-590 | Two histories with the same live allocations leave the same blocks |
| `BuddyLists.FreeUndoesAlloc` | page_alloc.c:482-590 | Freeing what was just allocated restores every block, however many splits the allocation made |
| `BuddyLists.InitialSettled` | page_alloc.c:404-426 | One block aligned to its size satisfies the invariant; BuddyBase.InRangeMeansAligned shows that the alignment cannot be spared |
| `BuddyLists.RunSettled` | page_alloc.c:482-590 | After any sequence of calls the blocks in all lists are aligned, disjoint, cover exactly the initial range, and no two free buddies coexist |
| `BuddyLists.LiveNeverOverlap` | page_alloc.c:482-501 | After any sequence of calls from an aligned block, memory handed out lies in the range, holds the request and overlaps no live allocation |
| `BuddyLists.NothingUsedInitial` | page_alloc.c:543-590 | With nothing in use the lists are exactly the initial ones |
| `BuddyLists.AllFreedRestores` | page_alloc.c:543-590 | After any run from an aligned block, freeing every live allocation in any order, with anything else passed to page_free in between, leads back to that block |
| `Links.Tail` | workqueue.c:64-75 | The walk to the end of a chain returns its last node |
| `Links.LinkedUnique` | page_alloc.c:167-184 | A first pointer determines the chain: no two different node sequences are linked from it |
| `PageAlloc.FreeList.Add` | page_alloc.c:167-184 | The record joins the end of the chain, takes the order, and the count stays the length |
| `PageAlloc.FreeList.Nth` | page_alloc.c:186-201 | The record at the index, or null behind the end |
| `PageAlloc.FreeList.HasFree` | page_alloc.c:77-101 | True exactly when some record of the list is free |
| `PageAlloc.FreeList.FindPfn` | page_alloc.c:503-516 | The first record with the address, or null when there is none |
| `PageAlloc.FreeList.LastFreeBlock` | page_alloc.c:278-293 | The backward scan returns the last free record, or null when all are used |
| `PageAlloc.FreeList.Remove` | page_alloc.c:208-231 | Repaired: exactly this record leaves the chain, wherever it stands |
| `PageAlloc.Allocator.constructor` | page_alloc.c:404-426 | The lists for one aligned block of any order below MAX_PAGE_ORDER |
| `PageAlloc.Allocator.NewPageBlock` | page_alloc.c:149-165 | A record never handed out before, unused and unlinked, that last_entry names |
| `PageAlloc.Allocator.AddBlockToOrder` | page_alloc.c:167-184 | One list grows by the record, all others stay |
| `PageAlloc.Allocator.RemoveNextFreeBlock` | page_alloc.c:237-267 | Repaired: exactly the last free record of the order leaves, and the call fails exactly when there is none |
| `PageAlloc.Allocator.NextFreeBlock` | page_alloc.c:272-293 | With its shortcut through last_entry the search still finds the last free record of the order |
| `PageAlloc.Allocator.SplitPageBlock` | page_alloc.c:298-322 | The heap operation is BuddyLists.Split on the abstract lists; it fails exactly when the order has no free block |
| `PageAlloc.Allocator.ReduceToOrder` | page_alloc.c:329-343 | The heap operation is BuddyLists.Reduce, and returns the block to hand out |
| `PageAlloc.Allocator.ClosestOrder` | page_alloc.c:442-452 | The loop finds BuddyLists.FirstOrder |
| `PageAlloc.Allocator.GetPageOrder` | page_alloc.c:428-437 | The loop finds BuddyLists.PageOrder |
| `PageAlloc.Allocator.PageAlloc` | page_alloc.c:482-501 | The heap operation is BuddyLists.Alloc: same lists, same address |
| `PageAlloc.Allocator.JoinBuddies` | page_alloc.c:552-571 | Both buddies leave their list and their union, at the lower address, joins the next |
| `PageAlloc.Allocator.MergeBuddy` | page_alloc.c:543-575 | The recursion is BuddyLists.Merge |
| `PageAlloc.Allocator.FindBlockByPfn` | page_alloc.c:522-534 | The record with the address in the lowest order that has one |
| `PageAlloc.Allocator.PageFree` | page_alloc.c:581-590 | The heap operation is BuddyLists.Free, in every state a run reaches |
| `BuddyAsWritten.RemovePageBlock` | page_alloc.c:208-231 | The literal removal does what RemoveResult says, chain and count |
| `BuddyAsWritten.RemoveMeetsContract` | page_alloc.c:208-231 | It unlinks exactly the record, exactly when the record is not the first of several |
| `BuddyAsWritten.RemoveNextFreeBlock` | page_alloc.c:237-267 | The literal removal of the next free block does what RemoveNextFreeResult says: chain, count and outcome |
| `BuddyAsWritten.RemoveNextFreeMeetsContract` | page_alloc.c:237-267 | It unlinks exactly the last free record, and fails only when there is none, exactly if that record stands at the end of the list, or no record is free, or the list has at most one |
| `BuddyAsWritten.SplitMeetsContract` | page_alloc.c:298-322 | The literal split agrees with Split exactly under the condition above |
| `BuddyAsWritten.SplitLosesSuffix` | page_alloc.c:256-264 | Where it splits a record that is not last, every record behind that one is lost: its memory is covered by no block any more |
| `BuddyAsWritten.JoinMeetsContract` | page_alloc.c:564-571 | The literal join of buddies agrees with Join exactly when the freed record is not the head and the buddy is not the head of a list of more than two |
| `BuddyAsWritten.JoinKeepsMemory` | page_alloc.c:564-571 | The literal join keeps the tiling exactly unless the buddy is the head of a list of more than two: then the freed record is gone and its buddy is not |
| `BuddyAsWritten.ReduceMeetsContract` | page_alloc.c:329-343 | Splitting down as written is right exactly when nothing is to be split or the first list split has its last free record at the end; no later split can go wrong |
| `BuddyAsWritten.AllocMeetsContract` | page_alloc.c:482-501 | page_alloc as written is right exactly when the request is refused anyway, or does not have to split, or splits first a list whose last free record is at the end |
| `BuddyAsWritten.MergeMeetsContract` | page_alloc.c:543-575 | merge_buddy as written is right exactly if, in the lists before the call, neither the record is the head nor at any level a free buddy is the head of a list with other records |
| `BuddyAsWritten.FreeMeetsContract` | page_alloc.c:581-590 | The same for page_free |
| `BuddyAsWritten.MergeKeepsMemory` | page_alloc.c:543-575 | merge_buddy as written keeps all memory in the lists exactly when it is right or starts at the head of its list |
| `BuddyAsWritten.FreeKeepsMemory` | page_alloc.c:581-590 | The same for page_free, in every state a run reaches |
| `BuddyAsWritten.GuardedRun` | page_alloc.c:482-590 | A run of the code as written whose calls meet these conditions is the run of the repaired code, so it keeps the invariant |
| `BuddyLosses.RefusesFreePages` | page_alloc.c:237-267 | From one block of any order from 2 up, wherever it starts, a request for two pages makes the code as written refuse a single page while two are free |
| `BuddyLosses.DropsLiveBlock` | page_alloc.c:256-264 | From one aligned block of any order from 3 up, three requests for two pages and one for a single page leave a block in use in no list, and page_free of it does nothing |
| `BuddyLosses.LosesFreedPage` | page_alloc.c:482-590 | From one aligned block of any order from 2 up, four requests and two frees of the code as written leave a page in no list |
| `BuddyBase.FirstPage` | kernel.c:87 | The first page handed out, for any page-aligned base and order, by the code as written too: base + size - 4096 - 2 * (base mod size); it lies below the base exactly when the base is past the middle of an aligned block of the size |
| `BuddyBase.InRangeMeansAligned` | page_alloc.c:404-426 | For a page-aligned base, no run ever has memory in use outside the range exactly when the base is a multiple of the range's size |
| `BuddyBase.PagesInRangeAsWritten` | kernel.c:87 | Of the code as written: for a page-aligned base, requests for single pages never have memory in use outside the range exactly when the base is a multiple of the range's size |
| `PageTable.SubtractIsMask` | pt.c:19-28 | For addresses of the upper half, subtracting KERNEL_START as pt_entry does agrees with masking it off exactly when the address is not KERNEL_START itself |
| `PageTable.TableSpellings` | pt.c:179-187 | A table below 4 GB may be given by its physical or its kernel address: both name the same page |
| `PageTable.ExtractInverts` | pt.c:152-161 | extract_addr_from_pte gives back the table address an entry was made from, exactly for tables below 4 GB |
| `PageTable.ExtractCuts` | pt.c:152-161 | From 4 GB on extract_addr_from_pte finds the kernel address of the table's address cut to 32 bits |
| `PageTable.EntryRoundTrip` | pt.c:19-28 | The entry written for a new table is a valid descriptor, not empty, and both the code's and the hardware's reading of it lead to that table |
| `PageTable.LeafDecodes` | pt.c:19-28 | A leaf entry decodes to the physical page and the flags it was made from |
| `PageTable.FlagWords` | include/hobos/lib/pt_lib.h:59-73 | The four flag words in the fields of the descriptor format: type, AttrIndx, NS, AP, SH, AF, nG, PXN and UXN |
| `PageTable.AddressBits` | pt.c:19-28 | The hardware takes bits 47:12 of an entry as its address |
| `PageTable.MetadataBijection` | pt.c:133-145 | The three indices and the offset determine the 39-bit address and are determined by it |
| `PageTable.IndicesArePage` | pt.c:133-145 | Two addresses have the same three indices exactly when they are on the same page |
| `PageTable.SameTable` | pt.c:243-264 | Two walks that reach the same last-level table took the same slots: distinct slots own distinct tables |
| `PageTable.HangKeepsTree` | pt.c:248-258 | Hanging a fresh table below an empty slot keeps the tables a tree of distinct tables |
| `PageTable.HangKeepsLeaf` | pt.c:248-258 | Hanging a cleared fresh table changes no translation |
| `UnzeroedTables.HangKeepsLeafIff` | pt.c:122-128 | Hanging a last-level table changes no translation exactly when its page was cleared, which create_pt does not do |
| `PageTable.HangAdvances` | pt.c:248-258 | It gets the walk one level further and leaves one table less to create |
| `TableCount.HangMissing` | pt.c:248-258 | A new table is one table less missing for exactly the addresses that go through its slot |
| `PageTable.SetLeaf` | pt.c:259-264 | Writing a last-level slot changes the translation of exactly one page |
| `PageTable.SetAttrKeepsAddress` | pt.c:306-311 | Setting bits of the attribute mask keeps the physical address of an entry, and a descriptor stays one |
| `PageTable.ClearAttrKeepsAddress` | pt.c:316-326 | Clearing bits of the attribute mask keeps the physical address, and a descriptor stays one exactly when the two type bits are left alone |
| `PageTable.SetThenClear` | pt.c:306-326 | Setting and then clearing restores an entry exactly when it had none of the bits |
| `PageTable.IdentityEntry` | pt.c:19-28 | The entry for an aligned address mapped to itself, from either half, holds the low page of the same number |
| `PageTable.LeafTranslates` | pt.c:209-268 | For any aligned pa and va the last-level entry leads to pa's physical page and has exactly the attributes asked for |
| `PageTable.UnalignedLeaf` | pt.c:209-268 | For an unaligned va the entry leads to the same page, and the offset is written over the attributes, which come out right exactly when they have every bit of it |
| `PageTable.DefaultIsKernel` | pt.c:221-222 | Flags of 0 mean the kernel's word: normal memory, inner shareable, accessed, EL1 only, not for execution at EL0 |
| `PageRange.BumpIsNext` | pt.c:292-293 | Adding a page to an address, carrying through the three indices, is the next page number |
| `PageRange.BelowEnd` | pt.c:292-293 | Comparing addresses of one half is comparing page numbers, for an end inside a page too |
| `PageMapper.PtDesc.AddChild` | pt.c:163-177 | The child joins the end of the parent's list |
| `PageMapper.PtDesc.GetChild` | pt.c:189-207 | The child whose table has the address |
| `PageMapper.Mapper.constructor` | pt.c:111-131 | An empty tree: no address is mapped |
| `PageMapper.Mapper.Follow` | pt.c:243-258 | For a non-empty upper slot the descriptor walk finds the descriptor of the table the hardware would go to |
| `PageMapper.Mapper.CreatePt` | pt.c:111-131 | A descriptor for the next of the pages set aside for tables, null when there is none |
| `PageMapper.Mapper.Descend` | pt.c:243-258 | The walk to the last level creates what is missing, with the flags asked for in every entry it writes, changes no translation, and fails exactly when more tables are missing than pages are left |
| `PageMapper.Mapper.MapPage` | pt.c:209-268 | va's page gets the entry for pa and the flags, which for aligned pa and va translates it to pa's physical page with those attributes, or the kernel's for flags of 0; every other page of the 39-bit space keeps its translation, and what is written for new tables has the same flags; the call fails exactly when the missing tables cannot all be created, and then no translation changes; the tables missing for every other address change exactly as far as it shares va's slots |
| `PageMapper.Mapper.SetAttr` | pt.c:306-311 | The bits are added to the entry of va's page and to no other, with attribute bits every address keeps its physical address, and the slot is not found exactly when the missing tables cannot all be created |
| `PageMapper.Mapper.ClearAttr` | pt.c:316-326 | The same for removing bits |
| `PageMapper.SlotHasOneChild` | pt.c:189-207 | Every non-empty upper slot matches exactly one child descriptor, of the next level, at the address both the code and the hardware read out of the slot |
| `IdentityMaps.IdMapToUsr` | usr_entry.c:16-33 | Of the range exactly those pages are mapped, each to the physical page of its number, for which the pages left suffice to create the tables missing up to them, and nothing else changes; all are mapped exactly if the pages suffice for the tables the range is missing. In the fields of the format they are normal memory, PXN set and UXN clear. For kernel addresses the map is the identity on the address minus KERNEL_START |
| `IdentityMaps.CreateIdMapping` | pt.c:281-296 | Under a fresh root exactly those pages of [start, end) are mapped, each to itself, for which the pages suffice, and nothing else, with the attributes asked for or, for flags of 0, normal memory with PXN clear and UXN set; all are mapped exactly if there is one page for the root and one for each gigabyte and each 2-megabyte region the range touches |
| `RangeCost.MegasAre` | pt.c:243-258 | The 2-megabyte regions counted for a range are those of its pages that lack their last-level table |
| `RangeCost.GigasAre` | pt.c:243-258 | The gigabyte regions counted are those of its pages that lack their level 2 table |
| `RangeCost.CostStep` | pt.c:243-258 | One page more costs one table for each of its regions that is new to the range and lacks it |
| `RangeCost.CostOfEmpty` | pt.c:281-296 | Under a root with no tables the cost of a range is the number of regions it touches |
| `Mutex.StepKeepsInv` | include/hobos/asm/mutex.h:9-37 | Every instruction of every core keeps the lock's invariant |
| `Mutex.LockSafe` | include/hobos/asm/mutex.h:9-37 | For any number of cores and any interleaving: at most one core in its critical section; a core asleep without a pending event implies the lock is held or a releaser is between its stlr and its sev |
| `Mutex.CanAcquire` | include/hobos/asm/mutex.h:9-25 | From every reachable state a core that wants the lock can still get it |
| `Handoff.StepKeepsInv` | smp.c:135-201 | Every instruction of the worker and of every dispatcher keeps the invariant of the two mutexes |
| `Handoff.ExactlyOnce` | smp.c:135-201 | For any number of dispatchers and any interleaving the worker calls what was published, each pointer once and in order, with at most the last one outstanding; taking the second mutex never waits |
| `Handoff.CallsWhatIsPassed` | smp.c:135-201 | What the worker has called is the sequence of pointers the dispatchers passed, in order and all of it but at most the last, which is then in exec_addr, and all of it when both mutexes are free |
| `Handoff.CallsLastPassed` | smp.c:186-200 | Every call is of the pointer passed last, which has not been called before |
| `Handoff.ExecStable` | smp.c:147-150 | exec_addr changes only while the worker is parked and has called everything published |
| `Handoff.NoLostWakeup` | smp.c:186-200 | The worker asleep without an event implies nothing is handed over or a dispatcher is about to sev; a dispatcher asleep implies mutex 0 is taken or about to be signalled |
| `Handoff.CanComeToRest` | smp.c:135-201 | From every reachable state the hand-off can come to rest with everything published called |
| `Handoff.FirmwareTooEarly` | smp.c:156-178 | In every reachable state with a pointer published and mutex 1 not yet taken, a core that left the firmware loop would start a run that calls that one publication twice |
| `WorkerJobs.Worker.constructor` | smp.c:104-119 | A list of one job that is head and tail |
| `WorkerJobs.Worker.Push` | smp.c:45-66 | The job joins the end; head, tail, descriptor and position marks stay consistent |
| `WorkerJobs.Worker.Pop` | smp.c:16-28 | The second job takes over the list and its descriptor |
| `WorkerJobs.Worker.Process` | smp.c:80-102 | All jobs are executed once, in order, and the last one stays in the list |
| `WorkerJobs.EachJobOnceButTheLast` | smp.c:80-102 | Over any run of pushes and dispatches every job is executed exactly once, except that each dispatch but the first begins by executing the last job of the one before it again |
| `WorkerJobs.JobsInOrder` | smp.c:80-102 | Over any run jobs are executed for the first time in the order in which they were queued |
| `WorkerJobs.WhatADispatchExecutes` | smp.c:80-102 | A dispatch executes the job executed last once more, if there has been one, and then in order everything not executed yet |
| `Slub.ObjOrder` | slub.c:227-238 | The least order from 6 up whose objects hold the size |
| `Slub.ServedSizes` | slub.c:227-238 | That order has a cache exactly for sizes up to 1024 |
| `Slub.SlotsApart` | slub.c:130-162 | Any two different objects of any slabs are disjoint |
| `Slub.CarvePartitions` | slub.c:164-178 | A fresh slab's objects follow each other without a gap from the first byte of the page to the last |
| `Slub.CarveSlots` | slub.c:164-178 | They are exactly the aligned addresses of the page, each once |
| `Slub.MoveMembers` | slub.c:240-279 | After an object moves between two lists it is in the new one and nowhere else, and every other object is where it was |
| `Slub.MoveKeepsPlaced` | slub.c:240-428 | A move between two lists that are linked keeps every object of every slab in exactly one list, exactly once |
| `Slub.AddSlabKeepsPlaced` | slub.c:164-178 | So does filling a new cache from a new page |
| `Slub.TakeMeetsContract` | slub.c:240-279 | As written, taking a cache's last object to a task's list is that move, and keeps every object in exactly one list, exactly when the object was not alone in the cache |
| `Slub.FreeMeetsContract` | slub.c:325-428 | As written, slub_free moves the object from the task's list to where it belongs exactly when the object is not the first of the list and is freed on its own core |
| `Slub.FreeConserves` | slub.c:325-428 | As written, slub_free keeps every object in exactly one list exactly when the object it takes is unlinked and on its own core, or neither |
| `Slub.MetadataOverruns` | slub.c:130-225 | The descriptors kmem_init_caches writes into one page take 4208 bytes |
| `SlubLists.ObjList.Append` | slub.c:101-120 | The object joins the end of the chain |
| `SlubLists.ObjList.TakeLastAsWritten` | slub.c:240-255 | The literal removal takes the last object, but the list loses it exactly when it was not alone |
| `SlubLists.ObjList.AddAgain` | slub.c:264-279 | Adding an object to a task's list that has it already links the object to itself |
| `SlubLists.HandOutTwice` | slub.c:240-279 | From a cache of one object the literal code hands the same object out twice, and the task's list then ends in a cycle |
| `SlubLists.ObjList.TakeLast` | slub.c:240-255 | Repaired: the last object leaves the chain, also when it was alone |
| `SlubLists.ObjList.Parent` | slub.c:325-347 | The object before the one at the address, that one itself if it is first, null if there is none |
| `SlubLists.ObjList.ExtractAsWritten` | slub.c:353-378 | The literal extraction takes and unlinks the object at the address exactly when it is not the first; for the first of several it takes the second, and a sole one it takes without unlinking it |
| `SlubLists.ObjList.Extract` | slub.c:369-378 | Repaired: exactly the object at the address leaves the chain, null if there is none |
| `Caches.ObjLists.AppendTo` | slub.c:264-279 | One list of one core or task grows by the object; all others stay |
| `Caches.ObjLists.TakeLastOf` | slub.c:257-262 | One list loses its last object; all others stay |
| `Caches.ObjLists.ExtractFrom` | slub.c:369-378 | One list loses the object at the address; all others stay |
| `Kmalloc.TakePageCorrect` | slub.c:153-154 | page_alloc(1) succeeds exactly when a page meets no block in use, and uses up that page |
| `Kmalloc.InitCorrect` | slub.c:209-225 | A core's first allocation takes five pages for slabs and one for descriptors unless it has one, keeps the invariant, and goes wrong exactly when fewer are free |
| `Kmalloc.LiveApart` | mm.c:31-56 | All live regions of both allocators are pairwise disjoint |
| `Kmalloc.ObjInSlab` | slub.c:130-162 | Every object lies inside a one-page block that is in use |
| `Kmalloc.KmallocCorrect` | mm.c:31-42 | kmalloc keeps the invariant; on success the live memory grows by exactly the region handed out, of the least order of pages or objects that holds the request, which overlaps nothing live; on failure it stays the same |
| `Kmalloc.KmallocFails` | mm.c:31-42 | kmalloc returns null exactly when the core's cache of the order is empty, or the request is above 8 MB or no wholly free aligned run of the least order that holds it exists |
| `Kmalloc.KmallocFaults` | mm.c:31-42 | It goes wrong exactly for sizes from 1025 to 4095 and for a core's first object request with too few free pages |
| `Kmalloc.PagesForHolds` | mm.c:31-39 | The pages asked of page_alloc hold the request, and one less would not |
| `Kmalloc.OrderForSize` | mm.c:31-39 | That number of pages comes to a block of the least order that holds the request, and is refused exactly above 8 MB |
| `Kmalloc.KfreeObject` | slub.c:430-457 | With extraction and reclaim repaired, freeing one of the task's own objects takes exactly that object out of the live memory, to the end of the core's own cache when its home is that core, and of that core's cache for its page otherwise; no page block is given up, so the address does not reach page_free |
| `Kmalloc.KfreePages` | mm.c:52-56 | Freeing any other allowed address releases the page block that starts there, if there is one, and no object |
| `Kmalloc.KfreeSafe` | mm.c:52-56 | kfree keeps the invariant exactly when it is not given the start of a slab or metadata page that is not the task's own object |
| `Kmalloc.FreeThenAlloc` | slub.c:397-412 | An object freed on its own core is the next that core hands out for its order, and the live memory is then as before |
| `Kmalloc.KfreeUndoesKmalloc` | mm.c:31-56 | kfree of what kmalloc has just returned restores the live memory, and for whole pages every block |
| `Kmalloc.KmallocLocal` | slub.c:257-319 | kmalloc on a core for a task changes no list of another core or task, and new slabs are that core's |
| `Kmalloc.KfreeLocal` | slub.c:397-457 | Neither does kfree |
| `Kmalloc.RunKeepsInv` | mm.c:31-56 | Every run of kmalloc and kfree on any cores and tasks keeps the invariant |
| `Kmalloc.RunLocal` | slub.c:257-457 | Over any run the lists of cores and tasks that take no part in it stay as they are |
| `Kmalloc.RunsAreSafe` | mm.c:31-56 | After any run of kmalloc and kfree from boot, with an aligned range and the repairs: live regions disjoint, every object inside a page block in use, every object in exactly one list |
| `Kmalloc.NothingLeaks` | slub.c:397-457 | With extraction and reclaim repaired and no memory held, the blocks in use are exactly the slabs and metadata pages, and every object is in a cache |
| `ObjectsAsWritten.KmallocMeetsContract` | slub.c:240-319 | With the object lists as written, kmalloc is the repaired kmalloc exactly when the request is for pages, or the core has no caches yet, or the cache that serves it does not hold exactly one object |
| `ObjectsAsWritten.HandsOutTwice` | slub.c:240-319 | Otherwise the object handed out is then in two lists, and the next request of its order on that core is given the same memory, which is live |
| `ObjectsAsWritten.FirstCacheRunsOut` | slub.c:240-319 | From boot, requests of one size are right up to the last but one object of their cache, and the next two are given the same memory |
| `ObjectsAsWritten.KfreeMeetsContract` | slub.c:325-457 | With the object lists as written, kfree, unless it goes wrong, is the repaired kfree exactly when the address is null, or no object of the task's, or an object that is not the first of the task's list and is freed on its own core |
| `ObjectsAsWritten.KfreeNeedsRecords` | slub.c:180-196 | As written kfree takes a metadata page exactly when the object it takes is not the core's and the core has none, and goes wrong exactly when no page is free for it |
| `ObjectsAsWritten.KfreeCases` | slub.c:325-457 | What kfree does with an object in every other case: a sole object stays held and at home is also free; the first of several stays held and the second is freed in its place; an object taken from several on another core is in no list; and exactly when every object stays in one list |
| `ObjectsAsWritten.LostObject` | slub.c:397-428 | From boot, two kmallocs on core 0 and a kfree of the second object by the same task on core 1 leave that object in no list |
| `ObjectsAsWritten.WrongObject` | slub.c:353-378 | From boot, two kmallocs and a kfree of the first object free the second, and the first stays held |
| `ObjectsAsWritten.KeptObject` | slub.c:353-378 | From boot, a kmalloc and a kfree leave the object both held and in the cache |
| `ObjectsAsWritten.GuardedRun` | mm.c:31-56 | Runs in which every call meets these conditions are the same with the object lists as written, and keep the invariant |
| `ObjectsAsWritten.GuardedRunsAreSafe` | mm.c:31-56 | After any such run of the code with the object lists as written: live regions disjoint, every object inside a page block in use, every object in exactly one list |
| `ObjectsAsWritten.PagesAsWritten` | mm.c:31-56 | When the calls of the page allocator that such a run makes meet their conditions too, the page lists are those page_alloc and page_free as written lead to |
| `KernelMemory.Kernel.constructor` | page_alloc.c:404-426 | The memory at boot |
| `KernelMemory.Kernel.CreateObj` | slub.c:130-162 | The first object of a cache gets a new page, each further one the address behind the last |
| `KernelMemory.Kernel.Populate` | slub.c:164-178 | The loop fills the cache with Slub.Carve of the new page |
| `KernelMemory.Kernel.InitCaches` | slub.c:209-225 | The loop over the orders is Kmalloc.InitCaches |
| `KernelMemory.Kernel.GetObjOrder` | slub.c:227-238 | The loop finds Slub.ObjOrder |
| `KernelMemory.Kernel.SlubAlloc` | slub.c:288-319 | The heap operation, with the repaired removal, is Kmalloc.SlubAlloc: same state, same address, same faults |
| `KernelMemory.Kernel.Reclaim` | slub.c:397-428 | Repaired: the object joins the home cache on its own core, and elsewhere the freeing core's cache for its page, which is linked |
| `KernelMemory.Kernel.ReclaimAsWritten` | slub.c:397-428 | As written: on another core the object enters a new cache that nothing points to, and no list has it |
| `KernelMemory.Kernel.SlubFree` | slub.c:430-457 | The heap operation, with the repaired extraction and reclaim, is Kmalloc.SlubFree when the task owns the address, and otherwise changes nothing |
| `KernelMemory.Kernel.Kmalloc` | mm.c:31-42 | The heap operation is Kmalloc.Kmalloc: same state, same address, same faults |
| `KernelMemory.Kernel.Kfree` | mm.c:52-56 | The heap operation, repaired as in its parts, is Kmalloc.Kfree: same state, same faults |
| `Workqueue.TurnsSoFar` | workqueue.c:97-114 | After k turns the queue is what has not had its turn, followed by the unfinished tasks of those that have |
| `Workqueue.FullRound` | workqueue.c:97-114 | With completion flags fixed, n turns with n tasks queued leave exactly the unfinished tasks in their original order |
| `Workqueue.UnfinishedCounts` | workqueue.c:97-114 | No completed task is left and every other one as often as it was queued |
| `Workqueue.WaitsItsTurn` | workqueue.c:77-114 | Whatever is pushed and whatever completes, a waiting task moves one place forward each turn and is head after as many turns as its index |
| `Workqueue.NoTaskLost` | workqueue.c:44-114 | Every task queued or pushed is either still queued or has left, once each |
| `Workqueue.LeavesOnlyWhenDone` | workqueue.c:44-62 | A task leaves only at the head and only when it is completed at that turn |
| `Workqueue.Workqueue.Pop` | workqueue.c:44-62 | The head leaves and is returned unlinked, or null if it is completed or there is none |
| `Workqueue.Workqueue.Push` | workqueue.c:77-90 | The task joins the end |
| `Workqueue.Workqueue.QueueNext` | workqueue.c:97-114 | The call is one turn, and returns the new head |
| `Workqueue.Workqueue.PushAsWritten` | workqueue.c:77-90 | For any task outside the queue: the result is the queue followed by the task exactly when the task pointed nowhere or the queue was empty |
| `Workqueue.Workqueue.PushTwice` | workqueue.c:77-90 | Pushing a queued task again closes a cycle |
| `Workqueue.NeverEnds` | workqueue.c:64-75 | No finite list of nodes is linked from the start of a cycle, so the walk to its end does not return |
| `Workqueue.CreateAndQueue` | task.c:55-104 | A thread created by and queued beside the running task is an append when that task is alone, and closes a cycle through the second task otherwise |
| `Printf.IntChars` | printf.c:74-85 | The loop returns the digits of ten times the number, as a 32-bit product, less two |
| `Printf.WidthRight` | printf.c:74-85 | For positive numbers the width is right exactly from 1 to 329496729, from 529496730 to 758993459 and from 958993460 to 999999999 |
| `Printf.InsideBuffer` | printf.c:122-126 | The text stays inside the 128 characters of the buffer exactly when the 32-bit product with ten has at least two digits |
| `Printf.ZeroGoesOutside` | printf.c:122-126 | Printing 0 passes the width 254 |
| `Printf.DToS` | printf.c:15-37 | For a width as char the loop writes the last sz + 1 digits, ended by a NUL, and nothing else |
| `Printf.LowDigitsValue` | printf.c:15-37 | Reading them back gives the number modulo the power of ten that fits, with C's sign; for numbers from 0 up all are digits |
| `Printf.DecimalRoundTrip` | printf.c:15-37 | Reading back gives the number exactly when there is room for all its digits |
| `Printf.NoLeadingZero` | printf.c:15-37 | With room for exactly its digits a positive number has no leading zero |
| `Printf.PrintDecimal` | printf.c:122-126 | For every int: the option d stays inside the buffer exactly under that condition, and prints the number's numeral exactly for the numbers whose width is right, without a leading zero |
| `Printf.XToS` | printf.c:39-72 | The loop writes 0x and the last sz - 2 hexadecimal digits of the sign-extended number, ended by a NUL |
| `Printf.LowHexValue` | printf.c:39-72 | Reading them back gives the number modulo the power of sixteen that fits |
| `Printf.HexRoundTrip` | printf.c:39-72 | At width 10 reading back gives the argument modulo 2^32, at width 18 its sign extension modulo 2^64 |
| `Printf.PrintHex` | printf.c:127-134 | The options x and l print 0x and hexadecimal digits that read back as above |

## Left out

- Initialisation of the page allocator with several blocks (`create_free_list` links records to themselves and strides wrongly); boot makes one block, and the model starts from one aligned block of any order below 11.
- BuddyLists.RunSettled: a range whose base is not aligned to its size, as the boot code may pass it, is treated in module BuddyBase only.
- The byte layout of the metadata regions: block records, object descriptors and caches are fresh objects; a core's descriptors take one page, which Slub.MetadataOverruns shows is too small.
- The capacity of the array of page-table descriptors and `pt_len`: descriptors are fresh objects.
- PageMapper.Mapper.MapPage: flags are 0 or descriptor attributes outside the address field, as all its callers pass; new pages for tables are taken to be cleared, aligned, distinct and below 4 GB, from a list the mapper takes them from.
- UnzeroedTables.HangKeepsLeafIff: says nothing of an uncleared table of level 2, whose old contents can lead anywhere.
- PageMapper.Mapper.SetAttr: where the slot is not found the code uses a null pointer; the method, like ClearAttr, only reports it.
- IdentityMaps.IdMapToUsr: start is page aligned, start and end are in the same half and neither is KERNEL_START or the last page of the half, where the loop's address would wrap. At address 0 the code cannot tell a failure from a success and goes on to the next page, which fails as well.
- IdentityMaps.CreateIdMapping: addresses stay below 0x7FFFF000, as the int loop counter needs.
- TLB maintenance and barriers: memory is sequentially consistent.
- `extract_global_pt_info`, which adopts the boot tables: trees start from a fresh root.
- Handoff.ExactlyOnce: the function a core calls is assumed to end by parking again, and the core to leave the firmware's loop only once the second mutex is taken; the nested calls this makes are not counted.
- Fairness of the lock: the code does not promise it; Mutex.CanAcquire shows only that no state is a dead end.
- WorkerJobs.Worker.Push: the allocation of the job is taken to succeed; jobs do not change the list while it is worked off.
- The order in which `page_free` and the object layer are called from different cores at once: the allocators take no lock, so kmalloc and kfree calls are modelled one at a time.
- KernelMemory.Kernel.Reclaim: the caches of one order are a map by parent page instead of a chain, so the walk of `kmem_find_relative_cache` along the chain is a lookup.
- KernelMemory.Kernel.SlubAlloc: the current task is a parameter and never null; when the kernel would use a null page as memory the method only reports it.
- ObjectsAsWritten.KmallocAsWritten: like KfreeAsWritten it has the page lists as repaired, which ObjectsAsWritten.PagesAsWritten bridges; after a call that leaves one object in two lists it says nothing of the lists any more, only which address the next call returns.
- BuddyAsWritten.RunAsWritten: describes the code up to and including its first loss.
- Direct callers of `page_alloc` beside kmalloc (page tables, stacks): their blocks are live blocks like any other, but they are not steps of the runs in module Kmalloc.
- Workqueue.Workqueue.Push: asks that the task is not queued already and points nowhere; PushAsWritten, PushTwice and CreateAndQueue say what happens otherwise. `task_free` has no effect in the code.
- Printf.PrintDecimal: where the text would leave the buffer the method only reports it.
- Printf.DToS: asks for a buffer that the text fits; Printf.InsideBuffer says when the caller's does.
- Device drivers, interrupts, the scheduler's register switching, system calls and the rest of `vprintf`: input and output, or dependent on processor state outside the model.
