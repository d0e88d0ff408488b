# Allocators, a ticketed lock, a concurrent hash table and a filtered directory listing

This project models five programs of the repository and proves what each is for. Every file is one Dafny
module; `dafny verify dfyconfig.toml` checks them all.

**Segregated-bin heap** (`Tiling`, `UsedUnits`, `Chunk`, `BinLists`, `HeapLayout`, `BinSearch`, `Regions`,
`HeapPolicy`, `HeapManager`). Memory is one array of 16-byte units. A unit overlays a header (status, span, next) and a
footer (span, prev) exactly as the two structures overlay in memory, so a write to a footer is a write to what
may have been payload or an old header, and a new footer keeps a stale prev link until it is set. Addresses are
unit numbers and 0 is null. `HeapManager.Heap` changes this array, the bin heads and the bounds in place; two
ghost fields say which blocks and which bin contents they represent. The invariant `Good` says that the blocks
tile the arena, that headers and footers agree, that used blocks have null links, that every free block is in
exactly the bin of its span exactly once, that the bins are doubly linked lists, and that no two neighbours are
free. Every call keeps it. The kernel either moves the break up by exactly what was asked or refuses; the ghost
field `refusals` counts refusals, so `Malloc` says that it returns null for no other reason than size 0 or a
refusal. `HeapPolicy` says in numbers, over lists and spans alone, what the size classes are, which block a request is
served from and where a freed block goes.

**Address-ordered baseline heap** (`ChunkBase`, `BaseLayout`, `BaseSteps`, `BaseHeap`). Headers only and one
list. The list is strictly sorted and is exactly the set of free blocks, and merging with list neighbours alone
is proved to be complete coalescing. The tiling and region lemmas are shared with the other heap.

**Read/write lock** (`LockSteps`, `LockThreads`, `LockSystem`, `LockQueue`, `LockLate`, `LockFairness`, `LockBatches`,
`LockRing`, `LockWakeups`, `LockRuns`, `RwLock`). `RwLock.ReadWriteLock` has the lock's fields and runs the code of each call from
taking the mutex to waiting or releasing it; each method is proved to be a step of `LockSteps`. `LockSystem` lets any
number of threads take these steps in any order, with spurious wakeups. Mutual exclusion, the order of admissions, the
batch limit and the destroy test hold for any number of threads and any ring size. The exact queue, writers that are not
overtaken and the mutex that is always released need an entry for every thread, and `LockRing.RingBoundIsExact` proves
that they hold exactly then. Wakeups are different: `LockWakeups.WakeupsAreExact` proves that none is lost exactly when
there is an entry for every thread or only one entry. Otherwise a run can end with everybody asleep on a free lock.
A covered reader that has not run when its batch ends can be left behind, even asleep with nothing held, and its
call can fail. `LockLate.LateReaderAdmittedIff` says when such a reader is granted, fails or waits, in terms of the
batch limit and of how many later tickets are out, and `LockRuns.TwoThreadsSuffice` says that two threads are
enough for both to happen and one is not.

**Hash table** (`HashFunction`, `HashTable`, `TableHistory`, `TableRuns`). `HashFunction` gives the hash as a weighted sum
and says exactly which single changes of a key it misses. `HashTable.Table` relinks chain nodes
in place and is proved to be a finite map. `TableRuns` puts one lock per bucket, with the steps of `LockSystem`,
around chain walks that look at one entry per step, with the change of a chain and the change of its counter as
steps of their own, and proves every interleaving linearizable. This needs no
bound on threads or ring: a call that fails at its lock has no effect, and neither has one still waiting there.

**Pattern filter and listing** (`PatternSyntax`, `PatternMatch`, `PatternDocs`, `PatternGap`, `DirTree`,
`DirTotals`, `DirLines`). A pattern's language is defined from its atoms, independently of the matcher. The backtracking matcher
decides it, and the pattern check accepts exactly the strings that print from atoms. A group body is any non-empty
balanced string and is matched character by character, a star or bracket inside it being an ordinary character there,
as the code does. The documentation reads `?*` as a repetition of any character, but the code repeats the character
`?`; the model follows the code. `PatternDocs` defines the documented meaning of a pattern and proves that it is the
program's meaning of the pattern with `(?)*` in place of `?*`. `PatternGap.AgreesOnEveryNameIff` says exactly which
patterns agree on every name as they stand: those in which every `?*` has only wild atoms (atoms that name no
character the word must have) before it, after it, or between it and some `(?)*`. The listing is over an abstract
finite tree of names, kinds, sizes and block counts. Its lines are specified by which entries deserve one. A listing
without a filter is the case in which every entry is kept; the source has it as a separate
branch that returns 1.

## Model

| member | source | states |
|---|---|---|
| Tiling.PartitionsArena | Lab3/src/heapmgr2.c:110-132 | every unit of the arena belongs to exactly one block, and no other unit to any |
| Tiling.PredecessorExists | Lab3/src/chunk.c:131-154 | every block but the first has a block that ends where it starts |
| Tiling.FuseKeepsTiling | Lab3/src/heapmgr2.c:279 | merging two adjacent blocks keeps the exact tiling |
| Tiling.CarveKeepsTiling | Lab3/src/heapmgr2.c:213-221 | splitting a block keeps the exact tiling |
| Tiling.ExtendingKeepsTiling | Lab3/src/heapmgr2.c:342-347 | a block added at the old end of the arena extends the tiling to the new end |
| Tiling.AbsorbingCoalesces | Lab3/src/heapmgr2.c:301-314 | absorbing the free successor and then letting a free predecessor absorb the result gives one block over the union of the run, everything else unchanged |
| Tiling.CoalescedKeepsTiling | Lab3/src/heapmgr2.c:301-314 | the coalesced blocks tile the arena |
| Tiling.CoalescedHasNoFreeNeighbours | Lab3/src/heapmgr2.c:156-160 | when adjacent free blocks could occur at one block only, coalescing there leaves none anywhere |
| Tiling.CoalescedIsUnion | Lab3/src/heapmgr2.c:301-314 | the merged block covers exactly the units of the block and of the free blocks that touch it |
| Tiling.CoalescingConservesUnits | Lab3/src/heapmgr2.c:286-324 | coalescing moves no unit between free and used |
| Tiling.CoalescedUsed | Lab3/src/heapmgr2.c:286-324 | the used blocks are the same before and after coalescing |
| Tiling.LowerFirstCoalesces | Lab3/reference/heapmgrbase.c:229-236 | merging downwards first and upwards second gives the same union |
| Tiling.CarveLeavesNothingToMerge | Lab3/src/heapmgr2.c:379-380 | the leading part of a split has no free neighbour, so putting it back coalesces nothing |
| Chunk.BytesToPayloadUnits | Lab3/src/heapmgr2.c:27-31 | the least number of 16-byte units that hold the bytes |
| Chunk.SetStatus | Lab3/src/chunk.c:34-38 | writes the status word only |
| Chunk.SetSpanUnits | Lab3/src/chunk.c:47-54 | writes the span in the header and in the footer it implies, and leaves that footer's prev link as it was |
| Chunk.SetNextFree | Lab3/src/chunk.c:76-82 | writes the next link only; the target must be null or free |
| Chunk.SetPrevFree | Lab3/src/chunk.c:84-95 | writes the footer's prev link only; the target must be null or free |
| HeapLayout.BoundaryTags | Lab3/src/chunk.c:97-154 | on every heap that meets the invariant the unit below a block is its predecessor's footer and leads back to it; there is one predecessor, and none at the start |
| HeapLayout.DetachLinksAreFree | Lab3/src/chunk.c:56-74 | the links of a listed block are its list neighbours, and those are free blocks |
| HeapLayout.DetachKeepsInv | Lab3/src/heapmgr2.c:234-262 | taking a block out of its bin keeps the whole invariant, the block now being in no bin |
| HeapLayout.FuseKeepsInv | Lab3/src/heapmgr2.c:264-284 | merging two adjacent loose blocks keeps the invariant: tags, tiling, bins, links |
| HeapLayout.PushKeepsInv | Lab3/src/heapmgr2.c:316-321 | linking a loose block at the front of its bin keeps the invariant |
| HeapLayout.MarkKeepsInv | Lab3/src/heapmgr2.c:297-299 | changing the status of a block that is in no bin, links cleared, keeps the invariant |
| HeapLayout.CarveKeepsInv | Lab3/src/heapmgr2.c:186-232 | splitting a loose block keeps the invariant, though the new footer overlays an old payload unit |
| HeapLayout.GrowKeepsInv | Lab3/src/heapmgr2.c:342-347 | a new free block at the end keeps the invariant |
| HeapLayout.FreeingComposes | Lab3/src/heapmgr2.c:286-324 | the steps of freeing give the coalesced blocks, the rebinned lists, no free neighbours, and every used unit as before |
| HeapLayout.SplitRebins | Lab3/src/heapmgr2.c:378-380 | putting back the leading part of a split merges nothing and keeps every used unit |
| HeapLayout.UseWhole | Lab3/src/heapmgr2.c:385 | using a detached block whole restores the full invariant |
| HeapLayout.PayloadWriteKeepsValid | Lab3/src/heapmgr2.c:387 | a client may store anything in a payload unit of a used block and the heap stays valid |
| BinSearch.BinIndexMonotone | Lab3/src/heapmgr2.c:51-64 | a larger span never has a smaller bin index |
| HeapPolicy.SizeClasses | Lab3/src/heapmgr2.c:51-64 | on every heap that meets the invariant bin 0 holds spans below 8, bin 9 spans from 2048 on, and each bin between them the spans from one power of two up to the next |
| HeapPolicy.SearchFindsFirst | Lab3/src/heapmgr2.c:369-376 | the search takes the first place with room, in bin order and then in list order, or there is no room from its first bin on |
| HeapPolicy.OutcomeChooses | Lab3/src/heapmgr2.c:355-424 | which block serves a request, in numbers: the first place with room over all bins; else the arena grows by 2 + max(need, 1024) units, which serve it together with a free block below them; or it is refused; and where in that block the pointer is |
| HeapPolicy.RebinningPutsInFront | Lab3/src/heapmgr2.c:316-321 | the merged block becomes the first of the bin for its span, and the rest of every bin keeps its order |
| BinSearch.FirstFitIs | Lab3/src/heapmgr2.c:372-376 | the search returns a free block with room, or every block of the bins searched is too small |
| BinSearch.SearchIsComplete | Lab3/src/heapmgr2.c:369-392 | the segregated search fails exactly when no free block anywhere has room |
| BinSearch.RescanFindsGrown | Lab3/src/heapmgr2.c:392-423 | after a grow the rescan finds the grown block, even merged into a free tail and moved to another bin, so the final failing assertion is never reached |
| BinSearch.OccursOnce | Lab3/src/heapmgr2.c:67-76 | the occurrence count of a free block over all bins is one, of a used block zero |
| BinSearch.GrowKeepsUsedBlocks | Lab3/src/heapmgr2.c:342-347 | growing touches no used unit, and only the new block can have a free neighbour |
| Regions.LiveIsSeparate | Lab3/src/heapmgr2.c:355-424 | the live regions are disjoint and lie inside the arena |
| Regions.AllocatingAddsRegion | Lab3/src/heapmgr2.c:376-388 | serving a request adds one fresh region of need or need + 1 units, inside what was one free block, and changes no other |
| Regions.CoalescingKeepsRegions | Lab3/src/heapmgr2.c:286-324 | coalescing changes no live region |
| Regions.FreeingRemovesRegion | Lab3/src/heapmgr2.c:426-449 | freeing removes exactly one live region |
| Regions.GrowingKeepsRegions | Lab3/src/heapmgr2.c:326-353 | growing changes no live region |
| Regions.GrownServes | Lab3/src/heapmgr2.c:392-421 | the grown block is free and has room for the request |
| Regions.MallocRefines | Lab3/src/heapmgr2.c:355-424 | every outcome of a request is a step of the abstract allocator of disjoint regions |
| HeapManager.Heap.NodeOf | Lab3/src/chunk.c:56-74 | what the accessors read at any place of any bin: the list neighbours, through links they accept |
| HeapManager.Heap.BinDetach | Lab3/src/heapmgr2.c:234-262 | in place: the bins lose exactly this block, statuses and spans are untouched, used blocks keep every unit |
| HeapManager.Heap.FuseUnits | Lab3/src/heapmgr2.c:279-281 | the stores of a merge, new footer included, in order |
| HeapManager.Heap.MarkFree | Lab3/src/heapmgr2.c:297-299 | the block is free, in no bin, with null links |
| HeapManager.Heap.CoalesceTwo | Lab3/src/heapmgr2.c:264-284 | in place: the two blocks become one at the lower address, all five assertions hold |
| HeapManager.Heap.AbsorbNextBlock | Lab3/src/heapmgr2.c:301-305 | the free successor, if any, is taken out of its bin and merged |
| HeapManager.Heap.ForwardInverts | Lab3/src/chunk.c:115-154 | stepping forward and then back returns to the block; only the end of the arena stops it |
| HeapManager.Heap.BackwardInverts | Lab3/src/chunk.c:115-154 | stepping back and then forward returns to the block; only the start of the arena stops it |
| HeapManager.Heap.AbsorbPrevBlock | Lab3/src/heapmgr2.c:307-314 | the free predecessor, if any, is found by its footer, taken out of its bin and absorbs the block |
| HeapManager.Heap.LinkFront | Lab3/src/heapmgr2.c:316-323 | the merged block becomes the head of the bin for its span |
| HeapManager.Heap.BinPushFront | Lab3/src/heapmgr2.c:286-324 | the block and its free neighbours become one free block over their union, first in the bin for its span with the other entries in their old order; the full invariant is restored, and the header read afterwards still says free even when it is inside the merged block |
| HeapManager.Heap.SplitUnits | Lab3/src/heapmgr2.c:213-225 | the stores of a split, footers included, in order |
| HeapManager.Heap.SplitForAlloc | Lab3/src/heapmgr2.c:186-232 | the block keeps its leading part and the trailing part is a used block of exactly need + 2 units |
| HeapManager.Heap.Sbrk | Lab3/src/heapmgr2.c:338-342 | the break moves up by exactly the request, or the call is refused and nothing changes |
| HeapManager.Heap.HeapBootstrap | Lab3/src/heapmgr2.c:39-49 | the bounds are fixed at the break once and never again |
| HeapManager.Heap.FindFit | Lab3/src/heapmgr2.c:372-376 | the loop over the bins in memory returns the first place with room, in bin order and then in list order, stated over lists and spans |
| HeapManager.Heap.ServeSplit | Lab3/src/heapmgr2.c:378-383 | a split request leaves a valid heap with the leading part back in its bin |
| HeapManager.Heap.ServeWhole | Lab3/src/heapmgr2.c:385-387 | an unsplit request leaves a valid heap |
| HeapManager.Heap.AllocateFrom | Lab3/src/heapmgr2.c:376-388 | the exact blocks, bins and pointer after serving from a given block |
| HeapManager.Heap.ExtendArena | Lab3/src/heapmgr2.c:338-347 | the new units form one free block in no bin, or nothing changes |
| HeapManager.Heap.SysGrowAndLink | Lab3/src/heapmgr2.c:326-353 | the arena grows by exactly 2 + max(need, 1024) units, coalesced with a free tail, or nothing changes |
| HeapManager.Heap.CountBinExist | Lab3/src/heapmgr2.c:67-76 | the loops count the occurrences of a block over all bins |
| HeapManager.Heap.CheckPhysicalBlocks | Lab3/src/heapmgr2.c:110-132 | the physical walk succeeds on every valid heap |
| HeapManager.Heap.CheckNode | Lab3/src/heapmgr2.c:142-179 | every per-node check succeeds on every valid heap |
| HeapManager.Heap.CheckBins | Lab3/src/heapmgr2.c:134-180 | the walk over the bins succeeds on every valid heap |
| HeapManager.Heap.CheckHeapValidity | Lab3/src/heapmgr2.c:78-183 | the debug-build validity check returns true on every heap that meets the invariant |
| HeapManager.Heap.GrowAndServe | Lab3/src/heapmgr2.c:392-423 | when nothing fits, the grown block serves, or the kernel refused and nothing changed |
| HeapManager.Heap.Request | Lab3/src/heapmgr2.c:369-424 | the exact outcome of a request of at least one unit |
| HeapManager.Heap.Malloc | Lab3/src/heapmgr2.c:355-424 | the invariant is kept; the outcome is exact, and in numbers: the first place with room, else the grown block; the call returns null only for size 0 or when the kernel refused; it is a step of the abstract allocator; no used unit changes |
| HeapManager.Heap.FreeBlock | Lab3/src/heapmgr2.c:439-447 | every assertion of the free path holds, and the outcome is exact |
| HeapManager.Heap.Free | Lab3/src/heapmgr2.c:426-449 | the invariant is kept, exactly one region is removed, the merged block is first in the bin for its span and nothing else moves in the bins, and no unit of a block still used changes |
| HeapManager.Heap.ClientWrite | Lab3/src/heapmgr2.c:387 | client stores to live payload keep the invariant |
| HeapManager.Heap.constructor | Lab3/src/heapmgr2.c:22-25 | the initial heap meets the invariant and has no live region |
| ChunkBase.SetBaseSpan | Lab3/reference/chunkbase.c:26 | writes the span word of the header only: there is no footer |
| BaseLayout.InsertKeepsInv | Lab3/reference/heapmgrbase.c:190-226 | linking a used block as free between its list neighbours keeps the list sorted and exactly the free blocks |
| BaseLayout.FuseAtKeepsInv | Lab3/reference/heapmgrbase.c:128-139 | merging a node with the next node keeps the list sorted and exactly the free blocks |
| BaseLayout.CarveAtKeepsInv | Lab3/reference/heapmgrbase.c:160-182 | splitting keeps the leading part's place in the list |
| BaseLayout.DetachAtKeepsInv | Lab3/reference/heapmgrbase.c:247-259 | taking a node off the list keeps it sorted and exactly the free blocks |
| BaseLayout.GrowKeepsInv | Lab3/reference/heapmgrbase.c:285-291 | a new used block at the end keeps the invariant |
| BaseSteps.PredecessorIsListed | Lab3/reference/heapmgrbase.c:228-230 | the free block that ends where a block starts, if any, is the list node before its place |
| BaseSteps.SuccessorIsListed | Lab3/reference/heapmgrbase.c:232-235 | a free block that starts where a node ends is the next list node, and conversely |
| BaseSteps.FreeingCoalesces | Lab3/reference/heapmgrbase.c:190-239 | merging with list neighbours alone coalesces completely: one block over the union, no two adjacent free blocks anywhere, used units untouched |
| BaseSteps.GrownFits | Lab3/reference/heapmgrbase.c:276-300 | the grown block is free, reaches the new end and has room; when it merged into a free tail it has room to spare, so it is always split and the backed-up predecessor is not needed |
| BaseSteps.GrowingKeepsClients | Lab3/reference/heapmgrbase.c:276-300 | growing and the merge after it change no live region |
| BaseSteps.ScanIsFirstFit | Lab3/reference/heapmgrbase.c:331-346 | the list scan finds the fitting free block of lowest address, or there is none in the arena |
| BaseSteps.OutcomeChooses | Lab3/reference/heapmgrbase.c:314-367 | which block serves a request, in numbers: the end of the lowest free block with room; else the new end after growing by 1 + max(need, 1024) units; or it is refused |
| BaseSteps.AllocatingAddsRegion | Lab3/reference/heapmgrbase.c:334-342 | serving adds one fresh region of exactly the requested size |
| BaseSteps.AllocatingKeepsApart | Lab3/reference/heapmgrbase.c:334-342 | serving leaves no two free blocks adjacent |
| BaseSteps.MallocRefines | Lab3/reference/heapmgrbase.c:314-367 | every outcome of a request is a step of an abstract allocator that never rounds up |
| BaseSteps.PayloadWriteKeepsInv | Lab3/reference/heapmgrbase.c:366 | a client store to a payload unit keeps the invariant |
| BaseHeap.Heap.CoalesceTwo | Lab3/reference/heapmgrbase.c:128-139 | in place: the lower node takes the units and the list link of the upper one; the four assertions hold |
| BaseHeap.Heap.FreelistPushFront | Lab3/reference/heapmgrbase.c:190-207 | freeing a block below the whole list leaves the coalesced blocks and a valid heap |
| BaseHeap.Heap.LinkAfter | Lab3/reference/heapmgrbase.c:221-226 | the three stores link the block after the given node |
| BaseHeap.Heap.MergeLower | Lab3/reference/heapmgrbase.c:228-230 | the lower list neighbour absorbs the block exactly when they touch |
| BaseHeap.Heap.MergeUpper | Lab3/reference/heapmgrbase.c:232-236 | the block above is absorbed exactly when it is free |
| BaseHeap.Heap.FreelistInsertAfter | Lab3/reference/heapmgrbase.c:215-239 | freeing a block after a given node leaves the coalesced blocks and a valid heap, and returns the merged block |
| BaseHeap.Heap.SplitForAlloc | Lab3/reference/heapmgrbase.c:160-182 | in place: the trailing part is a used block of exactly need + 1 units |
| BaseHeap.Heap.FreelistDetach | Lab3/reference/heapmgrbase.c:247-259 | in place: the node leaves the list and its block is used |
| BaseHeap.Heap.SysGrowAndLink | Lab3/reference/heapmgrbase.c:276-300 | the arena grows by exactly 1 + max(need, 1024) units, freed into the end of the list, or nothing changes |
| BaseHeap.Heap.Search | Lab3/reference/heapmgrbase.c:326-346 | the scan's current, previous and next-to-previous nodes are consecutive, and the current one is the first fit in address order |
| BaseHeap.Heap.ServeFrom | Lab3/reference/heapmgrbase.c:335-342 | the exact blocks and pointer after serving from a given node |
| BaseHeap.Heap.ServeGrown | Lab3/reference/heapmgrbase.c:355-366 | with the back-up after a merged growth, the predecessor passed on is the list predecessor |
| BaseHeap.Heap.CheckHeapValidity | Lab3/reference/heapmgrbase.c:43-81 | the debug-build validity check returns true on every heap that meets the invariant |
| BaseHeap.Heap.CheckFreeList | Lab3/reference/heapmgrbase.c:63-79 | no listed block touches the next one |
| BaseHeap.Heap.GrowAndServe | Lab3/reference/heapmgrbase.c:348-366 | when nothing fits, the grown block serves, or the kernel refused and nothing changed |
| BaseHeap.Heap.Malloc | Lab3/reference/heapmgrbase.c:314-367 | the invariant is kept; the outcome is exact: first fit in address order, else the grown block, else null by the kernel's refusal; a step of the abstract allocator; no used unit changes |
| BaseHeap.Heap.InsertionPoint | Lab3/reference/heapmgrbase.c:392-397 | the scan finds the free block of highest address below the block, or none: its place in the sorted list |
| BaseHeap.Heap.Free | Lab3/reference/heapmgrbase.c:379-406 | the invariant is kept, exactly one region is removed, the blocks are the coalesced ones, and no unit of a block still used changes |
| BaseHeap.Heap.ClientWrite | Lab3/reference/heapmgrbase.c:366 | client stores to live payload keep the invariant |
| LockSteps.NewLock | 202110421_assign5/rwlock.c:66-111 | a fresh lock is well formed |
| LockSteps.FindValidHead | 202110421_assign5/rwlock.c:57-63 | the first ticket at or after the start that is in its ring entry, or the next ticket |
| LockSteps.BatchScan | 202110421_assign5/rwlock.c:184-190 | the run of READ tickets from the start is maximal, and the scan ends |
| LockSteps.EntriesDiffer | 202110421_assign5/rwlock.c:25-31 | tickets less than a ring apart have different ring entries |
| LockSteps.HeadIsOldest | 202110421_assign5/rwlock.c:57-63 | on an intact queue the head scan skips nothing |
| LockSteps.JoinKeepsQueue | 202110421_assign5/rwlock.c:47-55 | with room in the ring, joining disturbs no queued ticket and queues the new one |
| LockSteps.ConsumeKeepsQueue | 202110421_assign5/rwlock.c:37-45 | consuming one's own entry disturbs no other queued ticket |
| LockSteps.ReadAttemptCases | 202110421_assign5/rwlock.c:154-204 | a ticketed reader's pass, in full: covered readers enter or find their entry gone, the front reader opens the maximal batch and broadcasts, all others wait and change nothing |
| LockSteps.WriteAttemptCases | 202110421_assign5/rwlock.c:267-302 | a writer's pass, in full: admitted exactly at the front with no reader, writer or quick reader in the way, else it waits and changes nothing; the error exit is not taken |
| RwLock.ReadWriteLock.constructor | 202110421_assign5/rwlock.c:66-111 | the object starts as the fresh lock |
| RwLock.ReadWriteLock.ConsumeEntry | 202110421_assign5/rwlock.c:37-45 | the in-place step is the value step |
| RwLock.ReadWriteLock.JoinFifo | 202110421_assign5/rwlock.c:47-55 | the in-place step is the value step |
| RwLock.ReadWriteLock.ValidHead | 202110421_assign5/rwlock.c:57-63 | the scan loop computes the specified head |
| RwLock.ReadWriteLock.ExtendBatch | 202110421_assign5/rwlock.c:184-190 | the batch loop computes the end of the run and moves the limit to it |
| RwLock.ReadWriteLock.LeadBatch | 202110421_assign5/rwlock.c:183-200 | the front reader's stores, loops included, are the value step |
| RwLock.ReadWriteLock.ReadPass | 202110421_assign5/rwlock.c:154-204 | one pass of the wait loop is the value step |
| RwLock.ReadWriteLock.WritePass | 202110421_assign5/rwlock.c:267-302 | one pass of the wait loop is the value step |
| RwLock.ReadWriteLock.AdmitFront | 202110421_assign5/rwlock.c:287-299 | the front writer's stores, second head scan included, are the value step, and its consume cannot fail |
| RwLock.ReadWriteLock.QuickPass | 202110421_assign5/rwlock.c:135-143 | one pass of the wait loop is the value step |
| RwLock.ReadWriteLock.ReadLock | 202110421_assign5/rwlock.c:145-204 | the call up to its first wait or its return is the value step, with the ticket it drew |
| RwLock.ReadWriteLock.QuickReadLock | 202110421_assign5/rwlock.c:126-143 | the call up to its first wait or its return is the value step |
| RwLock.ReadWriteLock.WriteLock | 202110421_assign5/rwlock.c:258-302 | the call up to its first wait or its return is the value step, with the ticket it drew |
| RwLock.ReadWriteLock.ReadRelease | 202110421_assign5/rwlock.c:225-240 | one reader fewer; it succeeds exactly when somebody was counted, and only the last one resets the batch limit and broadcasts |
| RwLock.ReadWriteLock.WriteRelease | 202110421_assign5/rwlock.c:322-332 | one writer fewer; it succeeds exactly when one was counted, resets the batch limit and always broadcasts |
| LockSystem.PassCounters | 202110421_assign5/rwlock.c:126-203 | what one pass does to the counters, for every kind of waiter |
| LockSystem.StepKeepsExclusive | 202110421_assign5/rwlock.c:113-336 | every step of every thread keeps exact counters and exclusion |
| LockSystem.MutualExclusion | 202110421_assign5/rwlock.c:113-336 | in every reachable state, for any number of threads and any ring size: at most one writer, never with readers; the writer count is exact, the reader count is exact up to readers that left through the failing consume, the quick-waiter count is exact |
| LockQueue.PassWaits | 202110421_assign5/rwlock.c:133-141 | a pass waits exactly in the stated cases and never takes the not-inserted exit |
| LockQueue.StepKeepsOrder | 202110421_assign5/rwlock.c:113-336 | every step keeps the queue exact and leaves no sleeper that could be admitted |
| LockQueue.ReachableIsOrderly | 202110421_assign5/rwlock.c:113-336 | with at most as many threads as ring entries all of this holds in every reachable state, and no call returns with the mutex locked |
| LockQueue.NoLostWakeup | 202110421_assign5/rwlock.c:133-141 | a thread asleep on the condition variable could not be admitted if it ran now |
| LockQueue.SomebodyIsAdmitted | 202110421_assign5/rwlock.c:235-238 | with both counts zero and somebody queued or quick-waiting, some awake thread's next step admits it |
| LockQueue.QueueIsExact | 202110421_assign5/rwlock.c:47-63 | the tickets from the oldest up to the next are exactly the waiting tickets no batch covered, each intact in the ring; the head scan skips nothing; any other waiting ticket is a covered READ ticket |
| LockFairness.StepKeepsFair | 202110421_assign5/rwlock.c:113-336 | every step, for any number of threads and any ring size, keeps the log in order, covered tickets below the queue, and the last ticket out while the queue is not empty |
| LockFairness.AdmissionsAreFair | 202110421_assign5/rwlock.c:161-200 | over whole runs, for any number of threads and any ring size: writers are admitted in ticket order and no ticketed reader before a writer with an earlier ticket |
| LockFairness.NobodyOvertakesAWriter | 202110421_assign5/rwlock.c:287-298 | with an entry for every thread: an admitted ticket is below every waiting writer's; a waiting ticket an admitted writer passes is a covered READ ticket |
| LockFairness.QuickReaderSeesNoNewWriter | 202110421_assign5/rwlock.c:126-143 | while a quick reader waits no writer is admitted, for any number of threads |
| LockFairness.OnlyABatchRaisesTheLimit | 202110421_assign5/rwlock.c:184-190 | in every reachable state, for any number of threads: the limit moves up only when a new batch is opened over a ticket not covered before |
| LockFairness.LeakShutsWritersOut | 202110421_assign5/rwlock.c:161-166 | after a failing consume no writer is ever admitted again |
| LockFairness.DestroyAllowedIff | 202110421_assign5/rwlock.c:338-366 | for any number of threads: destroying is allowed exactly when nothing is held, counted or quick-waiting and every thread still in a ticketed call has a ticket below the queue |
| LockLate.StepKeepsTimely | 202110421_assign5/rwlock.c:113-336 | every step keeps ring entries, distinct tickets and the batch limit as the next three rows say |
| LockLate.EntryKeptIff | 202110421_assign5/rwlock.c:37-55 | for any number of threads: a waiting ticket is still in its ring entry exactly while fewer than a ring of later tickets have been issued |
| LockLate.LimitNeedsReaders | 202110421_assign5/rwlock.c:235-237 | for any number of threads: the batch limit is up only while somebody is counted as reading and no writer is active |
| LockLate.LateReaderAdmittedIff | 202110421_assign5/rwlock.c:154-169 | for any number of threads, a reader left below the queue: granted exactly while a batch up to its ticket or later is being read and fewer than a ring of later tickets are out; failing exactly when such a batch is being read and at least a ring of later tickets are out; waiting exactly when no such batch is being read, so always when nobody is counted as reading |
| LockBatches.LimitStands | 202110421_assign5/rwlock.c:225-240 | for any number of threads: the batch limit comes down only when the last reader counted leaves, and a release that leaves readers behind does not move it |
| LockBatches.CoveredReaderIsServed | 202110421_assign5/rwlock.c:160-169 | over every run in which somebody stays counted as reading: a covered reader never waits again when it runs; it is granted while fewer than a ring of later tickets are out, and fails after |
| LockBatches.WokenIff | 202110421_assign5/rwlock.c:126-336 | for any number of threads, exactly which steps wake the sleepers: a writer leaving, the last reader leaving, a batch opening and a waiting quick reader entering |
| LockBatches.WaitingRepairsFront | 202110421_assign5/rwlock.c:170-203 | a ticketed pass that waits, not for the holders, moves the front of the queue to the first ticket left in the ring and changes nothing else |
| LockBatches.QuickCallIff | 202110421_assign5/rwlock.c:126-143 | for any number of threads: a quick call enters at once exactly when no thread is writing, whatever is queued, and otherwise sleeps; it draws no ticket |
| LockRing.EnoughEntries | 202110421_assign5/rwlock.c:47-63 | with an entry for every thread no waiting writer loses its entry or is overtaken, every waiting ticket is queued in its entry or covered, and no call returns with the mutex locked |
| LockRing.TooFewEntries | 202110421_assign5/rwlock.c:47-63 | for every larger number of threads there are runs in which all four happen |
| LockRing.RingBoundIsExact | 202110421_assign5/rwlock.c:275-298 | for every number of threads and ring size: a lost entry, a ticket out of place, an overtaken writer and a locked mutex are each excluded in all reachable states exactly when there are at most as many threads as entries |
| LockWakeups.PassBlocks | 202110421_assign5/rwlock.c:154-204 | with one ring entry: a pass waits when the thread is blocked by the holders or by the last ticket issued, and leaves it waiting only then |
| LockWakeups.StepKeepsSingle | 202110421_assign5/rwlock.c:113-336 | with one ring entry every step of any number of threads leaves every sleeper blocked, unless a call returns with the mutex locked |
| LockWakeups.OneEntryLosesNoWakeup | 202110421_assign5/rwlock.c:133-141 | with one ring entry, for any number of threads: no sleeper could be admitted, and a free lock with somebody waiting has somebody awake to admit |
| LockWakeups.EverybodySleeps | 202110421_assign5/rwlock.c:275-298 | with two entries or more, and more threads than that, a run ends with the lock free, the thread at the front admissible, and every thread in a call asleep |
| LockWakeups.WakeupsAreExact | 202110421_assign5/rwlock.c:133-298 | for every number of threads and ring size, while no call has returned with the mutex locked: no wakeup is lost, and a free lock with somebody waiting has somebody awake to admit, each exactly when there is an entry for every thread or only one entry; everybody can sleep on a free lock exactly otherwise |
| LockRuns.AloneIsSafe | 202110421_assign5/rwlock.c:113-244 | a single thread is never stranded, never fails and leaves no count behind |
| LockRuns.OverrunReader | 202110421_assign5/rwlock.c:161-166 | a reader left behind is made to fail by another thread that reads until a ring of later tickets is out |
| LockRuns.TwoThreadsSuffice | 202110421_assign5/rwlock.c:154-190 | for every ring size: a reader can sleep with nothing held and destroying allowed, a read lock call can fail, and a reader count can outlive all users, each exactly when there are at least two threads |
| HashFunction.Hash | 202110421_assign5/hashtable.c:10-21 | the loop computes the sum of the characters, each times 32 to the number of characters after it, modulo 2^32 and then modulo the table size, with signed characters |
| HashFunction.RoundsWeigh | 202110421_assign5/hashtable.c:14-18 | the 32-bit value is that weighted sum modulo 2^32 |
| HashFunction.SameValueIff | 202110421_assign5/hashtable.c:14-18 | exactly when changing one character leaves the 32-bit value as it was: never for the last five, for the sixth from the end only by a change of 128, for the seventh by a multiple of 4, and always before that |
| HashFunction.LastSixCount | 202110421_assign5/hashtable.c:14-18 | for keys of plain characters, changing any one of the last six changes the 32-bit value |
| HashFunction.SixthFromTheEnd | 202110421_assign5/hashtable.c:14-18 | with bytes above 127 two keys that differ in the sixth character from the end alone can have one value |
| HashFunction.RoundsAppend | 202110421_assign5/hashtable.c:14-18 | hashing a concatenation continues from the hash of the first part |
| HashFunction.SevenRoundsForget | 202110421_assign5/hashtable.c:14-18 | seven further characters erase every trace of the characters before them |
| HashFunction.SameTailSameBucket | 202110421_assign5/hashtable.c:10-21 | keys that end in the same seven characters share a bucket, for every table size |
| HashTable.PushKeepsPlaces | 202110421_assign5/hashtable.c:170-173 | a node with a new key at the front of its chain keeps placement and uniqueness |
| HashTable.UnlinkKeepsPlaces | 202110421_assign5/hashtable.c:281-291 | unlinking a node keeps placement and uniqueness |
| HashTable.Table.constructor | 202110421_assign5/hashtable.c:65-83 | the fresh table is valid and represents the empty map |
| HashTable.Table.Locate | 202110421_assign5/hashtable.c:278-297 | the chain walk finds the key's node and its predecessor, or the key is in no chain of the table |
| HashTable.Table.Insert | 202110421_assign5/hashtable.c:131-179 | result and effect are the map's: 0 and nothing for a present key, else 1 and exactly that key added |
| HashTable.Table.PushNode | 202110421_assign5/hashtable.c:148-173 | the new node is linked at the front of its bucket and the counter follows |
| HashTable.Table.Read | 202110421_assign5/hashtable.c:194-213 | result and value are the map's |
| HashTable.Table.Update | 202110421_assign5/hashtable.c:228-257 | result and effect are the map's, other keys untouched |
| HashTable.Table.SetValue | 202110421_assign5/hashtable.c:244-247 | the value and its stored size change together |
| HashTable.Table.Delete | 202110421_assign5/hashtable.c:271-303 | result and effect are the map's, other keys untouched |
| HashTable.Table.Unlink | 202110421_assign5/hashtable.c:282-291 | the node leaves its chain, acyclic and linked as before, and the counter follows |
| TableRuns.DecisionIsAStep | 202110421_assign5/hashtable.c:138-173 | acting at the place the walk reached is one legal step of the sequential map |
| TableHistory.AnswerIsMaps | 202110421_assign5/hashtable.c:138-146 | what a walk decides at the key's place, or at the end, is the map's answer |
| TableHistory.ChainsFollowMap | 202110421_assign5/hashtable.c:120-304 | the chain after the decision represents the map after the operation |
| TableRuns.NobodyElseHolds | 202110421_assign5/hashtable.c:131-176 | from its lock grant to its unlock a writing operation shares its bucket with nobody |
| TableRuns.ActionKeepsExplained | 202110421_assign5/hashtable.c:120-304 | every action of every thread keeps the history explained |
| TableRuns.EveryRunIsLinearizable | 202110421_assign5/hashtable.c:120-304 | every interleaving of table operations by any number of threads, over the buckets' locks and any ring size, is explained by one sequential run on one map, and the chains represent that map |
| TableRuns.ChainIsProtected | 202110421_assign5/hashtable.c:134-176 | between its lock grant and its unlock no other thread's action changes the bucket's chain or counter |
| TableRuns.OnlyQuickReadsSkipTheQueue | 202110421_assign5/hashtable.c:194-196 | every operation but a quick read draws a ticket at its bucket's lock |
| TableRuns.QuickReadStartsAtOnce | 202110421_assign5/hashtable.c:194-196 | in every reachable state a quick read whose bucket no writing operation holds starts its walk at once, whoever is queued |
| TableRuns.CountersAreExact | 202110421_assign5/hashtable.c:170-176 | a bucket's counter is its chain's length in every reachable state, except between the two stores of an insertion or deletion there, which no other holder of the lock can see |
| TableRuns.EffectWithinCall | 202110421_assign5/hashtable.c:120-304 | every operation that returned took effect after its call and before its return, with the answer it returned |
| PatternSyntax.CloseInIs | Lab2/202110421_assign2/dirtree.c:234-246 | the bracket found is the first place where the level falls back |
| PatternSyntax.ScanForClose | Lab2/202110421_assign2/dirtree.c:234-246 | the depth-counting loop finds the matching bracket or reports none |
| PatternSyntax.ParsePrint | Lab2/202110421_assign2/dirtree.c:248-271 | reading what atoms print gives the atoms back |
| PatternSyntax.PrintParse | Lab2/202110421_assign2/dirtree.c:248-271 | printing what was read gives the pattern back |
| PatternSyntax.PatternsParse | Lab2/202110421_assign2/dirtree.c:248-271 | a string is a pattern exactly when it is non-empty and parses |
| PatternSyntax.ValidatePattern | Lab2/202110421_assign2/dirtree.c:248-271 | the check accepts exactly the strings that print from a non-empty sequence of atoms |
| PatternMatch.PrefixSplits | Lab2/202110421_assign2/dirtree.c:287-375 | a prefix matches exactly when the first atom takes part of it and the rest matches what follows |
| PatternMatch.StarMatches | Lab2/202110421_assign2/dirtree.c:351-362 | a repeated character takes nothing or one more copy |
| PatternMatch.GroupStarMatches | Lab2/202110421_assign2/dirtree.c:318-331 | a repeated group takes nothing or one more spelling of its body |
| PatternMatch.EmptyMatchesIff | Lab2/202110421_assign2/dirtree.c:290-308 | the empty string matches exactly when every atom can be repeated away |
| PatternMatch.MatchGroupOnce | Lab2/202110421_assign2/dirtree.c:273-283 | how many characters the body takes, or -1 when it is not there |
| PatternMatch.SpelledLength | Lab2/202110421_assign2/dirtree.c:333-342 | the inner loop reaches the body's length exactly when the string starts with a spelling of it |
| PatternMatch.SkipStars | Lab2/202110421_assign2/dirtree.c:290-308 | the end-of-string branch decides whether the rest matches the empty string |
| PatternMatch.TryStar | Lab2/202110421_assign2/dirtree.c:351-362 | backtracking over copies of a character loses no match and invents none |
| PatternMatch.TryGroupStar | Lab2/202110421_assign2/dirtree.c:318-331 | backtracking over spellings of a group loses no match and invents none, and ends because a body is not empty |
| PatternMatch.Submatch | Lab2/202110421_assign2/dirtree.c:287-375 | true exactly when some prefix of the string is in the pattern's language; it terminates on every accepted pattern |
| PatternMatch.SubstringIffPrefix | Lab2/202110421_assign2/dirtree.c:382-384 | a substring matches exactly when a prefix of some suffix does |
| PatternMatch.Match | Lab2/202110421_assign2/dirtree.c:378-387 | true exactly when some contiguous substring is in the pattern's language |
| PatternDocs.FixedPatternMeetsDocumentation | Lab2/202110421_assign2/dirtree.c:351-362 | on every pattern and name, the documented meaning is the program's meaning of the pattern with each `?*` written as `(?)*`, which is again a pattern the matcher accepts |
| PatternDocs.PlainPatternsAgree | Lab2/202110421_assign2/dirtree.c:287-375 | without `?*` the program meets the documentation on every name |
| PatternDocs.ProgramWithinDocs | Lab2/202110421_assign2/dirtree.c:287-375 | the program matches nothing the documentation does not |
| PatternDocs.AnyLongWord | Lab2/202110421_assign2/dirtree.c:318-331 | wild atoms with a `(?)*` among them match every string at least as long as their shortest word |
| PatternDocs.CoveredWord | Lab2/202110421_assign2/dirtree.c:318-362 | where only wild atoms stand between every `?*` and some `(?)*`, every documented word is a word of the program's language |
| PatternDocs.HarmlessAgrees | Lab2/202110421_assign2/dirtree.c:287-375 | where every `?*` has only wild atoms before it, after it, or between it and some `(?)*`, program and documentation agree on every name |
| PatternGap.WordDemand | Lab2/202110421_assign2/dirtree.c:287-375 | every word of the program's language has at least as many characters other than an unused one as the shortest word |
| PatternGap.RunGaps | Lab2/202110421_assign2/dirtree.c:318-362 | of an unused character alone, wild atoms without `(?)*` match the shortest length or at least two more, never one more |
| PatternGap.SeparatingName | Lab2/202110421_assign2/dirtree.c:351-362 | for every other `?*`, a name that the documentation matches and the program misses: the shortest word with one character too many beside the `?*` |
| PatternGap.AgreesOnEveryNameIff | Lab2/202110421_assign2/dirtree.c:351-362 | for all patterns that leave some character unused: program and documentation agree on every name exactly when every `?*` has only wild atoms before it, after it, or between it and some `(?)*` |
| PatternGap.QuestionStarMissesAName | Lab2/202110421_assign2/dirtree.c:351-361 | by the documentation the pattern a?*b matches the name axb, and a(?)*b?*c the name abxc; the program says neither does; with the atoms each of the two strings is read as |
| DirTree.ListedIff | Lab2/202110421_assign2/dirtree.c:599-655 | a line is printed exactly for an entry within the limit that is kept, or a bare name for a directory with something kept below it |
| DirLines.VisibleIff | Lab2/202110421_assign2/dirtree.c:599-655 | the depth limit in numbers: entries of the directory listed are always within it, and what is below them exactly when its own depth is at most the limit |
| DirLines.LineShowsEntry | Lab2/202110421_assign2/dirtree.c:583-650 | every line shows the name of the entry its path leads to, a full line its kind, size and blocks too, and a line is full exactly when the name matches |
| DirLines.LinesAre | Lab2/202110421_assign2/dirtree.c:599-655 | an entry has a line exactly when its name, or that of something below it within the limit, matches |
| DirLines.ListingSorted | Lab2/202110421_assign2/dirtree.c:556-655 | the lines stand in lexicographic order of their paths: an entry, then all that is below it, then the next entry of its directory |
| DirTree.HeadBeforeBelow | Lab2/202110421_assign2/dirtree.c:625-646 | nothing is printed below a directory that has no line itself |
| DirTree.ListingOrder | Lab2/202110421_assign2/dirtree.c:560-655 | no entry has two lines and every line's parent has an earlier line |
| DirTree.AncestorBefore | Lab2/202110421_assign2/dirtree.c:625-646 | every ancestor of a printed entry is printed before it |
| DirTotals.SummaryCountsMatches | Lab2/202110421_assign2/dirtree.c:143-167 | the summary of a listing counts, for each kind, exactly the matching entries within the depth limit, and adds up exactly their sizes and blocks |
| DirTree.SumOfAppend | Lab2/202110421_assign2/dirtree.c:143-167 | totals add up over consecutive lines |
| DirTree.EntryMatchesFilter | Lab2/202110421_assign2/dirtree.c:389-394 | true exactly when there is no filter or some substring of the name matches |
| DirTree.SubtreeHasMatch | Lab2/202110421_assign2/dirtree.c:396-441 | true exactly when some entry of the subtree within the limit is kept |
| DirTree.Listing.AddEntry | Lab2/202110421_assign2/dirtree.c:143-167 | one entry adds its kind, size and blocks to the summary and nothing else |
| DirTree.Listing.PrintHead | Lab2/202110421_assign2/dirtree.c:622-642 | prints and counts the entry's own line as specified, and reports whether it or anything below is kept |
| DirTree.Listing.ProcessEntry | Lab2/202110421_assign2/dirtree.c:602-655 | prints the specified lines of one entry and below, and reports whether anything was kept |
| DirTree.Listing.ProcessDir | Lab2/202110421_assign2/dirtree.c:531-660 | appends exactly the specified lines, counts exactly the full ones, and returns what the subtree search predicts |

## Left out

- BytesToPayloadUnits: the addition does not wrap at the width of `size_t`; a size close to the maximum is outside the model.
- Both heaps: spans are unbounded integers, so a request whose span does not fit an `int` is not modelled.
- Both heaps: other callers of `sbrk` in the process, a failing first `sbrk(0)`, and shrinking the break.
- HeapManager.Heap.Free: a call before the first allocation, even with null, fails the source's first assertion, so the bounds must be fixed; the baseline heap has no such assertion and its `Free` accepts null at any time.
- Both heaps: freeing a pointer that is neither null nor a live region is client misuse.
- HeapManager.Heap.CheckHeapValidity: the checks of alignment to 16 bytes and of null arguments are always met by unit addresses and are not written out.
- `Lab3/src/heapmgr1.c`: a single-list relative of the segregated heap.
- `Lab3/past_ lab3`, `Lab3/reference/heapmgrkr.c` and `heapmgrgnu.c`: superseded drafts, the Kernighan and Ritchie allocator and a wrapper of the C library.
- The header that fixes WRITER_RING_SIZE is not part of this model; the ring has any positive size.
- LockSystem.MutualExclusion: threads use the lock as its callers do, so releasing without holding is not a step of the transition system; the release methods of `RwLock` do model the error results.
- LockFairness.AdmissionsAreFair: the log holds ticketed admissions; quick readers have no ticket and are covered by `QuickReaderSeesNoNewWriter`.
- Lock: the delays, failures of mutex, condition variable and memory allocation, null arguments, and tickets beyond the width of `int`.
- Lock: liveness under a scheduler. `SomebodyIsAdmitted` and `NoLostWakeup` are the facts about each state that it would rest on.
- LockSystem.MutualExclusion: a call that returns with the mutex locked stops the whole system; nothing is said of threads that then block on the mutex.
- PatternGap.AgreesOnEveryNameIff: speaks of patterns that leave some character other than `?` unused; for a pattern that names every other character, `HarmlessAgrees` and `FixedPatternMeetsDocumentation` hold all the same.
- HashTable.Table.Insert: memory allocation failures and null arguments are not modelled, nor is `hash_destroy` or `hash_dump`.
- HashTable.Table.Read: the copy into the caller's buffer is the returned value; the buffer's length is not modelled.
- TableRuns.EveryRunIsLinearizable: allocating, filling and freeing a node and copying a value out belong to the step that changes or reads the chain, and an update's two stores, value and stored size, are one step.
- `202110421_assign5/server.c`: sockets, signals and threads around a request handler that is not part of this model.
- DirTree.Listing.ProcessDir: the order that sorting gives to the entries of a directory is whatever order the tree lists them in.
- DirTree.Listing.ProcessDir: system calls and their failures, permission errors, path lengths, the formatting of lines and counters wrapping at 32 bits.
- `Lab1`: the comment remover.
