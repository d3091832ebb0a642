# A verified model of the kernel's memory, scheduling and enumeration core

This project models the stateful core of a 32-bit x86 kernel in Dafny and proves what it keeps over whole
runs: the boundary-tag heap and its hole index, the round-robin scheduler with its linked queues and its sleep
heap, the frame bitmap under two-level paging (including the boot sequence), the recursive PCI scan, and the
word-wide memory and number/token routines of the library headers.

The code changes things in place, and so does the model: each source object is a class whose methods rewrite
fields, arrays and links. Every such method is proved equal to a function on values (`HeapModel`, `Scheduling`,
`SleepHeap`, `PageMaps`, ...), and the laws are lemmas about those functions: invariants of every step, safety
of every run, conservation, bounded waiting, refinement, round trips.

| part | specification and laws | object |
|---|---|---|
| heap | `HeapModel`, `HeapTiling`, `HeapProofs`, `HeapSafety`, `HeapAligned`, `HeapRuns`, `HeapFooters`, `HeapOrder`, `HeapLimits`, `HeapAlignedLimits`, `HeapAlignedSearch`, `HeapTables`, `HeapWitnesses`, `HeapFullIndex` | `HeapManagers`, `OrderedArrays` |
| scheduler | `SleepHeap`, `Scheduling`, `SchedulingProofs`, `SchedulingSteps`, `SchedulingRuns`, `SchedulingLosses`, `SchedulingZombies`, `SchedulingBoot` | `TaskQueues`, `SleepQueues`, `Schedulers` |
| paging | `PageMaps`, `PageTables` | `PhysicalMemory`, `PagingManagers`, `Boot` |
| PCI | `Pci` | `Pci` |
| library | `FastMemory`, `Text`, `Tokens` | `Tokens` |

The central definitions:

- `HeapSafety.Sound(h, live)`: some list of blocks tiles `[start, end)`, every block carries a header and a
  footer in byte memory that agree with it, the index is exactly the multiset of hole addresses, and the used
  blocks are exactly those callers hold, each with the bytes asked for.
- `SchedulingProofs.Inv(s)`: no task is in more than one of current, ready, asleep and zombie; the sleep array
  is a min-heap by wake tick; every queue holds only tasks in the states that belong there.
- `PageMaps.Inv(s)`: no two present pages share a frame, the set bits are exactly the mapped frames, and the
  counter is their number; `PageMaps.BackedInv(s, backed)` says so of the pages whose frames came from the bitmap.
- `PageTables.DirectoryOk(places, dirs, pages, enabled)`: a directory entry is present exactly where there is a table,
  and holds the frame that table lies in, which no other table lies in. The processor's walk is `PageTables.WalksTo`.

## Where the code does less than its names promise

The model follows the code. Where a natural law is false of it, the exact condition is proved, with a failing input.
The failing inputs of the heap are states that runs of the kernel's own heap reach.

- The expansion of the heap grows the hole with the highest address, even when that hole does not end the
  heap, and its 32-bit sums may wrap; it then hands out memory that is in use or past the end
  (`HeapLimits.ExpansionSoundIff`, `HeapWitnesses.GrowthWitness`, `HeapWitnesses.WrapGrowthWitness`).
- The growth covers the request but not its alignment offset: an aligned request within the limit may answer NULL
  after the heap has grown (`HeapAlignedLimits.AlignedExpansionIff`, `HeapWitnesses.AlignedNullWitness`).
- An expansion onto a page without a page table asks the heap for one before its end moves; with no hole for it the
  request never returns (`HeapTables.TableReturnsIff`, `HeapTables.TableWitness`).
- The right-neighbour test of `unallocate` adds `sizeof(heap_footer_t)` to a footer pointer, which is 64 bytes
  (`HeapLimits.FreeSoundIff`, `HeapWitnesses.FreeWitness`).
- A full index drops a new hole silently: a freed block with no hole below it, or the tail of an aligned block, is
  then lost (`HeapLimits.FreeSoundIff`, `HeapAlignedLimits.AlignedSoundIff`, `HeapFullIndex.FullIndexWitness`).
- A left merge enlarges a hole without moving it in the size-ordered index (`HeapOrder.FreeOrderedIff`,
  `HeapWitnesses.OrderWitness`).
- Aligned allocation always cuts a front gap above the first page, even an empty one, and compares sizes as signed
  numbers (`HeapAlignedLimits.AlignedSoundIff`, `HeapWitnesses.AlignedWitness`); it leaves the front hole in the slot
  of the hole it came from (`HeapOrder.AlignedOrderedIff`, `HeapWitnesses.AlignedOrderWitness`).
- A request whose size wraps once the tags are added is served with too little (`HeapSafety.ServedSoundIff`,
  `HeapWitnesses.WrapWitness`).
- `heap_manager_init` writes no footer: until a block has been handed out or the heap has grown, its one hole has a
  footer only if the memory held it before (`HeapFooters.FootersIff`, `HeapFooters.InitialFooter`).
- An exiting task reaches no queue, so the cleaner never frees its slot (`SchedulingLosses.ExitLoses`,
  `SchedulingLosses.LostForGood`); the first dispatch after boot loses the cleaner thread itself
  (`SchedulingBoot.CleanerLostAtBoot`); a sleep with a full sleep queue loses its caller (`SchedulingSteps.SleepInv`).
- In every run from boot the zombie queue stays empty: nothing is ever cleaned and no slot becomes free again
  (`SchedulingBoot.NeverCleans`, `SchedulingBoot.NeverFreed`). What would happen to a zombie in another state is
  `SchedulingZombies.ZombieRunsIff` and `SchedulingZombies.DeadNeverRuns`; no run of the kernel holds one.
- A sleep whose wake tick wraps queues its caller twice (`SchedulingLosses.NapInvIff`, `SchedulingBoot.NapWitness`),
  and `ms * hz` wraps (`SchedulingLosses.SleepTicksExact`).
- A bridge whose subordinate bus is 255 is scanned forever (`Pci.RangeEndsIff`), and so is a range of pages that
  reaches the last page (`PageMaps.RangeEndsIff`).
- The identity mapping of page 0 takes a frame from the bitmap (`PageMaps.IdentityIff`), and mappings to a
  chosen frame are not recorded there (`PageMaps.FixedFrameInvIff`, `PageMaps.ChosenFrameSharedIff`): the kernel's
  own mapping of low memory shares a frame with its second page (`PageMaps.LowMemoryBreaksInv`). Among the pages
  whose frames came from the bitmap the invariant survives (`PageMaps.RunInv`).
- A page table that cannot be allocated costs a frame and maps nothing (`PageMaps.LosePageInvIff`), and its directory
  entry is marked present without a table behind it (`PageTables.AnsweredIff`). A page that holds a table is released
  like any other, and the directory keeps its frame (`PageTables.ReleasedIff`).
- The signed printer is wrong for the least integer, and for negative numbers in every base but 10
  (`Text.PrintedRightIff`, `Text.SignedRoundTripIff`).

## Model

| member | source | states |
|---|---|---|
| OrderedArrays.Slot | src/ordered-array.c:32-39 | the binary search ends between an item that is less and one that is not, in order or not |
| OrderedArrays.InsertedContents | src/ordered-array.c:28-48 | insertion adds exactly the item when there is room and nothing when full |
| OrderedArrays.InsertedInOrder | src/ordered-array.c:28-48 | insertion keeps an array ordered by any key the comparison compares by |
| OrderedArrays.RemovedContents | src/ordered-array.c:50-57 | removal takes out exactly the indexed item; an index past the end is ignored |
| OrderedArrays.RemovedInOrder | src/ordered-array.c:50-57 | removal keeps the order |
| OrderedArrays.OrderedArray.Insert | src/ordered-array.c:28-48 | the in-place shift inserts at the binary-search slot and reports whether there was room |
| OrderedArrays.OrderedArray.Search | src/ordered-array.c:32-39 | the binary search loop finds that slot |
| OrderedArrays.OrderedArray.Remove | src/ordered-array.c:50-57 | the in-place shift removes the indexed item |
| HeapModel.FindFrom | src/kernel/memory-mangement/heap-manager.c:157-196 | the first indexed hole that fits, aligned or not, or none when none fits; what fits is `HeapAlignedSearch.FitsAlignedIff` |
| HeapAlignedSearch.FirstBoundary | src/kernel/memory-mangement/heap-manager.c:165-176 | the alignment offset leads to the first page boundary that leaves room for a header in front of it |
| HeapAlignedSearch.FitsAlignedIff | src/kernel/memory-mangement/heap-manager.c:165-182 | below 2^31 bytes, a hole is taken for an aligned request exactly when some page boundary in it leaves room for a header before and the request after |
| HeapAlignedSearch.AlignedFitsIff | src/kernel/memory-mangement/heap-manager.c:157-196 | on a heap below 2^31 bytes the aligned search succeeds exactly when some hole of the tiling holds such a boundary |
| HeapAlignedSearch.AlignedServedIff | src/kernel/memory-mangement/heap-manager.c:246-372 | an aligned request is answered without growing the heap exactly when some hole of the tiling holds it: it expands the heap or answers NULL only if none does |
| HeapAlignedSearch.FirstBoundaryTaken | src/kernel/memory-mangement/heap-manager.c:322-344 | the payload of an aligned request is the first page boundary of its hole that leaves room for a header |
| HeapAlignedSearch.WasteBounded | src/kernel/memory-mangement/heap-manager.c:315-320 | a block is handed out whole exactly when fewer than 20 bytes would be left over: never 20 bytes more than asked for |
| HeapAlignedSearch.NullIff | src/kernel/memory-mangement/heap-manager.c:246-309 | an unaligned request answers NULL exactly when every hole of the tiling is too small for it with its tags and the limit lies below what it needs |
| HeapModel.Highest | src/kernel/memory-mangement/heap-manager.c:265-281 | the indexed hole with the highest address; none only if no address is above zero |
| HeapProofs.CarveTiled | src/kernel/memory-mangement/heap-manager.c:311-371 | carving replaces one hole by a used block and a possible tail in the tiling and writes only inside that hole |
| HeapTiling.TagBytes | include/kernel/data-structures/memory-management/heap-structures.h:9-26 | the bytes of header and footer, and that writing them changes no other byte |
| HeapProofs.GrowFresh | src/kernel/memory-mangement/heap-manager.c:261-295 | with no hole, growth appends one hole that covers the new bytes |
| HeapProofs.GrowLast | src/kernel/memory-mangement/heap-manager.c:296-306 | a hole that ends the heap takes the new bytes, its tags follow, and its index slot stays |
| HeapProofs.FreedIff | src/kernel/memory-mangement/heap-manager.c:402-421 | a release gives pages back exactly when the freed bytes, with what the right test adds, reach the end of the heap |
| HeapProofs.FreePlain | src/kernel/memory-mangement/heap-manager.c:374-453 | with no hole below and room in the index, a freed block becomes a hole of the tiling, indexed by size |
| HeapProofs.FreeMerge | src/kernel/memory-mangement/heap-manager.c:388-400 | with a hole below, the two become one hole that keeps the old index slot, whatever room the index has |
| HeapSafety.CarveSound | src/kernel/memory-mangement/heap-manager.c:311-371 | an allocation from a hole returns a payload nobody holds and keeps every held byte |
| HeapSafety.GrowSound | src/kernel/memory-mangement/heap-manager.c:252-309 | growth of a hole that ends the heap, or of an empty index, keeps the heap sound and leaves a hole that fits |
| HeapSafety.AllocateSound | src/kernel/memory-mangement/heap-manager.c:246-372 | unaligned allocation, also through the expansion, is sound; it returns NULL exactly when no hole fits and the limit test, in 32 bits, refuses, and then changes nothing |
| HeapSafety.ServedSoundIff | src/kernel/memory-mangement/heap-manager.c:246-250 | a request some hole answers is sound exactly when its size does not wrap with the tags added |
| HeapSafety.WrappedRequestUnsound | src/kernel/memory-mangement/heap-manager.c:246-250 | a request that wraps is never served soundly, on any path |
| HeapSafety.FreeSound | src/kernel/memory-mangement/heap-manager.c:374-453 | freeing a held block that can be recorded keeps the heap sound for the other callers and keeps their bytes, also with a full index when a hole lies below |
| HeapAligned.AlignedSound | src/kernel/memory-mangement/heap-manager.c:311-371 | aligned allocation returns a page-aligned payload nobody holds, keeps the heap sound, and leaves the front hole in the index; an exact fit needs no room in the index |
| HeapAligned.AlignedRequestSound | src/kernel/memory-mangement/heap-manager.c:246-372 | an aligned request, also through the expansion, is served soundly or answers NULL on a sound heap; NULL exactly when no hole fits (`HeapAlignedSearch.AlignedFitsIff`) and the limit refuses or no hole of the grown heap fits |
| HeapAlignedLimits.AlignedSoundIff | src/kernel/memory-mangement/heap-manager.c:157-196 | aligned allocation from a hole is sound exactly when the front gap is at least 20 bytes and the tail is 0, or at least 20 with room in the index; a hole that fits only as a signed number never is |
| HeapAlignedLimits.AlignedExpansionIff | src/kernel/memory-mangement/heap-manager.c:250-309 | an aligned request that expands the heap is answered exactly when the grown hole fits it behind its alignment offset (`HeapAlignedSearch.FirstBoundary`), else NULL and the heap has grown |
| HeapAlignedSearch.AlignedNullIff | src/kernel/memory-mangement/heap-manager.c:246-309 | when the highest hole ends the heap, an aligned request answers NULL exactly when no hole of the tiling holds it and the limit refuses or the grown hole, from its start to the new end, has no page boundary with room |
| HeapWitnesses.AlignedNullWitness | src/kernel/memory-mangement/heap-manager.c:250-309 | a run of the kernel's heap reaches a state in which a request for an aligned page, within the limit, grows the heap and answers NULL |
| HeapTables.PresentIsAllocate | src/kernel/memory-mangement/heap-manager.c:198-219 | with page tables for the new pages, the request with its mapping is the pure allocation |
| HeapTables.NeverReturns | src/kernel/memory-mangement/paging-manager.c:186-203 | with no hole for a missing page table the request runs into the same page at every depth |
| HeapTables.TableReturnsIff | src/kernel/memory-mangement/paging-manager.c:186-203 | an expansion that needs one more page table, for a page the expansion for that table would map too, returns exactly when some hole fits the table |
| HeapTables.TableWitness | src/kernel/memory-mangement/paging-manager.c:186-203 | a run of the kernel's heap reaches a state in which a request for 20 bytes never returns |
| HeapRuns.InitialInv | src/kernel/memory-mangement/heap-manager.c:33-81 | initialization establishes the invariant with one hole and nothing held |
| HeapRuns.InitialExtent | src/kernel/memory-mangement/heap-manager.c:61-71 | the heap starts at the first page boundary above its index of four bytes an entry and ends where it is told to |
| HeapRuns.StepKeepsInv | src/kernel/memory-mangement/heap-manager.c:246-453 | each malloc, aligned malloc, free and caller's write keeps the invariant |
| HeapFooters.OneTiling | src/kernel/memory-mangement/heap-manager.c:374-386 | the tags determine the blocks: a heap has one tiling |
| HeapFooters.InitialFooter | src/kernel/memory-mangement/heap-manager.c:71-78 | after initialization the one hole has a footer exactly when the memory held it before |
| HeapFooters.FootersIff | src/kernel/memory-mangement/heap-manager.c:33-453 | in every run every block carries both tags exactly when a block has been handed out or the heap has grown, or the memory held the first footer before |
| HeapRuns.RunKeepsInv | src/kernel/memory-mangement/heap-manager.c:246-453 | the invariant holds throughout every run, with the end less than a page past its limit |
| HeapRuns.LiveDisjoint | src/kernel/memory-mangement/heap-manager.c:246-453 | payloads held at once are inside the heap and pairwise disjoint, tags included |
| HeapRuns.StepKeepsBytes | src/kernel/memory-mangement/heap-manager.c:246-453 | no call of malloc or free changes a byte that a caller holds before and after it |
| HeapRuns.WriteSound | src/kernel/memory-mangement/heap-manager.c:374-386 | arbitrary writes by callers into their payloads reach no tag |
| HeapRuns.AllocateEnd | src/kernel/memory-mangement/heap-manager.c:198-219 | an expansion overshoots the limit by less than a page, also when its sums wrap |
| HeapLimits.ExpansionSoundIff | src/kernel/memory-mangement/heap-manager.c:252-309 | an allocation that expands serves its caller soundly exactly when no 32-bit sum wraps and the highest hole ends the heap |
| HeapLimits.WrappedGrowthUnsound | src/kernel/memory-mangement/heap-manager.c:198-219 | an expansion whose sums wrap answers NULL or hands out bytes past the new end |
| HeapLimits.GrowthOverlaps | src/kernel/memory-mangement/heap-manager.c:265-309 | when the highest hole does not end the heap the returned block overlaps a held one |
| HeapLimits.RetryTakesTop | src/kernel/memory-mangement/heap-manager.c:283-309 | the retry after an expansion picks exactly the hole that grew |
| HeapLimits.FreeSoundIff | src/kernel/memory-mangement/heap-manager.c:374-453 | a release that gives no pages back is sound exactly when no header that claims some bytes lies 64 bytes past the footer, and a hole lies below or the index has room |
| HeapLimits.FullIndexUnsound | src/ordered-array.c:28-30 | a freed block that a full index does not record belongs to nobody |
| HeapFullIndex.FullIndexWitness | src/kernel/memory-mangement/heap-manager.c:449-452 | a run of the kernel's heap that needs no new page table fills the index with 0x20000 holes, and the next release with no hole below breaks the heap |
| HeapLimits.RightMergeUnsound | src/kernel/memory-mangement/heap-manager.c:402-419 | when that test fires the merged hole swallows its neighbour |
| HeapWitnesses.GrowthWitness | src/kernel/memory-mangement/heap-manager.c:265-309 | a run of the kernel's heap reaches a state that a request for 100 bytes breaks |
| HeapWitnesses.WrapWitness | src/kernel/memory-mangement/heap-manager.c:246-250 | right after initialization a request for 2^32 - 1 bytes is answered with too few |
| HeapWitnesses.WrapGrowthWitness | src/kernel/memory-mangement/heap-manager.c:198-219 | right after initialization a request for 2^30 bytes moves the end of the heap below its start |
| HeapWitnesses.FreeWitness | src/kernel/memory-mangement/heap-manager.c:402-419 | a run of the kernel's heap reaches a state that freeing one held block breaks |
| HeapWitnesses.AlignedWitness | src/kernel/memory-mangement/heap-manager.c:322-344 | a run of the kernel's heap reaches a state that an aligned request of 20 bytes breaks |
| HeapWitnesses.OrderWitness | src/kernel/memory-mangement/heap-manager.c:388-400 | a run of the kernel's heap reaches an ordered index that a left merge puts out of order |
| HeapOrder.SmallestFit | src/kernel/memory-mangement/heap-manager.c:157-196 | on an ordered index the search returns a hole no larger than any other that fits |
| HeapOrder.GrowthOrdered | src/kernel/memory-mangement/heap-manager.c:283-309 | growing a hole in place breaks the order only around the slot the retry removes |
| HeapOrder.AllocateOrdered | src/kernel/memory-mangement/heap-manager.c:250-369 | unaligned allocation takes an ordered index to an ordered index, also through an expansion |
| HeapOrder.AlignedOrderedIff | src/kernel/memory-mangement/heap-manager.c:322-344 | an aligned request served from a hole keeps the order exactly when the entry before that hole is no larger than the front gap |
| HeapOrder.AlignedExpansionOrderedIff | src/kernel/memory-mangement/heap-manager.c:283-344 | an aligned request that expands the heap keeps the order exactly when the front gap, or the whole grown hole if NULL is answered, belongs in its slot |
| HeapWitnesses.AlignedOrderWitness | src/kernel/memory-mangement/heap-manager.c:322-344 | a run of the kernel's heap reaches an ordered index that an aligned request of 20 bytes puts out of order |
| HeapOrder.FreeMergeOrderedIff | src/kernel/memory-mangement/heap-manager.c:388-400 | a left merge keeps the order exactly when the merged hole is no larger than the next index entry |
| HeapOrder.FreeOrderedIff | src/kernel/memory-mangement/heap-manager.c:388-452 | freeing keeps the order exactly when it merges nothing on the left or the merged hole is no larger than the next entry |
| HeapManagers.HeapManager.Bootstrap | src/kernel/memory-mangement/heap-manager.c:21-31 | a bump allocator at the kernel's end, with an empty index |
| HeapManagers.HeapManager.Init | src/kernel/memory-mangement/heap-manager.c:33-81 | leaves the initial heap that starts a run |
| HeapManagers.HeapManager.FindSmallestHole | src/kernel/memory-mangement/heap-manager.c:157-196 | the loop finds the first hole that fits, or answers -1 |
| HeapManagers.HeapManager.Expand | src/kernel/memory-mangement/heap-manager.c:198-219 | moves the end to the next page boundary |
| HeapManagers.HeapManager.FindHighest | src/kernel/memory-mangement/heap-manager.c:265-281 | the loop finds the highest hole |
| HeapManagers.HeapManager.GrowBy | src/kernel/memory-mangement/heap-manager.c:252-306 | the expanding half refines growth |
| HeapManagers.HeapManager.Place | src/kernel/memory-mangement/heap-manager.c:344-369 | the placing half refines the placement of block and tail |
| HeapManagers.HeapManager.Allocate | src/kernel/memory-mangement/heap-manager.c:246-372 | the recursive method refines allocation; it recurses at most once |
| HeapManagers.HeapManager.FindSlot | src/kernel/memory-mangement/heap-manager.c:411-416 | the loop finds the slot of a hole in the index, or its length |
| HeapManagers.HeapManager.FinishFree | src/kernel/memory-mangement/heap-manager.c:402-452 | the right test and the indexing that end a release |
| HeapManagers.HeapManager.Unallocate | src/kernel/memory-mangement/heap-manager.c:374-453 | the method refines release |
| HeapManagers.HeapManager.Malloc | src/kernel/memory-mangement/heap-manager.c:83-115 | by status: NULL, an aligned bump, or allocation from the heap |
| HeapManagers.HeapManager.Free | src/kernel/memory-mangement/heap-manager.c:117-123 | a release once initialized, nothing before |
| SleepHeap.SiftUpHeap | src/kernel/scheduler/sleep-queue.c:13-23 | sifting up repairs a heap that is wrong only at one place, and permutes it |
| SleepHeap.SiftDownHeap | src/kernel/scheduler/sleep-queue.c:25-49 | sifting down repairs a heap that is wrong only below one place, and permutes it |
| SleepHeap.PushHeap | src/kernel/scheduler/sleep-queue.c:60-72 | below capacity a push adds exactly the task, at capacity it changes nothing, and the heap order stays |
| SleepHeap.PopHeap | src/kernel/scheduler/sleep-queue.c:81-98 | a pop removes exactly the root, a minimum, and the heap order stays |
| SleepHeap.DrainSorted | src/kernel/scheduler/sleep-queue.c:81-98 | repeated pops yield the contents sorted by wake tick |
| SleepHeap.HeapFrame | src/kernel/scheduler/sleep-queue.c:13-49 | the order depends only on the wake ticks of queued tasks |
| TaskQueues.TaskQueue.Push | src/kernel/scheduler/task-queue.c:15-30 | appends to the list threaded through the tasks, which stays acyclic with `size` its length |
| TaskQueues.TaskQueue.Peek | src/kernel/scheduler/task-queue.c:32-37 | the first task, or null |
| TaskQueues.TaskQueue.Pop | src/kernel/scheduler/task-queue.c:39-57 | takes the first task off and clears its link, or null |
| SleepQueues.SleepQueue.HeapifyUp | src/kernel/scheduler/sleep-queue.c:13-23 | the swap loop refines sifting up |
| SleepQueues.SleepQueue.HeapifyDown | src/kernel/scheduler/sleep-queue.c:25-49 | the swap loop refines sifting down |
| SleepQueues.SleepQueue.Push | src/kernel/scheduler/sleep-queue.c:60-72 | refines the push of the value model, at capacity too |
| SleepQueues.SleepQueue.Peek | src/kernel/scheduler/sleep-queue.c:74-79 | the root, or null |
| SleepQueues.SleepQueue.Pop | src/kernel/scheduler/sleep-queue.c:81-98 | refines the pop of the value model, or null |
| Scheduling.PendingFalls | src/kernel/scheduler/scheduler.c:122-156 | each turn of the dispatch loop lowers the number of ready tasks that are not running, so the loop ends |
| Scheduling.FreeSlot | src/kernel/scheduler/task.c:33-57 | the first stopped slot, or none when none is stopped |
| Scheduling.MarkThreads | src/kernel/scheduler/task.c:123-139 | exactly the threads of the dead task become zombies |
| SchedulingProofs.WokenExactly | src/kernel/scheduler/scheduler.c:84-92 | after the wake loop no sleeper is due, none was taken early, and they come out in order of wake tick |
| SchedulingProofs.WakeClosed | src/kernel/scheduler/scheduler.c:84-92 | the wake loop appends exactly those sleepers to the ready queue and makes them running |
| SchedulingProofs.WakeInv | src/kernel/scheduler/scheduler.c:84-92 | the wake loop keeps the invariant and every task |
| SchedulingProofs.DispatchClosed | src/kernel/scheduler/scheduler.c:94-169 | the loop runs the first live task, moves the zombies before it to the zombie queue, and panics exactly when none is live |
| SchedulingProofs.RedirectedTo | src/kernel/scheduler/scheduler.c:122-148 | a head the loop cannot run goes to the queue its state names, a sleeper back into the sleep heap; nothing else changes |
| SchedulingProofs.DispatchInv | src/kernel/scheduler/scheduler.c:102-169 | dispatch keeps the invariant and every task |
| SchedulingSteps.RoundRobinInv | src/kernel/scheduler/scheduler.c:82-170 | panics exactly when there is no current task, no live ready task and no due sleeper; otherwise conserves every task |
| SchedulingSteps.Detached | src/kernel/scheduler/scheduler.c:96-100 | a current task that is not running is overwritten and dropped |
| SchedulingSteps.ScheduleInv | src/kernel/scheduler/scheduler.c:172-194 | scheduling away from a running task never panics and conserves every task |
| SchedulingSteps.FirstScheduleInv | src/kernel/scheduler/scheduler.c:178-181 | the first dispatch drops exactly a ready head that is not running, and panics exactly when nothing else can run |
| SchedulingSteps.ExitInv | src/kernel/scheduler/scheduler.c:236-252 | exit drops exactly the exiting task and panics exactly when nothing else can run |
| SchedulingSteps.SleepInv | src/kernel/scheduler/scheduler.c:211-226 | sleep conserves every task unless the sleep queue was full, then it drops its caller; it panics exactly when nothing else can run |
| SchedulingSteps.StaysAsleep | src/kernel/scheduler/scheduler.c:211-226 | the call that puts its caller to sleep does not wake it |
| SchedulingSteps.SpawnInv | src/kernel/scheduler/scheduler.c:196-204 | a new task takes a slot the scheduler does not hold; a full table changes nothing |
| SchedulingSteps.SpawnFields | src/kernel/scheduler/task.c:33-57 | a new task takes the lowest stopped slot, has the mode and the parent asked for and its slot for a pid, and waits last; every other slot keeps all its fields |
| SchedulingSteps.CleanInv | src/kernel/scheduler/task.c:123-173 | one turn of the cleaner drops exactly the cleaned task and frees its slot |
| SchedulingSteps.CleanFields | src/kernel/scheduler/task.c:123-173 | cleaning resets every field of the dead slot; in the other slots only the threads of the dead task change, and only their state |
| SchedulingRuns.EmptyInv | src/kernel/scheduler/task.c:97-112 | the initial state satisfies the invariant |
| SchedulingRuns.StepInv | src/kernel/scheduler/scheduler.c:82-252 | every step keeps the invariant and adds or drops exactly the tasks stated; a current task is never lost without a successor |
| SchedulingRuns.RunInv | src/kernel/scheduler/scheduler.c:82-330 | in every run no task is in two places, the sleep array is a heap, and queues hold fitting states |
| SchedulingRuns.StepProgress | src/kernel/scheduler/scheduler.c:82-170 | each dispatch runs a waiting live task or brings it strictly forward |
| SchedulingRuns.BoundedWaiting | src/kernel/scheduler/scheduler.c:82-170 | a live task at position `j` becomes current within `j + 1` dispatches in every run, unless marked a zombie |
| SchedulingLosses.SleepTicksExact | src/kernel/scheduler/scheduler.c:218-220 | the tick count is the requested one exactly when the 32-bit product does not wrap |
| SchedulingLosses.NapLasts | src/kernel/scheduler/scheduler.c:211-226 | a sleep leaves its caller asleep until the requested tick |
| SchedulingLosses.NotWokenEarly | src/kernel/scheduler/scheduler.c:84-92 | a sleeper stays asleep through every run whose dispatches come before its wake tick |
| SchedulingLosses.NapInvIff | src/kernel/scheduler/scheduler.c:218-225 | sleep keeps the invariant exactly when the wake tick does not wrap or the sleep queue is full |
| SchedulingBoot.NapWitness | src/kernel/scheduler/scheduler.c:218-225 | the thread started after boot sleeps two seconds across the wrap of the tick counter, and the invariant breaks |
| SchedulingLosses.ExitLoses | src/kernel/scheduler/scheduler.c:236-252 | an exited task is held nowhere while its slot is not free |
| SchedulingLosses.LostForGood | src/kernel/scheduler/scheduler.c:82-330 | in every run a lost task never returns and its slot is never reused |
| SchedulingBoot.CleanerLostAtBoot | src/kernel/scheduler/scheduler.c:76-77 | the first dispatch after boot runs the idle thread and loses the cleaner, whatever tasks were added before |
| SchedulingBoot.NeverCleans | src/kernel/scheduler/scheduler.c:306-330 | in every run from boot the zombie queue is empty, so the cleaner never cleans anything |
| SchedulingBoot.NeverFreed | src/kernel/scheduler/task.c:33-57 | in every run from boot a slot once taken is never free again |
| SchedulingZombies.ZombieRunsIff | src/kernel/scheduler/scheduler.c:84-92 | after a dispatch a zombie is running, and current or ready, exactly when it was asleep and due |
| SchedulingZombies.DeadNeverRuns | src/kernel/scheduler/scheduler.c:122-156 | in every run a zombie outside the sleep queue is never current until its slot is freed |
| SchedulingZombies.StepNoZombies | src/kernel/scheduler/scheduler.c:82-252 | no step but the cleaner's puts a zombie into any queue |
| Schedulers.Scheduler.constructor | src/kernel/scheduler/scheduler.c:64-74 | an empty scheduler over a stopped task table |
| Schedulers.Scheduler.EnqueueReady | src/kernel/scheduler/scheduler.c:45-50 | the linked push refines the step; a created task stays created |
| Schedulers.Scheduler.EnqueueZombie | src/kernel/scheduler/scheduler.c:52-56 | the linked push refines the step |
| Schedulers.Scheduler.EnqueueSleeper | src/kernel/scheduler/scheduler.c:58-62 | the heap push refines the step |
| Schedulers.Scheduler.WakeSleepers | src/kernel/scheduler/scheduler.c:84-92 | the wake loop refines its function and keeps the lists disjoint |
| Schedulers.Scheduler.Turn | src/kernel/scheduler/scheduler.c:122-156 | one turn of the loop lowers the measure and does not change what will be dispatched |
| Schedulers.Scheduler.DispatchNext | src/kernel/scheduler/scheduler.c:102-169 | the loop ends, and refines dispatch and its panic |
| Schedulers.Scheduler.RoundRobin | src/kernel/scheduler/scheduler.c:82-170 | refines one pass |
| Schedulers.Scheduler.Schedule | src/kernel/scheduler/scheduler.c:172-194 | refines the dispatch, the first one included |
| Schedulers.Scheduler.Yield | src/kernel/scheduler/scheduler.c:206-209 | refines the dispatch in every state with the invariant |
| Schedulers.Scheduler.FallAsleep | src/kernel/scheduler/scheduler.c:213-224 | writes the wake tick of the current task before queueing it |
| Schedulers.Scheduler.Sleep | src/kernel/scheduler/scheduler.c:211-226 | refines the sleep step |
| Schedulers.Scheduler.Exit | src/kernel/scheduler/scheduler.c:236-252 | refines the exit step; without a current task it fails and changes nothing |
| Schedulers.Scheduler.GetFreeTask | src/kernel/scheduler/task.c:33-57 | claims the first stopped slot, or returns null |
| Schedulers.Scheduler.Create | src/kernel/scheduler/task.c:175-296 | refines creation and adding of a task; null exactly when the table is full |
| Schedulers.Scheduler.MarkZombies | src/kernel/scheduler/task.c:133-139 | the loop marks exactly the threads of the dead task |
| Schedulers.Scheduler.TaskCleanup | src/kernel/scheduler/task.c:123-173 | refines the state changes of the cleanup |
| Schedulers.Scheduler.CleanOne | src/kernel/scheduler/scheduler.c:306-330 | refines one turn of the cleaner |
| Pci.ClosedHoldsPath | src/kernel/drivers/pci/pci.c:98-154 | marked buses closed under bridge links include every reachable bus |
| Pci.RangeEndsIff | src/kernel/drivers/pci/pci.c:118-121 | the byte-sized loop over a bridge's range ends exactly when the subordinate bus is below 255 |
| Pci.Scanner.Register | src/kernel/drivers/pci/pci.c:98-125 | registers the function once and scans everything behind it, unless the table is full |
| Pci.Scanner.ScanRange | src/kernel/drivers/pci/pci.c:113-122 | marks every bus of the bridge's range |
| Pci.Scanner.Scan | src/kernel/drivers/pci/pci.c:127-154 | terminates, marks the bus, and leaves every finished bus done; new entries lie on buses not marked before |
| Pci.Scanner.ScanSlot | src/kernel/drivers/pci/pci.c:134-153 | finishes one slot, probing one or eight functions |
| Pci.Scanner.Probe | src/kernel/drivers/pci/pci.c:145-152 | finishes one function |
| Pci.Scanner.NothingMissed | src/kernel/drivers/pci/pci.c:98-154 | a finished scan with room left registered every reachable function |
| Pci.Enumerate | src/kernel/kernel-main.c:147 | the boot scan registers only reachable functions, each once, decoded from its own registers, and all of them unless the table is full |
| Pci.ExactIff | src/kernel/drivers/pci/pci.c:101-102 | the scan finds exactly the reachable functions if and only if there are at most 256 |
| Pci.BridgeRegister | include/kernel/data-structures/drivers/pci.h:72-75 | of the four bytes at 0x18 the second is the secondary and the third the subordinate bus |
| Pci.HeaderRegister | include/kernel/data-structures/drivers/pci.h:36-39 | the third byte at 0x0C holds the header layout below bit 7, and bit 7 of function 0 gives the slot eight functions |
| Pci.PresentIff | src/kernel/drivers/pci/pci.c:134-152 | a function is probed and answers exactly when its slot and itself have a vendor other than 0xFFFF and it is function 0 or bit 7 is set |
| Pci.FoundBehindBridge | src/kernel/drivers/pci/pci.c:113-122 | every function on a bus between the two bus bytes of a bridge that was found is found, unless the table is full |
| Pci.OneBridgeFound | src/kernel/drivers/pci/pci.c:98-154 | one bridge on bus 0 whose register names bus 1: the bridge and the function behind it are found |
| PhysicalMemory.SetOne | src/kernel/memory-mangement/physical-memory-manager.c:35-55 | setting a bit adds exactly that frame to the used set |
| PhysicalMemory.ClearOne | src/kernel/memory-mangement/physical-memory-manager.c:57-66 | clearing a bit removes exactly that frame |
| PhysicalMemory.UsedIff | src/kernel/memory-mangement/physical-memory-manager.c:45-48 | frame `i` is used exactly when word i / 32 has the bit with the value 2^(i mod 32) |
| PhysicalMemory.FreeUndoesAllocate | src/kernel/memory-mangement/physical-memory-manager.c:57-66 | freeing a frame just taken restores the bitmap word for word |
| PhysicalMemory.PhysicalMemoryManager.constructor | src/kernel/memory-mangement/physical-memory-manager.c:9-33 | no frame is used at first |
| PhysicalMemory.PhysicalMemoryManager.FirstFree | src/kernel/memory-mangement/physical-memory-manager.c:68-82 | the scan over words finds the least free frame, or none when every frame is used |
| PhysicalMemory.PhysicalMemoryManager.AllocateBlock | src/kernel/memory-mangement/physical-memory-manager.c:35-55 | takes exactly the least free frame, or answers 0xFFFFFFFF exactly when full and changes nothing |
| PhysicalMemory.PhysicalMemoryManager.FreeBlock | src/kernel/memory-mangement/physical-memory-manager.c:57-66 | gives back exactly that frame |
| PhysicalMemory.PhysicalMemoryManager.FailedIsInvalid | include/kernel/memory-management/physical-memory-manager.h:19-24 | the failure value never passes the validity check; every frame does |
| PageMaps.MapInv | src/kernel/memory-mangement/paging-manager.c:179-233 | a bitmap-backed mapping keeps frames unshared and the bitmap exact |
| PageMaps.MapEntry | src/kernel/memory-mangement/paging-manager.c:205-231 | an absent page gets the rights asked for and the frame chosen, or the lowest free one; a present page and all others stay as they are |
| PageMaps.UnmapInv | src/kernel/memory-mangement/paging-manager.c:235-256 | a release keeps them so |
| PageMaps.InitialInv | src/kernel/memory-mangement/paging-manager.c:23-39 | a run starts with nothing mapped and no bit set |
| PageMaps.RunInv | src/kernel/memory-mangement/paging-manager.c:88-256 | in every run, mappings to chosen frames included, frames from the bitmap are unshared, the set bits are exactly those frames, and the counter is their number |
| PageMaps.MapBackedInv | src/kernel/memory-mangement/paging-manager.c:179-233 | a mapping to any frame keeps that invariant of the pages backed by the bitmap |
| PageMaps.UnmapBackedInvIff | src/kernel/memory-mangement/paging-manager.c:235-256 | a release with its frame keeps it exactly for a backed page or an absent one |
| PageMaps.DropBackedInv | src/kernel/memory-mangement/paging-manager.c:235-256 | a release without its frame keeps it for a page that is not backed |
| PageMaps.LowMemoryBreaksInv | src/kernel/kernel-main.c:130-135 | identity-mapping the second page after boot shares a frame with the kernel's second page |
| PageMaps.LosePageInvIff | src/kernel/memory-mangement/paging-manager.c:188-232 | without a page table a frame from the bitmap is taken for no page, and the invariant breaks |
| PageMaps.MapFailsIff | src/kernel/memory-mangement/paging-manager.c:205-226 | a mapping fails exactly when the page is absent and every frame is used |
| PageMaps.FixedFrameInvIff | src/kernel/memory-mangement/paging-manager.c:205-231 | a mapping keeps the invariant exactly when it takes its frame from the bitmap or finds the page present |
| PageMaps.ChosenFrameSharedIff | src/kernel/memory-mangement/paging-manager.c:140-147 | the next bitmap-backed mapping shares a chosen frame exactly when that frame is the least free one |
| PageMaps.IdentityIff | src/kernel/memory-mangement/paging-manager.c:88-93 | an identity mapping is one except for page 0, unless frame 0 is the next free |
| PageMaps.MapRangePages | src/kernel/memory-mangement/paging-manager.c:112-121 | a range adds exactly the pages its loop touches, with the rights asked for, and leaves present pages alone |
| PageMaps.RangeCovers | src/kernel/memory-mangement/paging-manager.c:112-121 | the loop touches every address of the range exactly when the offset of the start in its page is no larger than that of the end |
| PageMaps.MapRangeInv | src/kernel/memory-mangement/paging-manager.c:112-121 | a range keeps frames unshared and the bitmap exact |
| PageMaps.RangeMapped | src/kernel/memory-mangement/paging-manager.c:112-177 | over an aligned start every address of the range translates, at its offset, into a used frame, and no two to the same place |
| PageMaps.RangeEndsIff | src/kernel/memory-mangement/paging-manager.c:112-138 | the loops over ranges, which count in 32 bits, end exactly when the range stops short of the last page |
| PageMaps.RangeRoundTrip | src/kernel/memory-mangement/paging-manager.c:112-138 | mapping an absent range and releasing it restores map, bitmap and counter |
| PageMaps.BootRange | src/kernel/kernel-main.c:112-117 | on an empty bitmap the boot range takes the frames in order |
| PageMaps.BootTranslates | src/kernel/memory-mangement/paging-manager.c:149-177 | on the boot range translation is subtraction of the kernel offset |
| PageMaps.BootInv | src/kernel/kernel-main.c:112-117 | the boot mappings satisfy the invariant |
| PageMaps.BootBackedInv | src/kernel/kernel-main.c:112-135 | the boot mappings start a run that the kernel's later mappings continue |
| PageTables.OneMoreTaken | src/kernel/memory-mangement/paging-manager.c:186-203 | each new table takes the next page of the bump allocator, which gives out nothing else |
| PageTables.FlatNewTable | src/kernel/memory-mangement/paging-manager.c:186-203 | entering a cleared table maps nothing |
| PageTables.FlatWithEntry | src/kernel/memory-mangement/paging-manager.c:205-256 | writing one entry maps or unmaps exactly that page of the flat map |
| PageTables.WalkAgrees | src/kernel/memory-mangement/paging-manager.c:149-203 | the processor's walk through the frames of the directory reaches an address exactly for mapped pages, and the one the walk over table addresses computes |
| PageTables.AnsweredIff | src/kernel/memory-mangement/paging-manager.c:188-203 | a new table keeps the directory right exactly when the heap answered with a mapped page whose frame holds no other table |
| PageTables.OwnPageOwnFrame | src/kernel/memory-mangement/paging-manager.c:188-196 | while pages share no frame, a table has its own frame exactly when it has its own page |
| PageTables.RangeKeeps | src/kernel/memory-mangement/paging-manager.c:112-121 | the tables of a range keep the directory right when each lies in a mapped page of its own |
| PageTables.ReleasedIff | src/kernel/memory-mangement/paging-manager.c:235-256 | releasing a page keeps the directory right exactly when it holds no table, or paging is not enabled |
| PageTables.EnabledIff | src/kernel/memory-mangement/paging-manager.c:70-82 | enabling paging keeps the directory right exactly when every table is mapped to where the kernel offset puts it |
| PagingManagers.PagingManager.VirtualToPhysical | src/kernel/memory-mangement/paging-manager.c:149-177 | the two-level walk agrees with the flat map; before paging is enabled it subtracts the kernel offset modulo 2^32 |
| PagingManagers.PagingManager.NeedTable | src/kernel/memory-mangement/paging-manager.c:186-203 | a missing table is asked of the heap once and its translated address entered, unless the answer is NULL; a present one asks for nothing |
| PagingManagers.PagingManager.NewTable | src/kernel/memory-mangement/paging-manager.c:188-203 | the directory gets the frame the answer of the heap translates to, before and after paging is enabled; the slot stays empty if the answer is NULL; before initialization the bump allocator answers its next page |
| PagingManagers.PagingManager.AllocatePage | src/kernel/memory-mangement/paging-manager.c:179-233 | refines the mapping of one page, its failure included, and keeps the directory right exactly when the table is there or comes in a mapped page of its own; without a table it takes a frame and maps nothing |
| PagingManagers.PagingManager.FillNowhere | src/kernel/memory-mangement/paging-manager.c:205-232 | what is written to a table at address 0 maps nothing |
| PagingManagers.PagingManager.Fill | src/kernel/memory-mangement/paging-manager.c:205-233 | frame 0 takes one from the bitmap, any other is used as it is |
| PagingManagers.PagingManager.Enter | src/kernel/memory-mangement/paging-manager.c:228-231 | the entry written is the one the flat map gains |
| PagingManagers.PagingManager.FreePage | src/kernel/memory-mangement/paging-manager.c:235-256 | refines the release of one page, with or without its frame; the directory stays right exactly when the page holds no table or paging is not enabled |
| PagingManagers.PagingManager.AllocateRange | src/kernel/memory-mangement/paging-manager.c:112-121 | the inclusive loop refines the mapping of a range, up to the pages the heap had no table for; the entries of new tables hold their frames, others are untouched, and the directory stays right; a low bump allocator has all tables, and has given out exactly one page for each |
| PageTables.NextTableThere | src/kernel/memory-mangement/paging-manager.c:188-190 | a bump allocator with room for every slot never answers NULL |
| PagingManagers.PagingManager.FreeRange | src/kernel/memory-mangement/paging-manager.c:130-138 | the inclusive loop refines the release of a range; the directory stays right if the range holds no table |
| PagingManagers.PagingManager.Enable | src/kernel/memory-mangement/paging-manager.c:70-82 | the directory is right afterwards exactly when every table is mapped to where the kernel offset puts it |
| Boot.PlaceStructures | src/kernel/kernel-main.c:95-103 | the bitmap is placed at the first page boundary from the kernel's end on, and the directory at the first one behind all its words |
| Boot.OneTable | src/kernel/kernel-main.c:112-117 | the whole boot range lies in one directory slot, so its loop takes exactly one table |
| Boot.MapKernel | src/kernel/kernel-main.c:112-120 | maps kernel space to `v - 0xC0000000`, takes exactly one page table from the bump allocator, and enables paging with the directory right |
| Boot.MapBoot | src/kernel/kernel-main.c:112-117 | the boot range is the pages up to and including the one at the placement address plus a page |
| Boot.Boot | src/kernel/kernel-main.c:95-120 | after boot both the translation in software and the processor's walk subtract 0xC0000000 on the whole range, no frame is shared, and kernel, bitmap words, directory, its only table and the next one to be allocated lie in it one after the other |
| FastMemory.Memcpy | include/memory.h:55-61 | the byte loop copies exactly the region |
| FastMemory.FastMemcpy | include/memory.h:64-99 | for every length and alignment it leaves the same bytes as the byte loop |
| FastMemory.Memset | include/memory.h:102-106 | the byte loop fills exactly the region |
| FastMemory.ReplicatedBytes | include/memory.h:111-113 | the two shifts put the byte in all four places |
| FastMemory.FastMemset | include/memory.h:109-132 | for every length, alignment and value it leaves the same bytes as the byte loop |
| Text.Uitoa | include/string.h:176-188 | prints the one spelling of the number, in any base from 2 to 36, as an independent reader defines it, within the buffer |
| Text.Emit | include/string.h:164-168 | the digit loop fills the buffer back to front with the spelling, in any base; a number that stays negative gives one digit |
| Text.Itoa | include/string.h:156-174 | the signed printer, in any base from 2 to 36, within the buffer; its output spells the number exactly when it is not negative or, in base 10, not the least one |
| Text.PrintedRightIff | include/string.h:156-174 | a reader gets the number back exactly for numbers that are not negative and, in base 10, for all but the least one |
| Text.CDivision | include/string.h:164-168 | quotient and remainder of the digit loop truncate toward zero |
| Text.DigitsSpell | include/string.h:164-168 | every digit printed has a value below the base, and the positional value of the digits is the number, without leading zeros |
| Text.SpellsIff | include/string.h:156-188 | no other string spells the number in that base |
| Text.Uatoi | include/string.h:202-212 | reads the positional value of the longest run of leading digits, modulo 2^32 |
| Text.ParseValue | include/string.h:202-212 | the parser reads the positional value of the leading digits modulo 2^32, on top of what was read before |
| Text.Atoi | include/string.h:190-200 | reads an optional sign and the value of the leading digits, wrapping to a 32-bit integer |
| Text.UnsignedRoundTrip | include/string.h:176-212 | every 32-bit number survives printing and parsing |
| Text.SignedRoundTripIff | include/string.h:156-200 | a signed number survives printing in base 10 and parsing exactly when it is not the least one |
| Tokens.SpansExact | include/string.h:75-94 | successive calls find exactly the maximal runs of non-delimiters |
| Tokens.SpansInOrder | include/string.h:75-94 | they find them in order, with a delimiter between neighbours |
| Tokens.Tokenizer.Next | include/string.h:75-94 | each call returns the first run that is left and leaves the others, or returns nothing when none is left |

## Left out

- HeapSafety.AllocateSound: an expansion whose sums wrap is excluded by its guard; what happens then is `HeapLimits.ExpansionSoundIff`.
- HeapManagers.HeapManager.Allocate: addresses of tags are unbounded integers; sizes, stored tags, lengths and the end of the heap wrap.
- HeapModel.FindFrom: the signed subtraction of an aligned test, undefined in C when it overflows, wraps.
- HeapAlignedLimits.AlignedSoundIff: a request whose hole lies in the first page is not covered; one that expands the heap is in `HeapAlignedLimits.AlignedExpansionIff`.
- HeapManagers.HeapManager.Unallocate: requires that the release does not give pages back; shrinking (`contract`, heap-manager.c:421-447) and `heap_manager_free_all` are not modelled.
- HeapManagers.HeapManager.FinishFree: the shrinking branch (heap-manager.c:421-447) is not modelled.
- HeapManagers.HeapManager.Free: requires that the release does not give pages back.
- HeapManagers.HeapManager.Expand: mapping the new pages is not modelled here; that it may ask the heap for a page table is `HeapTables`.
- HeapRuns.StepKeepsInv: runs take the page tables of the new pages as present (`HeapTables.PresentIsAllocate`), and releases that give pages back are no steps of them.
- HeapSafety.FreeSound: a release that gives pages back is excluded.
- HeapTables.TableReturnsIff: an expansion that misses several tables, or one for a page that the expansion for the table would not map, is not covered.
- HeapManagers.HeapManager.Init: the index array is an object of its own rather than bytes at the start of the heap; mapping the heap's pages is not modelled.
- HeapManagers.HeapManager.Malloc: the physical address it can report is not modelled.
- Schedulers.Scheduler.Sleep: requires a wake tick that does not wrap, or a full sleep queue; otherwise the task is linked twice (`SchedulingLosses.NapInvIff`).
- SchedulingRuns.StepInv: putting the caller to sleep and the schedule that follows are one step, and locked or interrupt-safe sections are atomic.
- SchedulingSteps.CleanInv: memory, stacks and allocation tables released by the cleanup are not modelled.
- Schedulers.Scheduler.TaskCleanup: memory, stacks and allocation tables it releases are not modelled.
- Schedulers.Scheduler.Create: names, arguments, stacks and address spaces of new tasks, and creation failures from lack of memory, are not modelled.
- Schedulers.Scheduler.DispatchNext: context save and restore, CR3 and TSS changes are not modelled; a panic is a failed result.
- Pci.Enumerate: configuration space is a fixed function, reachable bridges with subordinate bus 255, on which the code never returns, are excluded, and driver probing is not modelled.
- Pci.Scanner.Scan: excludes reachable bridges with subordinate bus 255, as do the other methods of the scanner.
- PhysicalMemory.PhysicalMemoryManager.FreeBlock: a block number past the bitmap, which the code would write out of bounds for, is excluded.
- PhysicalMemory.PhysicalMemoryManager.AllocateBlock: the failure handler is not called; the caller records the failure.
- PagingManagers.PagingManager.NewTable: tables are held by value, so aliasing of tables is not captured; the bytes at address 0 are no table.
- PagingManagers.PagingManager.FreePage: a frame given back must be one the bitmap covers.
- PagingManagers.PagingManager.FreeRange: frames given back must be ones the bitmap covers, and the loop must end (`PageMaps.RangeEndsIff`).
- PagingManagers.PagingManager.AllocateRange: the loop must end (`PageMaps.RangeEndsIff`).
- FastMemory.FastMemcpy: memory is a value passed through the loops rather than a mutated buffer, and pointers do not wrap at 2^32.
- Text.Itoa: bases outside 2 to 36; strings are sequences without the terminating NUL.
- Text.Atoi: overflow of signed arithmetic, undefined in C, is modelled as 32-bit wrap-around.
- Null-pointer checks, repeated initialization and other guards of a single branch.
- Spinlocks and the interrupt-disable counter.
- Assembly, GDT, IDT, TSS, PIC, BIOS calls, ATA, VESA, CMOS, serial and port I/O.
- Storage manager, allocation table, user stack slots, Multiboot tags and formatted debug output: small members of one function each.
