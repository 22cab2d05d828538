# Verified model of the Aeolos kernel

This project models five parts of the kernel in Dafny and proves properties of all runs of them.

* **Memory.** `Pmm` is the page allocator: a byte bitmap that refines a set of free pages, with first-fit
  search. `PageTables` and `Vmm` are the four-level page tables in physical memory, made on demand and pruned
  when they become empty, as a refinement of a flat map from virtual pages to entries. `Heap` is
  `kmalloc`, `kmfree` and `kmrealloc` on top of the page allocator. `Memory` has both on one page
  allocator, with every page owned once.
* **Scheduling.** `TaskQueue` is the intrusive queue. `SchedModel` has one function for every critical
  section of `sched_lock`, the invariant they keep, and theorems over all runs; `SchedCalls` says what each of
  them does to the tasks and what follows for the runs after it. `Scheduler` is the same
  on task objects, a table of pointers and two queues whose links live in the tasks. `SchedWitnesses` has
  the runs that lead to its failing calls.
* **The reader/writer lock.** `RwLock` takes one atomic step per memory operation, for any number of threads.
* **The virtual file system on ramfs.** `VfsModel` has one function for every call, `VfsInv`, `VfsPaths`,
  `VfsCalls` and `VfsRuns` prove what they keep and what paths lead to, `VfsFiles` what the calls on handles
  do to the files; `Vfs` runs the calls with the kernel's loops. `RamFile` is the open file. `Initrd` unpacks the initial archive through these calls.
  `VfsWitnesses` has the runs that lead to the failing calls.
* **Buffers.** `Rings` has the two ring buffers and the input ring, `Vector` the growing vector on its bytes.

Where an operation works in place there is a class whose methods follow the kernel's statements, and a ghost
value that the methods keep equal to what the fields represent. The value moves as the functions of the model
say, and each method is a step of the model's runs, so a theorem about runs is a theorem about the class.

Code that differs from what it is meant to do is modelled as it is. The lemmas whose names end in `Exact` or
`Exactly` say when it works, for all inputs, and a run from the start shows an input for which it does not:

* `pmm_get` may read behind the bitmap (`SearchInsideExact`, `SearchOverruns`).
* `vec_erase` counts its bytes wrongly (`EraseFitsExact`, `EraseOverruns`), and `vfs_unlink` uses it
  (`UnlinkKeepsInvExactly`, `UnlinkOverruns`). The model records in `intact` that no copy has left its block.
  Once one has, the rest of the state is no longer claimed to be what memory holds.
* `path_to_node` passes over missing folders (`LookupIsResolveExactly`, `MissingFolderIsIgnored`), so
  `vfs_create` may put a node into another folder (`HomeIsRightExactly`, `CreatesElsewhere`).
* `vfs_read` subtracts a position past the end (`ReadFitsExactly`, `ReadPastEnd`).
* `vfs_link` across mounts frees a tnode that stays listed (`LinkKeepsInvExactly`, `LinkAcrossMounts`).
* `vfs_mount` frees an inode without looking at its count (`MountKeepsInvExactly`, `MountOverOpen`).
* `sched_add` in the wrong order hides tasks (`AddKeepsInvExactly`, `AddedOutOfOrder`).
* A task that is killed while it runs must neither sleep (`SleepKeepsInvExactly`) nor be freed
  (`ReapKeepsInvExactly`) before it is switched away (`KilledWhileRunning`).
* `sched_kill` of a sleeping task breaks the sleep queue (`Scheduler.Kernel.Kill`, `SleeperInTable`).

Addresses are numbers; a node that `kmfree` takes is a key taken out of a map, so using it again would not
verify. Clock readings, the addresses `kmalloc` returns and the bytes of new memory are parameters.

## Model

| member | source | states |
|---|---|---|
| Pmm.SetBit | kernel/mm/pmm.c:47 | setting bit p of the byte bitmap adds exactly page p to the set of free pages |
| Pmm.ClearBit | kernel/mm/pmm.c:24 | clearing bit p takes exactly page p out of that set |
| Pmm.SearchInsideExact | kernel/mm/pmm.c:62-69 | the search for n pages reads only inside the bitmap if and only if a run of n free pages exists or the last page is not free (or n is at most one, or the bitmap is empty) |
| Pmm.CandidateInside | kernel/mm/pmm.c:66-69 | every candidate tried before the first fit is scanned inside the bitmap |
| Pmm.BitmapCovers | kernel/mm/pmm.c:101 | the truncated bitmap size covers every page below the limit if and only if the limit is a multiple of 32 KiB |
| Pmm.PagesOfMember | kernel/mm/pmm.c:117-125 | a page is in the set of a memory map's entries of a kind iff some such entry covers it |
| Pmm.PagesAreTouchedExactly | kernel/mm/pmm.c:117-125 | the pages counted for an entry are those its bytes lie in if and only if it is empty or its length rounded up to pages reaches its end |
| Common.NumPagesLeast | kernel/mm/pmm.h:11 | NUM_PAGES is the least number of pages that hold the bytes |
| Pmm.Host | kernel/mm/pmm.c:102-112 | the bitmap goes to the first kept usable entry that is large enough |
| Pmm.HostFits | kernel/mm/pmm.c:108-114 | the bitmap's own pages are usable pages of its entry |
| Pmm.ReclaimInside | kernel/mm/pmm.c:139-140 | the entries given back later lie inside the bitmap |
| Pmm.SearchOverruns | kernel/mm/pmm.c:62-78 | a machine with 2 MiB on which, right after pmm_init, a search for 512 pages reads behind the bitmap |
| Pmm.TotalMemExactly | kernel/mm/pmm.c:90-97 | the sum of the counted lengths is never less than the number of bytes that counted entries cover, and equal to it if and only if no byte is in two of them |
| Pmm.MemoryStats | kernel/mm/pmm.c:85-98 | the first loop: the limit is an end of a kept entry that none exceeds, and the total is the number of counted bytes iff these entries are disjoint |
| Pmm.FindHost | kernel/mm/pmm.c:102-112 | the loop finds the first host |
| Pmm.PageAllocator.constructor | kernel/mm/pmm.c:80-131 | pmm_init leaves exactly the usable pages of the kept entries free, minus the bitmap's own, and free_mem = PAGE_SIZE times their number |
| Pmm.PageAllocator.MarkUsed | kernel/mm/pmm.c:21-26 | takes exactly the n pages out of the free set |
| Pmm.PageAllocator.IsFree | kernel/mm/pmm.c:28-38 | true iff all n pages are free |
| Pmm.PageAllocator.Release | kernel/mm/pmm.c:41-49 | adds exactly the n pages, and keeps free_mem = PAGE_SIZE times the number of free pages also when some were free already |
| Pmm.PageAllocator.Alloc | kernel/mm/pmm.c:52-60 | succeeds iff all n pages are free, and then takes exactly those; otherwise nothing changes |
| Pmm.PageAllocator.Get | kernel/mm/pmm.c:62-78 | returns the lowest address that starts n free pages and makes exactly these used; the panic is reached only when there is no such run |
| Pmm.PageAllocator.Reclaim | kernel/mm/pmm.c:134-142 | adds exactly the bootloader-reclaimable pages |
| PageTables.MasksAgree | kernel/mm/vmm.c:64-72 | masking with ~0x1ff and with ~0xfff gives the same table address if and only if bits 9 to 11 of the entry are clear |
| PageTables.TableEntryMasks | kernel/mm/vmm.c:24-42 | every entry written for a table has those bits clear, so the two masks agree on it |
| PageTables.EntryParts | kernel/mm/vmm.c:8 | an entry has the page of the address and exactly the flags given |
| PageTables.WayIsOpen | kernel/mm/vmm.c:24-43 | on the way to a mapped page every table entry allows everything, so the leaf's flags alone are in force |
| PageTables.WalkIsFlat | kernel/mm/vmm.c:12-46 | the four-level walk from the root gives exactly the flat map's entry of a page, and nothing for every other page |
| PageTables.WalkFrom | kernel/mm/vmm.c:19-45 | the same from every live table on the way |
| PageTables.NoTableBelow | kernel/mm/vmm.c:61-70 | where an entry on the way is absent there is no table further down |
| PageTables.TablesUnique | kernel/mm/vmm.c:19-43 | the memory determines the tree of tables: two assignments with the same root agree |
| PageTables.LinkKeepsTree | kernel/mm/vmm.c:25-29 | linking a zeroed page below a table keeps the tables a tree with distinct pages |
| PageTables.LinkMapsNothing | kernel/mm/vmm.c:31-36 | linking a new table changes no translation |
| PageTables.LeafKeepsTree | kernel/mm/vmm.c:45 | writing a leaf entry keeps the tree |
| PageTables.LeafTranslates | kernel/mm/vmm.c:45 | writing a leaf entry changes the translation of that page and of no other |
| PageTables.BlankIsChildless | kernel/mm/vmm.c:83-87 | a table of zeros has no table below it |
| PageTables.UnlinkKeepsTree | kernel/mm/vmm.c:86-99 | taking an empty table out keeps the rest a tree |
| PageTables.UnlinkUnmapsNothing | kernel/mm/vmm.c:86-99 | and changes no translation |
| Vmm.LiveIffUsed | kernel/mm/vmm.c:76-99 | below the root a table exists if and only if some page mapped through it exists |
| Vmm.SameMapSameKeys | kernel/mm/vmm.c:12-103 | two valid address spaces with the same mapped pages have tables at the same places |
| Vmm.RoundTrip | kernel/mm/vmm.c:105-117 | mapping and then unmapping a range that was not mapped restores the translation, the tables, the free set and the content of every table |
| Vmm.RunInvariant | kernel/mm/vmm.c:105-117 | over every run of calls that do what MapPages and UnmapPages promise: the translation that all the calls together describe, the same root, and a constant stock of pages |
| Vmm.RunRefinesAndConserves | kernel/mm/vmm.c:105-117 | over every run: each page walks to what the calls describe, and free pages plus live tables is constant |
| Vmm.MappingWalks | kernel/mm/vmm.c:112-117 | after mapping, the hardware walk leads page v+k to frame p+k with exactly the flags given, and every other page where it led |
| Vmm.UnmappingWalks | kernel/mm/vmm.c:105-110 | after unmapping, the walk leads the pages of the range nowhere and every other page where it led |
| Vmm.LastCallDecides | kernel/mm/vmm.c:105-117 | over every run: the last call that covers a page decides which frame and flags the hardware finds there |
| Vmm.LinkStep | kernel/mm/vmm.c:25-43 | a table made on demand moves one page from the free set to the tables and maps nothing |
| Vmm.LeafStep | kernel/mm/vmm.c:45 | the leaf entry maps exactly one page |
| Vmm.ClearStep | kernel/mm/vmm.c:76 | clearing it unmaps exactly that page; only its table may be empty now |
| Vmm.UnlinkStep | kernel/mm/vmm.c:83-99 | pruning an empty table gives exactly its page back and unmaps nothing |
| Vmm.AddressIndices | kernel/mm/vmm.c:14-17 | the shifts and masks of an address give the path of its page through the tree |
| Vmm.AddressSpace.MapPage | kernel/mm/vmm.c:12-51 | maps exactly this page, to this frame and with these flags for the hardware walk, or leaves the translation when memory runs out; ownership and page count are kept |
| Vmm.AddressSpace.UnmapPage | kernel/mm/vmm.c:53-103 | unmaps exactly this page and prunes every table that becomes empty |
| Vmm.AddressSpace.MapPages | kernel/mm/vmm.c:112-117 | in physical memory, the walk leads each page v+k of the range to frame p+k with exactly these flags and every other page where it led |
| Vmm.AddressSpace.UnmapPages | kernel/mm/vmm.c:105-110 | in physical memory, the walk leads exactly the range nowhere and every other page where it led |
| Vmm.AddressSpace.MapThenUnmap | kernel/mm/vmm.c:105-117 | leaves tables, translation and free set exactly as they were |
| RwLock.StepKeepsInv | kernel/lib/atomic.c:12-47 | every atomic step of every thread keeps the invariant |
| RwLock.RunKeepsInv | kernel/lib/atomic.c:12-47 | every interleaving of any number of threads keeps it |
| RwLock.Exclusion | kernel/lib/atomic.c:37-47 | in every interleaving no writer coexists with a reader or with another writer |
| RwLock.ReadersExact | kernel/lib/atomic.c:15-31 | num_readers equals the number of threads between their increment and their decrement |
| RwLock.FailsOnlyUnderWriter | kernel/lib/atomic.c:16-21 | a read attempt fails only while a writer holds wlock |
| RwLock.FailureLeavesNoTrace | kernel/lib/atomic.c:12-25 | for every schedule in which a thread only tries to read and is not admitted, mixed with any steps of the others: the others alone have a schedule to the same state with the thread's own marks erased |
| RwLock.FailedAttemptIsInvisible | kernel/lib/atomic.c:12-25 | so when the thread is outside before and after its failed attempts, the state is one that the others reach without it |
| RwLock.QuiescentIsInitial | kernel/lib/atomic.c:12-47 | when all threads are outside, the lock is in its initial state |
| RwLock.Lock.TryRead | kernel/lib/atomic.c:12-25 | run alone, the method does what its sequence of atomic steps does |
| RwLock.Lock.EndRead | kernel/lib/atomic.c:28-35 | the same for the end of a read |
| RwLock.Lock.TryWrite | kernel/lib/atomic.c:38-41 | and for the one step of a write attempt |
| RwLock.Lock.EndWrite | kernel/lib/atomic.c:44-47 | and of the end of a write |
| Rings.LastOfLast | kernel/fs/ttyfs/ttyfs.c:65-82 | keeping the last n bytes after each call is keeping the last n of everything |
| Rings.WriteSlot | kernel/fs/ttyfs/ttyfs.c:72-73 | writing the slot behind the content appends to it, around the end of the buffer |
| Rings.WriteEnd | kernel/fs/ttyfs/ttyfs.c:77-79 | the new start and size describe the last 16 bytes, also when more than 16 were written at once |
| Rings.TtyOutput.Write | kernel/fs/ttyfs/ttyfs.c:65-82 | after any sequence of writes the ring read from out_start is the last min(total, 16) bytes written |
| Rings.TtyInput.Read | kernel/fs/ttyfs/ttyfs.c:43-63 | takes the first min(len, in_size) bytes out, in order, and leaves the rest |
| Rings.SlotAfter | kernel/lib/klog.c:20-22 | with 16-bit indices the ring holds at most 65535 bytes, and a full ring loses its first one |
| Rings.PutStep | kernel/lib/klog.c:18-24 | one more byte gives the last 65535 bytes of the content and the byte |
| Rings.KernelLog.PutChar | kernel/lib/klog.c:18-24 | after any sequence of calls the log is the last min(total, 65535) bytes |
| Rings.KernelLog.PutString | kernel/lib/klog.c:26-36 | a string goes into the log byte by byte |
| Heap.AddBlock | kernel/lib/kmalloc.c:16-22 | a new block on free pages keeps the blocks pairwise disjoint, used and as their headers say |
| Heap.DropBlock | kernel/lib/kmalloc.c:24-28 | freeing a block gives back exactly its pages |
| Heap.BytesApart | kernel/lib/kmalloc.c:42-46 | blocks on different pages share no byte |
| Heap.BytesBehindHeader | kernel/lib/kmalloc.c:18-21 | the bytes of a block begin at a page and lie in the block's pages, none of them in the header's page |
| Heap.FrameOthers | kernel/lib/kmalloc.c:43-46 | copying between two blocks changes no other block |
| Heap.Allocator.Alloc | kernel/lib/kmalloc.c:16-22 | the new block is first fit on free pages and its bytes lie in the pages taken, outside of the header's; every other block keeps its place and bytes |
| Heap.Allocator.Free | kernel/lib/kmalloc.c:24-28 | exactly the block's pages are free again |
| Heap.Allocator.AllocThenFree | kernel/lib/kmalloc.c:16-28 | restores the free set exactly |
| Heap.Allocator.Realloc | kernel/lib/kmalloc.c:30-50 | keeps the first min(old, new) bytes and every other live block |
| Memory.Memory.Allocate | kernel/lib/kmalloc.c:16-22 | with tables, heap blocks and free pages of one page allocator pairwise disjoint: kmalloc keeps that, the union of the three, every table and the translation |
| Memory.Memory.Release | kernel/lib/kmalloc.c:24-28 | kmfree does, too |
| Memory.Memory.Reallocate | kernel/lib/kmalloc.c:30-50 | and kmrealloc, wherever the block goes |
| Memory.Memory.Map | kernel/mm/vmm.c:112-117 | vmm_map keeps the three apart and their union, moves no block and changes no page that the heap holds |
| Memory.Memory.Unmap | kernel/mm/vmm.c:105-110 | so does vmm_unmap |
| Vector.EraseFitsExact | kernel/lib/vector.h:38-43 | the copy of vec_erase stays inside the allocation if and only if index plus the bytes it copies fit |
| Vector.EveryEraseFits | kernel/lib/vector.h:38-43 | every index is safe if and only if 15 bytes of capacity exist per element |
| Vector.EraseOverruns | kernel/lib/vector.h:38-43 | a concrete vector where the copy runs over the end of the allocation |
| Vector.EraseCloses | kernel/lib/vector.h:38-43 | where it fits, the elements behind the index move down by one and no other changes |
| Vector.Vec.Resize | kernel/lib/vector.h:18-25 | keeps the elements both lengths have; alloc_size covers the new length |
| Vector.Vec.PushBack | kernel/lib/vector.h:28-32 | appends the element; reallocations have copied at most 2n elements for n pushes, erases in between or not |
| Vector.Vec.EraseVal | kernel/lib/vector.h:46-54 | removes the first equal element, if there is one, where the copy fits |
| TaskQueue.Queue.PushFront | kernel/proc/sched/tqueue.c:3-12 | the links represent the sequence with the task in front |
| TaskQueue.Queue.InsertAfter | kernel/proc/sched/tqueue.c:14-31 | the links represent the sequence with the task behind a |
| TaskQueue.Queue.Remove | kernel/proc/sched/tqueue.c:33-47 | the links represent the sequence without the task, except that a queue of one task stays as it is |
| TaskQueue.Queue.PopBack | kernel/proc/sched/tqueue.c:49-60 | takes the last task of the sequence off |
| TaskQueue.Queue.Find | kernel/proc/sched/tqueue.c:62-68 | finds a task with the tid iff the sequence has one |
| TaskQueue.HoldsUnique | kernel/proc/sched/tqueue.c:3-60 | the links represent one sequence only |
| TaskQueue.FrontLeadsTo | kernel/proc/sched/tqueue.c:33-47 | whatever sequence a queue holds goes through the tasks its front leads to |
| SchedModel.WakesAllAndNoneEarly | kernel/proc/sched/sched.c:87-90 | a context switch wakes every task whose time precedes its first clock reading, and only tasks whose time some reading is past |
| SchedModel.WakeTimes | kernel/proc/sched/sched.c:87-90 | which reading of the clock decides about which position of the sleep queue |
| SchedModel.ChosenIsReadyOrIdle | kernel/proc/sched/sched.c:93-112 | the chosen task is ready; idle is chosen if and only if no task of the table is ready |
| SchedModel.ChosenIsFree | kernel/proc/sched/sched.c:93-116 | the chosen task is neither running nor idle task on another processor |
| SchedModel.SwitchKeepsInv | kernel/proc/sched/sched.c:76-127 | every context switch keeps the scheduler's invariant |
| SchedModel.SleepKeepsInvExactly | kernel/proc/sched/sched.c:137-145 | sleeping keeps the invariant if and only if the task is in the table and not asleep |
| SchedModel.KillKeepsInv | kernel/proc/sched/sched.c:160-174 | killing a task that is not asleep keeps it |
| SchedModel.BlockedBitKeepsInv | kernel/proc/sched/sched.c:195-232 | so do blocking and unblocking |
| SchedModel.AddKeepsInvExactly | kernel/proc/sched/sched.c:241-247 | adding a task, in whatever order, keeps it if and only if every existing task has a smaller tid and the slots it skips happen to be empty |
| SchedModel.StartKeepsInv | kernel/proc/sched/sched.c:256-268 | starting a processor on its idle task keeps it |
| SchedModel.ReapKeepsInvExactly | kernel/proc/sched/sched.c:48-52 | freeing the dead keeps it if and only if no processor runs one of them |
| SchedModel.RunKeepsInv | kernel/proc/sched/sched.c:42-282 | every state of every run satisfies the invariant |
| SchedModel.RunningIsExact | kernel/proc/sched/sched.c:76-127 | in every reachable state no task runs on two processors, idle tasks run only on their own, and a table task is marked running iff some processor runs it |
| SchedModel.QueuesAreExact | kernel/proc/sched/sched.c:59-73 | in every reachable state the sleep queue is sorted, has no duplicates and holds exactly the sleeping tasks, the dead queue exactly the dead ones |
| SchedModel.StaysAsleep | kernel/proc/sched/sched.c:87-90 | a sleeping task stays asleep through every run whose clock readings are not past its time |
| SchedModel.SwitchComesCloser | kernel/proc/sched/sched.c:94-109 | a switch that does not pick a waiting ready task picks one that is closer to it in cyclic tid order |
| SchedModel.WaitingMeasure | kernel/proc/sched/sched.c:94-116 | switches of one processor and the remaining distance never exceed the first distance, whatever the other processors do |
| SchedModel.BoundedWaiting | kernel/proc/sched/sched.c:92-116 | with the table length fixed, a task that stays runnable is running somewhere within that many switches of any one processor |
| SchedCalls.SleepMeaning | kernel/proc/sched/sched.c:137-143 | the current task is asleep until the time asked for, as one more task of the sleep queue; its other bits and all other tasks stay |
| SchedCalls.SleepsUntilItsTime | kernel/proc/sched/sched.c:87-145 | over every run that begins with it: the task sleeps through all clock readings up to its time, and the first switch with a later first reading wakes it |
| SchedCalls.BlockMeaning | kernel/proc/sched/sched.c:184-213 | a task of the table is blocked afterwards, and nothing else changes |
| SchedCalls.BlockedDoesNotStart | kernel/proc/sched/sched.c:94-213 | over every run: a blocked task of the table stays blocked until it is unblocked, and no processor starts to run it before |
| SchedCalls.UnblockMeaning | kernel/proc/sched/sched.c:216-238 | a task of the table is not blocked afterwards, runnable if it is awake, and nothing else changes |
| SchedCalls.StaysRunnable | kernel/proc/sched/sched.c:76-238 | a runnable task stays so through every step that does not block it, kill it or put it to sleep |
| SchedCalls.UnblockedGetsToRun | kernel/proc/sched/sched.c:92-238 | over every run: an awake task that is unblocked and then left alone runs within table-length many switches of any one processor |
| SchedCalls.KillMeaning | kernel/proc/sched/sched.c:160-174 | a task of the table is dead, off the table and first in the dead queue; its blocked bit and all other tasks stay |
| SchedCalls.DeadDoesNotStart | kernel/proc/sched/sched.c:94-174 | over every run: no processor starts to run a dead task |
| SchedCalls.SwitchBits | kernel/proc/sched/sched.c:76-127 | a context switch keeps every task's time and blocked and dead bits, puts none to sleep, and moves the running bit |
| SchedCalls.PickedIsRunnable | kernel/proc/sched/sched.c:93-116 | what a context switch leaves running is the idle task, or in the table and neither blocked nor asleep nor dead |
| SchedCalls.AddMeaning | kernel/proc/sched/sched.c:241-247 | a task added in order can run; all other tasks and their places stay |
| SchedCalls.StartMeaning | kernel/proc/sched/sched.c:256-268 | a new processor runs a new task, its idle task, which is not in the table; everything else stays |
| SchedCalls.ReapMeaning | kernel/proc/sched/sched.c:46-52 | exactly the dead are gone |
| SchedWitnesses.KilledWhileRunning | kernel/proc/sched/sched.c:130-181 | a run from boot to a task that is killed while it runs: sleeping before the next switch breaks the invariant, and so does the janitor |
| SchedWitnesses.SleeperInTable | kernel/proc/sched/sched.c:130-181 | a run from boot to a sleeping task of the table, for which sched_kill breaks the sleep queue |
| SchedWitnesses.AddedOutOfOrder | kernel/proc/sched/sched.c:241-247 | a run from boot after which two tasks are added in the wrong order: the second add cuts the first task off the table |
| Scheduler.Kernel.ContextSwitch | kernel/proc/sched/sched.c:76-127 | on task objects and intrusive queues: the new state is the model's switch, and the invariant holds |
| Scheduler.Kernel.WakeSleepers | kernel/proc/sched/sched.c:87-90 | the wake-up loop does what the model says |
| Scheduler.Kernel.Scan | kernel/proc/sched/sched.c:94-108 | finds the first ready task of a part of the table |
| Scheduler.Kernel.AddSleepingSorted | kernel/proc/sched/sched.c:59-73 | puts the task where the model does, in all three branches |
| Scheduler.Kernel.Sleep | kernel/proc/sched/sched.c:130-146 | the current task's object is asleep until now + nanos and in the sleep queue, as a step of a run; a sleep of at most 2 ms changes nothing, whatever the task |
| Scheduler.Kernel.Kill | kernel/proc/sched/sched.c:149-181 | a task that is not asleep is killed as in the model; the state is valid afterwards iff the task was not sleeping: for a sleeping one the table, its bits, its links and the ends of the sleep queue are stated, and the sleep queue leads to a task that does not sleep |
| Scheduler.Kernel.Block | kernel/proc/sched/sched.c:184-213 | the task's object is blocked; 0 iff it is in the table and was not, and whether the caller must wait |
| Scheduler.Kernel.Unblock | kernel/proc/sched/sched.c:216-238 | the task's object is not blocked; 0 iff it is in the table and was blocked |
| Scheduler.Kernel.Add | kernel/proc/sched/sched.c:241-247 | as in the model for every new tid, also beyond the end of the table; the invariant survives iff every existing tid is smaller |
| Scheduler.Kernel.Start | kernel/proc/sched/sched.c:256-275 | a processor starts on a new idle task, the first one also adds two tasks |
| Scheduler.Kernel.Janitor | kernel/proc/sched/sched.c:46-53 | frees exactly the dead tasks |
| Paths.TokensOfJoin | kernel/fs/vfs/common.c:71-82 | cutting a path put together from names gives these names |
| Paths.TokensHaveNoSlash | kernel/fs/vfs/common.c:75-82 | no component has a slash |
| Paths.JoinOfTokens | kernel/fs/vfs/common.c:71-82 | for every path: its components, with a slash before each, give the path back, without a slash at its very end |
| VfsModel.ScanIsKept | kernel/fs/vfs/common.c:73-96 | for every list of components the token loop ends where the recursive walk of the kept ones ends; kept are all but those that are not the last and name nothing where the search stands |
| VfsModel.ScanEndsInFolder | kernel/fs/vfs/common.c:73-108 | where nothing is found, the loop ends in the folder that the kept components before the last name, or there is none |
| VfsModel.DroppedMeansMissing | kernel/fs/vfs/common.c:84-96 | a path from which a component is dropped means nothing, and neither does the path of its folder |
| VfsModel.ScanIsResolve | kernel/fs/vfs/common.c:73-96 | the special case in which all proper prefixes resolve: the loop ends where the walk of all components ends, or in the folder for a new node |
| VfsModel.ShortPathsFit | kernel/fs/vfs/common.c:61-81 | the components copied from a path of at most 4096 characters fit tmpbuff in every tree |
| VfsModel.MissingIsSkipped | kernel/fs/vfs/common.c:84-96 | a missing component that is not the last is passed over: the search goes on as if it were not in the path |
| VfsInv.AddNameKeepsInv | kernel/fs/vfs/common.c:109-113 | a new name keeps counts, lists and sibling names right |
| VfsInv.DropNameKeepsInv | kernel/fs/vfs/link.c:60-65 | so does taking a name away |
| VfsInv.FreeKeepsInv | kernel/fs/vfs/link.c:68 | so does freeing an inode and its data when the count is 0 |
| VfsInv.AddDescKeepsInv | kernel/fs/vfs/openclose.c:15-26 | so does opening |
| VfsInv.DropDescKeepsInv | kernel/fs/vfs/openclose.c:50-52 | so does closing |
| VfsPaths.AddNameResolve | kernel/fs/vfs/common.c:109-112 | a new name is found where it was put, and every other path leads where it led |
| VfsPaths.DropNameResolve | kernel/fs/vfs/link.c:63-65 | the paths to the removed name lead nowhere, and every other path leads where it led |
| VfsPaths.PathsAreUnique | kernel/fs/vfs/common.c:84-96 | where no folder is linked twice, two paths to a node have the same components |
| VfsCalls.LookupIsKept | kernel/fs/vfs/common.c:59-128 | for every absolute path: path_to_node finds what the kept components mean |
| VfsCalls.LookupIsResolveExactly | kernel/fs/vfs/common.c:59-128 | it finds what the path means if and only if no component is dropped, or what is left means nothing |
| VfsCalls.HomeIsKept | kernel/fs/vfs/common.c:98-114 | for every absolute path: a new node goes where the kept components ask for it, under the last name |
| VfsCalls.HomeIsRightExactly | kernel/fs/vfs/common.c:98-114 | it goes where the path asks for it if and only if no component is dropped, or none is made |
| VfsCalls.OnlyAbsolute | kernel/fs/vfs/common.c:64-68 | other paths find nothing and make nothing |
| VfsCalls.LookupIsResolve | kernel/fs/vfs/common.c:59-96 | the special case in which the proper prefixes of the path resolve |
| VfsCalls.MissingFolderIsIgnored | kernel/fs/vfs/common.c:85-96 | a concrete tree in which /x/a finds /a although /x does not exist |
| VfsCalls.CreateKeepsInv | kernel/fs/vfs/misc.c:7-18 | vfs_create keeps the invariant |
| VfsCalls.CreateResolves | kernel/fs/vfs/common.c:108-114 | after it the path leads to the new, empty node and every other path where it led |
| VfsCalls.LinkKeepsInvExactly | kernel/fs/vfs/link.c:7-45 | vfs_link keeps the invariant if and only if the mountpoints match or it fails before comparing them |
| VfsCalls.LinkResolves | kernel/fs/vfs/link.c:17-38 | after linking a file the new path leads to the same inode and every other path where it led |
| VfsCalls.LinkLeadsOn | kernel/fs/vfs/link.c:17-38 | after linking any node, also a folder: paths through the new name lead where they lead from the old one, and paths that avoid it where they led |
| VfsCalls.LinkFrame | kernel/fs/vfs/link.c:31-38 | linking counts one reference more, adds one entry to the folder and changes nothing else |
| VfsCalls.LinkRefused | kernel/fs/vfs/link.c:11-20 | without a node to link or a place for the name nothing changes |
| VfsCalls.RemovableExactly | kernel/fs/vfs/link.c:50-57 | vfs_unlink takes away what path_to_node finds if and only if it is not the root and has no entries; other names and open descriptors do not matter |
| VfsCalls.UnlinkKeepsInvExactly | kernel/fs/vfs/link.c:47-71 | vfs_unlink keeps the invariant if and only if the copy of vec_erase, as it computes its length, fits the block of the folder's child vector |
| VfsCalls.UnlinkFitsExactly | kernel/lib/vector.h:38-54 | that is, if and only if every byte it reads and writes lies inside the block |
| VfsCalls.SmallFoldersAreSafe | kernel/fs/vfs/link.c:63-65 | in a folder of at most 273 entries every unlink is safe |
| VfsCalls.UnlinkResolves | kernel/fs/vfs/link.c:50-68 | unlinking what a path finds, where the erase fits: exactly the paths to the removed name lead nowhere, whatever other names the node has and whether it is open |
| VfsCalls.OpenKeepsInv | kernel/fs/vfs/openclose.c:7-34 | vfs_open keeps the invariant |
| VfsCalls.CloseKeepsInv | kernel/fs/vfs/openclose.c:37-59 | vfs_close keeps it |
| VfsCalls.MountKeepsInvExactly | kernel/fs/vfs/misc.c:61-73 | mounting keeps it if and only if the folder has one reference |
| VfsCalls.MountMeaning | kernel/fs/vfs/misc.c:61-73 | an empty folder with one reference becomes the root of an empty ramfs, and every path leads where it led |
| VfsCalls.MountFrame | kernel/fs/vfs/misc.c:69-73 | the folder's inode goes, the new root's comes, and nothing else changes |
| VfsCalls.MountRefused | kernel/fs/vfs/misc.c:62-68 | where path_to_node finds no empty folder nothing is mounted |
| VfsCalls.WriteKeepsInv | kernel/fs/vfs/readwrite.c:37-64 | vfs_write keeps it |
| VfsCalls.ReadKeepsInv | kernel/fs/vfs/readwrite.c:11-34 | vfs_read keeps it |
| VfsRuns.RunKeepsInv | kernel/fs/vfs/link.c:7-75 | every state of every run of calls from vfs_init satisfies the invariant |
| VfsRuns.CountsAreExact | kernel/fs/vfs/link.c:31-68 | in every reachable state refcount is the number of names plus open descriptors, and whatever has a name or is open exists with its data |
| VfsRuns.SiblingsAreUnique | kernel/fs/vfs/common.c:88-112 | in every reachable state two entries of a folder have different names |
| VfsRuns.UnlinkFreesTheUnused | kernel/fs/vfs/link.c:60-68 | an unlink that fits counts one reference less; inode and data go if and only if nothing else refers to them, and nothing else changes but the folder's list |
| VfsRuns.UnlinkTakesOnePath | kernel/fs/vfs/link.c:47-71 | in runs that link no folder, an unlink that fits makes this path and no other stop resolving |
| VfsRuns.RunKeepsFoldersOnce | kernel/fs/vfs/link.c:31-35 | in such runs every folder keeps one name |
| VfsFiles.WriteMeaning | kernel/fs/vfs/readwrite.c:37-64 | vfs_write puts the bytes at the handle's position and moves it behind them; inside the file they replace, behind its end the old bytes stay; no other file, descriptor or name changes |
| VfsFiles.WriteRefused | kernel/fs/vfs/readwrite.c:39-48 | without an open handle, or with one for reading only, nothing is written |
| VfsFiles.ReadMeaning | kernel/fs/vfs/readwrite.c:11-34 | vfs_read gives the bytes from the position on, as many as asked for or as there are, moves the position behind them and changes nothing else |
| VfsFiles.SeekMeaning | kernel/fs/vfs/readwrite.c:67-81 | vfs_seek moves the position to any place, unless the handle is for reading only and the place is not inside the file; nothing else changes |
| VfsFiles.OpenMeaning | kernel/fs/vfs/openclose.c:7-34 | vfs_open gives the task's next handle a new descriptor at position 0 in the mode asked for, and counts one reference; all other handles stay |
| VfsFiles.OpenRefused | kernel/fs/vfs/openclose.c:12-14 | where path_to_node finds nothing, nothing is opened |
| VfsFiles.CloseMeaning | kernel/fs/vfs/openclose.c:37-59 | vfs_close frees the handle and its descriptor, in whatever mode, and counts one reference less; all other handles stay |
| VfsFiles.CloseRefused | kernel/fs/vfs/openclose.c:45-47 | a handle that is not open is not closed |
| VfsFiles.WriteCallsMeaning | kernel/fs/vfs/readwrite.c:37-64 | any cutting of the bytes into calls of vfs_write gives the same file and position |
| VfsFiles.ReadCallsMeaning | kernel/fs/vfs/readwrite.c:11-34 | any cutting into calls of vfs_read gives the same bytes and position |
| VfsFiles.ChunksRoundTrip | kernel/fs/vfs/readwrite.c:11-81 | through the calls of one handle, at any position of a file: what any writes put there comes back first from a seek and any reads that are long enough, and the rest of the file system is as before |
| VfsWitnesses.ReadPastEnd | kernel/fs/vfs/readwrite.c:22-33 | a run from vfs_init: a file is made, opened and its handle moved past the end; reading one byte asks ramfs for more than it has |
| VfsWitnesses.MountOverOpen | kernel/fs/vfs/misc.c:61-73 | a run after which ramfs is mounted over an open folder, which breaks the invariant |
| VfsWitnesses.LinkAcrossMounts | kernel/fs/vfs/link.c:23-29 | a run to two mounts, where linking a file from one to the other breaks the invariant |
| VfsWitnesses.CreatesElsewhere | kernel/fs/vfs/common.c:84-114 | creating /x/a where there is no /x makes /a, and /x/a still means nothing |
| VfsWitnesses.LastUnlinkFits | kernel/fs/vfs/link.c:63-65 | a run that makes n files in one folder: unlinking the last one is safe if and only if 15 n bytes fit the block of the child vector |
| VfsWitnesses.UnlinkOverruns | kernel/fs/vfs/link.c:63-65 | so it breaks the invariant with 274 files, and with 1022 the copy ends more than a page behind the block |
| Vfs.Vfs.Walk | kernel/fs/vfs/common.c:59-96 | the token loop over tmpbuff ends where the model's scan ends |
| Vfs.Vfs.FindChild | kernel/fs/vfs/common.c:88-95 | finds the first child with the name |
| Vfs.Vfs.PathToNode | kernel/fs/vfs/common.c:59-128 | finds, creates or refuses as the model says, for all flags |
| Vfs.Vfs.CreateNode | kernel/fs/vfs/misc.c:7-18 | the new state is the model's, a step of a run; 0 iff a node was made |
| Vfs.Vfs.LinkNode | kernel/fs/vfs/link.c:7-45 | the new state is the model's in both branches; valid iff the mountpoints match, and 0 iff also the source was found and the target has a place |
| Vfs.Vfs.UnlinkNode | kernel/fs/vfs/link.c:47-75 | the new state is the model's; 0 iff the path finds a node without entries; valid iff the erase fits the folder's block |
| Vfs.Vfs.EraseKid | kernel/lib/vector.h:38-54 | removes the first equal entry of a child list, and records whether the copy of vec_erase fits its block |
| Vfs.EraseVal | kernel/lib/vector.h:46-54 | finds the first equal entry of a child list and gives the list without it |
| Vfs.Vfs.OpenNode | kernel/fs/vfs/openclose.c:7-34 | the new state is the model's; the handle is the new last slot |
| Vfs.Vfs.HandleToFd | kernel/fs/vfs/common.c:48-56 | a descriptor iff the handle is in range and open |
| Vfs.Vfs.CloseNode | kernel/fs/vfs/openclose.c:37-59 | the new state is the model's |
| Vfs.Vfs.ReadNode | kernel/fs/vfs/readwrite.c:11-34 | the bytes and the state are the model's; returns their number |
| Vfs.Vfs.WriteNode | kernel/fs/vfs/readwrite.c:37-64 | the state is the model's; returns the length, or 0 iff the handle is not open for writing |
| Vfs.Vfs.Grow | kernel/fs/ramfs/ramfs.c:47-55 | the allocation grows to the size and keeps its bytes |
| Vfs.Vfs.SeekNode | kernel/fs/vfs/readwrite.c:67-81 | the state is the model's; 0 iff the handle is open and the position is inside the file or the mode allows writing |
| Vfs.Vfs.MountRamfs | kernel/fs/vfs/misc.c:61-73 | the state is the model's; 0 iff the path finds an empty folder; valid iff it had one reference |
| RamFile.ReadFitsExactly | kernel/fs/vfs/readwrite.c:22-28 | the bytes ramfs copies for a read lie in the allocation if and only if the position is not past the end and position plus length does not wrap |
| RamFile.WriteFitsExactly | kernel/fs/vfs/readwrite.c:54-59 | those of a write do if and only if position plus length does not wrap |
| RamFile.ReadMeaning | kernel/fs/vfs/readwrite.c:22-33 | a read returns the bytes from the position, as many as asked for or as there are |
| RamFile.WriteMeaning | kernel/fs/vfs/readwrite.c:54-63 | a write replaces the bytes at the position, keeps all others, and grows the file as needed, across reallocation |
| RamFile.WriteBehindEnd | kernel/fs/vfs/readwrite.c:54-63 | a write behind the end keeps the old bytes and puts the new ones at the position |
| RamFile.RewindExactly | kernel/fs/vfs/readwrite.c:74-79 | going back to the start fails if and only if the file is empty and read-only |
| RamFile.WriteAllMeaning | kernel/fs/vfs/readwrite.c:54-63 | any cutting of the bytes into writes gives the same file |
| RamFile.ReadAllMeaning | kernel/fs/vfs/readwrite.c:22-33 | any cutting of a read into pieces gives the same bytes |
| RamFile.RoundTrip | kernel/fs/vfs/readwrite.c:11-81 | any chunks written, a seek to 0, any chunks read: the concatenation comes back |
| Initrd.FramePresent | kernel/boot/initrd/initrd.c:29-31 | what has been unpacked stays unpacked while siblings follow |
| Initrd.CreateAdds | kernel/boot/initrd/initrd.c:21-34 | creating a node adds one entry to its folder and changes nothing else |
| Initrd.FillsFile | kernel/boot/initrd/initrd.c:38-40 | open, write and close put the file's bytes behind its path |
| Initrd.Loader.Helper | kernel/boot/initrd/initrd.c:11-42 | the whole subtree is there afterwards, with exactly as many new nodes as it has, the same handles are open, path_buff keeps its prefix, and only the folder got one entry |
| Initrd.Loader.Unpack | kernel/boot/initrd/initrd.c:11-49 | afterwards every file of the archive opens at its path and a read returns exactly its bytes; there are exactly as many new nodes as the archive has, the same handles are open, and what was there before is unchanged |
| Initrd.ArchiveReadsBack | kernel/boot/initrd/initrd.c:11-49 | where the tree of an archive is present, every one of its files opens at its path and reads back its bytes |
| Initrd.OpensAndReadsBack | kernel/boot/initrd/initrd.c:38-40 | a file that is present opens at its path, and a read returns exactly its bytes |

## Left out

- Pmm.PageAllocator.Get: requires that the candidates tried stay inside the bitmap (`SearchInside`, whose exact condition is `SearchInsideExact`); for other states the kernel reads behind the bitmap.
- Pmm.PageAllocator.constructor: requires a memory limit that is a multiple of 32 KiB (`BitmapCovers` says why) and an entry that can hold the bitmap; without one the kernel writes through a null pointer.
- Vmm.AddressSpace.MapPages: requires aligned addresses, a range that does not wrap around, and leaf flags that contain PRESENT and fit in 12 bits; mapped frames may repeat and are not part of the ownership.
- Heap: the header of a block is kept beside the bytes of the block, and `kmrealloc` of a null pointer is `Alloc`.
- Vector.Vec.EraseVal: requires that the copy of `vec_erase` fits (`EraseFitsExact`).
- RwLock: the spinning in `rwlock_take_read` is a repeated `TryRead`; the saved interrupt flags are not modelled.
- Scheduler.Kernel.Kill: for a sleeping task it states the broken queues by their ends and by what they lead through, not as new sequences.
- Scheduler.Kernel.Add: takes the slots that a tid beyond the end of the table skips to be null; in `SchedModel.Add` they may hold anything.
- Scheduler.Kernel.Start: takes the idle task off the table in the same step, although the kernel does so outside the lock.
- Scheduler.Kernel.Janitor: requires that no processor runs a dead task any more; the kernel frees it at once.
- Scheduler.Kernel.Sleep: for more than 2 ms, requires a task that is in the table and not asleep; `SleepKeepsInvExactly` says that nothing else works. The halt after it ends in a context switch.
- VfsModel.ScanIsResolve: for paths whose proper prefixes all resolve; `ScanIsKept` is the statement for all paths.
- VfsCalls.LookupIsResolve: the same special case; `LookupIsKept` and `LookupIsResolveExactly` are for all paths.
- VfsCalls.LinkResolves: for nodes that are not folders; `LinkLeadsOn` is for all nodes. Both are for one mount, as `LinkKeepsInvExactly` asks.
- VfsCalls.UnlinkResolves: for unlinks whose erase fits; what a copy that leaves its block does to other memory is not modelled.
- Vfs.Vfs.UnlinkNode: does not unlink an empty root, which has no parent to be erased from.
- Vfs.Vfs.Walk: like all calls with a path, for paths whose copied components fit tmpbuff with their final zero (`VfsModel.PathFits`); the kernel writes behind tmpbuff for others.
- Memory.Memory.Map: the bytes of heap blocks and the words of page tables are kept in two arrays; `Memory` says that no page is used in both.
- Vfs.Vfs.ReadNode: only for nodes with a size and a position not past the end; `ReadFitsExactly` says that other reads leave the allocation.
- Vfs.Vfs.WriteNode: only for nodes with a size, where position plus length does not wrap; the gap behind the old end holds whatever the memory held.
- Vfs.Vfs.CloseNode: the inode of an unlinked file is not freed when its last descriptor closes; the kernel leaks it, and so does the model.
- Initrd.Loader.Unpack: the archive is a tree whose offsets and magic numbers are right; the kernel panics on a wrong one. Giving the archive's pages back afterwards is `Release`.
- Names: `strncmp` and `memcpy` of names are the comparison of their first 256 characters; the bytes behind the final zero are not modelled.
- Integer widths: modelled where they matter (the 16-bit log indices, the masks of page table entries, positions and lengths of reads and writes); addresses, clocks and counts are otherwise unbounded.
- ttyfs input producer, `vfs_chmod`, `vfs_getdent`, registration of file systems and mounts of block devices: easy or absent in the kernel.
- Inline assembly, control registers, TLB invalidation, interrupts, the context-switch assembly, devices, ACPI and the display: hardware.
