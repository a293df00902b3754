# Verification of the kernel's memory, block and scheduling core

This project models four parts of the kernel in Dafny and proves what they are for.

1. **Copy-on-write paging** (`mm/memory.c`, `kernel/fork.c`). One page directory is cut into a 64 MB slice for each
   task; `mem_map` counts references to frames; fork shares frames read-only and write faults split them again.
   Proved: over every run of loads, stores, forks, `verify_area`, exits and releases of task slots this is
   indistinguishable from every task having a memory of its own, each count equals the number of references, whatever
   is writable is owned alone, no task structure is touched, and a child that exits has cost no frame. Also proved:
   exactly when fork succeeds and when a fault or `verify_area` halts the machine.
2. **Buffer cache and request queues** (`fs/buffer.c`, `kernel/blk_drv/ll_rw_blk.c`, `kernel/blk_drv/blk.h`). The
   code between two sleeps is one step of a state machine; at every sleep other tasks and the devices take any steps
   that the code allows. Proved: one buffer per block, stable identity of referenced and locked buffers, the content
   of every block unchanged by anything but a write, every reference count as the balance of the run, the order of
   the elevator (reads first, then by device and sector) and its starvation bound, and for each routine what it returns
   whatever happens while it sleeps, and that it sleeps only when it must.
3. **The block tree of a file** (`fs/inode.c`, `fs/truncate.c`, `fs/bitmap.c`, `fs/file_dev.c`). Proved: where in the
   blocks of the device each byte of a file lies, that the tree is an injective partial map, `_bmap` changes it at one
   block only, `truncate` gives back exactly the tree, and `file_read` is a slice of the logical file.
4. **The scheduler** (`kernel/sched.c`). Proved: bounds of the time slices, whom `schedule` runs, that its loop ends
   within two passes, and that a task that stays runnable is not starved.

## How it is written

The files come in pairs. A file of functions and lemmas says what the state is, what each step does to it and what
follows over all runs; a file with a class does what the source does, on arrays and fields, and each of its methods is
proved to do to the state exactly what the functions say.

| part | functions and lemmas | in place |
|---|---|---|
| paging | `PageWord`, `PagingState`, `PagingSteps`, `PagingTables`, `PagingTasks`, `PagingProcess`, `PagingKernel`, `PagingRuns` | `MemoryManager` |
| cache | `Elevator`, `CacheState`, `CacheProgress`, `Links` | `BufferLists`, `RequestTable`, `CacheMachine`, `BufferCache` |
| files | `FileTree`, `Truncation`, `FileCache` | `FileSystem` |
| scheduler | `Scheduler` | `Scheduler` |

A routine that can sleep takes a schedule: for each of its sleeps the steps that the others attempt. A step that the
code would not take at that moment does not happen, and every other one does (`BufferCache.AnyRunHappens`). A routine is
still asleep only when its schedule has ended, so a contract holds for every interleaving. `Me` is the task that runs
the routine, `Other` any other one.

A panic, and running out of memory in `oom`, is a result after which nothing runs.

## Where the code and its comments differ, or where it does less than it promises

The model follows the code.

- `schedule` masks the pending signals with `_BLOCKABLE & ~blocked`, so a task that has only been killed or stopped
  sleeps on (`Scheduler.KillWakesNobody`); the comment at `kernel/sched.c:95-97` says that these signals cannot be held
  back. For every interruptible task code and comment agree if and only if, after the alarm test of the same pass,
  neither signal is pending or some other signal, not blocked, is (`Scheduler.WakesAsPromised`).
- `verify_area` counts in an unsigned number that its loop tests as a signed one. The pages it visits cover the area
  if and only if the size, with the offset in the first page, is below 2^31 (`PagingProcess.VerifyAreaComplete`). It
  does not look at the segment limit. It visits pages of the caller's slice only, if and only if the rounded size is 0
  or reads as negative, so that nothing is visited, or the rounded area, its size below 2^31, ends within the 64 MB of
  the slice, or the size wraps and the pointer itself is within them (`PagingProcess.VerifyAreaLocal`). A pointer just
  behind the segment un-shares a page of the next task (`PagingProcess.PointerBeyondSegment`). No view changes in any
  case.
- `find_buffer` hashes the whole device number but compares its low 16 bits. It finds what is cached under these if
  and only if the bits above them leave the hash as it is (`BufferLists.FindableExactly`); number 0x10001 misses a
  buffer of device 1 (`BufferLists.WideDeviceMissed`). After such a miss `getblk` relabels a free buffer with the low
  bits. Blocks then stay unique if and only if these bits are no device, or the hash is the same, or no other buffer
  stands for the block (`BufferLists.WideClaimUnique`); `getblk(0x10001, 0)` makes a second buffer for block 0 of
  device 1 (`BufferLists.WideClaimDuplicates`).
- The elevator's order needs distinct keys (`Elevator.RepeatedKeyBreaksOrder`); the cache provides them.
- `free_block` on a block that somebody else holds keeps the bitmap bit set and never gives back the reference that it
  took itself (`Truncation.HeldBlockLeaks`); and `truncate` does not reach what lies behind an indirect block that it
  cannot read (`Truncation.UnreadableLeaks`). The bits of all blocks of the file are clear after `truncate` if and
  only if the way to each of them can be read and nobody else holds one (`Truncation.TruncateFreesAll`).
- `bmap` returns 0 for a block behind an indirect block that cannot be read, and is right if and only if its way can be
  read or there is nothing to find (`FileTree.BmapIsLookup`). `file_read` then delivers zeros: a byte is right if and
  only if its way can be read or it is 0 (`FileSystem.SeenByteExactly`), and `FileSystem.ZerosForData` is a file on
  which it reports success and is wrong.
- Stores in kernel mode ignore the write protection of pages, which `boot/head.s:239-241` leaves off. Such a store
  stays private if and only if the page passes the test of un_wp_page (`PagingKernel.KernelStorePrivate`); after
  `verify_area` it does, but `file_read` stores without it.
- `release` has no return behind its two writes: the task that calls it runs into the panic of `kernel/exit.c:31` as
  soon as it is scheduled again. The runs contain the two writes, which never panic themselves and are seen by nobody
  (`PagingRuns.ReleaseStep`), and go on with the other tasks.

## Model

| member | source | states |
|---|---|---|
| PageWord.EncodeFields | mm/memory.c:4-8 | the masks and comparisons that the source applies to a raw 32-bit entry (`& 1`, `& 3`, `& 0xfffff000`, `> LOW_MEM`) are the tests on the fields of the model's entry |
| PageWord.EncodeMasks | mm/memory.c:344-360 | clearing and setting bit 1 and or-ing 7 into a page address are the model's field updates |
| PageWord.EncodeInjective | mm/memory.c:4-8 | no two different entries are the same machine word |
| PagingState.DirsExactly | mm/memory.c:181 | the rounding of a size to page tables covers it, and with one table less it would not be covered |
| PagingSteps.HighestFree | mm/memory.c:115-118 | the backward scan finds the highest zero byte of `mem_map`, and -1 only if there is none |
| PagingSteps.GetFreeTakes | mm/memory.c:123-145 | get_free_page takes the highest frame whose count is 0, to which nobody refers, zeroes it, sets its count to 1 and changes no other and no view; it returns 0 only if no count is 0 |
| PagingSteps.Counted | mm/memory.c:150-158 | a frame above LOW_MEM that anything refers to has a positive count, so freeing it does not panic; a count of 1 means that the one reference is the only one |
| PagingSteps.CountsFit | mm/memory.c:35-50 | every count in main memory stays at most 63, below USED and far from a byte's wrap |
| PagingSteps.FreePanicsExactly | mm/memory.c:150-158 | free_page panics on a frame of main memory that nobody refers to or has in hand, and on no other |
| PagingSteps.DropEntryStep | mm/memory.c:196-199 | releasing one page-table entry keeps the invariant and touches no other entry |
| PagingSteps.ShareEntryStep | mm/memory.c:557-580 | sharing one entry in copy_page_tables keeps counts, ownership of writable pages and all views, and the child entry reads as the parent's |
| PagingSteps.UnWpStep | mm/memory.c:325-375 | un_wp_page leaves the page writable, owned by this entry alone and reading as before, touches no other entry, and halts only when no frame is free |
| PagingSteps.SoleStoreStep | mm/memory.c:340-347 | a store into a frame that one entry alone refers to changes one word of one task's view and no page table |
| PagingSteps.StoreWordStep | mm/memory.c:340-360 | a store through a writable entry changes one word of one task's view and no page table |
| PagingTables.PutPageStep | mm/memory.c:222-265 | put_page maps the page, adding a table if needed, with counts and all other views kept |
| PagingTables.NoPageStep | mm/memory.c:422-440 | a missing-page fault supplies a zeroed page that the task owns, and no view changes |
| PagingTables.FreeTablesStep | mm/memory.c:168-209 | free_page_tables never reaches free_page's panic, keeps the invariant and empties exactly its directory entries |
| PagingTables.CopyTablesStep | mm/memory.c:484-585 | copy_page_tables gives the new slice the views of the old one over what it has copied, keeps every other view, and on running out of frames leaves the invariant for the clean-up; it never meets an existing table |
| PagingTasks.CopyTablesCost | mm/memory.c:513-585 | copy_page_tables succeeds if and only if there is a free frame for every table it copies, and takes just these |
| PagingTasks.NoPageExactly | mm/memory.c:422-440 | a missing page is supplied if and only if there is a free frame for it and, where it is missing, one for its table |
| PagingTasks.UnWpExactly | mm/memory.c:325-375 | un_wp_page leaves a page that only this entry refers to in place, with no count changed, moves any other to the frame get_free_page takes, mapped for user, read and write, and halts exactly when it would have to move it and no frame is free |
| PagingProcess.ForkSucceeds | kernel/fork.c:121-186 | after a successful fork the child reads exactly what the parent reads, zeros elsewhere, every other task reads what it read, and the page of the new slot holds the copied task structure |
| PagingProcess.ForkRefused | kernel/fork.c:83-87 | a failed fork never panics and is invisible: `mem_map`, directory, task array and every view are as before |
| PagingProcess.ForkTasks | kernel/fork.c:121-128 | fork puts the structure into the new slot's page and leaves every other slot and its page alone; when it fails it leaves them all alone |
| PagingProcess.ForkExactly | kernel/fork.c:83-123 | fork succeeds if and only if there are free frames for the task structure and for a copy of every page table of the parent within its limit, and takes just these |
| PagingProcess.ForkUndone | kernel/fork.c:121-186 | releasing slice and slot of a child straight after its fork leads back: `mem_map`, directory, task array and every view are as before the fork |
| PagingProcess.LowPage | boot/head.s:204-230 | the boot tables map 16 MB writably and nothing lies beyond, so write_verify does nothing below 64 MB |
| PagingProcess.WriteVerifyStep | mm/memory.c:289-315 | write_verify, at any linear address, makes a present page of a slice private and touches no other entry; below 64 MB it changes nothing; it halts only when no frame is free |
| PagingProcess.WriteVerifyExactly | mm/memory.c:289-315 | write_verify halts if and only if the page is protected, is not this entry's alone and no frame is free; otherwise a page that is not protected stays as it is, and one that is this entry's alone costs no frame |
| PagingProcess.VerifyPagesStep | kernel/fork.c:41-45 | the loop of verify_area, from any linear page on and around the end of the 4 GB space, makes every page it visits private and changes no view and no entry of another page |
| PagingProcess.VerifyHalts | kernel/fork.c:41-45 | verify_area halts only at a page at which un_wp_page needs a frame and none is free |
| PagingProcess.VerifyHaltsExactly | kernel/fork.c:41-45 | and it halts if and only if one of the pages it visits is such when the loop gets to it |
| PagingProcess.VerifyCountCovers | kernel/fork.c:33-42 | the number of rounds is enough for the area if and only if the rounded size is below 2^31, and then less than a page too much |
| PagingProcess.VerifyAreaCovers | kernel/fork.c:33-45 | every page that overlaps the area, linear addresses taken modulo 2^32, is visited if and only if the rounded size is below 2^31 |
| PagingProcess.VerifyAreaComplete | kernel/fork.c:26-46 | for all 32-bit arguments: the visited pages are private afterwards, they are all pages of the area if and only if the rounded size is below 2^31, no view and no entry outside them has changed, and nothing below 64 MB |
| PagingProcess.VerifyAreaLocal | kernel/fork.c:36-45 | only pages of the caller's slice are visited if and only if z = size + addr % 4096 is 0 or between 2^31 and 2^32, or is below 2^31 with addr - addr % 4096 + z at most 64 MB, or is above 2^32 and addr < 64 MB |
| PagingProcess.PointerBeyondSegment | kernel/fork.c:40-45 | with the pointer 0x4000000 a shared page of the next task's slice becomes writable, and no view changes |
| PagingKernel.KernelStorePrivate | mm/memory.c:340-347 | a kernel-mode store to a present page is seen by nobody else, whatever is written, if and only if the frame lies in main memory with a count of 1 |
| PagingKernel.VerifiedStoreAlone | kernel/fork.c:14-24 | after verify_area a kernel-mode store to any present page of the area is seen by nobody else |
| PagingRuns.AddressSplit | mm/memory.c:15-21 | splitting a linear address into directory index, table index and offset loses nothing and stays in the task's slice |
| PagingRuns.LoadReads | mm/page.s:21-25 | a load returns what the task's private memory holds, whether or not it faults first |
| PagingRuns.StoreStep | mm/page.s:21-25 | a store, with the fault it raises, changes exactly one word of the private memory of one task; it halts only when fewer than two frames are free |
| PagingRuns.ForkStep | kernel/fork.c:121-186 | fork copies the parent's private memory and puts the task structure in place, or does nothing; it succeeds exactly when there are frames enough, and never halts |
| PagingRuns.ExitStep | kernel/exit.c:114-115 | exit clears the private memory of the task and nobody else's, and never halts |
| PagingRuns.ReleaseStep | kernel/exit.c:24-29 | releasing the slot of a task whose slice is empty never panics in free_page, makes the slot free and is seen by nobody |
| PagingRuns.ForkExitRelease | kernel/exit.c:24-29 | a child that exits and is released before anything else happens has cost nothing: every count, the directory and the task array are as before its fork |
| PagingRuns.StepRefines | mm/memory.c:325-440 | every event keeps the invariant and does to the private memories what the specification says; a load or store halts only when frames run out, a fork, exit or release never (for verify_area see VerifyHalts) |
| PagingRuns.StepStops | mm/memory.c:325-440 | exactly when an event halts the machine: a missing page with too few free frames for it and its table, a write to a shared page or verify_area at one with none free; fork, exit and release never |
| PagingRuns.StepTasks | kernel/fork.c:121-128 | no load, store, fault, fork, verify_area or exit of anybody changes the slot, the page or the contents of a task structure, nor does the release of another task |
| PagingRuns.RunTasks | kernel/fork.c:121-128 | over every run a task structure keeps page and contents until its own release |
| PagingRuns.ForkedTaskKept | kernel/fork.c:121-128 | what fork puts into the task structure is what is there after any run without its release |
| PagingRuns.RunRefines | mm/memory.c:325-585 | over every run of events the machine refines private memories |
| PagingRuns.BootInv | mm/memory.c:70-85 | the state after mem_init satisfies the invariant |
| PagingRuns.ReachableStates | mm/memory.c:35-158 | in every state reachable from boot each count is the number of references and below 64, get_free_page's next frame is referred to by nobody, no release of a referenced frame panics, and a writable page has one reference |
| PagingRuns.ReleaseTwice | kernel/exit.c:114-115 | releasing a slice a second time, as do_exit does, changes nothing |
| MemoryManager.Memory.constructor | mm/memory.c:70-85 | boot establishes the invariant |
| MemoryManager.Memory.MemInit | mm/memory.c:70-85 | after mem_init exactly the whole pages from the start of main memory on have count 0, all others USED |
| MemoryManager.Memory.GetFreePage | mm/memory.c:123-145 | the scan in place returns GetFree's frame and state |
| MemoryManager.Memory.FreePage | mm/memory.c:150-158 | the count in place, and the panic exactly when FreePanics says |
| MemoryManager.Memory.FreePageTables | mm/memory.c:168-209 | the nested loops in place do what FreeTables does, with both panics on bad arguments |
| MemoryManager.Memory.PutPage | mm/memory.c:222-265 | put_page in place does what PutPage says, and changes nothing when it fails |
| MemoryManager.Memory.DoNoPage | mm/memory.c:422-440 | the missing-page fault in place, with oom as the only other end |
| MemoryManager.Memory.UnWpPage | mm/memory.c:325-375 | un_wp_page in place does what UnWp says |
| MemoryManager.Memory.DoWpPage | mm/memory.c:382-412 | at any linear address: a write fault in a slice leaves the page private with every view kept, or halts when no frame is free; below 64 MB no present page is protected |
| MemoryManager.Memory.WriteVerify | mm/memory.c:289-315 | write_verify in place, at any linear address |
| MemoryManager.Memory.VerifyArea | kernel/fork.c:26-46 | the loop of verify_area in place, with its wrapping and its signed test, for all 32-bit arguments |
| MemoryManager.Memory.CopyPageTables | mm/memory.c:484-585 | the nested loops in place do what CopyTables does: success, a table that exists (panic), or failure with the tables copied so far in place |
| MemoryManager.Memory.FindEmptyProcess | kernel/fork.c:249-252 | the lowest free task slot from 1 on, -1 exactly if there is none |
| MemoryManager.Memory.CopyProcess | kernel/fork.c:121-186 | the memory part of copy_process in place, with its failure path |
| MemoryManager.Memory.CopyMem | kernel/fork.c:56-90 | copy_mem in place: on failure the new slice is released again |
| MemoryManager.Memory.DropTask | kernel/exit.c:26-27 | clearing a task slot and freeing its page in place, as release and a failed copy_process do; the panic exactly when FreePanics says |
| MemoryManager.Memory.ExitMemory | kernel/exit.c:114-115 | exit releases the slice, does not panic and empties exactly its directory entries |
| Elevator.InsertAfterFirst | kernel/blk_drv/ll_rw_blk.c:66-71 | add_request's loop stops at the first place that passes its test, or at the end |
| Elevator.AddContents | kernel/blk_drv/ll_rw_blk.c:72-73 | an insertion keeps the head and all other requests and adds just the new one |
| Elevator.AddKeepsOneDescent | kernel/blk_drv/ll_rw_blk.c:49-75 | with distinct keys a queue with at most one descent under IN_ORDER has at most one after add_request |
| Elevator.DoneKeepsOneDescent | kernel/blk_drv/blk.h:93-94 | and after end_request |
| Elevator.RepeatedKeyBreaksOrder | kernel/blk_drv/ll_rw_blk.c:66-71 | without distinct keys one insertion can turn one descent into two |
| Elevator.InOrderExactly | kernel/blk_drv/blk.h:42-45 | IN_ORDER puts reads before writes, then lower devices before higher ones, then lower sectors before higher ones, and decides between any two different keys |
| Elevator.DoneServes | kernel/blk_drv/blk.h:93-94 | a completion brings every other queued request nearer |
| Elevator.AddRunEnd | kernel/blk_drv/ll_rw_blk.c:66-73 | an insertion leaves every queued request in its run, and once there is a second run the maximum of the first is fixed |
| Elevator.AddWaits | kernel/blk_drv/ll_rw_blk.c:66-73 | an insertion makes no queued request wait longer |
| Elevator.HeadIsServed | kernel/blk_drv/ll_rw_blk.c:58-73 | whatever enters, the next request served is the one at the head now |
| Elevator.ServedInSweeps | kernel/blk_drv/blk.h:93-94 | over every legal run, within a run of the queue reads are served before writes, lower devices before higher ones and each in rising sectors; the order turns back exactly at the end of the run if requests are waiting |
| Elevator.NoStarvation | kernel/blk_drv/ll_rw_blk.c:66-73 | with keys from a set of N, a queued request is served within 2N completions whatever is added meanwhile |
| CacheState.ClaimUnique | fs/buffer.c:239-251 | taking a buffer for a block keeps one buffer per block, because the block was looked up again just before |
| CacheState.NewKeyFresh | kernel/blk_drv/ll_rw_blk.c:139-150 | a new request's key is not in the queue: this is what cache uniqueness gives the elevator |
| CacheState.EnqueueStep | kernel/blk_drv/ll_rw_blk.c:137-150 | queueing a request keeps the invariant of the whole system |
| CacheState.CompleteStep | kernel/blk_drv/blk.h:80-95 | completing a request, with a transfer of the sectors that it names, keeps it |
| CacheState.StepKeepsInv | fs/buffer.c:156-253 | every step of every task keeps uniqueness, the lock discipline, coherence with the device and the order of every queue |
| CacheState.IdentityStable | fs/buffer.c:156-173 | no step of anybody gives a referenced or locked buffer another block |
| CacheState.StepKeepsContent | fs/buffer.c:223-251 | only a task that writes or frees a block changes what the block contains; locking, queueing, transfers, references and eviction are invisible |
| CacheState.ClaimContent | fs/buffer.c:223-251 | eviction drops nothing: the victim's block is on the device |
| CacheState.CountStep | fs/buffer.c:164-243 | a look-up that hits and a claim add one to b_count, brelse and free_block take one away, and nothing else changes it |
| CacheState.CountIsBalance | fs/buffer.c:164-262 | over every run of all tasks b_count is the balance of what has been taken and given back, and so is one task's part of it |
| CacheState.RunAgrees | fs/buffer.c:156-290 | over every interleaving the cache with its devices agrees with a plain block store |
| CacheState.OthersRely | fs/buffer.c:52-57 | what other tasks and devices do to a sleeping task: its references, the blocks of the buffers it refers to, validity and reads under way, and the request it is making are kept |
| CacheState.StaysDirty | fs/buffer.c:67-94 | a dirty buffer stays dirty, and the same block, until it is queued or dropped |
| CacheProgress.CacheRunLegal | kernel/blk_drv/ll_rw_blk.c:49-75 | every run of the cache is a legal run of the elevator |
| CacheProgress.RequestCompletes | kernel/blk_drv/ll_rw_blk.c:49-75 | no queued request of the cache waits for more than 2N completions of its device |
| CacheProgress.DeviceSweeps | kernel/blk_drv/blk.h:80-95 | every device of the cache completes its requests in such sweeps, no read after a write within one, over every interleaving of all tasks |
| BufferLists.UnlinkRing | fs/buffer.c:108-117 | taking a buffer out of the circular list leaves a circular doubly linked list of the others |
| BufferLists.LinkRing | fs/buffer.c:122-127 | putting it at the end leaves one circular list with the buffer last |
| BufferLists.UnlinkChains | fs/buffer.c:99-107 | taking a buffer out of its hash chain leaves every other buffer in exactly the chain of its hash |
| BufferLists.PushChains | fs/buffer.c:128-139 | putting it at the head of its chain restores that for all buffers |
| BufferLists.FindableIffCached | fs/buffer.c:144-152 | for a 16-bit device number find_buffer succeeds exactly when some buffer stands for the block |
| BufferLists.FindableExactly | fs/buffer.c:144-152 | for any 32-bit number: it finds what is cached under the low 16 bits, these not being zero, if and only if the hash is the same for both |
| BufferLists.WideDeviceMissed | fs/buffer.c:144-152 | device number 0x10001 misses a buffer of device 1 |
| BufferLists.WideClaimUnique | fs/buffer.c:237-251 | after a look-up with any 32-bit number that found nothing, relabelling a free buffer with the low 16 bits keeps blocks unique if and only if these are 0, or the hashes agree, or no other buffer stands for the block |
| BufferLists.WideClaimDuplicates | fs/buffer.c:237-251 | a state in which getblk(0x10001, 0) makes a second buffer for a cached block |
| BufferLists.HashExactly | fs/buffer.c:43-44 | the hash is the remainder by 307 of the number whose bits are those in which device and block differ |
| BufferLists.Lists.constructor | fs/buffer.c:292-334 | buffer_init establishes the circular list of all buffers and empty chains |
| BufferLists.Lists.RemoveFromQueues | fs/buffer.c:99-118 | takes the buffer out of both lists; its panic cannot happen |
| BufferLists.Lists.InsertIntoQueues | fs/buffer.c:122-140 | puts it back into both |
| BufferLists.Lists.FindBuffer | fs/buffer.c:144-152 | returns a buffer of the block, and one exactly if the searched chain can have one |
| BufferLists.Lists.ScanFree | fs/buffer.c:186-212 | returns the first unreferenced buffer, in list order, than which none is handier: clean before dirty, and of two alike in that unlocked before locked; NULL exactly if every buffer is referenced |
| RequestTable.InsertLinked | kernel/blk_drv/ll_rw_blk.c:72-73 | the two link writes insert the request at its place |
| RequestTable.FilledConserved | kernel/blk_drv/ll_rw_blk.c:137-150 | filling a free slot and queueing it keeps every slot free or in exactly one queue exactly once |
| RequestTable.FreedConserved | kernel/blk_drv/blk.h:93-94 | and so does freeing the current request |
| RequestTable.Requests.constructor | kernel/blk_drv/ll_rw_blk.c:167-173 | blk_dev_init frees every slot |
| RequestTable.Requests.FindSlot | kernel/blk_drv/ll_rw_blk.c:120-126 | the highest free slot that the command may use, writes only below 21; NULL exactly if there is none |
| RequestTable.Requests.AddRequest | kernel/blk_drv/ll_rw_blk.c:49-75 | the linked queue in place becomes the elevator's insertion; slots are conserved and the last third never holds a write |
| RequestTable.Requests.EndRequest | kernel/blk_drv/blk.h:80-95 | the linked queue in place loses its head |
| CacheMachine.Cache.constructor | fs/buffer.c:292-334 | boot: no block is cached, and every block contains what its device has |
| CacheMachine.Cache.Claim | fs/buffer.c:243-251 | the end of getblk in place is the step Claim, and the buffer goes to the end of the free list |
| CacheMachine.Cache.Enqueue | kernel/blk_drv/ll_rw_blk.c:137-150 | the end of make_request in place is the step Enqueue |
| CacheMachine.Cache.EndRequest | kernel/blk_drv/blk.h:80-95 | end_request(1) after the transfer in place is the step Complete |
| BufferCache.Pinned | fs/buffer.c:164-168 | a reference taken before a wait pins the identity of its buffer |
| BufferCache.Sleep | kernel/sched.c:59-72 | of the steps that others attempt during a sleep exactly those happen, in order, that the code would take then; queueing also needs a free slot; the sleeping task can rely on OthersRely |
| BufferCache.AnyRunHappens | kernel/sched.c:59-72 | every run of the others and the devices is what some sleep comes to |
| BufferCache.OnlyRunHappens | kernel/sched.c:59-72 | and when just that run is attempted, and it queues nothing, nothing else happens |
| BufferCache.WaitOnBuffer | fs/buffer.c:52-57 | it ends with the buffer unlocked, or asleep at the end of the schedule with the buffer locked; without a sleep nothing has changed |
| BufferCache.GetHashTable | fs/buffer.c:156-173 | it ends with an unlocked buffer of the block and one reference more, or with the block not cached, or asleep on a locked buffer; it does not sleep when the block is cached unlocked; its retry is dead code |
| BufferCache.QueueUp | kernel/blk_drv/ll_rw_blk.c:107-150 | after any number of sleeps for a slot the request is queued and the buffer clean; a read- or write-ahead gives up only when no slot is free |
| BufferCache.MakeRequest | kernel/blk_drv/ll_rw_blk.c:78-151 | after a read the buffer is valid or being read, after a write it is clean; a read- or write-ahead may let go, but only of a locked buffer or when no slot is free |
| BufferCache.LlRwBlock | kernel/blk_drv/ll_rw_blk.c:154-163 | the same for a device with a driver; for any other nothing happens at all |
| BufferCache.WasCleaned | fs/buffer.c:67-94 | a dirty buffer of a device that no longer is one has been queued or dropped |
| BufferCache.SyncDev | fs/buffer.c:63-96 | every buffer of the device that was dirty at the call, and every one that is dirty when sync_inodes is done, has been queued for writing, or dropped by free_block, when it returns |
| BufferCache.MakeReady | fs/buffer.c:221-236 | the buffer is free, unlocked and clean, or others have taken it during a sleep |
| BufferCache.ClaimFree | fs/buffer.c:237-252 | the last look-up decides between taking the buffer and starting again |
| BufferCache.Getblk | fs/buffer.c:182-253 | it ends with an unlocked buffer of the block and one reference more, keeps what the task holds and writes nothing; it does not sleep when the block is cached unlocked, nor when it is not cached and some buffer is unreferenced, clean and unlocked |
| BufferCache.Brelse | fs/buffer.c:257-264 | the count goes down by one and nothing else is lost; without a sleep no other buffer changes; its panic cannot happen to a holder |
| BufferCache.Bread | fs/buffer.c:271-290 | the buffer it returns holds what the block contains; it returns none only for a device without a driver, and then keeps no reference; it does not sleep when a valid unlocked buffer of the block is cached |
| BufferCache.QuietRun | fs/buffer.c:182-290 | while nobody writes or frees a block, no routine changes what any block contains |
| FileTree.LookupInjective | fs/inode.c:61-139 | no zone belongs to two blocks of a file |
| FileTree.LookupExactly | fs/inode.c:61-139 | the zone of block b is zone[b] below 7, entry b - 7 of block zone[7] below 519, else entry (b - 519) % 512 of the block named by entry (b - 519) / 512 of block zone[8], entries being 16 bits with the low byte first |
| FileTree.FileByteExactly | fs/file_dev.c:20-41 | byte pos of a file is byte pos % 1024 of that zone for block pos / 1024, and 0 in a hole |
| FileTree.FillAt | fs/inode.c:72-79 | putting a fresh zone into one entry changes no other entry of the tree |
| FileTree.VisitStep | fs/inode.c:61-139 | _bmap keeps the tree unshared and allocated, changes no byte of the file and adds zones only on the way to the requested block |
| FileTree.BmapReads | fs/inode.c:144-146 | bmap changes nothing and returns the map's zone, or 0 if an indirect block on the way cannot be read |
| FileTree.BmapIsLookup | fs/inode.c:144-146 | bmap returns what the map says if and only if the way can be read or the map says 0 |
| FileTree.BmapCreates | fs/inode.c:61-139 | with create the map changes at the requested block only, where it gets a zone that was free; a later bmap of any block returns the same zone; 0 means a full device or an unreadable indirect block |
| FileTree.FindFree | fs/bitmap.c:60-64 | the contract of new_block: the first clear bit, 0 exactly if there is none |
| Truncation.GoneMore | fs/bitmap.c:20-58 | free_block on a zone in use does not panic, and drops it unless somebody else holds it |
| Truncation.FreeIndGone | fs/truncate.c:8-26 | free_ind gives back exactly an indirect block and the zones it names |
| Truncation.FreeDindGone | fs/truncate.c:29-47 | free_dind gives back exactly the tree below the double indirect block |
| Truncation.CutAllGone | fs/truncate.c:51-69 | truncate never panics on a well-formed tree and comes to giving back one set of zones |
| Truncation.TruncateFreesTree | fs/truncate.c:51-69 | it clears exactly the bits of the file's zones that can be reached and that nobody else holds, drops their data and no other, and zeroes all nine zone numbers |
| Truncation.TruncateFreesAll | fs/truncate.c:51-69 | after truncate the bits of all the file's zones are clear if and only if every zone's way can be read and nobody else holds it |
| Truncation.UnreadableLeaks | fs/truncate.c:8-26 | behind an unreadable indirect block a data block that nobody holds stays allocated, and no file has it |
| Truncation.HeldBlockLeaks | fs/bitmap.c:33-41 | a block that somebody else holds stays allocated with one reference more, and no file has it |
| Truncation.OtherFileKept | fs/truncate.c:51-69 | a file that shares no zone keeps its tree and every byte |
| FileCache.ReadsShown | fs/inode.c:91-128 | a valid buffer holds what the file tree says its zone holds |
| FileCache.QuietShows | fs/buffer.c:271-290 | over every run in which nobody writes or frees a block the file tree's zones stay what they are |
| FileCache.WriteShows | fs/inode.c:91-103 | changing or filling the buffer of one zone changes that zone of the tree's blocks and no other |
| FileCache.FreeZoneRefines | fs/bitmap.c:30-41 | free_block's look-up, its test of the count and its clearing of the flags, as steps of the cache, do to data and reference counts exactly what FreeZone says |
| FileCache.FreeUncached | fs/bitmap.c:30-41 | and so does its look-up of a block that is not cached |
| FileSystem.SeenByteExactly | fs/file_dev.c:20-41 | the byte that file_read delivers is the file's if and only if the way to its block can be read or the byte is 0 |
| FileSystem.ReadIsComplete | fs/file_dev.c:19-45 | within the mappable size file_read returns count and advances by it if and only if no block of the range stops it |
| FileSystem.ReadFails | fs/file_dev.c:20-45 | file_read returns -99 without moving if and only if its first block stops it; otherwise it returns what it has delivered, which is all up to the first block that stops it |
| FileSystem.ModesExactly | fs/truncate.c:54 | truncate acts on modes 0x8000-0x8fff and 0x4000-0x4fff and on no other |
| FileSystem.ReadIsSlice | fs/file_dev.c:12-46 | when the blocks of the range and the indirect blocks on the way to them can be read, file_read delivers exactly the requested slice, holes as zeros, and advances the position by what it returns |
| FileSystem.ZerosForData | fs/file_dev.c:20-25 | a well-formed file whose indirect block cannot be read: file_read delivers 0 for a byte that is 7 and reports success |
| FileSystem.SliceMore | fs/file_dev.c:30-41 | one round of its loop adds the right piece |
| FileSystem.Device.FreeBlock | fs/bitmap.c:20-58 | free_block in place, with the panics on a block outside the data zone and on a bit already clear |
| FileSystem.Device.Bmap | fs/inode.c:61-139 | _bmap in place does what Visit says, marks the inode dirty exactly if a zone number in it changed, and panics exactly outside the mappable blocks |
| FileSystem.Device.FileRead | fs/file_dev.c:12-46 | the loop in place delivers what Reads says, for every position, count and set of unreadable blocks |
| FileSystem.Device.FreeInd | fs/truncate.c:8-26 | free_ind in place, for any tree |
| FileSystem.Device.FreeDind | fs/truncate.c:29-47 | free_dind in place, for any tree |
| FileSystem.Device.Truncate | fs/truncate.c:51-73 | truncate in place, for any tree; other kinds of files are left alone |
| Scheduler.WakesAsPromised | kernel/sched.c:95-102 | every interruptible task is woken as the comment promises if and only if, after the alarm test, no SIGKILL or SIGSTOP is pending or some other signal, not blocked, is |
| Scheduler.KillWakesNobody | kernel/sched.c:98-102 | a sleeping task that has only been killed sleeps on |
| Scheduler.WakeExactly | kernel/sched.c:87-102 | an alarm that has passed becomes signal 14 and is cleared, a task in state 1 with a signal that is not blocked, other than 9 and 19, goes to state 0, and no other field changes |
| Scheduler.AlarmWakes | kernel/sched.c:87-102 | a sleeping task whose alarm has passed runs unless it blocks signal 14 |
| Scheduler.ScanBest | kernel/sched.c:115-123 | the scan finds a runnable task of largest counter, the highest number among equals |
| Scheduler.SecondPass | kernel/sched.c:107-132 | after a recharge some runnable task has time left, so the loop ends within two passes |
| Scheduler.ScheduledBest | kernel/sched.c:74-137 | schedule runs a runnable task with time left and the largest counter, task 0 only if no other is runnable; it recharges exactly when no runnable task has time left; the bounds of the counters are kept |
| Scheduler.ScheduledExactly | kernel/sched.c:74-137 | what schedule makes of every task, field by field: woken as above, and recharged to half its counter plus its priority, running or not, exactly when some task is runnable then and none that is has time left; task 0 is left alone |
| Scheduler.TimerValid | kernel/sched.c:230-245 | a tick keeps 0 <= counter <= 2 * priority - 1 |
| Scheduler.TimerExactly | kernel/sched.c:230-245 | do_timer charges one tick to user or to system time, takes one from the counter down to 0, and calls schedule exactly in user mode with the slice used up |
| Scheduler.StepLowers | kernel/sched.c:230-245 | every user-mode tick that does not bring a waiting runnable task on brings it nearer, and no call of schedule, kernel-mode tick or change of other tasks' states puts it off |
| Scheduler.NoStarvation | kernel/sched.c:74-137 | a task that stays runnable runs within twice the sum of the others' 2 * priority - 1 user-mode ticks |
| Scheduler.Cpu.Schedule | kernel/sched.c:74-137 | the loops in place do what Scheduled says, in at most two passes |
| Scheduler.Cpu.FindNext | kernel/sched.c:108-123 | the scan in place |
| Scheduler.Cpu.DoTimer | kernel/sched.c:230-245 | do_timer in place |

## Left out

Paging

- The contents of the page directory's own frame and of the frames below 1 MB other than the boot tables, and stores
  made by task 0: those frames are not counted and task 0 writes to them freely.
- Memory is read and written a word at a time; alignment and partial words are not modelled.
- MemoryManager.Memory.constructor: takes page-aligned bounds, as `init/main.c` passes them; mem_init itself takes any.
- FreePageTables, CopyPageTables: the range ends at the end of the page directory; the source would run on behind it.
- PagingRuns: Store means a store in user mode, and Load likewise; kernel-mode stores are in PagingKernel only.
- CopyProcess: takes the copied task structure, with what fork changes in it, as an argument, and leaves out registers,
  descriptors and file counts;
  the panics of `kernel/fork.c:68-71` on differing segments are left out because the model keeps one limit for both.
- FindEmptyProcess: the choice of a process number is left out.
- RunTasks: what the scheduler and other parts of the kernel write into task structures is not an event.
- Release: the panic that its caller meets afterwards (`kernel/exit.c:31`) is not an event; nor are zombies and
  `waitpid`, so an event Release may come at any time when the slice is empty.
- `get_empty_page`, and flushing the translation buffer.

Cache

- I/O errors: a device transfers the block before end_request(1). After end_request(0) a written block is lost, because
  add_request has already cleared the dirty flag.
- Wait queues: a sleep ends when the schedule says so; nothing is claimed about who is woken.
- Getblk, GetHashTable, ClaimFree, Bread: device numbers are below 2^16, as `b_dev` is; WideClaimUnique says what a
  wider one does to uniqueness.
- SyncDev: what sync_inodes does counts as steps of other tasks, since it gets, changes and releases buffers and
  keeps none.
- `b_count` is not bounded by its byte; block numbers are below 2^31, so that `b_blocknr<<1` does not wrap.
- The layout of buffers in memory, `check_disk_change`, and the hard-disk driver: a device is a store that answers
  through end_request.
- StepKeepsContent: a block that free_block drops afterwards contains what its device has; the step says so.

Files

- FreeBlock: its device exists; the panic on a device without a super block (`fs/bitmap.c:25-26`) is left out.
- NewBlock: the source has a stub; its documented contract is the assumption.
- Other tasks that change the same file while a routine sleeps, times, and the dirty flags of bitmap and indirect
  blocks: the model keeps what the cache gives for each block, which stays the same over quiet runs (QuietShows).
- FreeZoneRefines: the buffer is unlocked, so free_block does not sleep between its look-up and its test.
- CutAllGone, BmapCreates: for trees without shared or unallocated zones, as the file system promises; the methods
  follow the code on every tree.
- FileRead: positions are not negative; a negative one reads outside the buffer in the source.
- The inode table, path lookup, `sys_read` and writing files.

Scheduler

- Priorities are at least 1, as fork and the initial task make them; with a priority of 0 the loop may not end.
- `switch_to` sets the current task; the wait-queue chain in `sleep_on` is not modelled.
- NoStarvation: the set of tasks is fixed while the bound counts; a new task starts with a fresh slice.
