# Verified models of the Pintos kernel core

This project models, in Dafny, the parts of this Pintos kernel that carry hard correctness
arguments, and proves those arguments for all inputs and all runs. Each module follows one source
file or one component:

- **Buddy allocator** (`BuddyHeap`, `Malloc`, `MallocRuns`): blocks as nodes of a binary tree per
  page, tiling and maximal coalescing as invariants of `malloc` and `free`, and over every run no
  page held for nothing.
- **File system** (`Bitmap`, `InodeData`, `Directory`, `FileSysState`, `FileSysCalls`,
  `FileSysSectors`, `FileSysHandles`, `FileSys`):
  a sector array that behaves like independent fixed-length byte arrays under names, with
  reference-counted inodes, write denial and delayed deletion, conservation of sectors and a free
  map that survives a reboot, over every run of calls.
- **Linked list and natural merge sort** (`MergeSort`, `KernelList`): heap nodes with both link
  directions; sorting is stable and terminates because each pass halves the number of runs.
- **Hash table** (`Hash`): chained buckets that refine a finite set, with resizing.
- **Semaphores, locks and condition variables** (`Semaphore`, `Monitor`) and the **round-robin
  scheduler** (`Scheduler`): step machines over the regions that run with interrupts off. The
  imperative code of semaphores and of the scheduler is proved to take those steps; the steps of
  locks and conditions are proved to be semaphore steps.
- **64-bit division** (`Arithmetic`) from a 64/32 divide instruction that can trap.
- **Page tables** (`PageDir`) and the **ELF loader** (`Loader`), joined in `UserMemory`: what is
  loaded is what the stored page table words map, and process exit frees it exactly once.
- **ustar headers** (`Ustar`) and **heap sort** (`HeapSort`).

`Wrappers`, `Bytes`, `Powers` and `Slices` hold shared definitions. To verify the project, use
`dafny verify dfyconfig.toml` (Dafny 4.11).

## Reading the model

- State that the C code updates in place is a class with fields that its methods reassign; lists
  in memory are sequences except in `KernelList`, which is proved on heap nodes. In-memory inodes
  and file handles are records in maps keyed by their addresses.
- Memory allocation, `palloc`, what memory holds and short reads are decided by parameters or an
  oracle, so every statement holds for every pattern of failures. In `FileSys`, the record `Memory`
  says which allocations of a call succeed and for how many directory entry reads memory lasts.
- The ghost map `owner` in `FileSys` says which file each sector belongs to. Sharing no sector is
  then part of its being a map; `LiveFilesDisjoint` states the consequence without it.
- Integers are unbounded except where the C width matters: the divisions, `malloc` request sizes,
  ELF sums, octal parsing, page table words, bitmap words and inode fields are modelled at their
  width.

## Findings

- `free` takes the word before a block for the page count of a big block
  (`pintos/src/threads/malloc.c:305-312`). For a block that follows a 16-byte block that word is the
  other block's size tag, so `malloc (16)`, `malloc (16)` and freeing the second block panic without
  any misuse (`SecondBlockPanics`); behind larger blocks the word is whatever that memory holds.
  `Allocator.Free` states exactly when a small block is recognised, and `NeverSmallBehindUnit` that
  a 16-byte predecessor always defeats it.
- `dir_add` trusts that a short read means end of file. When memory for the reads runs out it can
  overwrite an entry in use or bind a name twice (`AddCanOverwrite`, `AddCanDuplicate`).
  `AddCorrectIff` gives the exact condition on the memory for the change to be right. Sector
  ownership is kept even then.
- Sectors can be lost: marked, but in no file that has a name or is open, so that nothing frees them
  again (`LostForGood`). `filesys_create` makes the file before it looks for the name, and gives back
  only the inode's sector when linking fails (`pintos/src/filesys/filesys.c:50-55`), so creating a name
  that exists, or in a full directory, loses the file's data sectors (`CreateAgainLoses`). When
  `dir_add` writes over an entry in use, the file it named is lost whole, at once or at its last close
  (`OverwriteLoses`). `CallLoses` and `MapExactIff` prove that no other call loses any and how many
  are lost over a run, and `RebootLoses` when a reboot loses some: a file that is open without a name,
  such as a removed one, does not survive it.
- `inode_write_at` has a branch that zeroes the bounce buffer
  (`pintos/src/filesys/inode.c:304-305`); it cannot be reached, because a chunk that covers its
  sector is written directly. `WriteChunk` asserts this.
- `sdiv64` wraps for INT64_MIN / -1, and `umod64` and `smod64` return 32 bits; the contracts say
  exactly when the result is the mathematical one.
- The page count of a `malloc` request near 2^32 wraps: to 0, so that `malloc` returns null, for
  4096 sizes, and to a run that is too short for the 23 sizes after them (`BigRequestFits`).
- `ustar_make_header` accepts a negative size, which `ustar_parse_header` then rejects.

## Model

| member | source | states |
|---|---|---|
| `Arithmetic.Divl` | pintos/src/lib/arithmetic.c:25-37 | The DIVL instruction gives the quotient, or traps exactly when the divisor is 0 or the quotient does not fit 32 bits. |
| `Arithmetic.Nlz` | pintos/src/lib/arithmetic.c:41-73 | Five conditional shifts find the one shift amount that brings the top bit to bit 31. |
| `Arithmetic.FoldQuotient` | pintos/src/lib/arithmetic.c:82-111 | Folding the high word into the next dividend adds up to the quotient of the whole. |
| `Arithmetic.UDivNarrow` | pintos/src/lib/arithmetic.c:80-112 | With a 32-bit divisor the single DIVL cannot trap and the result is the floor of n/d. |
| `Arithmetic.WideEstimate` | pintos/src/lib/arithmetic.c:121-123 | The normalised estimate is the true quotient or one more. |
| `Arithmetic.Correction` | pintos/src/lib/arithmetic.c:124 | The final comparison tells the two cases apart, without wrapping. |
| `Arithmetic.UDivWide` | pintos/src/lib/arithmetic.c:117-125 | With a divisor of 2^32 or more the corrected estimate is the floor of n/d. |
| `Arithmetic.UDiv64` | pintos/src/lib/arithmetic.c:77-127 | Exactly floor(n/d) for all 64-bit operands; traps if and only if d is 0. |
| `Arithmetic.UMod64` | pintos/src/lib/arithmetic.c:131-135 | The low 32 bits of the remainder: equal to the remainder if and only if that fits 32 bits. |
| `Arithmetic.TruncDivCharacterised` | pintos/src/lib/arithmetic.c:137-146 | Truncating division is the one whose remainder is smaller than the divisor and has the dividend's sign. |
| `Arithmetic.SDiv64` | pintos/src/lib/arithmetic.c:139-146 | Truncates toward zero if and only if the operands are not INT64_MIN and -1, where it returns INT64_MIN. |
| `Arithmetic.WrappedRemainder` | pintos/src/lib/arithmetic.c:150-154 | The remainder computed from a wrapped quotient is still the true one. |
| `Arithmetic.SMod64` | pintos/src/lib/arithmetic.c:150-154 | The truncating remainder, if and only if that fits an int. |
| `BuddyHeap.SplitTiles` | pintos/src/threads/malloc.c:207-237 | Halving a block keeps the blocks a tiling of every page's payload. |
| `BuddyHeap.SplitCoalesced` | pintos/src/threads/malloc.c:207-237 | Halving a used block and keeping one half leaves no two free buddies. |
| `BuddyHeap.MergeTiles` | pintos/src/threads/malloc.c:344-357 | Replacing two buddies by their parent keeps the tiling. |
| `BuddyHeap.MergeCoalesced` | pintos/src/threads/malloc.c:344-357 | Merging with a free buddy leaves no two free buddies, the merged block still counting as used. |
| `BuddyHeap.FreeRegionIsOneBlock` | pintos/src/threads/malloc.c:321-365 | Where coalescing is maximal, a region with no used block is a single free block. |
| `BuddyHeap.LoneBlockMerges` | pintos/src/threads/malloc.c:321-372 | If a block is the only used one of its page, its buddy is free at the same size, so merging goes on to the top. |
| `BuddyHeap.AddPage` | pintos/src/threads/malloc.c:150-158 | A new page enters the tiling as one whole block. |
| `BuddyHeap.DropPage` | pintos/src/threads/malloc.c:367-372 | A page that is one whole block can leave the tiling. |
| `BuddyHeap.BlocksDisjoint` | pintos/src/threads/malloc.c:390-399 | Bytes of distinct blocks of one page never overlap. |
| `BuddyHeap.AddressesDistinct` | pintos/src/threads/malloc.c:390-399 | Distinct blocks have distinct addresses. |
| `BuddyHeap.EveryByteInOneBlock` | pintos/src/threads/malloc.c:390-399 | Every byte of the 2048-byte payload is in exactly one block. |
| `BuddyHeap.WithinPayload` | pintos/src/threads/malloc.c:390-399 | Every block lies within the payload. |
| `BuddyHeap.IndexOfAddress` | pintos/src/threads/malloc.c:216-218 | The index computed from an address is the block's index, and the alignment assertion holds. |
| `Malloc.Allocator.constructor` | pintos/src/threads/malloc.c:78-92 | The empty heap satisfies the invariant. |
| `Malloc.Allocator.FindDesc` | pintos/src/threads/malloc.c:115-124 | Finds the smallest class that fits and the first class from there on with a free block. |
| `Malloc.Allocator.DividePage` | pintos/src/threads/malloc.c:160-172 | A fresh page is divided with one upper half queued per class. |
| `Malloc.Allocator.FreshPage` | pintos/src/threads/malloc.c:144-185 | A request served from a fresh page gets its first block of the class; the rest tiles the page on the free lists. |
| `Malloc.Allocator.SplitFront` | pintos/src/threads/malloc.c:211-233 | One round of halving pops a block and queues its two tagged halves one class down. |
| `Malloc.Allocator.SplitDown` | pintos/src/threads/malloc.c:196-241 | Halving from a larger class delivers a block of the wanted class and keeps the invariant. |
| `Malloc.Allocator.Malloc` | pintos/src/threads/malloc.c:96-242 | Keeps the heap invariant; a small request gets a block of exactly the smallest class that fits, disjoint from all outstanding ones, at the address of the first block on the first nonempty free list from its class on, and a new page is taken only when there is none; a big run is big enough exactly when its size does not wrap; failure changes nothing. |
| `Malloc.Allocator.MallocSmall` | pintos/src/threads/malloc.c:144-242 | A small request: the first free block of its class, a split one, or a fresh page when no free block is big enough. |
| `Malloc.BigRequestFits` | pintos/src/threads/malloc.c:126-142 | A wrapped page count is 0, which palloc refuses, exactly for 4096 sizes; any other run is big enough if and only if size plus header does not wrap 32 bits, and is then the shortest that is. |
| `Malloc.Allocator.ClassOfTag` | pintos/src/threads/malloc.c:318-319 | The loop over descriptors finds the class recorded in the tag. |
| `Malloc.Allocator.MergeBuddy` | pintos/src/threads/malloc.c:343-357 | One merge: both buddies become their parent, off the free list. |
| `Malloc.Allocator.Queue` | pintos/src/threads/malloc.c:359-364 | The block joins its free list, last. |
| `Malloc.Allocator.Shared` | pintos/src/threads/malloc.c:321-365 | If the buddy is not on the list, another block of the page is in use. |
| `Malloc.Allocator.MergeOrQueue` | pintos/src/threads/malloc.c:321-365 | One round of the loop either merges, or stops with some other block of the page in use. |
| `Malloc.Allocator.ReturnPage` | pintos/src/threads/malloc.c:367-372 | A whole free page leaves the arena list, and none of its blocks stays behind. |
| `Malloc.Allocator.FreeSmall` | pintos/src/threads/malloc.c:314-373 | The page is returned if and only if the freed block was its last outstanding one. |
| `Malloc.Allocator.Free` | pintos/src/threads/malloc.c:296-373 | For whatever memory holds: a big block's run is given back; a small block is taken for one if and only if it starts its page or the word before it is 0, and then exactly it is released, merged as far as possible, and its page given back exactly when it becomes free; otherwise free panics and nothing changes. |
| `Malloc.WordBeforeIsInPredecessor` | pintos/src/threads/malloc.c:305-307 | The word that free takes for num_pages is the last word of the preceding block, and is that block's size tag if and only if it has 16 bytes. |
| `Malloc.NeverSmallBehindUnit` | pintos/src/threads/malloc.c:305-312 | A block behind a 16-byte block with its tag intact is never taken for a small one. |
| `Malloc.SecondBlockPanics` | pintos/src/threads/malloc.c:296-312 | On an empty heap, two requests for 16 bytes and freeing the second block panic. |
| `MallocRuns.EveryPageInUse` | pintos/src/threads/malloc.c:355-373 | Every page held for small blocks has one in use: a page without would be a single free block. |
| `MallocRuns.NothingHeld` | pintos/src/threads/malloc.c:96-373 | The heap is empty, pages included, if and only if no address is outstanding. |
| `MallocRuns.OutstandingGrows` | pintos/src/threads/malloc.c:96-242 | malloc hands out an address that was not outstanding, and that is the only change. |
| `MallocRuns.OutstandingShrinks` | pintos/src/threads/malloc.c:296-373 | free takes back exactly the address it is given, unless it panics. |
| `MallocRuns.OutstandingBalance` | pintos/src/threads/malloc.c:96-373 | Over every run, the addresses outstanding are as many as were handed out and not freed. |
| `MallocRuns.PagesReturned` | pintos/src/threads/malloc.c:96-373 | Over every run from an empty heap, whatever memory holds, pages are held if and only if some block handed out has not been freed. |
| `MallocRuns.OutstandingApart` | pintos/src/threads/malloc.c:96-373 | In every state of a run, blocks in use do not overlap. |
| `MallocRuns.Run` | pintos/src/threads/malloc.c:96-373 | Every run of malloc and free up to a panic keeps the heap invariant in every state and has each call's effect, and holds pages at the end only for blocks not freed. |
| `MergeSort.MergeSorted` | pintos/src/lib/kernel/list.c:379-399 | Merging two sorted runs gives a sorted run. |
| `MergeSort.MergeClass` | pintos/src/lib/kernel/list.c:379-399 | Merging keeps equivalent elements in order, those of the first run first. |
| `MergeSort.MergeMultiset` | pintos/src/lib/kernel/list.c:379-399 | Merging loses and adds nothing. |
| `MergeSort.CountRuns` | pintos/src/lib/kernel/list.c:418-434 | The two runs a pass finds are exactly two of the list's natural runs. |
| `MergeSort.PassStable` | pintos/src/lib/kernel/list.c:413-434 | A pass permutes the list and is stable. |
| `MergeSort.PassHalves` | pintos/src/lib/kernel/list.c:413-436 | A pass outputs at most half as many runs, rounded up, and counts them. |
| `MergeSort.OneRunSorted` | pintos/src/lib/kernel/list.c:436-438 | A list with at most one natural run is sorted. |
| `KernelList.List.Insert` | pintos/src/lib/kernel/list.c:168-178 | The element goes just before the given one, and links stay consistent both ways. |
| `KernelList.List.Remove` | pintos/src/lib/kernel/list.c:248-255 | The element leaves the list, and its successor is returned. |
| `KernelList.List.Splice` | pintos/src/lib/kernel/list.c:183-204 | A range of nodes moves to just before a node outside it in the same list. |
| `KernelList.List.SpliceFrom` | pintos/src/lib/kernel/list.c:183-204 | A range of nodes of another list moves to just before a node of this one; both lists stay well formed. |
| `KernelList.List.Reverse` | pintos/src/lib/kernel/list.c:325-337 | The nodes are in reverse order, with both link directions well formed. |
| `KernelList.List.FindEndOfRun` | pintos/src/lib/kernel/list.c:357-372 | Returns the end of the first natural run of the range. |
| `KernelList.List.InplaceMerge` | pintos/src/lib/kernel/list.c:379-399 | Two adjacent ranges of nodes without descents, as the source asserts, become their stable merge, in place, and nothing else moves; every call that sorting makes meets the assertions. |
| `KernelList.List.Pass` | pintos/src/lib/kernel/list.c:413-434 | One pass merges adjacent runs pairwise and counts its output runs. |
| `KernelList.List.Sort` | pintos/src/lib/kernel/list.c:404-440 | For every strict weak order: terminates with a sorted, stable permutation of the same nodes on well-formed links. |
| `Hash.LeastBit` | pintos/src/lib/kernel/hash.c:328-340 | x & (x - 1) is 0 exactly for powers of two, is smaller than x, and otherwise keeps every power of two below x. |
| `Hash.NewBucketCount` | pintos/src/lib/kernel/hash.c:364-372 | The bucket count is the greatest power of two up to max(4, elem_cnt / 2). |
| `Hash.LoadFactor` | pintos/src/lib/kernel/hash.c:345-372 | That is from two to four elements to a bucket, or 4 buckets for fewer than eight. |
| `Hash.IndexIsRemainder` | pintos/src/lib/kernel/hash.c:305-310 | The bucket of an element is what its hash value leaves when divided by the number of buckets. |
| `Hash.PushFrontPlaced` | pintos/src/lib/kernel/hash.c:416-421 | Putting an element in the bucket of its hash keeps the placement of all elements. |
| `Hash.RemovePlaced` | pintos/src/lib/kernel/hash.c:424-429 | Taking an element out keeps the placement of the others. |
| `Hash.Init` | pintos/src/lib/kernel/hash.c:24-42 | A new table with 4 buckets is empty and valid; without memory for the buckets there is none. |
| `Hash.Table.Find` | pintos/src/lib/kernel/hash.c:131-135 | Finds an equal element if and only if the table has one. |
| `Hash.Table.MoveBucket` | pintos/src/lib/kernel/hash.c:400-409 | Moving a bucket puts each of its elements in its new bucket. |
| `Hash.Table.Rehash` | pintos/src/lib/kernel/hash.c:351-413 | Rehashing keeps the set of elements and gives the ideal bucket count; without memory nothing changes. |
| `Hash.Table.Insert` | pintos/src/lib/kernel/hash.c:98-110 | Adds the element unless an equal one is present, which is returned; the set changes in no other way. |
| `Hash.Table.Replace` | pintos/src/lib/kernel/hash.c:114-127 | The element takes the place of an equal one, which is returned, or is added. |
| `Hash.Table.Delete` | pintos/src/lib/kernel/hash.c:144-154 | Removes and returns the equal element, if there is one. |
| `Hash.Table.Next` | pintos/src/lib/kernel/hash.c:218-235 | Each step of the iterator yields the first of the elements still to come. |
| `Hash.Table.Iterate` | pintos/src/lib/kernel/hash.c:199-235 | A full iteration yields every element exactly once. |
| `Hash.FlattenNoDup` | pintos/src/lib/kernel/hash.c:218-235 | No element is in two buckets or twice in one. |
| `Semaphore.StepKeepsInv` | pintos/src/threads/synch.c:60-121 | Every interrupts-off region keeps the balance of units and the wake-up property. |
| `Semaphore.SemaphoreCorrect` | pintos/src/threads/synch.c:60-121 | Over every interleaving, value plus completed downs equals the initial value plus ups; while a thread is queued the value is at most the number of woken threads that have not rechecked. |
| `Semaphore.FifoWakeup` | pintos/src/threads/synch.c:69-73 | Over every run, the threads woken followed by those still asleep are the threads asleep at the start followed by those that went to sleep, in that order. |
| `Semaphore.Accounting` | pintos/src/threads/synch.c:60-128 | Over every run, each up adds a unit, and each attempt takes one, puts its thread to sleep or is refused. |
| `Semaphore.RechecksOnce` | pintos/src/threads/synch.c:60-76 | Over every run, a thread looks at the value again once for each time it is woken. |
| `Semaphore.UpServesWoken` | pintos/src/threads/synch.c:108-121 | After an up on a queue, the thread it woke completes its down if it looks first. |
| `Semaphore.SemaphoreObject.DownRegion` | pintos/src/threads/synch.c:60-76 | One turn of the wait loop is the corresponding step. |
| `Semaphore.SemaphoreObject.TryDownRegion` | pintos/src/threads/synch.c:83-102 | Takes a unit, and says so, exactly when there is one; otherwise nothing changes. |
| `Semaphore.SemaphoreObject.UpRegion` | pintos/src/threads/synch.c:108-121 | Readies the front waiter, then adds the unit. |
| `Monitor.StepKeepsInv` | pintos/src/threads/synch.c:192-338 | Every step of lock and condition operations keeps the invariant. |
| `Monitor.RunKeepsInv` | pintos/src/threads/synch.c:192-338 | The invariant holds over every interleaving of any number of threads. |
| `Monitor.MutualExclusion` | pintos/src/threads/synch.c:192-236 | The lock's value plus the number of threads inside is always 1, and a set holder is the thread inside. |
| `Monitor.AcquireOutcome` | pintos/src/threads/synch.c:192-223 | lock_acquire and lock_try_acquire get the lock at once if and only if nobody has it; otherwise one queues last and the other changes nothing. |
| `Monitor.AcquireEnds` | pintos/src/threads/synch.c:192-223 | lock_acquire ends with the caller as the holder, inside alone. |
| `Monitor.ReleaseEnds` | pintos/src/threads/synch.c:230-236 | lock_release, whatever happens between its two steps, ends with the caller outside and the lock free. |
| `Monitor.AwakeGoesOn` | pintos/src/threads/synch.c:192-338 | A thread that is not asleep can go on; the holder can release, wait on and signal any condition. |
| `Monitor.LockWakesUp` | pintos/src/threads/synch.c:192-236 | A sleeper next to a free lock means another thread is awake and about to take it. |
| `Monitor.LockIsSemaphore` | pintos/src/threads/synch.c:192-236 | Every run of lock and condition steps is a run of the lock's semaphore as `Semaphore` models it, so the lock is handed on in the order in which threads went to sleep. |
| `Monitor.OwnerSteps` | pintos/src/threads/synch.c:287-302 | A waiter's own semaphore starts at 0, and its owner's steps are downs of `Semaphore`. |
| `Monitor.OthersSteps` | pintos/src/threads/synch.c:311-322 | Signallers' steps are ups of that semaphore, and nobody else touches it. |
| `Monitor.SignalsNotLost` | pintos/src/threads/synch.c:287-322 | A thread asleep in cond_wait is still listed or being signalled right now; waits completed and signals received differ by at most the signal not yet consumed. |
| `Monitor.SignalPending` | pintos/src/threads/synch.c:319-321 | Between the pop and the up no other thread changes a list or a signal count, and the popped waiter keeps waiting. |
| `Monitor.SignalReleasesOldest` | pintos/src/threads/synch.c:311-322 | Under every interleaving of other threads between the pop and the up: the signaller stays the signaller of the first waiter listed, only that waiter leaves the list, and the up gives it, and nobody else, its one signal, so it is not asleep. |
| `Monitor.SignalsInOrder` | pintos/src/threads/synch.c:287-322 | First come, first signalled, over every run: the waiters picked by signals, and then those still listed, are those listed at the start and then the callers of cond_wait since, in that order. |
| `Monitor.WaitReturnsWithLock` | pintos/src/threads/synch.c:287-302 | Under every interleaving, a thread is in cond_wait until the step that makes it the holder of the lock again. |
| `Monitor.WaitEndsIffSignalled` | pintos/src/threads/synch.c:287-302 | One cond_wait under every interleaving: it gets past its semaphore if and only if it was signalled since it queued, exactly once; until then it is listed, about to be signalled, or signalled and awake. |
| `Monitor.BroadcastReleasesAll` | pintos/src/threads/synch.c:330-338 | In every run in which the holder only signals the condition until its list is empty, whatever other threads do, exactly the threads that were listed get a signal, one each. |
| `Scheduler.ScheduleEstablishesInv` | pintos/src/threads/thread.c:591-666 | schedule makes exactly one thread running, and never keeps a dying thread on the processor. |
| `Scheduler.StepKeepsInv` | pintos/src/threads/thread.c:244-274 | Create, block, unblock, yield and exit keep the invariant. |
| `Scheduler.SchedulerCorrect` | pintos/src/threads/thread.c:591-666 | Over every run exactly one thread runs, the ready list holds exactly the ready non-idle threads once each, and each freed page belonged to a thread that is gone, once. |
| `Scheduler.RoundRobin` | pintos/src/threads/thread.c:591-598 | The thread at position k runs at the (k+1)-th later call of schedule. |
| `Scheduler.UnblockedRuns` | pintos/src/threads/thread.c:262-274 | An unblocked thread runs at the next schedule once schedule has been called for those ahead of it, in every run. |
| `Scheduler.CreatedRuns` | pintos/src/threads/thread.c:181-236 | So does a new thread, whose identifier was not in use. |
| `Scheduler.YieldedRuns` | pintos/src/threads/thread.c:397-411 | A thread that yields goes on at once when no other is ready, and otherwise after those that are. |
| `Scheduler.BlockedWaits` | pintos/src/threads/thread.c:244-252 | A thread that blocks is neither running nor ready until it is unblocked, in every run. |
| `Scheduler.ExitedNeverRuns` | pintos/src/threads/thread.c:385-393 | A thread that exits never runs or becomes ready again. |
| `Scheduler.RunsOn` | pintos/src/threads/thread.c:653-666 | Only schedule switches threads. |
| `Scheduler.DispatchInOrder` | pintos/src/threads/thread.c:591-666 | First come, first served, over every run: the threads given the processor, and then those still ready, are those ready at the start and then those created, unblocked or yielding since, in that order. |
| `Scheduler.StepAdvances` | pintos/src/threads/thread.c:591-598 | Each schedule moves every ready thread one place forward; other steps move none. |
| `Scheduler.ExitFreesOnce` | pintos/src/threads/thread.c:388-393 | An exiting thread's page is freed once, after another thread has taken over; the initial thread's never is. |
| `Scheduler.Threads.NextThreadToRun` | pintos/src/threads/thread.c:591-598 | Pops the front of the ready list, or gives the idle thread. |
| `Scheduler.Threads.ScheduleTail` | pintos/src/threads/thread.c:616-644 | Marks the new thread running and frees the page of a dying predecessor. |
| `Scheduler.Threads.ScheduleNext` | pintos/src/threads/thread.c:653-666 | The imperative schedule is the specified step and establishes the invariant. |
| `Scheduler.Threads.ThreadCreate` | pintos/src/threads/thread.c:181-236 | Is the Create step, with a thread identifier never used before; without a page nothing changes. |
| `Scheduler.Threads.ThreadBlock` | pintos/src/threads/thread.c:244-252 | Is the Block step: another thread runs, and the caller is not ready and can be unblocked. |
| `Scheduler.Threads.ThreadUnblock` | pintos/src/threads/thread.c:262-274 | Is the Unblock step: the thread is ready, last in line. |
| `Scheduler.Threads.ThreadYield` | pintos/src/threads/thread.c:397-411 | Is the Yield step: the front of the line, with the caller put at its end, runs; the idle thread is not queued. |
| `Scheduler.Threads.ThreadExit` | pintos/src/threads/thread.c:388-393 | Is the Exit step: the caller neither runs nor is ready. |
| `PageDir.IndicesIdentifyPage` | pintos/src/threads/pte.h:31-39 | The two indices identify exactly the virtual page. |
| `PageDir.UnpackInjective` | pintos/src/threads/pte.h:41-68 | Different 32-bit words stand for different entries. |
| `PageDir.EntryLayout` | pintos/src/threads/pte.h:41-68 | The flags are bits 0, 1, 2, 5 and 6 of the word, and the frame is what lies above the lowest twelve. |
| `PageDir.PdeCreate` | pintos/src/threads/pte.h:70-74 | The word or-ed together stands for a present, writable user entry with the table's frame. |
| `PageDir.PteCreateUser` | pintos/src/threads/pte.h:87-98 | The word or-ed together stands for a present user entry with the page's frame and the asked permission. |
| `PageDir.NotPresent` | pintos/src/userprog/pagedir.c:152-154 | The masked word is not present and keeps frame and all other flags. |
| `PageDir.WithDirty` | pintos/src/userprog/pagedir.c:178-184 | The word with the dirty bit set or masked out keeps frame and all other flags. |
| `PageDir.WithAccessed` | pintos/src/userprog/pagedir.c:207-213 | The word with the accessed bit set or masked out keeps frame and all other flags. |
| `PageDir.OthersStay` | pintos/src/userprog/pagedir.c:143-214 | Clearing or setting one of these flags leaves the frame and every other flag alone. |
| `PageDir.NewTable` | pintos/src/userprog/pagedir.c:69-78 | Adding an empty page table changes no mapping. |
| `PageDir.StoreEntryAt` | pintos/src/userprog/pagedir.c:98-119 | Storing one entry changes exactly one page of the flat map. |
| `PageDir.AddressSpace.constructor` | pintos/src/userprog/pagedir.c:16-23 | A new directory maps no user page and shares the kernel half. |
| `PageDir.AddressSpace.LookupPage` | pintos/src/userprog/pagedir.c:56-86 | Finds or creates the page table; no mapping and no kernel entry changes. |
| `PageDir.AddressSpace.SetPage` | pintos/src/userprog/pagedir.c:98-119 | Maps the page and no other, creating its page table if needed and no other, or fails for lack of memory and changes nothing. |
| `PageDir.AddressSpace.GetPage` | pintos/src/userprog/pagedir.c:125-137 | The frame and offset of a present page, otherwise nothing. |
| `PageDir.NewUserTable` | pintos/src/userprog/pagedir.c:69-78 | Filling an empty directory entry of the user half adds exactly one user page table. |
| `PageDir.AddressSpace.ClearPage` | pintos/src/userprog/pagedir.c:143-157 | Only the given page becomes not present, and its frame and other flags stay, on the stored words. |
| `PageDir.AddressSpace.TestFlags` | pintos/src/userprog/pagedir.c:163-197 | The flags of the flat map; false where there is no page table. |
| `PageDir.AddressSpace.SetDirty` | pintos/src/userprog/pagedir.c:172-186 | Only the given page's dirty flag changes, to the value asked for where there is a page table. |
| `PageDir.AddressSpace.SetAccessed` | pintos/src/userprog/pagedir.c:201-215 | Only the given page's accessed flag changes, to the value asked for where there is a page table. |
| `PageDir.AddressSpace.Destroy` | pintos/src/userprog/pagedir.c:27-48 | Frees exactly the present user frames, the user page tables and the directory, each once if the frames are distinct. |
| `PageDir.FreedMembers` | pintos/src/userprog/pagedir.c:36-46 | What the nested loops free is exactly the present frames and the tables. |
| `PageDir.FreedOnce` | pintos/src/userprog/pagedir.c:36-47 | With distinct frames nothing is freed twice. |
| `Loader.ValidatedInUserSpace` | pintos/src/userprog/process.c:325-366 | A validated segment lies above page 0 and below PHYS_BASE, and its end does not wrap. |
| `Loader.ValidateIff` | pintos/src/userprog/process.c:325-366 | Exactly the segments in user memory above page 0, in the file and aligned with it pass. |
| `Loader.WritableIsPFW` | pintos/src/userprog/process.c:194-196 | The permission is the flag PF_W, the second of the three. |
| `Loader.PhdrRoundTrip` | pintos/src/userprog/process.c:171-181 | A program header is read back from wherever it was written, field by field. |
| `Loader.EhdrRoundTrip` | pintos/src/userprog/process.c:150-166 | Exactly the headers of 32-bit little-endian 80386 executables with at most 1024 program headers are accepted, and the fields that load uses are read back from where they were written. |
| `Loader.HeaderInTable` | pintos/src/userprog/process.c:245-256 | Program header k is read from its place in the table. |
| `Loader.LoadableIff` | pintos/src/userprog/process.c:232-302 | Which executables are loaded when nothing fails, in terms of their headers: no dynamic linking, interpreter or shared library, sound segments, and no page in two of them or in the stack. |
| `Loader.SegmentArithmetic` | pintos/src/userprog/process.c:274-293 | No 32-bit sum in load wraps, and the counts passed to load_segment satisfy its assertions. |
| `Loader.ImageFromPages` | pintos/src/userprog/process.c:382-425 | Pages filled one by one hold the file's bytes at the segment's addresses, then zeros. |
| `Loader.SegmentAdded` | pintos/src/userprog/process.c:271-300 | A segment loaded into pages that were not mapped overlaps no earlier one, and leaves their images alone. |
| `Loader.LoadedIsLoadable` | pintos/src/userprog/process.c:232-317 | Whatever gets loaded was a complete executable with valid, disjoint segments clear of the stack page. |
| `Loader.NextLoadable` | pintos/src/userprog/process.c:247-302 | Each program header of a loadable file can be acted on after the ones before it. |
| `Loader.Process.FileRead` | pintos/src/userprog/process.c:405-410 | Reads give what `FileSys.FileSystem.SeekAndRead` gives for a file with these contents. |
| `Loader.Process.LoadHeaders` | pintos/src/userprog/process.c:245-302 | The loop acts on all program headers, in order, or fails. |
| `Loader.Process.InstallPage` | pintos/src/userprog/process.c:456-465 | Refuses a page that is mapped in the stored page tables; otherwise user memory gains exactly that page with the frame's contents, unless there is no memory for a page table. |
| `Loader.Process.LoadSegment` | pintos/src/userprog/process.c:382-425 | On success the pages of the segment are new and hold its data with the requested permission; existing pages are untouched. Fails only for a short file, a mapped page or a failed allocation or read. |
| `Loader.Process.SegmentSizes` | pintos/src/userprog/process.c:277-293 | The byte counts cover exactly the segment's pages. |
| `Loader.Process.LoadHeader` | pintos/src/userprog/process.c:271-300 | A PT_LOAD header ends with the segment's whole memory image in place. |
| `Loader.Process.SetupStack` | pintos/src/userprog/process.c:429-445 | One zeroed writable page at the top of user memory, and the stack pointer at its end. |
| `Loader.Process.Load` | pintos/src/userprog/process.c:232-317 | On success every PT_LOAD segment is in memory as its header says and as the stored page tables map it, segments and stack are on disjoint pages within user memory, nothing else is mapped, and entry point and stack pointer are set. Only loadable files get that far, and they do unless an allocation or a file operation fails. |
| `Loader.LoadExecutable` | pintos/src/userprog/process.c:209-317 | The same from pagedir_create on, with the kernel half of the initial directory; without a page for the directory there is no process. |
| `Loader.Process.FillPage` | pintos/src/userprog/process.c:403-416 | A page that palloc has found gets its contents without any user page changing. |
| `Loader.Process.NewPage` | pintos/src/userprog/process.c:411-416 | A filled page is installed or given back. |
| `Loader.Process.MapPage` | pintos/src/userprog/pagedir.c:98-119 | Storing the entry changes user memory by exactly one page, and a page table is allocated only when there is none. |
| `Loader.Process.Exit` | pintos/src/userprog/process.c:96-117 | After any load, successful or not, exit gives back every page the process has taken, exactly once, and no other. |
| `UserMemory.PageMapped` | pintos/src/userprog/pagedir.c:98-119 | Frames of page tables, user pages and the directory stay apart, and no frame is mapped twice. |
| `UserMemory.PageAdded` | pintos/src/userprog/process.c:457-465 | The stored entry makes the user see exactly the new page in addition. |
| `UserMemory.FramesSeparate` | pintos/src/userprog/pagedir.c:27-48 | Destroying such a directory frees no page twice. |
| `UserMemory.FreedIsUsed` | pintos/src/userprog/pagedir.c:27-48 | What it frees is what is in use, but for what others use. |
| `Ustar.StripPrefixes` | pintos/src/lib/ustar.c:65-73 | The loop computes the stripped name. |
| `Ustar.StripIsSafe` | pintos/src/lib/ustar.c:65-73 | A stripped name is nonempty, not "..", has no climbing or absolute prefix, and stripping again changes nothing. |
| `Ustar.StripIsLongest` | pintos/src/lib/ustar.c:65-73 | Stripping leaves the longest harmless rest of the path, from a component on, or a dot when that is empty or two dots. |
| `Ustar.AntisocialIff` | pintos/src/lib/ustar.c:67-70 | A prefix is dropped exactly when the first of several components is empty, a dot or two dots. |
| `Ustar.FormatOctal` | pintos/src/lib/stdio.c:469-547 | A zero-padded octal conversion yields the digits of the value, most significant first. |
| `Ustar.OctalDigits` | pintos/src/lib/stdio.c:469-547 | Digit i from the left is that of the power 8^(width - 1 - i). |
| `Ustar.ShiftIsDivision` | pintos/src/lib/stdio.c:469-547 | Dropping k octal digits is dividing by 8^k. |
| `Ustar.ParseOctalField` | pintos/src/lib/ustar.c:129-162 | The loop computes the value of the digits up to the terminator, or fails. |
| `Ustar.OctalFieldIff` | pintos/src/lib/ustar.c:128-162 | Exactly octal digits ended by a space or a null byte, with a value that fits 32 bits, are accepted, and give that value. |
| `Ustar.OctalRoundTrip` | pintos/src/lib/ustar.c:102-162 | Parsing a printed octal field gives the value back. |
| `Ustar.CalculateChksum` | pintos/src/lib/ustar.c:36-54 | Sums the header with the checksum field taken as spaces. |
| `Ustar.SumIgnoresField` | pintos/src/lib/ustar.c:36-54 | The checksum does not depend on the checksum field. |
| `Ustar.SumChanged` | pintos/src/lib/ustar.c:36-54 | The checksum moves with every byte outside its field. |
| `Ustar.SumOfZeros` | pintos/src/lib/ustar.c:36-54 | Of a header of zeros it counts the eight spaces in its field. |
| `Ustar.MakeHeader` | pintos/src/lib/ustar.c:82-118 | Fails exactly when the stripped name exceeds 99 characters; otherwise fills in the whole header. |
| `Ustar.HeaderLaid` | pintos/src/lib/ustar.c:8-33 | A header is laid out as the struct is, its checksum field holding the sum in octal. |
| `Ustar.ParseHeader` | pintos/src/lib/ustar.c:181-227 | Computes what `Parse` says, and takes exactly the well-formed headers for entries. |
| `Ustar.EntryIff` | pintos/src/lib/ustar.c:183-227 | A header is taken for an entry if and only if magic, version, checksum, terminators and type are right and the size is octal and fits; the entry has the stripped name, the type and that size. |
| `Ustar.CorruptionDetected` | pintos/src/lib/ustar.c:199-207 | Any one byte changed in the header of an entry is reported, by magic number, version or checksum, unless the checksum field still has the same value. |
| `Ustar.HeaderRoundTrip` | pintos/src/lib/ustar.c:75-227 | Parsing a made header gives the stripped name, the type and, for regular files, the size, for every name that fits and every size from 0 to INT_MAX; a negative size is rejected. |
| `HeapSort.SinkStep` | pintos/src/lib/stdlib.c:96-123 | After exchanging with the larger child only that child's position may violate the heap. |
| `HeapSort.Heapify` | pintos/src/lib/stdlib.c:96-123 | Sinking an element makes a heap of heaps, permuting only the heap's part of the array. |
| `HeapSort.RootIsMax` | pintos/src/lib/stdlib.c:141-151 | The root of a heap is its maximum. |
| `HeapSort.MaxMoved` | pintos/src/lib/stdlib.c:145-151 | Moving the root to the end extends the sorted part by one. |
| `HeapSort.BuildHeap` | pintos/src/lib/stdlib.c:141-143 | The first loop makes the whole array a heap. |
| `HeapSort.Sort` | pintos/src/lib/stdlib.c:131-152 | For every array and consistent comparison: a sorted permutation. |
| `HeapSort.BinarySearch` | pintos/src/lib/stdlib.c:184-207 | On a sorted array, finds a match if and only if there is one. |
| `Bitmap.SetKeepsOthers` | pintos/src/lib/kernel/bitmap.c:157-167 | Or-ing a bit's mask into a word changes no other bit. |
| `Bitmap.ClearKeepsOthers` | pintos/src/lib/kernel/bitmap.c:170-180 | And-ing with the complement changes no other bit. |
| `Bitmap.WordUpdate` | pintos/src/lib/kernel/bitmap.c:34-46 | Changing one bit of one word changes exactly one bit of the bitmap. |
| `Bitmap.WordsRoundTrip` | pintos/src/lib/kernel/bitmap.c:341-361 | Words written to a file byte by byte and read back are the same. |
| `Bitmap.LastMaskKeeps` | pintos/src/lib/kernel/bitmap.c:64-70 | Masking the last word keeps every bit in use. |
| `Bitmap.BitMap.constructor` | pintos/src/lib/kernel/bitmap.c:78-94 | A new bitmap is all false, whatever the memory held. |
| `Bitmap.BitMap.Mark` | pintos/src/lib/kernel/bitmap.c:157-167 | Sets exactly one bit. |
| `Bitmap.BitMap.Reset` | pintos/src/lib/kernel/bitmap.c:170-180 | Clears exactly one bit. |
| `Bitmap.BitMap.Test` | pintos/src/lib/kernel/bitmap.c:198-204 | Reads the bit. |
| `Bitmap.BitMap.SetMultiple` | pintos/src/lib/kernel/bitmap.c:218-229 | Sets exactly the given range. |
| `Bitmap.BitMap.Contains` | pintos/src/lib/kernel/bitmap.c:251-264 | True exactly when some bit of the range has the value. |
| `Bitmap.BitMap.Scan` | pintos/src/lib/kernel/bitmap.c:296-311 | The first place where cnt consecutive bits have the value, or an error exactly when there is none. |
| `Bitmap.BitMap.ScanAndFlip` | pintos/src/lib/kernel/bitmap.c:320-327 | First fit, with exactly that range flipped; nothing changes on error. |
| `Bitmap.BitMap.ReadBytes` | pintos/src/lib/kernel/bitmap.c:341-352 | The file's bytes replace as much of the bitmap as they cover, with the unused bits masked, and it succeeds exactly when they cover all of it. |
| `InodeData.HeaderRoundTrip` | pintos/src/filesys/inode.c:13-21 | The fields of an on-disk inode survive the sector, each in its place. |
| `InodeData.TransferStep` | pintos/src/filesys/inode.c:207-248 | Each chunk brings the transfer count exactly that much closer to its final value. |
| `InodeData.TransferGreatest` | pintos/src/filesys/inode.c:207-247 | A transfer is as long as the request, the file and the bounce buffer allow, so a request past end of file is clipped there. |
| `InodeData.ContentsJoined` | pintos/src/filesys/inode.c:46-54 | A file's contents are the sectors of its run in a row, cut at its length. |
| `InodeData.ChunkRead` | pintos/src/filesys/inode.c:210-242 | The bytes of a sector are those of the flat file at the corresponding offset. |
| `InodeData.ChunkWritten` | pintos/src/filesys/inode.c:281-309 | Rewriting one sector changes exactly the chunk's bytes of the disk. |
| `InodeData.WrittenTwice` | pintos/src/filesys/inode.c:270-315 | Chunk writes add up to one write of the flat file. |
| `InodeData.WrittenContents` | pintos/src/filesys/inode.c:257-318 | A write replaces exactly the given range of the flat file. |
| `InodeData.WrittenOutside` | pintos/src/filesys/inode.c:257-318 | A write changes no sector outside the file's run. |
| `InodeData.ReadAfterWrite` | pintos/src/filesys/inode.c:200-318 | Reading where data was written returns the data. |
| `FileSys.FileSystem.InodeReadAt` | pintos/src/filesys/inode.c:200-250 | Returns the bytes of the file from the offset on, and the greatest number of them that is asked for and lies within the file; without a bounce buffer, of whole sectors. For every size and offset. |
| `FileSys.FileSystem.InodeWriteAt` | pintos/src/filesys/inode.c:257-318 | Puts into the file the greatest number of bytes that is asked for and lies within it, or whole sectors without a bounce buffer, or none while writing is denied, and changes no other byte. |
| `FileSys.FileSystem.WriteChunk` | pintos/src/filesys/inode.c:281-309 | A partly covered sector keeps its other bytes; the branch that would write a zeroed buffer is never taken. |
| `Directory.EntryRoundTrip` | pintos/src/filesys/directory.c:17-23 | Directory entries survive the 20-byte layout, each field in its place. |
| `Directory.StrEqIsCString` | pintos/src/filesys/directory.c:104 | Comparing a name with a terminated field is comparing it with the string the field holds. |
| `Directory.EntriesSpliced` | pintos/src/filesys/directory.c:102-176 | Rewriting 20 bytes at an entry's offset changes exactly that entry. |
| `Directory.LookupIsBinding` | pintos/src/filesys/directory.c:91-112 | With memory for every entry read, lookup succeeds exactly for bound names and finds their sector. |
| `Directory.AddBinding` | pintos/src/filesys/directory.c:164-176 | Filling a free entry with an unbound name adds exactly one binding and keeps names unique. |
| `Directory.RemoveBinding` | pintos/src/filesys/directory.c:204-207 | Clearing an entry removes exactly its binding. |
| `Directory.AddSucceedsIff` | pintos/src/filesys/directory.c:151-176 | With memory for every entry read, dir_add has a slot to write exactly when the name is unbound and an entry is free. |
| `Directory.AddCorrectIff` | pintos/src/filesys/directory.c:164-176 | A successful dir_add is right if and only if no entry beyond the memory for lookup has the name and a free entry lies within, or just at, the reach of the memory for the search. |
| `FileSysCalls.AddCanOverwrite` | pintos/src/filesys/directory.c:164-176 | The failing case exists in a 16-entry directory: memory runs out on the first read of the search, and adding a name overwrites another one's entry. |
| `FileSysCalls.AddCanDuplicate` | pintos/src/filesys/directory.c:151-176 | And memory running out on the first read of lookup binds a name twice. |
| `Directory.ListingIsBindings` | pintos/src/filesys/directory.c:221-236 | A full listing names each binding exactly once. |
| `FileSysState.FilesDisjoint` | pintos/src/filesys/filesys.c:45-91 | Files with different inode sectors have disjoint, marked sectors. |
| `FileSysState.LiveFilesDisjoint` | pintos/src/filesys/filesys.c:45-91 | The free map, the root directory, all named and all still open files have pairwise disjoint inode sectors and runs, all marked in the free map. |
| `FileSysState.WrittenIsOnlyData` | pintos/src/filesys/inode.c:257-318 | Writing a file touches only its data sectors: no inode sector, no other file. |
| `FileSysState.FileKept` | pintos/src/filesys/inode.c:257-318 | A file whose data was not written keeps its header and contents. |
| `FileSysState.AdoptOwned` | pintos/src/filesys/inode.c:86-101 | A file made of free sectors joins the others without overlap. |
| `FileSysState.CountsDeny` | pintos/src/filesys/inode.c:322-338 | Denying and allowing keep deny_write_cnt equal to the number of denying handles. |
| `FileSysState.CountDenied` | pintos/src/filesys/inode.c:322-338 | The assertions on deny_write_cnt hold. |
| `FileSysState.CountsDrop` | pintos/src/filesys/inode.c:169-184 | Dropping a reference keeps open_cnt equal to the number of handles and references held. |
| `FileSysState.ZeroContents` | pintos/src/filesys/inode.c:91-98 | A newly created file reads as zeros. |
| `FileSysState.EntryLive` | pintos/src/filesys/directory.c:119-133 | The file of an entry in use is live and not removed. |
| `FileSys.FileSystem.constructor` | pintos/src/filesys/free-map.c:12-20 | A file system before formatting: only the two fixed inode sectors are marked. |
| `FileSys.FileSystem.BitmapWrite` | pintos/src/lib/kernel/bitmap.c:356-361 | Writing the free map changes only the free map file; on success the file holds the map. |
| `FileSys.FileSystem.FreeMapAllocate` | pintos/src/filesys/free-map.c:27-41 | First fit of free sectors, saved to the free map file; succeeds exactly when there is a fit and the file can be written, and otherwise the map is as before. |
| `FileSys.FileSystem.FreeMapRelease` | pintos/src/filesys/free-map.c:44-50 | Exactly the given sectors become free, its assertion holds, and the map is saved if it can be written. |
| `FileSys.FileSystem.InodeCreate` | pintos/src/filesys/inode.c:72-106 | The new file has the first free run, the given length and zeros, disjoint from every other file; succeeds exactly when memory, a free run and the saving of the free map allow. |
| `FileSys.FileSystem.InodeOpen` | pintos/src/filesys/inode.c:111-142 | Shares the in-memory inode of the sector or makes one that caches its header; at most one per sector. |
| `FileSys.FileSystem.InodeReopen` | pintos/src/filesys/inode.c:145-151 | One reference more. |
| `FileSys.FileSystem.InodeClose` | pintos/src/filesys/inode.c:163-186 | One reference fewer; only the last close of a removed file frees sectors, exactly its own, once; the free map stays saved if it can be written. |
| `FileSys.FileSystem.InodeRemove` | pintos/src/filesys/inode.c:190-195 | The file is marked for deletion and keeps its sectors. |
| `FileSys.FileSystem.SetDeny` | pintos/src/filesys/inode.c:322-338 | The deny count of the handle's inode follows the flag, and nothing else in memory changes. |
| `FileSys.FileSystem.FileOpen` | pintos/src/filesys/file.c:17-34 | Takes over the reference in a new handle at position 0, or gives it up. |
| `FileSys.FileSystem.FileReopen` | pintos/src/filesys/file.c:38-42 | A second handle on the same inode, which has one reference more; every other handle and inode is as before, and on failure all are. |
| `FileSys.FileSystem.FileClose` | pintos/src/filesys/file.c:45-54 | Nothing for a null handle; otherwise allows writing again and gives up exactly one reference; the inode leaves memory and the sectors of a removed file are freed if and only if it was the last. |
| `FileSys.FileSystem.FileRead` | pintos/src/filesys/file.c:68-74 | Reads on from the position, also in a removed file, and advances by what was read. |
| `FileSys.FileSystem.SeekAndRead` | pintos/src/userprog/process.c:389-406 | Seeking and reading gives the bytes of the file's contents from there on, as many as there are and memory allows. |
| `FileSys.FileSystem.FileWrite` | pintos/src/filesys/file.c:94-100 | Writes at the position, also in a removed file; no other file, inode sector or directory entry changes. |
| `FileSys.FileSystem.FileSeek` | pintos/src/filesys/file.c:153-159 | Sets the position. |
| `FileSys.FileSystem.FileDenyWrite` | pintos/src/filesys/file.c:118-127 | The handle denies writing, once; every other handle and inode is as before. |
| `FileSys.FileSystem.FileAllowWrite` | pintos/src/filesys/file.c:132-141 | The handle denies writing no longer; every other handle and inode is as before. |
| `FileSysHandles.PositionFollows` | pintos/src/filesys/file.c:68-159 | Over every run, a handle stands where the last call made through it has left it: where it sought to, or as many bytes further on as it reported. |
| `FileSysHandles.OpensAtStart` | pintos/src/filesys/file.c:17-42 | A new handle stands at the start and denies nothing. |
| `FileSysHandles.DenialStarts` | pintos/src/filesys/file.c:118-141 | file_deny_write starts the denial, and file_allow_write ends it. |
| `FileSysHandles.WriteDenied` | pintos/src/filesys/inode.c:265-266 | While a handle denies writing, a write to the file through any handle writes nothing and reports 0. |
| `FileSysHandles.DeniedFileKept` | pintos/src/filesys/file.c:118-141 | Over every run, a file that a handle denies writing to stays the same until the handle allows writing or is closed. |
| `FileSys.FileSystem.Lookup` | pintos/src/filesys/directory.c:91-112 | The first matching entry among those that memory allows to read. |
| `FileSys.FileSystem.DirAdd` | pintos/src/filesys/directory.c:141-179 | Succeeds exactly when the name has 1 to 14 characters and is not found, a slot is reached and memory allows the write; then exactly the chosen entry changes. |
| `FileSysCalls.AddedBinding` | pintos/src/filesys/directory.c:141-179 | With memory for the entry reads, a successful dir_add binds a name that was unbound and changes nothing else. |
| `FileSysCalls.ClearedBinding` | pintos/src/filesys/directory.c:184-216 | A successful dir_remove removes exactly the binding of its name. |
| `FileSys.FileSystem.DirLookup` | pintos/src/filesys/directory.c:118-133 | Opens the inode of the entry found, which is never a removed one. |
| `FileSys.FileSystem.Unlink` | pintos/src/filesys/directory.c:203-215 | Clears the entry, marks the inode removed and closes it; if the entry cannot be written nothing is removed. |
| `FileSys.FileSystem.DirRemove` | pintos/src/filesys/directory.c:184-216 | On success exactly the found entry is cleared, and the file's sectors are freed at once if it is not open and kept while it is; on failure nothing changes. |
| `FileSys.FileSystem.ReadDir` | pintos/src/filesys/directory.c:221-236 | Returns the next name of the listing and stands after it; nothing only at the end or without memory. |
| `FileSys.FileSystem.ListDir` | pintos/src/filesys/fsutil.c:15-29 | Reading a directory to the end lists every bound name exactly once. |
| `FileSys.FileSystem.DirOpenRoot` | pintos/src/filesys/directory.c:34-58 | A directory handle on the inode of sector 1, or no change. |
| `FileSys.FileSystem.DirClose` | pintos/src/filesys/directory.c:69-77 | Gives up the handle's reference; the root directory is never freed. |
| `FileSys.FileSystem.Create` | pintos/src/filesys/filesys.c:45-59 | Keeps the invariant and states exactly when it succeeds. Then one entry names a new file of zeros with sectors of its own, each the first that fits; otherwise the directory, all files, inodes and handles are as before, and the free map is too unless the file was made and could not be linked. |
| `FileSys.FileSystem.Open` | pintos/src/filesys/filesys.c:66-77 | A new handle at the start of the file bound to the name, on its inode with one reference more; every other handle and inode is as before; with memory, fails only for unbound names. |
| `FileSys.FileSystem.Remove` | pintos/src/filesys/filesys.c:83-91 | Clears one entry; an open file lives on, a closed one is freed exactly then. |
| `FileSys.FileSystem.FreeMapCreate` | pintos/src/filesys/free-map.c:72-85 | Makes the free map file and saves the map in it. |
| `FileSys.FileSystem.FreeMapOpen` | pintos/src/filesys/free-map.c:53-61 | The map saved in the free map file is the one in force from then on, whatever was in memory. |
| `FileSys.FileSystem.Format` | pintos/src/filesys/filesys.c:17-31 | Formatting establishes the invariant with an empty directory, the free map saved and every sector free or in a live file, and succeeds whenever memory lasts and the disk has room for the free map and the directory. |
| `FileSys.FileSystem.Mount` | pintos/src/filesys/filesys.c:17-31 | Without formatting, the files of an earlier run that left its free map saved and that have names are there again, the sectors of all others are lost, and the map stays saved. |
| `FileSysCalls.Remountable` | pintos/src/filesys/free-map.c:52-61 | Whenever the free map is saved, the disk is exactly as mounting needs it: map, its file's length, directory and every file with a name. |
| `FileSysCalls.TraceSavesMap` | pintos/src/filesys/free-map.c:27-50 | Over every run in which memory lasts for writing the free map, it is saved again after every call. |
| `FileSysCalls.FollowsReady` | pintos/src/filesys/free-map.c:52-61 | No call gets hold of the free map file, changes its header or denies writing to it. |
| `FileSys.FileSystem.Step` | pintos/src/filesys/filesys.c:45-91 | Every call keeps the invariant, has its effect and returns what it should: files, handles and inodes after it, exactly what it frees, when it must succeed, and that the free map stays saved. |
| `FileSysCalls.EffectKeepsFile` | pintos/src/filesys/filesys.c:45-91 | A file that a call neither writes nor frees keeps its header and contents. |
| `FileSysCalls.GoneExactlyBy` | pintos/src/filesys/inode.c:163-186 | A file goes if and only if the call removes the name of a file that is not open, or is the last close of a removed file. |
| `FileSysCalls.InodePersists` | pintos/src/filesys/inode.c:111-195 | An inode that stays in memory stays that of its file, and a removed file stays removed, through every call. |
| `FileSysCalls.TraceKeepsHandle` | pintos/src/filesys/file.c:17-54 | Over every run, an open handle refers to the same file until it is closed. |
| `FileSysCalls.RemovedStep` | pintos/src/filesys/inode.c:163-186 | While a removed file is open, a call frees it if and only if it closes the file's last handle, and otherwise it stays removed and open. |
| `FileSysCalls.DelayedDeletion` | pintos/src/filesys/inode.c:163-195 | Over every run, a file removed while open stays until its last handle is closed, and is freed by a call if and only if that call closes it. |
| `FileSysCalls.WriteSurvives` | pintos/src/filesys/inode.c:253-318 | Over every run, what was written is what the file holds until a later call writes or frees it, whatever is opened, closed, created, removed or written in between. |
| `FileSysCalls.ReadReturnsWrite` | pintos/src/filesys/file.c:68-100 | Over every run and through any handles, a Read returns the bytes that an earlier Write has left, if no call in between writes or frees the file. |
| `FileSysCalls.TraceKeepsFile` | pintos/src/filesys/filesys.c:45-91 | Over every trace, a file that is live at the start and never written or freed is the same in every later state. |
| `FileSysCalls.TraceBindings` | pintos/src/filesys/directory.c:141-216 | With memory for the directory reads, names stay unique over every trace, and each call binds a new name to a new file, unbinds its name or leaves the map alone. |
| `FileSysSectors.CallLoses` | pintos/src/filesys/filesys.c:45-91 | What each call adds to the marked sectors that no live file has, exactly: a new file's data if the file is made and cannot be linked, a whole file whose entry is written over, at once or at its last close, and nothing otherwise; none comes back. |
| `FileSysSectors.SectorsConserved` | pintos/src/filesys/filesys.c:45-91 | Over every run, the marked sectors that no live file has are as many as at the start and those lost by the calls since. |
| `FileSysSectors.LostForGood` | pintos/src/filesys/filesys.c:45-91 | Over every run, a sector that no live file has is never freed again. |
| `FileSysSectors.MapExactIff` | pintos/src/filesys/filesys.c:45-91 | From a formatted disk on, every sector is free or in a file that has a name or is open if and only if no call has lost any. |
| `FileSysSectors.CreateAgainLoses` | pintos/src/filesys/filesys.c:50-55 | Creating a file under a name that is bound loses its data sectors if there is room for them. |
| `FileSysSectors.OverwriteLoses` | pintos/src/filesys/directory.c:164-176 | When memory ends with the search for a slot, Create loses the whole file of the first entry: nothing names it or has it open, and it stays marked. |
| `FileSysSectors.FollowsNamed` | pintos/src/filesys/directory.c:141-216 | Every open file that is not removed keeps a name through a call if and only if the call does not write over the entry of an open file. |
| `FileSysSectors.TraceNamed` | pintos/src/filesys/directory.c:141-216 | With memory for the search for a slot, every open file that is not removed has a name, over every run. |
| `FileSysSectors.OnlyUnlinkedLose` | pintos/src/filesys/filesys.c:50-55 | Then a call loses sectors if and only if it is a Create of a file that is not empty, is made and cannot be linked. |
| `FileSysSectors.RebootLoses` | pintos/src/filesys/filesys.c:17-39 | A reboot loses no sector if and only if every file that is open has a name. |
| `FileSys.FileSystem.Run` | pintos/src/filesys/filesys.c:45-91 | Every run goes through a trace of the calls' effects with the invariant in every state, and returns the replies that the trace determines; a file that is live at the start and that no call of the trace writes or frees is the same at the end; and if the free map was saved and could be written throughout, the disk can be mounted at the end. |

## Left out

- Malloc.Allocator.Malloc: size tags are a field; in C a block's tag is the word at offset 12 of the memory handed out, so a caller that fills its block destroys it. The model assumes that callers leave that word alone. Locks in the allocator are not modelled; calls are sequential.
- Malloc.Allocator.Free: the num_pages words of page headers and the block's own size tag are assumed intact; the word before the block may hold anything. Which assertion of palloc fails is not modelled, only that one does.
- MallocRuns.Run: the words that `free` reads are a parameter of each call, so the results hold for whatever memory holds; what callers and the allocator itself write there is not followed from call to call.
- `realloc`, `calloc` and `printMemory`: they add no state of their own.
- `list_unique`, `list_insert_ordered`, `list_max` and `list_min` are not modelled; no modelled component uses them.
- Hash.Table.Iterate: the table must not change during the iteration, as in the source; buckets are sequences, not linked nodes. `hash_clear`, `hash_apply` and the hash functions are not modelled.
- Semaphore.SemaphoreCorrect: the value is a natural number, so wrap-around after 2^32 ups is not modelled.
- Monitor.MutualExclusion: one lock with any number of conditions; a condition's list is changed only by the holder, so its update is one step.
- Scheduler.SchedulerCorrect: starts after `thread_start`, with thread identifiers that are never reused; time slices, priorities, the stack switch and the child and parent bookkeeping of `thread_exit` are not modelled.
- Signals (`signal.c` and the signal loops in `schedule`): a signal can ready a thread that is still queued on a semaphore, so the synchronisation results are for runs without them.
- PageDir.AddressSpace.SetPage: page tables are named by frame instead of by kernel virtual address; TLB invalidation and activation are not modelled.
- Loader.Process.Load: the executable is the sequence of its bytes, read as `SeekAndRead` reads a file; opening and closing it in the file system is not part of the load, nor is the command line. A page that `palloc` finds is recorded as taken once it is filled.
- Ustar.MakeHeader: the error message is not modelled. Only the zero-padded octal conversion of `format_integer` is.
- HeapSort.Sort: elements are values exchanged whole; byte-wise swapping and the size of elements are not modelled.
- Bitmap.BitMap.Scan: atomicity of single-bit updates is not modelled; nor are `bitmap_flip`, `bitmap_count` and `bitmap_dump`.
- FileSys.FileSystem.InodeCreate: lengths within 511 bytes of INT_MAX are excluded by a precondition, because rounding them up overflows a signed int, which C leaves undefined; the same holds for FileSys.FileSystem.Create.
- FileSys.FileSystem.Create: `initial_size` is not negative, as `inode_create` asserts.
- FileSys.FileSystem.Format: a panic is a false result about which nothing is stated. Crash consistency is not modelled, nor what a short write of the free map file does to a later mount.
- FileSys.FileSystem.FreeMapOpen: the free map file must hold a map under which the files on the disk are consistent, as a run that saved its map leaves it; a corrupt disk is not modelled.
- FileSys.FileSystem.Mount: the same; what mounting a corrupt disk does is not modelled.
- FileSys.FileSystem.FileRead: the bytes read are returned as a sequence instead of being copied into the caller's buffer.
- FileSys.FileSystem.FileClose: not on the kernel's own handle on the free map file, which no caller has; the kernel's close of it is FreeMapClose.
- FileSys.FileSystem.Run: calls are sequential; the file system has no locking of its own.
- `dir_reopen`, `file_length`, `file_tell`, `file_read_at` and `file_write_at` are thin wrappers.
- Device drivers, boot code, `palloc.c` and `block.c` (an abstract page source and a sector array here), `partition.c`, the console, user programs and tests.
