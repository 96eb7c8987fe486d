# A verified model of the kernel's hard parts

The repository is a small teaching operating system. This project models, in
Dafny, the parts of it whose correctness depends on more than one function: the
two heap allocators, the scheduler, the counting semaphores, the pipes, the
process family tree, the dining philosophers that run on top of them, BMFS file
creation, the packed kernel image, and decimal printing against parsing.

Run `dafny verify dfyconfig.toml` to check everything.

## How it is organised

| files | what they model |
|---|---|
| Common, Words | the constants, the machine's words and the small notions several parts share |
| Bits, BuddySizes, BuddyLayout, BuddyHeap, BuddySteps, BuddyAllocator, BuddyRuns | the buddy allocator, from its bit tricks to its headers and linked lists |
| FreeListHeap, FreeListMerging, FreeListAllocator | the first-fit allocator, and when it merges what is freed |
| Scheduler, SchedulerHistory | the process table, the context switch and the calls that change a status, and what they come to over whole runs |
| ProcessTree, ProcessHistory, Processes | who is whose child, how that came about, and the two tables that record it |
| Semaphores, MutexClient | one semaphore under any interleaving, and `slow_inc` under its protection |
| Pipes, PipeProtocol | the ring of bytes, and readers and writers interleaved over it |
| Philosophers, DiningRing, DiningUnits, DiningSpares, DiningTable | `try_to_eat`, the ring that grows and shrinks, the units of its semaphores and what one to spare does, the table of fixed size |
| Bmfs, BmfsOrders | first-fit placement of a new file on the disk, and the orders qsort may leave |
| ModuleImage | the packer that writes the kernel image and the loader that reads it |
| Decimal | `itoa` and `satoi` |

State that the C code updates in place is a class whose methods are the C
functions. Long functions are cut into methods at their loops; each is proved
against a function or a set of facts on plain values, and what those mean is
proved as lemmas. Concurrency is a state machine: a system call runs with
interrupts off, so `sem_post` is one step and `sem_wait` is one step up to its
yield and one for every retry, and user code may be switched out between any two
accesses of shared memory.

## How some things are represented

- The buddy heap is a sequence that gives, for every offset, the header one would
  read there. Only headers at block starts are ever read, and clients may write
  anything into the rest (`Buddy.Scribble`). What memory holds before the heap is
  set up is a parameter.
- Always-true predicates `Inspect` and `Count` only keep the verifier from
  unfolding an invariant where it is not needed; `Heap` is the type of heap
  states whose representation is in order.
- The scheduler indexes its table with negative process ids in two places; here
  those reads find no ready process. The initial stack pointers that
  `create_process_stack` returns, and whether the allocations of `create_process`
  succeed, are parameters.
- A philosopher's id stands for its process id in DiningTable. In DiningRing only
  the values of the semaphores matter, not who is woken first, which allows more
  runs than the code has. A philosopher's semaphore keeps its value when the
  philosopher is removed, unless the host was the last to have it open.
- `qsort` is a parameter of `Disk.Create`: any permutation that its comparison
  function accepts, so equal records may come in either order.
- The pipe code takes remainders by the literal 1024; the model names it
  PIPE_SIZE, which is 1024.
- `DivBy` and `ModBy` in Decimal are division by repeated subtraction, proved to
  be the machine's quotient and remainder.

## What does not hold, and exactly when

- **Buddy `free` on the real heap.** The heap has 17 MiB but its initial block
  16 MiB, so when the last block in use is freed, `free` reads a header past the
  initial block. `Buddy.Free` states when the walk then runs into NULL: exactly
  when that header reads as a free block of 16 MiB. If it does not, or the heap is
  a power of two, everything below holds without exception.
- **The comment on `is_free`** in buddyMemoryManagement.c says 1 means allocated;
  the code uses 1 for free, and the model follows the code.
- **Coalescing in the first-fit allocator** only joins blocks that are neighbours
  in the list, and `free` pushes at the front. From a heap in which no two free
  blocks meet, `free` leaves such a heap if and only if no free block lies just
  below the freed one and the block just above it is in use or is the head of the
  list (`FreeMergesExactlyWhen`, lifted to runs by `MergedExactlyWhenCareful`).
  `FreeingAllCanLeavePieces` gives a run after which nothing is in use and three
  touching blocks remain.
- **BMFS `create`** of a new name on a sound directory with a free record is right
  for every size and every order `qsort` may leave if and only if no empty file
  starts where a non-empty one does (`CreateRightExactlyWhen`). Otherwise the
  unsigned difference wraps around for some order, and blocks that belong to a
  file are given away (`CreateCanGiveAwayBlocks`). Creating a file of size 0 is
  what makes empty files.
- **A philosopher past its own semaphore** is EATING on the table of fixed size. On
  the ring that grows and shrinks one step breaks this if and only if a HUNGRY
  philosopher passes (`BreaksExactlyWhen`), for which its semaphore needs a unit
  to spare. A step makes such a unit if and only if the host kills the last
  philosopher while its semaphore has a unit (`SpareExactlyWhen`); runs without
  such a kill keep the property (`EatersSitApart`), also when the host takes units
  while it waits to remove somebody. A unit to spare does harm: from a ring that
  has one, some continuation lets a HUNGRY philosopher pass (`SpareDoesHarm`,
  `SpoiltExactlyWhen`), and `ASpareUnitSpoilsARun` is a run from the start that
  ends with one beside an EATING neighbour. The state array stays peaceful all
  the same.
- **`itoa`** cannot negate the least int: its text is not a number, and `satoi`
  reads it as 0. Every other int comes back unchanged. In other bases a negative
  number is written with characters below '0' (`DigitsOfNegative`).
- **`add_philosopher` and `remove_philosopher`** return with the mutex held exactly
  when opening, or closing, the philosopher's semaphore fails
  (`SticksExactlyWhen`). The ring stays safe, but nobody changes the table again
  (`StuckForGood`); `ATableGetsStuck` gives such a run.

## Model

| member | source | states |
|---|---|---|
| Bits.MaskTestsAlignment | Kernel/memory/buddyMemoryManagement.c:50-57 | masking an offset with size * 2 - 1 gives 0 exactly when it is a multiple of twice the size |
| BuddySizes.NextPowerOf2Least | Kernel/memory/buddyMemoryManagement.c:30-39 | the six or-and-shift steps give the least power of two that is at least the argument, for every 64-bit argument up to 2^63 |
| BuddySizes.SmearInPlace | Kernel/memory/buddyMemoryManagement.c:32-37 | the six statements on one variable compute the same as doubling the distance up to a word |
| BuddySizes.RoundUp | Kernel/memory/buddyMemoryManagement.c:30-39 | the whole function on one variable: the least power of two that is at least the argument, or 0 when that does not fit a word |
| BuddySizes.HugeSmears | Kernel/memory/buddyMemoryManagement.c:30-39 | beyond 2^63 the or-and-shift steps set all 64 bits, so that adding one wraps to 0 |
| BuddySizes.GetOrder | Kernel/memory/buddyMemoryManagement.c:41-48 | the shifting loop gives the position of the highest bit of size - 1, taken on 64-bit words |
| BuddySizes.OrderOfLevel | Kernel/memory/buddyMemoryManagement.c:41-48 | for a power of two 2^k, k >= 1, get_order gives k - 1, so blocks of different sizes never share a list |
| BuddySizes.HugeOrder | Kernel/memory/buddyMemoryManagement.c:41-48 | the order of a size that has wrapped to 0 is past every list, so such a request finds no block |
| BuddyAllocator.GetBuddyIsBuddyOf | Kernel/memory/buddyMemoryManagement.c:50-57 | get_buddy's mask finds the other half of the cell of twice the size |
| BuddyLayout.BuddyPlace | Kernel/memory/buddyMemoryManagement.c:50-57 | the buddy of a block smaller than the heap is inside the heap, aligned to the same size, and has the block as its own buddy |
| BuddyLayout.BuddyIsStart | Kernel/memory/buddyMemoryManagement.c:145-150 | in a tiled heap the address get_buddy computes is the start of a block no larger than the given one, so the header free trusts is a real one |
| BuddyLayout.SplitTiled | Kernel/memory/buddyMemoryManagement.c:110-121 | halving a block keeps the heap tiled by aligned power-of-two blocks of at least 64 bytes |
| BuddyLayout.JoinTiled | Kernel/memory/buddyMemoryManagement.c:158-161 | joining two free buddies keeps the heap tiled by aligned power-of-two blocks |
| BuddyLayout.JoinMerged | Kernel/memory/buddyMemoryManagement.c:145-162 | joining leaves no two free buddies of equal size except possibly at the joined block |
| BuddyLayout.FreeCellIsWhole | Kernel/memory/buddyMemoryManagement.c:145-162 | an aligned cell whose blocks are all free is inside one block, if no two free buddies remain |
| BuddyLayout.AllFreeIsInitial | Kernel/memory/buddyMemoryManagement.c:145-162 | a heap with nothing in use and no two free buddies is the single initial block |
| BuddyLayout.LiveDeterminesLayout | Kernel/memory/buddyMemoryManagement.c:84-167 | the blocks in use determine all blocks: two merged tilings with the same live blocks are equal |
| BuddyLayout.PrefixWeight | Kernel/memory/buddyMemoryManagement.c:84-167 | the sizes of the blocks below a block boundary add up to that boundary |
| BuddyLayout.LivePlusFree | Kernel/memory/buddyMemoryManagement.c:123-125 | live bytes and free bytes add up to the initial block |
| BuddyHeap.RepPop | Kernel/memory/buddyMemoryManagement.c:96-103 | taking the head of a list keeps every list the exact list of the free blocks of its order |
| BuddyHeap.RepSplit | Kernel/memory/buddyMemoryManagement.c:110-121 | the header and link writes of a split keep headers, lists and blocks in agreement, the new half at the head of its list |
| BuddyHeap.RepMerge | Kernel/memory/buddyMemoryManagement.c:152-161 | unlinking the buddy from anywhere in its list and doubling the lower header keeps headers, lists and blocks in agreement |
| BuddySteps.BuddyHeader | Kernel/memory/buddyMemoryManagement.c:146-150 | below the top level the merge test on the header read is true exactly when the buddy is a free block of equal size |
| BuddySteps.TopBuddy | Kernel/memory/buddyMemoryManagement.c:146-150 | at the top level the test is true only when memory past the initial block looks like a free block of its size |
| BuddySteps.NothingInUse | Kernel/memory/buddyMemoryManagement.c:145-166 | when nothing is in use and the block in hand cannot be merged, it is the whole initial block |
| BuddyAllocator.InitialBlock | Kernel/memory/buddyMemoryManagement.c:70-73 | the doubling loop stops at the largest power of two that fits |
| BuddyAllocator.NoSmallerFits | Kernel/memory/buddyMemoryManagement.c:93-103 | when the lists from the wanted order up to some order are empty, no free block that is large enough is of a smaller order than that |
| BuddyAllocator.Buddy.constructor | Kernel/memory/buddyMemoryManagement.c:59-82 | the heap starts as one free block of that size, whatever memory held |
| BuddyAllocator.Buddy.Scribble | Kernel/memory/buddyMemoryManagement.c:126-126 | a client writing inside its payload disturbs nothing |
| BuddyAllocator.Buddy.Malloc | Kernel/memory/buddyMemoryManagement.c:84-127 | for every request whose size with the header fits a word: NULL exactly when no free block is as large as max(64, size + header), and then nothing changes; otherwise the front of a smallest free block that is large enough, the head of its list, becomes one new live block of exactly the least sufficient power of two, every other live block as before |
| BuddyAllocator.Buddy.TakeFirst | Kernel/memory/buddyMemoryManagement.c:93-103 | the search over the orders pops the head of the first non-empty list, all lists before it being empty, or finds them all empty and changes nothing |
| BuddyAllocator.Buddy.Carve | Kernel/memory/buddyMemoryManagement.c:110-126 | the splitting loop hands out the block cut to the wanted order |
| BuddyAllocator.Buddy.Free | Kernel/memory/buddyMemoryManagement.c:129-167 | terminates; takes exactly the given block out of the live ones; runs into NULL exactly when it frees the last live block and memory past the initial block looks free; the free block that then holds it is the head of its list; a foreign pointer changes nothing |
| BuddyAllocator.Buddy.Merge | Kernel/memory/buddyMemoryManagement.c:145-162 | the merging loop ends with a block that holds the freed one and cannot be merged, or meets NULL with nothing in use and a free-looking tail |
| BuddyAllocator.Buddy.MergeOnce | Kernel/memory/buddyMemoryManagement.c:146-161 | one round either stops with nothing left to merge, or doubles the block, or meets NULL with nothing in use and a free-looking tail |
| BuddyAllocator.Buddy.FindLink | Kernel/memory/buddyMemoryManagement.c:152-155 | the unlinking loop stops at the link to the buddy exactly when the buddy is in that list |
| BuddyAllocator.AccountsAdd | Kernel/memory/buddyMemoryManagement.c:123-125 | malloc's counter updates account for the new block |
| BuddyAllocator.AccountsRemove | Kernel/memory/buddyMemoryManagement.c:141-143 | free's updates account for the block given back |
| BuddyRuns.ReachableShape | Kernel/memory/buddyMemoryManagement.c:59-167 | in every reachable state the blocks tile the initial block, aligned, at least 64 bytes, no two free buddies are left, and a block is free exactly when it is once in the list of its own order and in no other |
| BuddyRuns.CountersBalance | Kernel/memory/buddyMemoryManagement.c:84-167 | freeSize + allocatedSize + header * live blocks = totalSize, and freeSize is the bytes of the free blocks plus the unused tail |
| BuddyRuns.LiveBlocksDisjoint | Kernel/memory/buddyMemoryManagement.c:84-127 | live blocks share no byte and lie in the heap |
| BuddyRuns.EmptyHeapIsInitial | Kernel/memory/buddyMemoryManagement.c:129-167 | a reachable heap with nothing in use is the single initial block |
| BuddyRuns.HistoryDoesNotMatter | Kernel/memory/buddyMemoryManagement.c:84-167 | two reachable heaps with the same live blocks have the same blocks |
| BuddyRuns.FreeAll | Kernel/memory/buddyMemoryManagement.c:129-167 | freeing all live blocks in any order gives back the initial block and the initial counters |
| BuddyRuns.MallocThenFree | Kernel/memory/buddyMemoryManagement.c:84-167 | freeing what a malloc returned restores the blocks there were before it |
| BuddyRuns.RealHeapHasTail | Kernel/kernel.c:35-36 | the kernel's heap has memory past its initial block of 2^24 bytes |
| FreeListHeap.EveryByteInOneBlock | Kernel/memory/memoryManagement.c:29-95 | a tiling puts every managed byte in exactly one block |
| FreeListHeap.MallocKeepsInv | Kernel/memory/memoryManagement.c:29-63 | malloc keeps the tiling, and the list the repetition-free list of the free blocks |
| FreeListHeap.MallocRefuses | Kernel/memory/memoryManagement.c:30-39 | NULL exactly when 0 bytes are asked for or no free block has size + header bytes |
| FreeListHeap.MallocGives | Kernel/memory/memoryManagement.c:38-58 | when malloc does not return NULL: one new live block, at most one header larger than needed, made of bytes that were free; all other blocks keep their owners |
| FreeListHeap.MallocIsFirstFit | Kernel/memory/memoryManagement.c:37-60 | the block is the front of the first one in the list that is large enough; what is left over takes its place in the list exactly when it is larger than a header |
| FreeListHeap.CoalesceKeepsInv | Kernel/memory/memoryManagement.c:65-76 | coalescing terminates, keeps the tiling and the list, and leaves no two list neighbours that touch |
| FreeListHeap.CoalesceKeepsBytes | Kernel/memory/memoryManagement.c:65-76 | coalescing leaves the set of free bytes unchanged |
| FreeListHeap.CoalesceKeepsLive | Kernel/memory/memoryManagement.c:65-76 | coalescing leaves every live block alone |
| FreeListHeap.FreeGivesBack | Kernel/memory/memoryManagement.c:78-95 | free makes exactly the bytes of its block free |
| FreeListHeap.FreeKeepsInv | Kernel/memory/memoryManagement.c:78-95 | free keeps the tiling and the list, and leaves no two list neighbours that touch |
| FreeListHeap.HeapStaysWhole | Kernel/memory/memoryManagement.c:19-95 | after any sequence of calls every byte is in exactly one block and the list has every free block once |
| FreeListHeap.FreeingAllCanLeavePieces | Kernel/memory/memoryManagement.c:65-95 | a run after which nothing is in use but three touching free blocks remain; FreeListMerging.FreeMergesExactlyWhen states when this cannot happen |
| FreeListMerging.FreeMergesExactlyWhen | Kernel/memory/memoryManagement.c:65-95 | from a heap in which no two free blocks meet, free leaves such a heap if and only if no free block lies just below the freed one and the one just above it, if free, is the head of the list |
| FreeListMerging.MallocKeepsMerged | Kernel/memory/memoryManagement.c:29-63 | malloc never makes two free blocks meet |
| FreeListMerging.MergedExactlyWhenCareful | Kernel/memory/memoryManagement.c:29-95 | along a run no two free blocks ever meet if and only if every free in it meets that guard |
| FreeListMerging.CarefulRunsMerge | Kernel/memory/memoryManagement.c:19-95 | after a run from the start whose frees all meet the guard, no two free blocks meet, and with nothing in use the heap is the one block it was |
| FreeListAllocator.RepTakePart | Kernel/memory/memoryManagement.c:40-57 | the header and link writes of a split spell the new list |
| FreeListAllocator.RepMerge | Kernel/memory/memoryManagement.c:68-70 | the two writes of a merge spell the list without the absorbed block |
| FreeListAllocator.FreeList.constructor | Kernel/memory/memoryManagement.c:19-27 | one free block, one header short of the region |
| FreeListAllocator.FreeList.Malloc | Kernel/memory/memoryManagement.c:29-63 | the traversal over headers and links gives the heap and pointer that MallocRefuses and MallocGives describe |
| FreeListAllocator.FreeList.CoalesceFreeBlocks | Kernel/memory/memoryManagement.c:65-76 | the loop over headers and links computes the coalesced heap, whose properties the lemmas above state |
| FreeListAllocator.FreeList.Free | Kernel/memory/memoryManagement.c:78-95 | the pushed and coalesced heap that FreeGivesBack describes; NULL changes nothing |
| FreeListAllocator.FreeList.Scribble | Kernel/memory/memoryManagement.c:58-58 | a client writing inside its payload disturbs nothing |
| Scheduler.ScanIsNearest | Kernel/processes_scheduler/scheduler.c:162-173 | the ring scan misses no ready process and finds the nearest one |
| Scheduler.ApplyKeepsInv | Kernel/processes_scheduler/scheduler.c:29-158 | create, kill, block, unblock, nice, set_priority, yield and tick keep: at most one process is RUNNING and it is the current one, the current process is live, priorities and quantum in range |
| Scheduler.ApplyKeepsLive | Kernel/processes_scheduler/scheduler.c:77-158 | only creating and killing change which slots are live |
| Scheduler.SwitchKeepsInv | Kernel/processes_scheduler/scheduler.c:77-110 | after a switch a process is RUNNING exactly when it is the current one |
| Scheduler.IdleOnlyWithoutWork | Kernel/processes_scheduler/scheduler.c:88-109 | the kernel idles exactly when no process is ready, and otherwise a ready one gets the CPU |
| Scheduler.FirstAgrees | Kernel/processes_scheduler/scheduler.c:23-27 | the scheduler as it starts, in the kernel with no live process, agrees with an observer that has seen nothing |
| Scheduler.RunAgrees | Kernel/processes_scheduler/scheduler.c:29-139 | over every run the table's stack pointers are those an observer expects who only saw the pointers going in and who was given the CPU |
| Scheduler.ContextsAreRestored | Kernel/processes_scheduler/scheduler.c:77-110 | whatever a switch resumes gets the context the CPU held when it was last switched out, or its initial stack |
| Scheduler.TickGetsCloser | Kernel/processes_scheduler/scheduler.c:77-110 | each tick gives a ready process the CPU or makes its distance, ring steps times the longest quantum plus what is left of the current one, smaller |
| Scheduler.NoStarvation | Kernel/processes_scheduler/scheduler.c:77-110 | if only ticks happen, every ready process gets the CPU within 1 + MAX_PROCESSES * (QUANTUM + MAX_PRIORITY + 1) of them |
| SchedulerHistory.BlockedNeverRuns | Kernel/processes_scheduler/scheduler.c:77-139 | from a block of a live process on, until it is unblocked or killed, whatever else is called, it is BLOCKED and no switch gives it the CPU; an unblock then makes it ready |
| SchedulerHistory.CallsDecide | Kernel/processes_scheduler/scheduler.c:29-223 | after any calls from the start a process is live exactly when it was created since it was last killed, BLOCKED exactly when it was blocked since it was created or last unblocked, and has the priority it was last given |
| SchedulerHistory.PriorityBuysTicks | Kernel/processes_scheduler/scheduler.c:77-160 | a process that is given the CPU keeps it for QUANTUM ticks and one for every point of its priority; with the next tick it loses it exactly when another one is ready |
| SchedulerHistory.YieldReturnsExactlyWhen | Kernel/processes_scheduler/scheduler.c:72-110 | a process that yields goes on exactly when nobody else is ready or a boost of it is pending |
| SchedulerHistory.UnblockPreemptsExactlyWhen | Kernel/processes_scheduler/scheduler.c:88-139 | an unblocked process is the next one to run exactly when its priority is at least half the maximum or an earlier boost of it is pending; otherwise whoever runs goes on |
| SchedulerHistory.NicePreemptsExactlyWhen | Kernel/processes_scheduler/scheduler.c:88-158 | a ready process whose priority is set by nice is the next one to run exactly when it is not the shell and the priority is in range and at least half the maximum |
| Scheduler.Scheduler.constructor | Kernel/processes_scheduler/scheduler.c:23-27 | the scheduler starts idle with no live process |
| Scheduler.Scheduler.ProcessWasCreated | Kernel/processes_scheduler/scheduler.c:29-41 | the slot becomes ready with a priority in range |
| Scheduler.Scheduler.ProcessWasKilled | Kernel/processes_scheduler/scheduler.c:43-57 | the slot is dead, nobody runs if it ran, and the result tells whether it was live |
| Scheduler.Scheduler.BlockProcess | Kernel/processes_scheduler/scheduler.c:112-124 | the new state of block and its result |
| Scheduler.Scheduler.UnblockProcess | Kernel/processes_scheduler/scheduler.c:126-139 | the new state of unblock, with the boost for high priorities, and its result |
| Scheduler.Scheduler.NiceProcess | Kernel/processes_scheduler/scheduler.c:141-158 | the new state of nice and its result |
| Scheduler.Scheduler.SetPriorityOf | Kernel/processes_scheduler/scheduler.c:213-223 | the new state of set_priority and its result |
| Scheduler.Scheduler.GetNextReady | Kernel/processes_scheduler/scheduler.c:162-173 | the do-while loop computes the ring scan |
| Scheduler.Scheduler.SwitchProcess | Kernel/processes_scheduler/scheduler.c:77-110 | the new state of switch_process and the stack pointer it returns |
| Scheduler.Scheduler.Yield | Kernel/processes_scheduler/scheduler.c:72-75 | a yield is a switch with no quantum left |
| ProcessTree.EveryProcessReachesTheShell | Kernel/processes_scheduler/processes.c:17-50 | every live process gets to the shell by finitely many parent links |
| ProcessTree.AddKeepsInv | Kernel/processes_scheduler/processes.c:116-146 | a creation by a live process keeps the tree rooted at the shell and equal to the scheduler's live slots |
| ProcessTree.DetachForm | Kernel/processes_scheduler/processes.c:22-42 | taking a child out of its parent's children makes a BLOCKED parent READY exactly when no other child of it is in the foreground, and changes nothing else in the scheduler |
| ProcessTree.KillForm | Kernel/processes_scheduler/processes.c:164-205 | kill takes out one process and hands its children to the shell; in the scheduler it is dead, its parent, if BLOCKED, is READY exactly when no other child of it is in the foreground, and every other slot is as before |
| ProcessTree.KillKeepsInv | Kernel/processes_scheduler/processes.c:164-205 | kill keeps the tree rooted at the shell and equal to the scheduler's live slots |
| ProcessTree.KillTreeForm | Kernel/processes_scheduler/processes.c:207-243 | kill_with_children takes out the process and its children, the grandchildren survive under the shell; in the scheduler all of them are dead, the parent, if BLOCKED, is READY exactly when no other child of it is in the foreground, and every other slot is as before |
| ProcessTree.PerformKeepsInv | Kernel/processes_scheduler/processes.c:52-260 | every call keeps the tree's invariant |
| ProcessTree.FamilyIsConsistent | Kernel/processes_scheduler/processes.c:17-243 | after any sequence of calls a slot is live exactly when it is live in the scheduler, every process but the shell is a child of exactly its live parent, and it reaches the shell |
| ProcessHistory.ParentsAreMakers | Kernel/processes_scheduler/processes.c:17-260 | after any calls the live processes are those created and not killed since, each one's parent is whoever ran when it was created as long as that one lives and the shell afterwards, and it is in the ground it was last sent to |
| ProcessHistory.WaiterWakesExactlyWhen | Kernel/processes_scheduler/processes.c:22-243 | a process BLOCKED in wait_for_children is woken by exactly those calls that take a child from it and leave it none in the foreground, or that unblock it by name |
| Processes.RepAdoptOne | Kernel/processes_scheduler/processes.c:44-50 | one adoption keeps marks, counts and parents in agreement |
| Processes.ProcessTable.constructor | Kernel/processes_scheduler/processes.c:13-15 | the tables with only the shell live agree with the tree |
| Processes.ProcessTable.RemoveChild | Kernel/processes_scheduler/processes.c:22-42 | the mark and the count go down, and the parent is unblocked exactly when no foreground child is left |
| Processes.ProcessTable.MarksAreChildren | Kernel/processes_scheduler/processes.c:17-50 | between calls c is marked under p exactly when c is live with parent p, and each count is the number of marks |
| Processes.ProcessTable.ShellAdoption | Kernel/processes_scheduler/processes.c:44-50 | the child is marked under the shell instead of its parent |
| Processes.ProcessTable.CreateProcess | Kernel/processes_scheduler/processes.c:52-147 | -1 exactly when no slot is free, argc is negative, the name is bad or memory is short, and then nothing changes; otherwise the first free slot, as a child of the caller |
| Processes.ProcessTable.Kill | Kernel/processes_scheduler/processes.c:164-205 | -1 and no change for the shell or a dead process; otherwise marks, counts, parents and the scheduler all follow the tree's kill |
| Processes.ProcessTable.KillWithChildren | Kernel/processes_scheduler/processes.c:207-243 | -1 and no change for the shell or a dead process; otherwise marks, counts, parents and the scheduler all follow the tree's kill_with_children |
| Processes.ProcessTable.MoveToGround | Kernel/processes_scheduler/processes.c:245-260 | sets the flag of a live process and nothing else |
| Semaphores.WaitKeepsInv | Kernel/semaphores/semaphores.c:156-184 | a test of the value keeps it non-negative, equal to initial + posts - waits, the queue free of repeats, and below the number of woken processes while anyone is queued |
| Semaphores.PostKeepsInv | Kernel/semaphores/semaphores.c:186-214 | a post keeps the value, the queue and the count of woken processes in the same agreement as a wait does |
| Semaphores.NoLostWakeup | Kernel/semaphores/semaphores.c:156-214 | after every run: no unit is lost or made, the queue has no repeats and fits its array, and while somebody is queued every available unit has a woken process coming for it; whoever was put into the queue has been unblocked, in the same order, or is still in it |
| Semaphores.WokenExactlyWhen | Kernel/semaphores/semaphores.c:156-214 | after every run the woken processes are exactly those that some post unblocked and that have not tested the value since |
| Semaphores.PostUnblocksTheFirst | Kernel/semaphores/semaphores.c:202-210 | a post unblocks the process that has been queued longest, takes that one off the queue, and leaves it to test the value again |
| Semaphores.QueueHasRoom | Kernel/semaphores/semaphores.c:170-172 | a process about to queue finds a free place in the array |
| Semaphores.Semaphore.IsInterested | Kernel/semaphores/semaphores.c:42-49 | the loop finds the process exactly when it opened the semaphore |
| Semaphores.Semaphore.Wait | Kernel/semaphores/semaphores.c:156-184 | up to the yield, or from the retry, the entry changes as the protocol says; an outsider changes nothing |
| Semaphores.Semaphore.Post | Kernel/semaphores/semaphores.c:186-214 | the value goes up, and the process handed to the scheduler is the newest entry of the record of unblocked ones, which is the head of the queue, the rest moving up in order |
| MutexClient.StepKeepsInv | Userland/SampleCodeModule/tests/test_sync.c:14-19 | every single access by any process keeps the variable what the process inside believes it to be |
| MutexClient.NoLostUpdate | Userland/SampleCodeModule/tests/test_sync.c:65-88 | whenever the semaphore is free the variable is the sum of all completed increments, to 64 bits, and at most one process is inside |
| MutexClient.RoundAddsItsIncrement | Userland/SampleCodeModule/tests/test_sync.c:70-72 | the two values one round prints differ by its increment |
| Pipes.TakenUnread | Kernel/pipes/pipe.c:151-153 | the byte taken is the first unread one |
| Pipes.PutUnread | Kernel/pipes/pipe.c:170-172 | the byte put becomes the last unread one, and no unread byte is overwritten |
| Pipes.PipeEntry.TakeByte | Kernel/pipes/pipe.c:151-153 | the entry's buffer, read position and amount change so that the returned byte and what is then unread are what was unread |
| Pipes.PipeEntry.PutByte | Kernel/pipes/pipe.c:170-172 | the entry's buffer, write position and amount change so that the unread bytes are the old ones and the new byte |
| PipeProtocol.StepKeepsInv | Kernel/pipes/pipe.c:138-177 | every step of every reader and writer keeps the balance of semaphores, amount and processes in flight |
| PipeProtocol.PipeIsFifo | Kernel/pipes/pipe.c:97-177 | under every interleaving the bytes taken are a prefix of the bytes put, and both semaphores with everybody in flight add up to PIPE_SIZE |
| PipeProtocol.CopiesHitTheRightSlot | Kernel/pipes/pipe.c:149-173 | whoever is about to copy finds an unread byte, the next one in order, or a slot that holds none |
| PipeProtocol.CallsMoveTheirBytes | Kernel/pipes/pipe.c:138-177 | a call's buffer is the last stretch of what its process took, or put, in order |
| PipeProtocol.WritePutsItsBuffer | Kernel/pipes/pipe.c:161-177 | under every interleaving a write puts bytes of its buffer only, in order, and returns exactly when it tests its count with the whole buffer put |
| PipeProtocol.ReadFillsItsBuffer | Kernel/pipes/pipe.c:138-159 | under every interleaving a read's buffer is what it took since it began, and it returns exactly when it tests its count with all the bytes it wants, or with eof set and nothing unread |
| PipeProtocol.BeginsExactlyWhen | Kernel/pipes/pipe.c:138-147 | a read is turned away exactly when eof is set and nothing is unread; a write never is |
| PipeProtocol.StuckOnOneSideOnly | Kernel/pipes/pipe.c:138-177 | if everybody inside is blocked, then all are readers and the pipe is empty, or all are writers and it is full |
| Philosophers.LeftIsMacro | Userland/SampleCodeModule/programs/phylo.c:20-20 | the left neighbour is what the macro computes |
| Philosophers.RightIsMacro | Userland/SampleCodeModule/programs/phylo.c:21-21 | the right neighbour is what the macro computes |
| Philosophers.TryKeepsPeace | Userland/SampleCodeModule/programs/phylo.c:219-232 | try_to_eat never makes two distinct neighbours eat |
| Philosophers.Table.TryToEat | Userland/SampleCodeModule/programs/phylo.c:219-232 | posts exactly when the philosopher is hungry between two that do not eat, and then it eats |
| Philosophers.Table.GetHungry | Userland/SampleCodeModule/programs/phylo.c:277-281 | the first critical section: the philosopher is hungry or, if nobody beside it eats, eating and posted; peace kept |
| Philosophers.Table.GetThinking | Userland/SampleCodeModule/programs/phylo.c:287-292 | the second critical section: the left neighbour is tried first, then the right one; each is posted exactly when it may eat at that moment; peace kept |
| DiningRing.OneMoreKeepsPeace | Userland/SampleCodeModule/programs/phylo.c:297-343 | a philosopher with no state may sit down between the last and the first |
| DiningRing.OneLessKeepsPeace | Userland/SampleCodeModule/programs/phylo.c:362-386 | with more than two at the table, peace is kept when the last one leaves if and only if its neighbours do not both eat |
| DiningRing.HostWaitsExactlyWhen | Userland/SampleCodeModule/programs/phylo.c:362-379 | the host goes on to kill the last philosopher exactly when its leaving keeps peace, and waits otherwise |
| DiningRing.HostKeepsExclusion | Userland/SampleCodeModule/programs/phylo.c:297-393 | the host's steps keep at most one process inside the mutex, failing paths included; when they leave it down for good is SticksExactlyWhen |
| DiningRing.StepKeepsInv | Userland/SampleCodeModule/programs/phylo.c:219-393 | every step of a philosopher or of the host keeps peace, exclusion and the seating |
| DiningRing.NeighboursNeverEatTogether | Userland/SampleCodeModule/programs/phylo.c:219-393 | in every run of eating mixed with adding and removing, no two distinct neighbours on the ring of the moment both eat |
| DiningRing.SticksExactlyWhen | Userland/SampleCodeModule/programs/phylo.c:297-393 | one step leaves the mutex down with nobody left to post it if and only if the host returns from a failing sem_open in add_philosopher or a failing sem_close in remove_philosopher |
| DiningRing.StuckForGood | Userland/SampleCodeModule/programs/phylo.c:274-393 | from then on no run changes the state array, the number of philosophers or the mutex |
| DiningRing.RunSticksExactlyWhen | Userland/SampleCodeModule/programs/phylo.c:274-393 | a run ends with the mutex lost if and only if one of its steps was such a return |
| DiningRing.ATableGetsStuck | Userland/SampleCodeModule/programs/phylo.c:297-313 | a run of four steps that loses the mutex before anybody sits down |
| DiningUnits.SpareExactlyWhen | Userland/SampleCodeModule/programs/phylo.c:219-393 | while no philosopher's semaphore has more units than its turns at eating, a step changes that if and only if the host kills a philosopher whose semaphore has a unit |
| DiningUnits.BreaksExactlyWhen | Userland/SampleCodeModule/programs/phylo.c:274-293 | while everybody past its own sem_wait is EATING, a step changes that if and only if it is the sem_wait of a HUNGRY philosopher |
| DiningUnits.UnsparedEats | Userland/SampleCodeModule/programs/phylo.c:274-293 | without a unit to spare everybody past its own sem_wait is EATING, and no step of a HUNGRY one past it is possible |
| DiningUnits.RunSparesExactlyWhen | Userland/SampleCodeModule/programs/phylo.c:219-393 | along a run there is never a unit to spare if and only if no step kills a philosopher whose semaphore has one |
| DiningUnits.EatersSitApart | Userland/SampleCodeModule/programs/phylo.c:274-393 | in every run without such a kill, units taken by the host included, a philosopher past its own sem_wait is EATING and no other neighbour is, nor is past its own, although the ring grows and shrinks |
| DiningSpares.SpareDoesHarm | Userland/SampleCodeModule/programs/phylo.c:274-393 | from any state of philosophers and host that has a unit to spare, whose philosopher is there or can be added again, with the mutex not lost and no unit taken by the host, some run without another such kill ends with somebody past its own sem_wait who does not eat |
| DiningSpares.SpoiltExactlyWhen | Userland/SampleCodeModule/programs/phylo.c:274-393 | on such a ring, while the host is not removing anybody, such a run exists if and only if there is a unit to spare |
| DiningSpares.ASpareUnitSpoilsARun | Userland/SampleCodeModule/programs/phylo.c:274-393 | a run with four philosophers after which one is past its own semaphore HUNGRY beside an EATING neighbour |
| DiningTable.MoveKeepsInv | Userland/SampleCodeModule/programs/phylo.c:274-293 | every move keeps states, semaphores and places in agreement, peace, the mutex, and everybody hungry served |
| DiningTable.EatersSitApart | Userland/SampleCodeModule/programs/phylo.c:274-293 | between its own sem_wait and THINKING a philosopher is EATING and no neighbour is, nor is at such a place |
| DiningTable.HungryWaitsForAnEater | Userland/SampleCodeModule/programs/phylo.c:219-232 | whenever the mutex is free every HUNGRY philosopher has an EATING neighbour |
| DiningTable.NeverDeadlocks | Userland/SampleCodeModule/programs/phylo.c:274-293 | in every reachable state some philosopher is not parked on a semaphore |
| Bmfs.SearchIsExact | Bootloader/BMFS/bmfs.c:664-692 | on ordered records the search finds the first blocks inside the data area apart from every file, and finds none only if there are none |
| Bmfs.SafeExactlyWhenOrdered | Bootloader/BMFS/bmfs.c:664-692 | the search is right for every request if and only if every record ends where the next one starts or before |
| Bmfs.CmpComparesStarts | Bootloader/BMFS/bmfs.c:598-609 | the comparison cut to an int still orders by starting block on any disk with fewer than 2^31 blocks |
| Bmfs.OrderedUnlessShared | Bootloader/BMFS/bmfs.c:598-609 | what qsort makes of disjoint files is ordered unless a non-empty file stands before one with the same starting block |
| Bmfs.AnEmptyFileMisleads | Bootloader/BMFS/bmfs.c:664-686 | three sorted records with one empty file for which the search returns blocks that are in use; BmfsOrders.CreateCanGiveAwayBlocks is the directory and the call |
| Bmfs.SearchOnDirectory | Bootloader/BMFS/bmfs.c:660-692 | on a sound directory whose sorted copy has every record ending before the next starts, empty files included, the search finds the first room there is, exactly when there is some |
| Bmfs.CreateKeepsDirectory | Bootloader/BMFS/bmfs.c:611-720 | on a sound directory whose sorted copy is so ordered: create keeps all files disjoint and in range and the directory terminated, appends exactly the new file in the first blocks free for it, and refuses exactly when the name exists, no record is free or no gap is large enough |
| Bmfs.CreateRightExactlyWhenOrdered | Bootloader/BMFS/bmfs.c:611-720 | for a given order of the copy, a new name and a free record: create leaves a sound directory for every size if and only if every record ends where the next starts or before |
| BmfsOrders.EveryOrderFitsExactlyWhen | Bootloader/BMFS/bmfs.c:598-662 | every order qsort may leave of disjoint files is of that kind if and only if no empty file starts where a non-empty one does |
| BmfsOrders.CreateRightExactlyWhen | Bootloader/BMFS/bmfs.c:598-720 | create of a new name on a sound directory with a free record is right for every size and every such order if and only if no empty file starts where a non-empty one does |
| BmfsOrders.CreateCanGiveAwayBlocks | Bootloader/BMFS/bmfs.c:611-720 | a directory, an order and a request for which create gives a new file the blocks of another |
| BmfsOrders.CreatesKeepDirectory | Bootloader/BMFS/bmfs.c:598-720 | any sequence of creates of files of at least one block, with any order qsort may leave at each call, leads from a sound directory without empty files to such a directory, and keeps every file where it is, and names different |
| BmfsOrders.CreateKeepsNames | Bootloader/BMFS/bmfs.c:206-232 | create refuses a name exactly when a file has it, and so no two files come to have the same name |
| Bmfs.Disk.FindFile | Bootloader/BMFS/bmfs.c:206-232 | finds the record of a file exactly when there is one before the end mark |
| Bmfs.Disk.CountEntries | Bootloader/BMFS/bmfs.c:635-652 | the number of records in use, 0 for a full directory, and the first one that can be used |
| Bmfs.Disk.FindRoom | Bootloader/BMFS/bmfs.c:664-686 | the loop over the sorted copy returns the start that SearchIsExact and SafeExactlyWhenOrdered are about |
| Bmfs.Disk.Create | Bootloader/BMFS/bmfs.c:611-720 | the result and the new directory, with the end mark moved on |
| ModuleImage.WordRoundTrip | Kernel/moduleLoader.c:27-31 | a uint32_t read back is the number written |
| ModuleImage.LowByteFirst | Kernel/moduleLoader.c:27-31 | a number is stored with the low byte first, and read that way |
| ModuleImage.PayloadIsUnambiguous | Toolchain/ModulePacker/main.c:61-82 | different lists of modules make different payloads |
| ModuleImage.WriteFile | Toolchain/ModulePacker/main.c:109-119 | copying by buffers until a short read appends exactly the file |
| ModuleImage.BuildImage | Toolchain/ModulePacker/main.c:52-85 | the image is the kernel, the number of modules, and every module behind its size |
| ModuleImage.ModuleInPayload | Toolchain/ModulePacker/main.c:69-82 | where module i stands in the payload |
| ModuleImage.ReadUint32 | Kernel/moduleLoader.c:27-31 | reads four bytes and moves past them |
| ModuleImage.LoadModule | Kernel/moduleLoader.c:21-25 | one module is copied to its target, the rest of memory stays, and the cursor moves past it |
| ModuleImage.LoadModules | Kernel/moduleLoader.c:12-19 | on the payload of any list of modules: module i stands at target i, all other memory is unchanged, and the cursor is at the end of the image |
| ModuleImage.PayloadFollowsKernel | Kernel/kernel.c:50-50 | in the packed image the payload starts right behind the kernel |
| ModuleImage.PackAndLoad | Toolchain/ModulePacker/main.c:52-85 | writer and reader composed: the image of any list of small modules, loaded and taken apart, puts module i at target i, keeps the kernel, and ends where the image ends |
| Decimal.DigitsParse | Userland/SampleCodeModule/lib/utils.c:20-24 | the digits of a positive int, turned around, have its value |
| Decimal.LeastText | Userland/SampleCodeModule/lib/utils.c:15-18 | the least int is printed as something satoi reads as 0 |
| Decimal.DivModIsDivision | Userland/SampleCodeModule/lib/utils.c:20-24 | the quotient and the remainder by repeated subtraction are those of division |
| Decimal.RoundTrip | Userland/SampleCodeModule/tests/test_util.c:38-60 | the text of n in base 10 parses to n exactly for the ints other than the least |
| Decimal.ParsesNumerals | Userland/SampleCodeModule/tests/test_util.c:38-60 | satoi of any text: 0 if anything but digits stands behind the sign, otherwise the number the digits stand for by place, cut to 64 bits |
| Decimal.DigitsInBase | Userland/SampleCodeModule/lib/utils.c:20-24 | in every base the digits of a number stand for it by place |
| Decimal.DigitsBelowBase | Userland/SampleCodeModule/lib/utils.c:20-24 | each of them is worth less than the base, a standing for ten |
| Decimal.DigitsOfNegative | Userland/SampleCodeModule/lib/utils.c:15-24 | outside base 10 a negative number gives as many characters as its opposite, each as far below '0' as the other's digit is worth |
| Decimal.TextHasNoNul | Userland/SampleCodeModule/lib/utils.c:6-44 | no character of the text of a number in base 10 ends it early |
| Decimal.TextFits | Userland/SampleCodeModule/lib/utils.c:6-44 | the text of an int in base 10 has at most 11 characters |
| Decimal.PrintAndParse | Userland/SampleCodeModule/tests/test_util.c:38-60 | the two methods composed over a buffer of 20 characters: satoi(itoa(n, 10)) is n exactly for the ints other than the least |
| Decimal.PutDigits | Userland/SampleCodeModule/lib/utils.c:20-24 | the digit loop writes the digits, the last one first |
| Decimal.TurnAround | Userland/SampleCodeModule/lib/utils.c:32-41 | the swapping loop reverses the text and nothing behind it |
| Decimal.Itoa | Userland/SampleCodeModule/lib/utils.c:6-44 | the buffer holds the text of the number and a NUL |
| Decimal.Satoi | Userland/SampleCodeModule/tests/test_util.c:38-60 | the loop parses the string up to its NUL, and gives 0 for NULL or a character that is no digit |

## Left out

- Screen, sound, keyboard, clock and exception drivers, the boot code and all assembly: hardware access.
- The shell, its commands, the game and the system call table: user interface and thin wrappers.
- `sem_open`, `sem_close` and `sem_get`: the model starts from semaphores that are open; a lookup by name only scans as many slots as are active, which is unreliable once a lower slot was closed.
- The spinlocks around the semaphores: with one CPU and interrupts off in system calls they never contend.
- Killing a process that waits on a semaphore, and unblocking one by anything but `sem_post`: the model's waiters are not killed.
- `open_pipe` slot choice, `close_pipe` and the wakeup of a reader blocked when `signal_eof` comes: the pipe results are about safety.
- Double frees, pointers malloc did not return, and requests whose size overflows a word with the header added: preconditions of both allocators.
- FreeListAllocator.FreeList.constructor: does not set the memInfo counters, which this allocator's model leaves out because malloc and free count headers differently.
- FreeListAllocator.FreeList.Malloc: does not update the memInfo counters, for the same reason.
- FreeListAllocator.FreeList.Free: does not update the memInfo counters, for the same reason.
- Processes.ProcessTable.CreateProcess: does not copy arguments and does not hand down the parent's input and output; of memory only success or failure is modelled.
- Processes.ProcessTable.Kill: does not free the process's memory and does not send signal_eof to its output, because allocators and pipes are modelled separately.
- Processes.ProcessTable.KillWithChildren: does not free the process's memory.
- The creation of the shell at boot, whose parent -1 indexes the family table out of range, and the unused `kill_current`: the tables start with the shell live.
- `wait_for_children` and `wait_for_pid`: compositions of block and yield, which are modelled; what ends the first is WaiterWakesExactlyWhen.
- The philosophers' shutdown loop, `display_table` and all printing; the semaphore names of `philosopher_action`.
- DiningSpares.SpareDoesHarm: asks that the host has taken no unit and for three philosophers, which every ring with a unit to spare has had; a philosopher whose unit was taken may stay parked while EATING, and then no continuation is given.
- DiningSpares.SpoiltExactlyWhen: the same, and that the host is not removing anybody, since a unit without a philosopher does nothing until one is added.
- BMFS directories with deleted records: the code's branches for them are modelled, the soundness of a directory is stated without them. Disk access, `initialize`, `read`, `write` and `delete` are not modelled; file names fit their field.
- ModuleImage.MemCopy: copies byte by byte; the kernel's memcpy moves larger words, with the same result for areas that do not overlap.
- Decimal.Itoa: characters are modelled as their codes, without the width of char.
