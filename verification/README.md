# Verification of a small x86-64 kernel and its disk tools

This project models the parts of the kernel whose correctness depends on state that several
calls share, and proves what they promise over all inputs and all runs:

* **Blocking synchronisation**: the wait slots inside mutexes and semaphores (`WaitSlots`), mutexes
  with direct hand-off on top of an 8-byte compare-exchange (`Mutexes`), counting semaphores
  (`Semaphores`), and the two programs built on them, under every interleaving of system calls and
  single memory accesses: producer/consumer, what it keeps (`ProducerConsumer`) and how far it gets
  (`ProducerProgress`), and the dining philosophers, who may eat (`Philosophers`) and who must
  (`PhilosopherService`).
* **Scheduling**: the linked ring of process slots (`Scheduler`), what the round-robin order
  guarantees over runs (`SchedulerRounds`), the sleep table with its swap-delete (`SleepTable`),
  runs of the kernel as a whole (`KernelRuns`), and what each of its steps does and how long
  processes wait in those runs (`KernelSteps`).
* **Memory**: the buddy page allocator as a tree (`BuddyTree`), its runs (`BuddyRuns`) and the
  array program that implements it (`BuddyHeap`); the kernel heap (`KernelHeap`).
* **Data**: the pipe ring (`Pipes`), the module image with packer, loader and memcpy
  (`ModuleImage`), and the BMFS disk: its directory and gap search (`BmfsDirectory`), its commands
  as operations on a map of names to bytes (`BmfsVolume`), runs that go wrong (`BmfsFailures`) and the utility
  itself (`BmfsTool`).

`Basics` holds the types and word sizes that components share, `Bags` and `Modular` small facts on
multisets, finite sets and ring indices.

Each component has the same layers. A function or a pair of functions says what one call does to
the state. A class with the fields of the original runs the same loops and assignments in place and
is proved to compute that function. Lemmas then state the property, first for one call and then for
every run; what a call leaves behind is said without the function that computes it. Sizes (slots,
pipe length, tree height, buffer, directory, number of processes) are parameters; the constants of
the source are instances.

Where a property fails in some states, the lemma states exactly when it holds, and a concrete run
shows the failure:

* A lock on a held mutex whose slots are all taken breaks mutual exclusion (`LockKeepsExclusionIff`;
  `OverflowEndsExclusion` is a run from the clean mutex to two holders, for every number of slots).
* A kernel step loses a process exactly when init blocks, or a wait finds no slot, or a sleep no
  entry (`StepKeepsInvIff`).
* A wait that finds neither a unit nor a slot breaks the accounting (`WaitConservesIff`).
* `testP` looks at place + 4 for the left neighbour, so the philosophers are safe on tables of two
  and five places only (`SafeExactlyForTwoAndFive`, with a run in which two neighbours eat in `TwoMeals`).
* `freeUpRecursive` never looks at the node it leaves, so freeing a page can empty a node that
  still holds another block (`DeallocKeepsInvIff`; on every heap of at least four pages,
  `FreeingANeighbourBreaksTheHeap`). It leaves a FULL node alone when the other child is
  PARTIALLY_FULL, so freed pages below it cannot be allocated (`FreedPageIsAvailableIff`;
  `FreedHalfStaysLost`).
* BMFS create goes on past deleted records in its gap search and can place a file on live ones
  (`CreateKeepsInvIff`; a run from format in `StaleRecordMisleadsCreate`). The create that takes the
  last record removes the end marker (a run in `LastRecordEndsMarker`), and from then on no files are
  counted at all (`MissingMarkerIgnoresFiles`).
* An empty message to an empty pipe, and a read of no bytes from a full one, corrupt the queue
  (`WriteAppendsIff`, `ReadTakesIff`).
* The three largest kmalloc sizes are aligned to 0 (`AnswerCoversIff`); a module of 2^32 bytes or
  more is cut by the loader (`PayloadReadsBackIff`); a sleep of no ticks never ends (`SleepLastsExactly`).

The BMFS format description says that the last block of a disk holds a copy of block 0. The code
never writes that copy; the model follows the code. Both keep files out of that block.

## Model

| member | source | states |
|---|---|---|
| WaitSlots.FullIffNoFreeSlot | Kernel/mutex.c:127-143 | the slots hold as many waiters as there are slots exactly when the scan finds no free one |
| WaitSlots.EnterAddsOne | Kernel/mutex.c:145-159 | with room, storing a pid adds exactly one occurrence to the bag of waiters |
| WaitSlots.LeaveRemovesOne | Kernel/mutex.c:223-237 | a wake-up takes exactly one waiter out of the bag and fails only when nobody waits |
| WaitSlots.LeaveTakesLowest | Kernel/mutex.c:229-235 | the waiter taken out is the one in the lowest used slot, and no other slot changes |
| WaitSlots.EnterTakesLowest | Kernel/mutex.c:132-157 | a new waiter gets the lowest free slot, and no other slot changes |
| WaitSlots.GetFreeSpotInBlockedQueue | Kernel/mutex.c:132-143 | the scan returns the lowest free slot, or the error value when there is none |
| WaitSlots.TakeFirstWaiter | Kernel/mutex.c:223-237 | the scan of both unblock procedures clears the lowest used slot and returns its pid |
| Mutexes.WideExchangeIsTestAndSet | Kernel/asm/lock.asm:6-32 | the 8-byte exchange over the lock word and the waiter count behaves as a one-word test-and-set exactly outside the state "free with waiters", and never changes the waiter count |
| Mutexes.FreshIsValid | Kernel/mutex.c:89-102 | a clean mutex is valid: no waiters, lock open |
| Mutexes.LockEffect | Kernel/mutex.c:174-205 | lockMutex on a valid mutex: when it acquires, queues or overflows, the new bag of waiters, and the lock word afterwards |
| Mutexes.FreeEffect | Kernel/mutex.c:207-237 | freeMutex hands over to one waiter and keeps the lock closed, or opens it exactly when nobody waits |
| Mutexes.SlotChoice | Kernel/mutex.c:145-237 | a queued caller goes into the slot that EnterTakesLowest names, and a wake-up empties the one that LeaveTakesLowest names |
| Mutexes.Mutex.constructor | Kernel/mutex.c:89-102 | cleanMutex leaves the clean state |
| Mutexes.Mutex.TestAndSetWord | Kernel/asm/lock.asm:6-32 | the in-place exchange computes TestAndSet |
| Mutexes.Mutex.AddToBlocked | Kernel/mutex.c:145-159 | stores the caller in the lowest free slot and counts it, or changes nothing |
| Mutexes.Mutex.LockMutex | Kernel/mutex.c:174-205 | the in-place call computes Lock: new state and what becomes of the caller |
| Mutexes.Mutex.FreeMutex | Kernel/mutex.c:207-237 | the in-place call computes Free: new state and the process woken |
| Mutexes.LockKeepsExclusionIff | Kernel/mutex.c:174-205 | a lock call keeps mutual exclusion exactly when it does not meet a held lock with full slots; otherwise there are two holders |
| Mutexes.FreeHandsOver | Kernel/mutex.c:207-237 | freeing takes the lock from its only holder and gives it to exactly one waiter, or to nobody when none waits |
| Mutexes.MutualExclusion | Kernel/mutex.c:145-237 | in every run without slot overflow at most one process holds the mutex, the lock word counts the holders and the waiter count the occupied slots |
| Mutexes.OverflowEndsExclusion | Kernel/mutex.c:174-205 | for every number of slots, a run from the clean mutex: one process locks, one waits in each slot, and one more returns from lockMutex as a second holder |
| Mutexes.FreshIsExclusive | Kernel/mutex.c:89-102 | a clean mutex starts such runs |
| Semaphores.CreateIsValid | Kernel/semaphores.c:129-148 | a new semaphore is consistent exactly when its initial value is not negative |
| Semaphores.WaitEffect | Kernel/semaphores.c:180-214 | wait: when it passes, parks or loses the caller; the state stays consistent exactly when the caller is not lost |
| Semaphores.SignalEffect | Kernel/semaphores.c:216-251 | signal wakes exactly one waiter, or stores the unit exactly when nobody waits |
| Semaphores.SlotChoice | Kernel/semaphores.c:49-63 | the same slots for wait and signal |
| Semaphores.Semaphore.constructor | Kernel/semaphores.c:129-148 | createSemaphore on a clean entry leaves the created state with an idle inner mutex |
| Semaphores.Semaphore.AddToSemBlocked | Kernel/semaphores.c:49-63 | stores the caller in the lowest free slot and counts it, or changes nothing |
| Semaphores.Semaphore.WaitOn | Kernel/semaphores.c:180-214 | the in-place call computes Wait; the inner lock never blocks and is given back as it was |
| Semaphores.Semaphore.SignalOn | Kernel/semaphores.c:216-251 | the in-place call computes Signal: new state and the process woken |
| Semaphores.SemaphoreConservation | Kernel/semaphores.c:180-251 | in every run value = start + signals - waits, blocked = occupied slots = max(0, -value), and the waits that have passed are exactly min(waits, start + signals) |
| Semaphores.WaitConservesIff | Kernel/semaphores.c:180-214 | a wait breaks the accounting exactly when it finds no unit and no slot |
| ProducerConsumer.OneInside | Userland/dummy/dummy.c:105-108 | with balanced accounts, everybody in the critical section but one process is parked at itemMutex |
| ProducerConsumer.RoomToInsert | Userland/dummy/dummy.c:105-107 | a producer that has passed wait(emptyCount) and not inserted yet has room |
| ProducerConsumer.ItemToRemove | Userland/dummy/dummy.c:128-130 | a consumer that has passed wait(fullCount) and not removed yet has an item |
| ProducerConsumer.StoreSparesUnread | Userland/dummy/dummy.c:33-36 | the store of insertItem never hits an unread slot |
| ProducerConsumer.StepKeepsInv | Userland/dummy/dummy.c:33-142 | every single step of every process keeps accounts, ring contents and loaded registers right |
| ProducerConsumer.BoundedBufferIsFifo | Userland/dummy/dummy.c:33-142 | in every interleaving of any processes that fit in the slots, what was removed is a prefix of what was inserted, the buffer holds the rest (at most its size), and no wait loses its caller |
| ProducerConsumer.NoDeadlock | Userland/dummy/dummy.c:84-142 | no run with a producer and a consumer reaches a state in which everybody is blocked |
| ProducerConsumer.DummyProgram | Userland/dummy/dummy.c:24-73 | the same results for the program: 50 slots of buffer, up to 10 producers and 10 consumers, 20 wait slots |
| ProducerConsumer.SharedBuffer.InsertItem | Userland/dummy/dummy.c:33-36 | on a ring with room the unread items followed by c are the new unread items, in exactly this state |
| ProducerConsumer.SharedBuffer.RemoveItem | Userland/dummy/dummy.c:38-42 | on a non-empty ring it returns the oldest unread item and keeps the others |
| ProducerConsumer.InsertAlone | Userland/dummy/dummy.c:33-36 | the four memory accesses of the interleaved model, run without interruption, are one InsertItem |
| ProducerConsumer.RemoveAlone | Userland/dummy/dummy.c:38-42 | the four memory accesses of the interleaved model, run without interruption, are one RemoveItem |
| ProducerProgress.ProducerRound | Userland/dummy/dummy.c:105-111 | a producer that finds room and nobody inside ends its round of eight steps with its item stored, one unit of emptyCount less and one signal of fullCount more |
| ProducerProgress.ConsumerRound | Userland/dummy/dummy.c:128-134 | a consumer that finds an item and nobody inside ends its round with the item at r taken, one unit of fullCount less and one signal of emptyCount more |
| ProducerProgress.StepsMoveItems | Userland/dummy/dummy.c:84-142 | in every interleaving eight steps move one item in or out, up to the rounds that are not finished; with NoDeadlock, items never stop moving |
| Philosophers.StepKeepsInv | Userland/dummy/dummy.c:315-379 | for any table size, every memory access and call keeps the mutex exclusive and every condition that testP has read so far true |
| Philosophers.StepKeepsSafe | Userland/dummy/dummy.c:315-379 | with two or five places no step makes two neighbours eat |
| Philosophers.Table.TestP | Userland/dummy/dummy.c:315-336 | the cell becomes EATING exactly when it is HUNGRY and neither tested cell is EATING; nothing else changes |
| Philosophers.Table.TakeFork | Userland/dummy/dummy.c:338-349 | the caller is EATING afterwards if neither tested cell of another philosopher was, and HUNGRY otherwise; no other cell changes; safety on two or five places |
| Philosophers.Table.PutFork | Userland/dummy/dummy.c:356-378 | the caller thinks; each tested philosopher that was HUNGRY with both its own tested cells free is EATING; no other cell changes; safety on two or five places |
| Philosophers.NeighboursNeverEatTogether | Userland/dummy/dummy.c:315-390 | in every state of every run of the five philosophers no two neighbours eat together |
| Philosophers.TwoMeals | Userland/dummy/dummy.c:315-336 | for every other table size, a run from an allowed start that ends with two neighbours eating |
| Philosophers.SafeExactlyForTwoAndFive | Userland/dummy/dummy.c:315-390 | the protocol is safe in all runs exactly for tables of two or five places |
| PhilosopherService.TakeForkAlone | Userland/dummy/dummy.c:338-349 | the single steps of take_fork in the interleaved model, run alone, have the effect of TakeFork |
| PhilosopherService.PutForkAlone | Userland/dummy/dummy.c:356-378 | the single steps of put_fork, run alone, have the effect of PutFork |
| PhilosopherService.EveryCallIsAnswered | Userland/dummy/dummy.c:315-378 | in every run, on every table and from every start: who leaves take_fork is EATING, or is HUNGRY with a tested cell EATING; who leaves put_fork leaves neither tested philosopher hungry with both tested cells free |
| PhilosopherService.NoFreeSeatIsOverlooked | Userland/dummy/dummy.c:315-390 | on two or five places, from a start where all think: a hungry philosopher without an eating neighbour is about to be tested by the holder of the mutex, so none exists while the mutex is free |
| Scheduler.Ring.AddProcess | Kernel/scheduler.c:61-73 | inserts the slot behind the current one; the list stays one cycle |
| Scheduler.Ring.CreateProcess | Kernel/scheduler.c:18-24 | adds one READY process directly behind the current one, with a fresh pid, and advances the pid counter |
| Scheduler.Ring.ChangeProcessState | Kernel/scheduler.c:47-59 | changes the state of the process with that pid and of no other; an unknown pid changes nothing |
| Scheduler.Ring.Schedule | Kernel/scheduler.c:128-139 | on a ring where the walk ends, computes the ring turned to the first READY process, now RUNNING; also from a slot that was just unlinked |
| Scheduler.Ring.WalkToReady | Kernel/scheduler.c:133-136 | the walk ends at the first READY process |
| Scheduler.Ring.FindSlot | Kernel/scheduler.c:263-270 | the search returns the slot of the pid and its predecessor, or one full round |
| Scheduler.Ring.Bypass | Kernel/scheduler.c:274-274 | the unlinking assignment leaves one cycle of the remaining slots and the removed slot still pointing into it |
| Scheduler.Ring.UnlinkProcess | Kernel/scheduler.c:244-280 | removeProcess up to its yield: exactly the slot of the pid is gone, cardinality and pids stay right |
| Scheduler.Ring.RemoveProcess | Kernel/scheduler.c:244-280 | removeProcess with its yield computes Remove and keeps the pid counter: init is never removed, a removed current process yields to the first READY one |
| Scheduler.KillWalk | Kernel/scheduler.c:79-103 | the walk over a list that it unlinks on the way ends, with the remaining slots in their old order |
| Scheduler.KillAllExceptCurrent | Kernel/scheduler.c:79-103 | leaves exactly the current process and init, in one valid cycle |
| SchedulerRounds.ScheduleEndsIff | Kernel/scheduler.c:128-136 | the walk of schedule ends exactly when some process is READY or the current one is RUNNING |
| SchedulerRounds.ScheduleTakesFirstReady | Kernel/scheduler.c:128-139 | schedule turns the ring without reordering it and runs the first READY process after the current one |
| SchedulerRounds.ScheduleSparesTheRest | Kernel/scheduler.c:128-139 | no process changes but the chosen one and a demoted current one |
| SchedulerRounds.ChangeStateEffect | Kernel/scheduler.c:47-59 | a state change touches the process with that pid and nobody else |
| SchedulerRounds.RemoveEffect | Kernel/scheduler.c:244-280 | pids, states and order after removeProcess in each case: init, an unknown pid, another process, the last process, and the current one, after which the first READY process of the rest runs |
| SchedulerRounds.RunsWithinOneRound | Kernel/scheduler.c:128-139 | on an unchanged ring a process at distance d that stays READY runs within d + 1 calls, whatever the other states do in between |
| SchedulerRounds.ScheduleKeepsInv | Kernel/scheduler.c:128-139 | schedule always ends in runs with init and keeps distinct pids, init alive and one RUNNING process at most |
| SchedulerRounds.RemoveKeepsInv | Kernel/scheduler.c:244-280 | so does removeProcess, whichever process it removes |
| SchedulerRounds.SchedulerNeverSticks | Kernel/scheduler.c:18-139 | in every run of creations, removals, state changes and schedules every walk ends and the invariant holds |
| SchedulerRounds.Serve | Kernel/scheduler.c:18-139 | the calls on the linked ring are the operations of those runs: each ends and leaves the ring and pid counter that the run says |
| SchedulerRounds.BootInv | Kernel/kernel.c:71-73 | the ring that holds only init starts such runs |
| SleepTable.TickVisitsEveryEntryOnce | Kernel/interrupts.c:110-133 | despite swap-delete inside the loop, a tick advances every entry once and removes and wakes exactly those that reach their alarm |
| SleepTable.DeleteMovesLast | Kernel/interrupts.c:124-133 | the last entry fills the hole and the others stay in place |
| SleepTable.Timer.AddSleep | Kernel/interrupts.c:135-145 | appends an entry with counter 0, or changes nothing when the table is full |
| SleepTable.Timer.DeleteSleep | Kernel/interrupts.c:124-133 | moves the last entry into the hole |
| SleepTable.Timer.Tick | Kernel/interrupts.c:110-152 | the loop over the three arrays computes Walk: the new table and the processes woken, in order |
| SleepTable.SleepLastsExactly | Kernel/interrupts.c:110-181 | in every run a process that asks for n ticks is woken by tick n and no other, if n >= 1 and there was a free entry; otherwise never |
| KernelRuns.WakeProcess | Kernel/scheduler.c:47-59 | a process taken out of its slot or its sleep entry and made READY leaves everybody in exactly one place |
| KernelRuns.ScheduleSettled | Kernel/scheduler.c:128-139 | schedule on a ring where everybody is READY, in one slot or in one sleep entry makes the chosen process the only RUNNING one |
| KernelRuns.LockKeepsInv | Kernel/mutex.c:174-205 | lockMutex with its block and yield keeps the kernel invariant |
| KernelRuns.SignalKeepsInv | Kernel/semaphores.c:216-251 | signal with its wake-up keeps the kernel invariant |
| KernelRuns.TickKeepsInv | Kernel/interrupts.c:110-152 | the timer interrupt, waking any number of sleepers and then scheduling, keeps the kernel invariant |
| KernelRuns.StepKeepsInv | Kernel/mutex.c:174-237 | every one of the seven steps keeps it |
| KernelRuns.WaitKeepsInvIff | Kernel/semaphores.c:180-214 | wait keeps the kernel invariant exactly when the caller passes, or finds a slot and is not init |
| KernelRuns.SleepKeepsInvIff | Kernel/interrupts.c:135-181 | sleep keeps it exactly when the table has a free entry and the caller is not init |
| KernelRuns.StepKeepsInvIff | Kernel/mutex.c:174-237 | the hypotheses of a run are exactly what its steps need to keep the invariant |
| KernelRuns.EveryProcessIsAccountedFor | Kernel/semaphores.c:180-251 | in every run each process but the current one is READY and nowhere, BLOCKED in exactly one slot of one queue, or SLEEPING with one entry; after the first schedule the current one is the only RUNNING one; the next schedule ends |
| KernelSteps.StepMeets | Kernel/asm/libasm.asm:181-213 | what each of the seven steps does to ring, objects and sleep table: which calls pass, where the caller is parked, who is woken, whose alarm is due, and that a tick, a yield and every call that blocks end with the first READY process behind the old current one running, in an otherwise unchanged ring |
| KernelSteps.ReadyProcessIsServed | Kernel/scheduler.c:128-139 | in every run of the kernel a READY process with d others before it gets the processor before d + 1 ticks or yields are over, whatever calls come in between |
| KernelSteps.SleepReturnsInTime | Kernel/interrupts.c:110-181 | a caller of sleep for n >= 1 ticks does not run before n ticks have passed, and does before n + m - 1 have, with m processes |
| BuddyTree.SearchFindsLowest | Kernel/buddyAllocator.c:36-69 | from every tree state the pruned search returns the lowest EMPTY node of the level without a FULL ancestor, and NULL exactly when there is none |
| BuddyTree.AvailableIsAligned | Kernel/buddyAllocator.c:30-34 | a block starts at a multiple of its size and ends inside the region |
| BuddyTree.SearchKeepsInv | Kernel/buddyAllocator.c:36-69 | allocation keeps "a node is EMPTY exactly when no block lies at or below it" |
| BuddyTree.PartialAfterSearch | Kernel/buddyAllocator.c:48-66 | a node above a new block becomes FULL exactly when the block is the end of that node, and PARTIALLY_FULL otherwise |
| BuddyTree.NodesAfterSearch | Kernel/buddyAllocator.c:36-69 | a node apart from the new block stays available exactly unless the block is the end of a node above both |
| BuddyTree.DeallocBusy | Kernel/buddyAllocator.c:110-150 | a release leaves the tree busy exactly when another block is left |
| BuddyTree.StatusAfterDealloc | Kernel/buddyAllocator.c:129-150 | every status after deallocPage: the leaf EMPTY; a node above it EMPTY if it or its other child was, still FULL exactly when it was and its other child is PARTIALLY_FULL; off the path nothing changes |
| BuddyTree.FreedPageIsAvailableIff | Kernel/buddyAllocator.c:110-150 | the freed page can be allocated again exactly when no node above it stays FULL; larger nodes above it when moreover one half was EMPTY already |
| BuddyTree.OtherNodesAvailableIff | Kernel/buddyAllocator.c:110-150 | a node that does not cover the freed page is available afterwards exactly when it is in its subtree beside the path and no node above both stays FULL; none becomes unavailable |
| BuddyTree.DeallocKeepsInvIff | Kernel/buddyAllocator.c:110-150 | deallocPage keeps the invariant exactly when every node on the path below the root that still covers another block has a non-EMPTY sibling |
| BuddyTree.FreeingTheOnlyBlockRestoresTheHeap | Kernel/buddyAllocator.c:110-150 | freeing the only block, by any of its pages, restores the all-EMPTY heap |
| BuddyRuns.BlockSize | Kernel/buddyAllocator.c:90-107 | a request of p pages gets 2^k pages with p <= 2^k < 2p |
| BuddyRuns.SizeFitsHeight | Kernel/buddyAllocator.c:80-84 | a request that fits the heap never asks for a level above the root |
| BuddyRuns.AllocAnswer | Kernel/buddyAllocator.c:74-107 | allocPage returns NULL exactly for a bad count or without an available node, and otherwise the lowest aligned block of the right size |
| BuddyRuns.NodesAfterAlloc | Kernel/buddyAllocator.c:74-107 | what an answered request leaves available |
| BuddyRuns.LiveApart | Kernel/buddyAllocator.c:36-69 | under the invariant the blocks in the tree are pairwise disjoint |
| BuddyRuns.AvailableIsIdle | Kernel/buddyAllocator.c:36-69 | a node that the search would take overlaps no block handed out |
| BuddyRuns.SearchAddsBlock | Kernel/buddyAllocator.c:36-69 | a successful search adds its block, which was not handed out, and no other |
| BuddyRuns.DeallocRemovesCover | Kernel/buddyAllocator.c:110-150 | deallocPage takes back exactly the blocks that cover the page |
| BuddyRuns.HeldBlocksAreDisjoint | Kernel/buddyAllocator.c:8-150 | in every run of allocations and of frees that meet the path condition, the blocks held are inside the region and pairwise disjoint |
| BuddyRuns.FreeingANeighbourBreaksTheHeap | Kernel/buddyAllocator.c:129-150 | on every heap of four pages or more: allocate two pages, free the first, and a request for four pages is answered with a block that contains the page still held |
| BuddyRuns.FreedHalfStaysLost | Kernel/buddyAllocator.c:60-148 | on every heap of four pages or more: allocate a page, then half of the heap, and free the half; one page is held, and every request is answered with NULL |
| BuddyHeap.WalkIsDealloc | Kernel/buddyAllocator.c:129-150 | the walk up the array with the parent and sibling macros is the recursive release of the tree |
| BuddyHeap.Allocator.CreateHeap | Kernel/buddyAllocator.c:8-27 | the loop leaves an all-EMPTY tree and, for every node, the address of its first page |
| BuddyHeap.KernelPages | Kernel/include/buddyAllocator.h:9-12 | the instance of the kernel: a tree of height 10 has 1024 pages of 4 KiB and 2047 nodes (the size comment in the source says 8 MB; the macros give 4 MiB) |
| BuddyHeap.Allocator.GetBaseMemoryWithIndex | Kernel/buddyAllocator.c:30-34 | the division by the size of the level gives the address of the first page of the node |
| BuddyHeap.Allocator.GetNextPageRecursive | Kernel/buddyAllocator.c:36-69 | the recursive search in the array computes Search on the tree below the node, touches nothing else and returns the address found |
| BuddyHeap.Allocator.GetLevel | Kernel/buddyAllocator.c:90-107 | the halving loop returns the level of the smallest sufficient power of two |
| BuddyHeap.Allocator.AllocPage | Kernel/buddyAllocator.c:74-87 | the call computes Alloc on the tree and returns the address, or 0 |
| BuddyHeap.Allocator.FreeUpRecursive | Kernel/buddyAllocator.c:129-150 | the in-place recursion computes the walk to the root |
| BuddyHeap.Allocator.DeallocPage | Kernel/buddyAllocator.c:110-123 | for any address in the region the call computes Dealloc of its page on the tree |
| KernelHeap.Align4Effect | Kernel/include/malloc.h:17-17 | the macro rounds up to a multiple of 4, except for the three largest values, which it turns into 0 |
| KernelHeap.NullIffNothingFits | Kernel/malloc.c:10-30 | kmalloc answers NULL exactly for 0 or when no free block is strictly larger than the aligned request, and then changes nothing |
| KernelHeap.TakeEffect | Kernel/malloc.c:24-28 | serving a request keeps the tiling and all used blocks; the block served covers the aligned request and exceeds it by at most 32 bytes |
| KernelHeap.RequestEffect | Kernel/malloc.c:21-29 | an answered request gets the lowest free block larger than the aligned request; all other blocks stay as they are; of a block with more than 32 bytes to spare exactly the aligned size is used and the rest, behind a header, is one free block |
| KernelHeap.FreshHeapServesInOrder | Kernel/malloc.c:10-38 | on a fresh heap all requests that fit with their headers, and four bytes more, are served side by side, and what remains is one free block |
| KernelHeap.KernelHeapServesTwice | Kernel/malloc.c:6-38 | the heap of the kernel, asked twice for 100 bytes, answers 0x401C and 0x409C |
| KernelHeap.ExtentOfTiling | Kernel/malloc.c:81-96 | headers of 28 bytes and data together always fill the extent |
| KernelHeap.AreasAreDisjoint | Kernel/malloc.c:10-38 | in every run of kmalloc headers and data fill the initial extent, every area is 4-aligned and inside it, and any two are disjoint |
| KernelHeap.AnswerCoversIff | Kernel/malloc.c:10-30 | an answer covers the request exactly when the alignment does not wrap around |
| KernelHeap.KernelMemory.InitializeKernelHeap | Kernel/malloc.c:32-38 | one free block at the start address |
| KernelHeap.KernelMemory.FindFirstFreeBlock | Kernel/malloc.c:72-79 | the walk of the list returns the first fitting block, or NULL |
| KernelHeap.KernelMemory.SplitBlock | Kernel/malloc.c:81-96 | the header writes split one block of the list in two, the second free and up to the old end, and leave the others |
| KernelHeap.KernelMemory.TakeBlock | Kernel/malloc.c:23-28 | the block found is split when the rest is worth it and marked, which computes Take on the list |
| KernelHeap.KernelMemory.Kmalloc | Kernel/malloc.c:10-30 | the call on the linked headers computes Allocate; before initialisation it returns the start address |
| Pipes.WriteAppendsIff | Kernel/IPC.c:58-91 | write appends the first min(length, free space) bytes to the queue, exactly unless an empty message meets an empty pipe |
| Pipes.ReadTakesIff | Kernel/IPC.c:118-152 | read takes the oldest bytes, as many as asked for and present, exactly unless a count that is neither positive nor -1 meets a full pipe |
| Pipes.FlagTellsFullFromEmpty | Kernel/IPC.c:66-85 | the queue is full exactly when the indices meet and the flag is set, and empty exactly when they meet and it is not |
| Pipes.PipeIsFifo | Kernel/IPC.c:58-152 | over every run of non-empty writes and proper reads, bytes delivered followed by bytes queued are the bytes accepted |
| Pipes.Pipe.Next | Kernel/IPC.c:109-116 | the cursor steps to the next ring index |
| Pipes.Pipe.StoreMessage | Kernel/IPC.c:74-79 | the loop stores the message up to its NUL or until the cursor meets the read index |
| Pipes.Pipe.WriteMessage | Kernel/IPC.c:58-91 | the in-place call computes Write: new ring, indices, flag and count |
| Pipes.Pipe.FetchBytes | Kernel/IPC.c:141-145 | the loop copies the bytes from the read index on, up to the count or the write index |
| Pipes.Pipe.ReadInto | Kernel/IPC.c:118-152 | the in-place call computes Read and writes the bytes to the front of the result |
| ModuleImage.ValueOfLittleEndian | Kernel/moduleLoader.c:38-43 | reading back a written word gives the number modulo 2^32 |
| ModuleImage.LowestByteFirst | Toolchain/ModulePacker/main.c:101-107 | the bytes of a written word, lowest first |
| ModuleImage.File.WriteFile | Toolchain/ModulePacker/main.c:109-119 | the chunked loop appends exactly the source, also when its size is a multiple of the buffer |
| ModuleImage.File.BuildImage | Toolchain/ModulePacker/main.c:52-106 | appends kernel, count, and every size and module in order |
| ModuleImage.CopyWords | Kernel/lib.c:34-38 | the word path copies the same bytes as the byte path |
| ModuleImage.CopyBytes | Kernel/lib.c:42-46 | the byte path copies the range and nothing else |
| ModuleImage.Memcpy | Kernel/lib.c:14-50 | on ranges that do not overlap the result does not depend on the path |
| ModuleImage.ReadUint32 | Kernel/moduleLoader.c:38-43 | the 32-bit load and the cursor behind it |
| ModuleImage.LoadModule | Kernel/moduleLoader.c:19-36 | copies the entry at the cursor to its target and moves the cursor behind it |
| ModuleImage.LoadModules | Kernel/moduleLoader.c:9-17 | loading undoes packing: run on what the packer wrote, each module is at its target and every other byte is unchanged |
| ModuleImage.PayloadReadsBackIff | Toolchain/ModulePacker/main.c:65-106 | a payload reads back as its modules exactly when the count and all sizes fit in 32 bits |
| BmfsDirectory.TextOfCopy | Bootloader/BMFS/bmfs.c:696-696 | the name copied into a record is the name that later comparisons read |
| BmfsDirectory.CmpOrdersByStart | Bootloader/BMFS/bmfs.c:595-606 | the difference cut to a signed 32-bit int still orders live records by starting block below 2^31 blocks |
| BmfsDirectory.QsortIsSort | Bootloader/BMFS/bmfs.c:659-659 | sorting by that comparator puts live records in order of their blocks and deleted ones last |
| BmfsDirectory.SearchFromRuled | Bootloader/BMFS/bmfs.c:661-683 | on any sorted copy the loop returns the lowest free place if there is one; otherwise it fails exactly when no deleted record has room behind it |
| BmfsDirectory.GapNeverWraps | Bootloader/BMFS/bmfs.c:675-675 | the unsigned subtraction of the gap test never wraps, with or without deleted records |
| BmfsVolume.FormatKeepsInv | Bootloader/BMFS/bmfs.c:258-268 | format leaves a well-formed volume |
| BmfsVolume.CreateFindsLowestGap | Bootloader/BMFS/bmfs.c:655-683 | create chooses the lowest place in the data area that touches no live file whenever there is one, and no subtraction wraps |
| BmfsVolume.AddKeepsInvIff | Bootloader/BMFS/bmfs.c:691-704 | a new record keeps the directory well formed exactly when its place is free and the end marker stays |
| BmfsVolume.CreateKeepsInvIff | Bootloader/BMFS/bmfs.c:608-717 | create keeps the directory well formed exactly when the name exists, or there is a gap and the end marker stays, or there is neither a gap nor a deleted record with room behind it |
| BmfsVolume.FullDiskRefusesCreate | Bootloader/BMFS/bmfs.c:685-689 | without deleted records and without a gap the directory is unchanged |
| BmfsVolume.CreateSucceedsIff | Bootloader/BMFS/bmfs.c:608-717 | in those states create succeeds exactly for a new name with a gap |
| BmfsVolume.CreateEffect | Bootloader/BMFS/bmfs.c:608-717 | create adds an empty file and changes no other record and no other contents; its room is at least the megabytes asked for and less than two more |
| BmfsVolume.CreatedFileLiesLowest | Bootloader/BMFS/bmfs.c:655-696 | the new record names the lowest place where its blocks touch no live file, as many blocks as the size needs and no contents |
| BmfsVolume.CreatedFileTakesItsSize | Bootloader/BMFS/bmfs.c:608-797 | a created file takes every write of at most the size asked for, and reads back what was written |
| BmfsVolume.WriteEffect | Bootloader/BMFS/bmfs.c:752-797 | write replaces the contents of the named file exactly when they fit its room, changes no other record or contents, and never touches block 0 |
| BmfsVolume.DeleteEffect | Bootloader/BMFS/bmfs.c:800-819 | delete takes away the named file and changes no other record or contents |
| BmfsVolume.StepRefines | Bootloader/BMFS/bmfs.c:608-819 | every command on the volume is the command on the map from names to byte strings |
| BmfsVolume.VolumeIsAMap | Bootloader/BMFS/bmfs.c:203-819 | in every run from format, live files have distinct names and disjoint block ranges inside the data area, and reading any name gives what its history says |
| BmfsFailures.StaleRecordMisleadsCreate | Bootloader/BMFS/bmfs.c:661-683 | a run from format (three files, the first deleted) to a well-formed volume on which create places a file on live ones, because the loop goes on past the deleted record; the directory is out of order afterwards whatever the sorted copy |
| BmfsFailures.MissingMarkerIgnoresFiles | Bootloader/BMFS/bmfs.c:627-653 | without the end marker create takes block 1 whatever lies there |
| BmfsFailures.LastRecordEndsMarker | Bootloader/BMFS/bmfs.c:698-704 | a run from format that fills all records but one, after which one more create leaves no end marker |
| BmfsTool.Tool.FindFile | Bootloader/BMFS/bmfs.c:203-229 | the scan returns the live record of that name before the end marker, or none |
| BmfsTool.Tool.ScanRecords | Bootloader/BMFS/bmfs.c:630-647 | the first loop finds the number of records before the marker (0 without one) and the first deleted record or the marker |
| BmfsTool.Tool.FindGap | Bootloader/BMFS/bmfs.c:661-683 | the second loop computes the gap search, with 0 for no gap |
| BmfsTool.Tool.Create | Bootloader/BMFS/bmfs.c:608-717 | the command in place computes Create on the volume with a sorted copy, on every directory, and flushes it; the record it fills reserves the fewest 2 MiB blocks for the size asked for |
| BmfsTool.Tool.Read | Bootloader/BMFS/bmfs.c:720-749 | returns the bytes that the record points to, and on a well-formed volume the contents that it holds for the name |
| BmfsTool.Tool.FilesOnDisk | Bootloader/BMFS/bmfs.c:720-797 | on a well-formed volume every file, and all bytes that fit its room, lie on the disk: read and write never leave it |
| BmfsTool.Tool.Write | Bootloader/BMFS/bmfs.c:752-797 | the byte loop and the size update compute WriteVolume and flush |
| BmfsTool.Tool.Delete | Bootloader/BMFS/bmfs.c:800-819 | the marker byte computes Delete and is flushed |
| BmfsTool.Tool.Format | Bootloader/BMFS/bmfs.c:258-268 | clears all 64 records, flushes them and writes the 512-byte information sector with the tag |

## Left out

Hypotheses of the runs:

- Kernel runs take for granted that init never blocks and that a process that has to wait finds a slot or a sleep entry; these are exactly what the steps need. A lock that finds its slots full blocks whatever process an uninitialised variable names, which is outside the model.
- No process is killed and no mutex or semaphore is closed during a run: their stale slots are never cleaned.
- System calls are single steps, because all gates are interrupt gates and no handler switches interrupts on.
- BMFS files are shorter than 2^31 bytes, because the copy loops count with an int; names have 1 to 31 characters and do not start with a marker byte.
- Mutex and semaphore names, owners and the tables that hold them are not modelled; the objects are.
- Integer counters of semaphores, processes, pids and sleepers are unbounded; the 32-bit overflow of a counter is not modelled. Sizes and addresses that the code truncates are modelled with their width.

Members stated weaker than the code allows:

- Semaphores.Semaphore.WaitOn: takes for granted that the inner mutex is free between two calls. wait gives it back, but it is looked up by the name of the semaphore, so a client that locks a mutex of the same name would hold it; then wait blocks inside its own lock, which is not modelled.
- Philosophers.Step: the kernel semaphores of the philosophers are not modelled, because a cast makes their identifiers meaningless; a philosopher may pass its wait at any time, so all real runs are covered by the safety results.
- PhilosopherService.NoFreeSeatIsOverlooked: takes a start in which everybody thinks, while the program never fills its array; the other results on the philosophers allow any contents without EATING.
- Philosophers.Table.TestP: for the same reason as Philosophers.Step leaves out the signal, and the sleep before it, which only delays the caller inside the mutex.
- Pipes.Pipe.WriteMessage: blocking on a full pipe, wake-up of readers and the wait for the pipe's own mutex are not modelled, and the cursor is taken when the mutex is already held.
- Pipes.Pipe.ReadInto: the block and yield of a reader on an empty pipe are not modelled; the call returns 0 as it does there after the yield.
- BuddyHeap.Allocator.DeallocPage: requires an address in the region, because the validity test of the source accepts everything and other addresses leave the arrays.
- BuddyTree.SearchFindsLowest: speaks of EMPTY nodes below no FULL one. FULL itself is conservative: a parent can be FULL while its left child is only partial, so NULL does not mean that no page is free.
- BmfsTool.Tool.Create: names of 32 characters or more, which overflow the record, are excluded, as are disks without any block.
- BmfsTool.Tool.Read: requires that the record points to bytes on the disk, below 2^31 of them; every record of a well-formed volume does.
- BmfsTool.Tool.Write: requires that the bytes, if they fit the room of the file, end on the disk; they do on every well-formed volume.

Not modelled:

- mallock, extendHeap, free, getBlock and mergeBlocks of Kernel/malloc.c, and the backward links of heap blocks.
- Pipe names, owners, creation and closing; the terminal ring.
- Threads, stack frames, the pages of a process and their release, process lookup by pid.
- The record of a process is merged with its slot in the ring; the page that holds the slot is not modelled.
- BMFS initialize, list, argument parsing and the test of the tag before a command, and the byte layout of directory records; qsort is one sort by the comparator, and the statements on create hold for every other.
- Boot code, interrupt tables, context switches, video, keyboard, mouse, clock and the user programs other than the two above.
