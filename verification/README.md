# A model of a small kernel, its disk tool and its packer

This project models the parts of the system that keep state and have something to lose:

- **The blocking kernel.** The circular list of process slots and its dispatcher (`Ring`, `Scheduler`),
  the slot arrays of blocked processes (`BlockedQueue`), hand-off locks (`Mutex`), counting semaphores
  (`Semaphore`), and the table of sleepers with the tick handler (`SleepTable`). Every entry of the
  interrupt table is an interrupt gate (Kernel/interrupts.c:55, Kernel/interrupts.c:80), so a system call
  runs to its `_yield` without being interrupted: `KernelMachine` is the state machine whose steps are
  whole calls and ticks, and proves what every run keeps. `Sleeping` and `KernelFairness` say how long a sleep
  and a wait for the processor last in it, and `LockFailures` has a run in which a lock queue is too short.
- **Programs on that kernel.** Producers and consumers (`ProdCons`) and the five philosophers
  (`Philosophers`) of Userland/dummy/dummy.c, one instruction at a time, preempted anywhere, next to any
  other processes. `Programs` holds what both need to count processes by program counter.
- **The BMFS disk tool.** The directory with its deleted records and terminator and the search of `create`
  for free blocks (`BmfsDirectory`), files as bytes on the disk over runs of commands (`Bmfs`), and disks on
  which it goes wrong (`BmfsFailures`).
- **The page allocator.** Marks on a binary tree (`BuddyTree`, `BuddyUse`) and the array that holds them (`Buddy`).
- **Pipes** (`Pipe`), **the module packer and loader** (`ModulePacker`, `ModuleLoader`), and **the kernel
  heap** (`KernelHeap`). `Bytes`, `Sequences` and `Wrappers` are shared.

Code that changes state is modelled by classes with loops over arrays and links. Their methods are tied to
functions on values, and the theorems about runs, invariants, refinement and round trips are about those
functions. Capacities (ring length, queue length, tree height, slots of a directory, length of a pipe) are
parameters; the constants of the source are one instance.

Some promises do not hold for the code as it is. For these the project has a lemma with a concrete or general
failing case, and the exact condition under which the promise holds:

- `BmfsDirectory.CreateKeepsFiles`: the exact condition under which `create` loses no file and keeps all
  apart. With a terminator: a run of free blocks is long enough, or no deleted record has enough blocks after
  it (the search goes on from the ends of deleted records, Bootloader/BMFS/bmfs.c:681-682). Without one, no
  record is counted at all and the file goes to block 1. `BmfsFailures` has a disk for each failure.
- `BuddyTree.ClimbIsTrusted`: `deallocPage` keeps the meaning of EMPTY if and only if, on the way up from
  the page, no EMPTY sibling comes after one that is not EMPTY. Otherwise it always marks a node EMPTY above a
  block in use (`BuddyUse.FreeingIsHarmlessExactly`), whose pages are then handed out again unless a FULL mark
  above hides them (`BuddyUse.HandedOutAgain`). `BuddyTree.DeallocationCanOverlap` is a run in which this happens.
- `BuddyTree.FreedIsFree`: deallocated pages can be handed out again if and only if no FULL node above them has a
  PARTIAL child beside the way down. `getNextPageRecursive` makes such nodes, because it marks a node FULL by its
  right child alone (`BuddyTree.FullAtTheLast`); `BuddyTree.FreedCanBeHidden` is a run in which this happens.
- `BlockedQueue.JoinsLast`: waiters are woken in the order of arrival if and only if none of them sits above a free
  slot when the next one comes. Otherwise a waiter can be passed over any number of times (`BlockedQueue.PassedOver`).
- `Pipe.Pipe.Write` and `Pipe.Pipe.Read`: the pipe is a queue except for an empty message to an empty pipe and
  a read of no bytes from a full one.
- `KernelHeap.Safety`: a block is as large as asked for if and only if at most 2^32 - 4 bytes were asked for;
  `KernelHeap.LargestGetNothing` has the three sizes above that.
- `ModuleLoader.RestoresExactly`: packing and loading restores all modules if and only if each of them is shorter
  than 2^32 bytes, unless memory happens to hold the last byte of a longer one already. `ModuleLoader.TooLongFails` has a payload that is not restored, and
  `ModuleLoader.TooLongLeadsAstray` says what the first over-long module of any list does to the loader.
- `Mutex.LockedOrQueued`: a lock call leaves its caller with the lock or in a slot if and only if the lock was free
  or its queue had room. `LockFailures` has a legal run to a full queue.
- `Semaphore.BlockedAndQueued`: a `wait` that blocks its caller queues it if and only if a slot is free; otherwise
  nobody can wake it.

Verify with `dafny verify dfyconfig.toml`, or with the stricter
`dafny verify --resource-limit 2000000 --verification-time-limit 0 --warn-contradictory-assumptions *.dfy`.

## Model

| member | source | states |
|---|---|---|
| `Ring.Run` | Kernel/scheduler.c:61-139 | safety of the ring over every run of creations, state changes, dispatches, removals and killAllExceptCurrent: distinct pids below the counter, init always listed and never blocked, only the current process RUNNING |
| `Ring.EventKeepsInv` | Kernel/scheduler.c:61-103 | each operation keeps that invariant, and lists exactly the processes it should afterwards |
| `Ring.DispatchTerminates` | Kernel/scheduler.c:133-136 | under the invariant every dispatch and every removal finds a READY process, so the loop of schedule ends |
| `Ring.Fairness` | Kernel/scheduler.c:128-139 | a process that is READY at distance d and is left alone runs after at most d dispatches plus one for every process created meanwhile |
| `KernelFairness.Fairness` | Kernel/scheduler.c:128-139 | the same over every run of the kernel, where ticks, yields, kills of the current process and every call that blocks its caller dispatch: a READY process that is not killed runs after at most d dispatches plus one for every process created meanwhile |
| `KernelFairness.StepCloser` | Kernel/scheduler.c:128-139 | each step of the kernel keeps a waiting process READY, and brings it nearer if it dispatches |
| `Ring.ScheduleInv` | Kernel/scheduler.c:128-139 | a dispatch leaves the set of processes, the blocked and the sleeping ones as they are and puts a RUNNING process at the head |
| `Ring.DispatchStates` | Kernel/scheduler.c:128-139 | after a dispatch exactly one process is RUNNING, and READY are all others that were READY or RUNNING, the preempted one included |
| `Ring.DispatchOrder` | Kernel/scheduler.c:128-139 | the nearest READY process behind the current one runs next and the circle keeps its order; asking for the removal of pid 0 does the same |
| `Ring.RemoveInitStates` | Kernel/scheduler.c:246-249 | asking for the removal of pid 0 removes nobody and changes states as a dispatch does |
| `Ring.RemoveCurrentInv` | Kernel/scheduler.c:274-279 | removing the current process drops exactly it, and dispatching from the slot it still points to restores the invariant |
| `Ring.RemoveInv` | Kernel/scheduler.c:244-280 | removing any pid but 0 drops exactly that pid and keeps the invariant |
| `Ring.KillAllInv` | Kernel/scheduler.c:79-103 | killAllExceptCurrent leaves exactly the current process and init |
| `Ring.CreateInv` | Kernel/scheduler.c:18-24 | a new process adds exactly its fresh pid to the ring |
| `Ring.ChangeInv` | Kernel/scheduler.c:47-59 | a state change keeps the invariant and the set of processes |
| `Ring.SetStateSets` | Kernel/scheduler.c:47-59 | it moves exactly that pid between the sets of states; an unknown pid changes nothing |
| `Ring.BootInv` | Kernel/scheduler.c:61-73 | two creations on an empty list start a valid ring |
| `Scheduler.Scheduler.ChangeProcessState` | Kernel/scheduler.c:47-59 | the walk along the links changes the state of the first slot with that pid and no link |
| `Scheduler.Scheduler.AddProcess` | Kernel/scheduler.c:61-73 | the slot is linked behind the current one, the links stay one cycle of different slots |
| `Scheduler.Scheduler.CreateProcess` | Kernel/scheduler.c:18-24 | a READY process with the next pid is listed and counted |
| `Scheduler.Scheduler.FindReady` | Kernel/scheduler.c:133-136 | the walk stops at the nearest READY slot, the current one included |
| `Scheduler.Scheduler.Schedule` | Kernel/scheduler.c:128-139 | refines the dispatch of the value ring, also when the current slot has been removed and only points into the cycle |
| `Scheduler.Scheduler.FindSlot` | Kernel/scheduler.c:263-273 | the search finds the slot of a listed pid and its predecessor, and fails for all others |
| `Scheduler.Scheduler.Unlink` | Kernel/scheduler.c:274-275 | the remaining slots form one cycle, counted right; an unlinked current slot still points into it |
| `Scheduler.Scheduler.RemoveProcess` | Kernel/scheduler.c:244-280 | refines the removal on the value ring, and leaves the removed slot's own link intact |
| `Scheduler.Scheduler.KillAllExceptCurrent` | Kernel/scheduler.c:79-103 | the walk, which goes on from slots it has just removed, leaves the current process and init |
| `BlockedQueue.GetFreeSpotInBlockedQueue` | Kernel/mutex.c:327-338 | the lowest free slot, or the error value exactly if there is none |
| `BlockedQueue.AddWaiters` | Kernel/mutex.c:340-354 | queueing adds exactly that pid to the waiters |
| `BlockedQueue.DropWaiters` | Kernel/mutex.c:418-432 | waking removes exactly one waiter, the one in the lowest slot |
| `BlockedQueue.AddTakesLowest` | Kernel/mutex.c:327-354 | a queued pid goes into the lowest free slot, and no other slot changes |
| `BlockedQueue.DropTakesLowest` | Kernel/mutex.c:418-432 | the pid in the lowest occupied slot is woken, and no other slot changes |
| `BlockedQueue.WokenBySlot` | Kernel/mutex.c:418-432 | successive wake-ups find the waiters in the order of their slots |
| `BlockedQueue.JoinsLast` | Kernel/mutex.c:327-354 | a new waiter is woken after those already there if and only if none of them sits above a free slot |
| `BlockedQueue.FirstComeFirstServed` | Kernel/mutex.c:327-432 | whoever blocks while nobody is woken is woken in the order of arrival, after those who waited before |
| `BlockedQueue.PassedOver` | Kernel/mutex.c:327-432 | once the lowest slot is free, any number of processes can block and be woken one after the other while a waiter in a higher slot stays where it is |
| `BlockedQueue.CountWaiters` | Kernel/mutex.c:322-338 | with no pid twice, there is a free slot exactly if the waiters are fewer than the slots |
| `Mutex.UnblockFirst` | Kernel/mutex.c:418-432 | exactly the process in the lowest occupied slot becomes READY, and its slot free |
| `Mutex.Mutex.AddToBlocked` | Kernel/mutex.c:340-354 | the pid takes the lowest free slot, no other slot changes, and it is counted; a full queue stays as it is |
| `Mutex.Mutex.LockMutex` | Kernel/mutex.c:369-400 | takes a free lock, or queues and blocks the caller and dispatches another process; with a full queue it blocks whatever process the uninitialised pid names, as the source does; an unused mutex does nothing |
| `Mutex.FullQueueFails` | Kernel/mutex.c:380-394 | with a full queue the caller is blocked exactly if the uninitialised pid happens to be its own, and the mutex stays as it is |
| `Mutex.LockedOrQueued` | Kernel/mutex.c:340-400 | after lockMutex the caller has the lock, or sits in a slot and is blocked, if and only if the lock was free or its queue had room |
| `LockFailures.QueueFills` | Kernel/mutex.c:322-400 | a legal run from the booted kernel that fills the queue of a mutex |
| `LockFailures.ThirdGetsNothing` | Kernel/mutex.c:378-397 | after that run the next process that wants the lock gets neither it nor a slot, whatever the uninitialised pid is |
| `Mutex.AnyLockIsLock` | Kernel/mutex.c:369-400 | with room in the queue the uninitialised pid plays no part |
| `Mutex.Mutex.FreeMutex` | Kernel/mutex.c:402-416 | wakes the first waiter and leaves the lock taken for it, or unlocks if nobody waits |
| `Semaphore.Semaphore.AddToSemBlocked` | Kernel/semaphores.c:49-63 | the pid takes the lowest free slot, no other slot changes, and it is counted; a full queue stays as it is |
| `Semaphore.Semaphore.Wait` | Kernel/semaphores.c:180-214 | takes one unit, and blocks the caller exactly if the value falls below 0; the inner mutex is free again afterwards |
| `Semaphore.BlockedAndQueued` | Kernel/semaphores.c:49-63 | a wait that cannot pass blocks the caller, and queues it, so that it can be woken, if and only if a slot is free |
| `Semaphore.Semaphore.Signal` | Kernel/semaphores.c:216-235 | adds one unit and wakes the first waiter if there is one |
| `SleepTable.ScanIsTick` | Kernel/interrupts.c:116-133 | the scan with its deletions by swapping counts every sleeper up exactly once, and wakes and drops exactly those that reach their alarm |
| `SleepTable.ScanFrom` | Kernel/interrupts.c:116-133 | the same from the middle of the scan, which is why the swapped-in sleeper is neither missed nor counted twice |
| `Sleeping.SleepEndsOnTime` | Kernel/interrupts.c:110-181 | over every run of the kernel: a process that sleeps for t >= 1 ticks is SLEEPING until the t-th tick, and that tick makes it READY, whatever others do, unless it is killed |
| `Sleeping.LastTick` | Kernel/interrupts.c:116-152 | the tick that ends a sleep drops the sleeper and makes it READY or, in the same tick, runs it |
| `SleepTable.SleepTable.TimerTick` | Kernel/interrupts.c:110-123 | the loop ends and does one tick to the set of sleepers and to the ring |
| `SleepTable.SleepTable.TickOne` | Kernel/interrupts.c:116-122 | one round of the loop keeps what the rest of the scan will do, and brings it one sleeper nearer to the end |
| `SleepTable.SleepTable.DeleteSleep` | Kernel/interrupts.c:124-133 | the last entry takes the place of the deleted one; an index past the end changes nothing |
| `SleepTable.DeleteEntries` | Kernel/interrupts.c:124-133 | the deletion keeps the scanned part and loses exactly one sleeper of the rest |
| `SleepTable.SleepTable.AddSleep` | Kernel/interrupts.c:135-145 | appends a sleeper with counter 0, unless the table is full |
| `SleepTable.SleepTable.Sleep` | Kernel/interrupts.c:175-181 | the caller is entered and SLEEPING, and another process is dispatched |
| `KernelMachine.Run` | Kernel/mutex.c:369-432 | every run of calls and ticks keeps the kernel's invariant: queues, counts, owners, sleepers and process states agree |
| `KernelMachine.StepKeepsInv` | Kernel/mutex.c:369-432 | each call and each tick keeps it |
| `KernelMachine.MutexProtocol` | Kernel/mutex.c:327-432 | at most one owner; the lock word is 0 exactly if there is none; the count is that of the occupied slots; everybody whose lock has not returned is queued and blocked |
| `KernelMachine.HandOff` | Kernel/mutex.c:402-432 | freeing a mutex with waiters makes the one in the lowest slot its only owner and wakes nobody else |
| `KernelMachine.FreeLockHasNoWaiters` | Kernel/asm/lock.asm:18 | comparing eight bytes instead of four is harmless: a lock word of 0 never stands next to a count that is not 0 |
| `KernelMachine.SemaphoreAccounting` | Kernel/semaphores.c:180-251 | value is start plus signals minus waits; the blocked are as many as the value is below 0; returned waits never exceed the supply; nobody stays blocked at 0 or more |
| `KernelMachine.OnePlace` | Kernel/scheduler.c:47-59 | a process is BLOCKED exactly if it sits in one queue, and in only one; SLEEPING exactly if the table lists it; never both |
| `KernelMachine.InitialInv` | Kernel/mutex.c:206-218 | the state after booting satisfies the invariant |
| `KernelMachine.StepProcesses` | Kernel/scheduler.c:18-24 | only creations and kills change which processes there are |
| `KernelMachine.SemEffect` | Kernel/semaphores.c:180-235 | a step changes the value of a semaphore only if it names it, and queues nobody but the caller of wait |
| `KernelMachine.MutexEffect` | Kernel/mutex.c:369-416 | a step changes who claims a mutex only if it names it, and only for the caller |
| `ProdCons.Safety` | Userland/dummy/dummy.c:33-41 | for any number of producers and consumers and every interleaving: the consumed sequence is a prefix of the inserted one, the buffer never over- or underflows, one process at a time is past its wait on itemMutex, and free cells, full cells and processes in flight add up to the size |
| `ProdCons.EndToEnd` | Userland/dummy/dummy.c:84-142 | in every run: the j-th item consumed is the char of the item that its producer had made last when it stored it, no item is stored twice, items of one producer are consumed in the order in which it made them, and every item made is stored or still carried by its producer |
| `ProdCons.ActKeepsOrigins` | Userland/dummy/dummy.c:102-110 | every step keeps the link from items made to items stored |
| `ProdCons.ToChar` | Userland/dummy/dummy.c:33 | an int passed as a char is the signed byte that equals it modulo 256 |
| `ProdCons.Conservation` | Userland/dummy/dummy.c:94-142 | free cells, full cells and processes holding one add up to the size of the buffer |
| `ProdCons.Room` | Userland/dummy/dummy.c:105-110 | a process about to store has a free cell, and one about to load has an item |
| `ProdCons.Alone` | Userland/dummy/dummy.c:105-133 | at most one process is past its wait on itemMutex and before its signal |
| `ProdCons.OnlyMe` | Userland/dummy/dummy.c:33-41 | the process inside is the only one that can touch buffer and indices |
| `ProdCons.ActKeepsInv` | Userland/dummy/dummy.c:84-142 | every instruction, tick and call of another process keeps the invariant |
| `ProdCons.Balance` | Userland/dummy/dummy.c:94-142 | every instruction changes a semaphore by exactly what it changes in the places and histories of the equation |
| `ProdCons.AdvanceContents` | Userland/dummy/dummy.c:33-41 | no store overwrites an item that is not consumed yet, and every load takes the oldest item |
| `ProdCons.AdvanceIndices` | Userland/dummy/dummy.c:35-40 | r and w follow the histories modulo the size although reading and writing them are separate instructions |
| `ProdCons.InitialInv` | Userland/dummy/dummy.c:59-67 | semaphores at 1, 0 and the size of the buffer start the invariant |
| `ProdCons.CallsAreLegal` | Userland/dummy/dummy.c:105-133 | producers and consumers never fill a semaphore's queue if there are no more of them than slots |
| `Philosophers.Dinner` | Userland/dummy/dummy.c:315-390 | in every run two neighbours are never both EATING, whenever the mutex is free every HUNGRY philosopher has an EATING neighbour, and a philosopher is HUNGRY or EATING exactly from asking for its forks until putting them down |
| `Philosophers.InsideStep` | Userland/dummy/dummy.c:315-379 | every instruction under the mutex keeps neighbours apart, and a hungry seat with free forks is one the process has yet to test |
| `Philosophers.TestServes` | Userland/dummy/dummy.c:315-336 | testP lets a HUNGRY seat whose neighbours do not eat become EATING, changes nothing else, and returns |
| `Philosophers.FreeMissesNobody` | Userland/dummy/dummy.c:375-378 | the two tests of put_fork overlook nobody |
| `Philosophers.Alone` | Userland/dummy/dummy.c:338-379 | at most one philosopher is under the mutex, even while it sleeps in testP |
| `Philosophers.ActKeepsInv` | Userland/dummy/dummy.c:381-390 | every instruction, tick and call of another process keeps the invariant |
| `Philosophers.CallsAreLegal` | Userland/dummy/dummy.c:338-379 | a philosopher frees the mutex only when it holds it, and locks it only when it does not |
| `Bmfs.Correct` | Bootloader/BMFS/bmfs.c:720-819 | after every run of create, delete and write that keeps extents apart, each name stands for what the last successful command on it left; no file exceeds its reserved blocks; the first block is untouched |
| `Bmfs.Effect` | Bootloader/BMFS/bmfs.c:608-819 | each command changes the file it names as it should and no other file |
| `Bmfs.ReadsLastWrite` | Bootloader/BMFS/bmfs.c:720-797 | reading a file gives the bytes last written to it, whatever is done to other files meanwhile |
| `Bmfs.WriteEffect` | Bootloader/BMFS/bmfs.c:752-797 | a write succeeds exactly if the file exists and the content fits its reserved blocks, and then changes that file alone |
| `Bmfs.CreateEffect` | Bootloader/BMFS/bmfs.c:608-717 | a new file is empty and no other file changes |
| `Bmfs.Answers` | Bootloader/BMFS/bmfs.c:608-819 | the answer to every command: a file is created exactly if its name is new, a record can be used and a run of free blocks is long enough; each refusal has its own cause |
| `Bmfs.HoldsMaxsize` | Bootloader/BMFS/bmfs.c:608-704 | a file created for some number of MiB can be written with any content up to that size, at any later time until it is deleted |
| `Bmfs.KeepsBlocks` | Bootloader/BMFS/bmfs.c:691-819 | over every run without a deletion of the file, the blocks reserved for it stay as they are |
| `Bmfs.DeleteEffect` | Bootloader/BMFS/bmfs.c:800-819 | a deletion succeeds exactly if the file exists, and then no other file changes |
| `Bmfs.Formatted` | Bootloader/BMFS/bmfs.c:258-268 | a formatted disk is in order and has no files |
| `Bmfs.Disk.FindFile` | Bootloader/BMFS/bmfs.c:203-229 | the loop finds the first live record with the name before the terminator |
| `Bmfs.Disk.Survey` | Bootloader/BMFS/bmfs.c:633-649 | the slot to use is the first deleted one or the terminator; without a terminator no record is counted |
| `Bmfs.Disk.FindPlace` | Bootloader/BMFS/bmfs.c:661-683 | the loop over the sorted records computes the place whose properties the lemmas state |
| `Bmfs.Disk.CreateFile` | Bootloader/BMFS/bmfs.c:608-717 | refines the creation on the directory, with all its refusals |
| `Bmfs.Disk.DeleteFile` | Bootloader/BMFS/bmfs.c:800-819 | marks the record of the name, or changes nothing |
| `Bmfs.Disk.ReadFile` | Bootloader/BMFS/bmfs.c:720-749 | copies out as many bytes as the record says, with 255 for those past the end of the disk; on a disk in order these are the bytes of the file |
| `Bmfs.Disk.WriteFile` | Bootloader/BMFS/bmfs.c:752-797 | byte by byte, refines the write on the volume, also where files overlap |
| `Bmfs.Disk.Format` | Bootloader/BMFS/bmfs.c:258-268 | empties the directory and no data |
| `BmfsDirectory.Create` | Bootloader/BMFS/bmfs.c:608-717 | with a terminator: the lowest free run that is long enough gets the file; otherwise create refuses and changes nothing, unless a deleted record has room after it; extents stay apart if and only if a run was free or no deleted record fits |
| `BmfsDirectory.BlocksFor` | Bootloader/BMFS/bmfs.c:608-618 | the blocks reserved hold the size asked for, and there is none too many |
| `BmfsDirectory.CreateWithoutDeleted` | Bootloader/BMFS/bmfs.c:657-689 | without deleted records create refuses exactly if no gap is long enough, and always keeps extents apart |
| `BmfsDirectory.CreateWithoutTerminator` | Bootloader/BMFS/bmfs.c:633-704 | with no terminator the file is placed at block 1 whoever owns it: files stay apart if and only if those blocks were free or it is refused; if slot 0 is reused every other file disappears |
| `BmfsDirectory.CreateKeepsFiles` | Bootloader/BMFS/bmfs.c:608-717 | from every directory in order, with or without a terminator: the exact condition under which create loses no file and keeps all apart |
| `BmfsFailures.WithoutTerminatorFails` | Bootloader/BMFS/bmfs.c:633-704 | two full directories in order: on one create puts a file over another, on the other it loses one |
| `BmfsFailures.DeletedRecordsMislead` | Bootloader/BMFS/bmfs.c:670-682 | a run of allowed commands from a formatted disk after which no gap fits and create puts a file into the blocks of another |
| `BmfsDirectory.PlaceIsLowest` | Bootloader/BMFS/bmfs.c:661-683 | from any point of the scan: if some run of free blocks fits, the result is the lowest one |
| `BmfsDirectory.NeverWraps` | Bootloader/BMFS/bmfs.c:661-683 | the unsigned subtraction of the scan never wraps, after live and after deleted records |
| `BmfsDirectory.PlaceStale` | Bootloader/BMFS/bmfs.c:670-682 | after the live records the scan answers with the end of a deleted record if enough blocks follow it, and with none exactly if none has enough |
| `BmfsDirectory.AddsKeepsOk` | Bootloader/BMFS/bmfs.c:691-704 | a new record keeps files apart if and only if its blocks were free |
| `BmfsDirectory.NewRecord` | Bootloader/BMFS/bmfs.c:691-704 | exactly one file becomes visible and the directory still ends where it should |
| `BmfsDirectory.Delete` | Bootloader/BMFS/bmfs.c:800-819 | exactly one file becomes invisible and the directory stays in order |
| `BmfsDirectory.FindFromIs` | Bootloader/BMFS/bmfs.c:203-229 | the record found is visible and the first with its name; none is found exactly if no visible record has the name |
| `BmfsDirectory.FreeIsUsable` | Bootloader/BMFS/bmfs.c:633-649 | the slot to use is deleted or the terminator; there is none exactly if all slots are live |
| `Buddy.Allocator.CreateHeap` | Kernel/buddyAllocator.c:8-27 | all nodes EMPTY, heapLevel the number of levels, and every entry of base where its node lies in its parent |
| `Buddy.BasesFollow` | Kernel/buddyAllocator.c:30-34 | the formula for the addresses places the children of a node on its two halves |
| `Buddy.Allocator.GetNextPageRecursive` | Kernel/buddyAllocator.c:36-69 | refines the search and marking on the tree, touches only marks of its subtree, and answers NULL exactly if it found nothing |
| `Buddy.Allocator.GetLevel` | Kernel/buddyAllocator.c:90-107 | the level of the smallest power of two of pages that is enough |
| `Buddy.Allocator.AllocPage` | Kernel/buddyAllocator.c:74-87 | hands out the leftmost free block of the right size, or NULL and changes nothing |
| `Buddy.Allocator.FreeUpRecursive` | Kernel/buddyAllocator.c:129-150 | the climb from a node to the root, one parent at a time (what it frees: `BuddyTree.FreedIsFree`) |
| `Buddy.Allocator.DeallocPage` | Kernel/buddyAllocator.c:110-123 | clears the leaf of the page and lowers the marks on the path above it |
| `Buddy.LoweredIsClimb` | Kernel/buddyAllocator.c:129-150 | the climb through the array is the climb on the tree and touches only marks of the subtree |
| `Buddy.ClimbedIsLowered` | Kernel/buddyAllocator.c:129-150 | going up from the leaf and going down from the root give the same marks |
| `BuddyTree.Safety` | Kernel/buddyAllocator.c:36-150 | over every run of allocations and of deallocations that keep EMPTY trustworthy, blocks in use lie in the heap and share no page |
| `BuddyTree.AllocationIsLegal` | Kernel/buddyAllocator.c:36-87 | runs that only allocate need no condition for that |
| `BuddyTree.FirstIsLeftmost` | Kernel/buddyAllocator.c:36-69 | the search finds the leftmost EMPTY node of its level with no FULL ancestor, and NULL exactly if there is none |
| `BuddyTree.MarkedIsTrusted` | Kernel/buddyAllocator.c:42-69 | after an allocation EMPTY still means an untouched subtree, although a parent is not updated on the way back from a right child |
| `BuddyTree.MarkedKeepsSolid` | Kernel/buddyAllocator.c:36-69 | an allocation leaves every block in use FULL and gets a different one |
| `BuddyTree.SolidApart` | Kernel/buddyAllocator.c:36-69 | two blocks in use never overlap |
| `BuddyTree.ClimbIsTrusted` | Kernel/buddyAllocator.c:129-150 | a deallocation keeps EMPTY trustworthy if and only if no EMPTY sibling comes after one that is not, on the way up |
| `BuddyTree.ClimbFrees` | Kernel/buddyAllocator.c:110-150 | deallocating a block by its first page empties its whole subtree |
| `BuddyTree.ClimbKeepsSolid` | Kernel/buddyAllocator.c:129-150 | and leaves every other block in use FULL |
| `BuddyTree.FreedIsFree` | Kernel/buddyAllocator.c:129-150 | a deallocated block is free again if and only if no FULL node above it has a PARTIAL child beside the way down |
| `BuddyTree.FreedCanBeHidden` | Kernel/buddyAllocator.c:57-66 | two allocations and one deallocation on four pages after which three pages are free and no request is served |
| `BuddyTree.FullAtTheLast` | Kernel/buddyAllocator.c:54-69 | an allocation leaves a node FULL if and only if it got the last block of its size below it, whatever is on the left |
| `BuddyTree.TakenExactly` | Kernel/buddyAllocator.c:36-69 | exactly which nodes, of all sizes, cannot be had any more after an allocation |
| `BuddyTree.EventKeepsInv` | Kernel/buddyAllocator.c:36-150 | each allocation, and each deallocation that meets the condition, keeps the invariant |
| `BuddyTree.FillsExactly` | Kernel/buddyAllocator.c:36-107 | from a fresh heap exactly N / 2^k requests of 2^k pages succeed, at consecutive places, and the next one fails |
| `BuddyTree.RoundTrip` | Kernel/buddyAllocator.c:36-150 | on an empty heap a request of any size succeeds, and deallocating its block restores the empty heap |
| `BuddyTree.DeallocationCanOverlap` | Kernel/buddyAllocator.c:137-149 | a run of two allocations, one deallocation and one allocation after which a page has two owners |
| `BuddyUse.FreeingIsHarmlessExactly` | Kernel/buddyAllocator.c:110-150 | after every legal run, freeing a block leaves no EMPTY mark above a block in use if and only if the siblings on the way up are in order |
| `BuddyUse.EmptyAboveUse` | Kernel/buddyAllocator.c:129-150 | a deallocation whose siblings are not in order marks a node EMPTY with a block in use below it |
| `BuddyUse.HandedOutAgain` | Kernel/buddyAllocator.c:36-87 | if no FULL node is above such an EMPTY node, some number of requests of its size hands out its pages, and with them those of the block in use |
| `BuddyUse.FreeIsHandedOut` | Kernel/buddyAllocator.c:36-87 | a free node is handed out sooner or later to requests of its size |
| `BuddyUse.FreedIsHandedOutExactly` | Kernel/buddyAllocator.c:36-150 | after every legal run: a deallocated block is handed out again to requests of its size if and only if no FULL node above it had a PARTIAL child beside the way down |
| `BuddyUse.AllGivenBack` | Kernel/buddyAllocator.c:36-150 | after every legal run that has given back all it got, the heap is as at the start |
| `BuddyUse.EventKeepsExact` | Kernel/buddyAllocator.c:36-150 | the blocks in use stay exactly those that the marks show, and every node that is not EMPTY has one below it |
| `BuddyTree.Order` | Kernel/buddyAllocator.c:90-107 | the least k with 2^k pages enough |
| `BuddyTree.Alloc` | Kernel/buddyAllocator.c:74-87 | a block handed out lies in the tree and has at least the pages asked for |
| `BuddyTree.StartIsMultiple` | Kernel/buddyAllocator.c:30-34 | the j-th block of a level starts at j times its size |
| `Pipe.Pipe.Write` | Kernel/IPC.c:58-91 | appends the longest prefix that fits, if and only if the message or the pipe is not empty |
| `Pipe.Pipe.Read` | Kernel/IPC.c:118-152 | removes and returns the oldest bytes in order, as many as are asked for (-1: all) and stored, if and only if some are asked for or the pipe is not full |
| `Pipe.Pipe.CopyOut` | Kernel/IPC.c:141-145 | the loop stops after as many bytes as asked for or stored |
| `Pipe.Pipe.Next` | Kernel/IPC.c:109-116 | the cursor goes round the ring |
| `Pipe.Run` | Kernel/IPC.c:58-152 | the queue that a run of calls should behave as: what was read followed by what is stored is what was accepted, and never more than fits |
| `Pipe.LastCall` | Kernel/IPC.c:58-152 | in that queue a write appends as many bytes as there is room for, and a read takes as many of the oldest as it asks for and there are |
| `Pipe.Serve` | Kernel/IPC.c:58-152 | over every run of calls on an empty pipe, what was read followed by what its cells, indices and flag hold is what was accepted, call by call as the queue says |
| `Pipe.CountOf` | Kernel/IPC.c:66-89 | indices and flag determine the number of bytes stored; the flag tells full from empty |
| `ModulePacker.WriteFile` | Toolchain/ModulePacker/main.c:109-119 | copies the whole source whatever its length, although the end is only noticed by a short read |
| `ModulePacker.WriteSize` | Toolchain/ModulePacker/main.c:101-106 | four bytes are appended, and who reads them as a word gets the size modulo 2^32 |
| `ModulePacker.BuildImage` | Toolchain/ModulePacker/main.c:52-85 | the image is the kernel, the number of modules and each module after its size |
| `ModuleLoader.RoundTrip` | Kernel/moduleLoader.c:9-43 | loading what was packed leaves every module's exact bytes at its target and changes nothing else, if targets are apart from each other and from what is still unread |
| `ModuleLoader.RestoresExactly` | Kernel/moduleLoader.c:9-43 | every module is at its target and nothing else changed if and only if every module is shorter than 2^32 bytes, unless memory happens to hold the last byte of a longer one already |
| `ModuleLoader.TooLongFails` | Toolchain/ModulePacker/main.c:104 | a payload that is not restored: one module of 2^32 bytes, loaded into cleared memory |
| `ModuleLoader.LeavesCell` | Kernel/moduleLoader.c:19-36 | whatever sizes the loader reads, a cell stays as it was if every target starts after it or at least 2^32 - 1 before it |
| `ModuleLoader.LoadsModules` | Kernel/moduleLoader.c:15-36 | the same from any cursor, for any list of modules |
| `ModuleLoader.TooLongIsCut` | Toolchain/ModulePacker/main.c:104 | a single module of 2^32 bytes or more is loaded only up to its size modulo 2^32 |
| `ModuleLoader.TooLongLeadsAstray` | Kernel/moduleLoader.c:15-36 | in any list, the modules before the first over-long one are in place, that one is cut, and the loader looks for the next size inside its data |
| `ModuleLoader.Memory.LoadModules` | Kernel/moduleLoader.c:9-17 | the cursor loop refines the loading of as many targets as the payload says |
| `ModuleLoader.Memory.LoadModule` | Kernel/moduleLoader.c:19-36 | copies one module and moves the cursor behind it |
| `ModuleLoader.Memory.Memcpy` | Kernel/lib.c:14-50 | word by word or byte by byte, the destination gets the source's bytes and nothing else changes |
| `Bytes.WordRoundTrip` | Kernel/moduleLoader.c:38-43 | reading four bytes undoes writing them, modulo 2^32 |
| `Bytes.WordIs` | Kernel/moduleLoader.c:38-43 | four bytes are determined by the word they are read as |
| `KernelHeap.Safety` | Kernel/malloc.c:10-38 | over every run of kmalloc, memory handed out is aligned, in the region and apart from all other memory handed out and from every header; it is large enough exactly up to 2^32 - 4 bytes; sizes and headers add up to a constant |
| `KernelHeap.LargestGetNothing` | Kernel/malloc.c:18 | each of the three largest sizes gets a block of no bytes from a fresh heap |
| `KernelHeap.KmallocBumps` | Kernel/malloc.c:10-30 | first fit over the list is a bump allocator, as only the last block is ever free, and the blocks keep tiling the region |
| `KernelHeap.MergeUndoesSplit` | Kernel/malloc.c:81-96 | merging a block with the one split off it restores the list |
| `KernelHeap.AlignIs` | Kernel/malloc.c:18 | sizes are rounded up to a multiple of 4, except the last three, which wrap to 0 |
| `KernelHeap.OnlyTheLast` | Kernel/malloc.c:72-79 | the search finds the last block or nothing |
| `KernelHeap.TotalOfTiles` | Kernel/malloc.c:81-96 | sizes and headers of tiling blocks add up to the region |
| `KernelHeap.Allocator.InitializeKernelHeap` | Kernel/malloc.c:32-38 | one free block over the whole region |
| `KernelHeap.Allocator.FindFirstFreeBlock` | Kernel/malloc.c:72-79 | the walk along next finds the first free block that is strictly larger |
| `KernelHeap.Allocator.SplitBlock` | Kernel/malloc.c:81-96 | refines the split of the list; prev stays the inverse of next if the last block is split |
| `KernelHeap.Allocator.MergeBlocks` | Kernel/malloc.c:164-167 | refines the merge of the list; prev stays the inverse of next if the last two blocks are merged |
| `KernelHeap.Allocator.KMalloc` | Kernel/malloc.c:10-30 | refines kmalloc on the list and keeps its links; without initialization every call answers the start of the heap |

## Left out

- Mutex.Mutex.LockMutex: the dispatch at its end must find a READY process, as the source would search forever otherwise.
- Semaphore.Semaphore.Wait: semaphore values are unbounded integers, without the wrap-around of a 32-bit int.
- KernelMachine.StepKeepsInv: it assumes how programs use the calls: init makes no call that blocks, a process frees only what it holds and does not lock it twice, semaphore mutexes are not used as user mutexes, queues and sleep table are not full, handles are not negative (the source tests only their upper bound, Kernel/mutex.c:312-320 and Kernel/semaphores.c:34-42), and nobody who holds or waits is killed. For producers, consumers and philosophers most of this is proved (`ProdCons.CallsAreLegal`, `Philosophers.CallsAreLegal`).
- KernelMachine.Run: names, creation and closing of mutexes and semaphores (`getMutex`, `semCreate`, `closeMutex`, `semClose`) are not steps; all of them exist from the start.
- ProdCons.Safety: console output, `semOpen` and the control keys are left out; the item is any int, reduced to a char.
- Philosophers.Dinner: for five seats, where `(number + 4) % total` is the left neighbour, and with all entries of `state` THINKING at the start, which the source does not set. The semaphore handles are arbitrary non-negative numbers, because the cast in Userland/dummy/dummy.c:400 makes them unrelated to the semaphores created.
- KernelFairness.Fairness: counts dispatches, not time.
- Scheduler.Scheduler.RemoveProcess: does not free the pages of a process. Threads, stacks and register frames are not modelled, and a process is its pid and state.
- Bmfs.Effect: the 64-byte encoding of a record and the flush of the directory to disk are one with the change of the record; the loop counters of `read` and `write` are unbounded.
- Bmfs.Disk.CreateFile: names are non-empty, shorter than 32 characters and do not start with a marker; longer ones overflow the record in the source. `qsort` is a parameter, any order that its contract allows.
- Bmfs.Disk.WriteFile: a record whose blocks leave the disk is excluded; the source would make the disk file longer.
- Bmfs: `initialize`, `list` and the tag that tells a BMFS disk from another are left out.
- Buddy.Allocator.DeallocPage: an address outside of the heap is excluded, because the source indexes its array with it unchecked.
- Buddy.Allocator.AllocPage: the guard on the level is left out, as the level never exceeds heapLevel.
- Pipe.Pipe.Write: every call has the pipe's mutex at once. The source computes its cursor before it locks (Kernel/IPC.c:60-64), so a call that had to wait for the mutex would use a stale one. Blocking, waking and the registry of pipes are left out: a blocked writer is recorded nowhere (Kernel/IPC.c:66-72).
- ModulePacker.BuildImage: files are readable and do not change while they are packed.
- KernelHeap.Safety: covers `kmalloc`. `mallock`, `extendHeap` and `free` are left out, because splitting and merging do not update the `prev` of the following block, and `getBlock` does not return the last block (Kernel/malloc.c:148-154).
- The second lock implementation in Kernel/mutex.c:1-200 and Kernel/condVariable.c: unused, and it reads through a pointer before testing it (Kernel/mutex.c:172-180).
- `getProcessById` and `getCurrentProcesses`: the first indexes the ring as an array (Kernel/scheduler.c:26-37).
- The terminal ring, video, keyboard, mouse, clock, shell, editor, fortune, console printing, Pure64 and string helpers: devices, user interface or easy members.
