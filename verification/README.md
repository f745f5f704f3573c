# BUENOS in Dafny

A model of the parts of the BUENOS teaching kernel that keep state over many
operations, with proofs of what they promise:

- **Threads** (`ThreadLists`, `ThreadTable`, `ThreadSteps`, `SleepQueue`, `Scheduling`, `KernelRuns`,
  `SleepOrder`, `Turns`, `Kernel`, `ThreadLives`): one table of rows whose single `next` field carries the ready list and 127 hash chains, and
  whose `next_sleeper_id` field carries the timed list. `Kernel.ThreadSystem` is the table updated in
  place; every method is proved equal to a step function on snapshots, and the other modules prove what
  the steps keep in every run from boot.
- **Semaphores, locks, condition variables** (`Semaphores`, `LockCond`, `SyncObjects`): their meaning as
  values with FIFO queues, laws over all histories, and objects in the kernel that refine them.
- **The readers/writer protocol** of each open file (`ReadersWriter`): any number of threads on that lock
  and condition variable, step by step. Exclusion, exact counting, no lost wake-up, no deadlock, and a
  bound on the length of every run; and with the disk blocks that the threads read and write in between
  (`FileAccess`), every read and write is as good as atomic.
- **The Student Filesystem** (`Libc`, `BlockLayout`, `Bitmap`, `SfsPath`, `SfsState`, `SfsTree`, `SfsBlocks`,
  `SfsSteps`, `SfsRelease`, `SfsCreate`, `SfsWalk`, `SfsEffects`, `SfsData`, `SfsVolume`, `SfsRuns`, `SfsClients`): a disk of
  512-byte blocks, down to the bytes of inodes and directory entries, and the table of open files.
  `SfsVolume.Volume` is the mounted volume; its contracts speak of a tree of names, the bytes of each
  file, the free space and the outstanding opens.
- **Physical pages and page tables** (`PagePool`, `PageTable`), and the pages of a process from its start to
  its exit: `ProcessLife` says from the addresses and the number of free pages alone what becomes of them,
  `ProcessPages` carries it out on pool and table and agrees, and `Memlimit` moves the end of the heap.
- **The water-molecule test** (`Water`) as a client of the semaphores under every schedule.
- **Printing and reading integers** (`Decimal`).

`Sequences` has what several modules need about sequences without repetitions.

## How to read it

Words are integers below 2^32 and bytes integers below 256; wrap-around is written out where it matters
(`Decimal.Int32`, the wake-up time in `Kernel.ThreadSystem.ThreadSleep`). A region under a spinlock with
interrupts disabled is one step; a context switch, and the part of a call after a sleep, are steps of their
own. The kernel runs on one processor with thread priorities compiled in. Public file-system operations are
atomic steps; `create` and `remove` already exclude each other in `fs/vfs.c`. Addresses, the clock and the
schedule are parameters. Panics and kernel assertions are preconditions, and where the kernel itself calls
such a function the proof shows that they hold; only the assertions on pages that are given back, which can
fail, are modelled as stopping the kernel.

`hide` statements keep definitions that a proof does not need away from the solver.

Where the code does something else than it promises:

- `thread_sleep` with a wake-up time of zero (the 32-bit clock wraps) leaves a runnable thread on the timed
  list: `Scheduling.SleepUntilKeeps` has the exact condition; by `Scheduling.ZeroSleepEffect` the next switch
  puts the thread on the ready list as well.
- `thread_sleep` promises that a thread does not wake before its time, but the wake-up time is a sum on the 32-bit
  clock: `Turns.WakesEarlyIff`, it looks over early if and only if the clock has still to wrap around before its end.
- `vm_unmap` hands a frame back without a look at the valid bit, so unmapping a page that is not mapped, while
  the other page of its pair has an entry, frees a stale frame number: the kernel stops at an assertion or
  another owner's page is free. `ProcessPages.UnmapKeepsIff` and `PageTable.ExitReleasesIff` have the exact
  condition, `PageTable.StaleHeapExample` is such a table. It happens when a start fails for want of a heap page
  next to the image (`ProcessLife.StaleStartExample`), when it fails earlier in a process entry that still holds
  the heap address of the process before (`ProcessLife.LeftHeapExample`), and when `memlimit` shrinks the heap by
  an offset that another process has moved, the offset being one static variable
  (`Memlimit.ForeignOffsetExample`). `ProcessLife.StaleIff` and `Memlimit.CallStaleIff` have the conditions in
  terms of addresses and free pages; a process that alone has moved its heap's end is safe
  (`Memlimit.OwnOffsetLife`).
- A page that process start or `memlimit` has had from the pool but cannot map is never given back:
  `ProcessLife.LosesIff` has the exact condition, `ProcessLife.LostPageExample` an input, and
  `ProcessPages.RunProcess` shows that this is the only loss.
- `memlimit` refuses to grow the heap when `can_be_mapped` says that it can be done. It asks about a page too low,
  so that with the process's own offset the answer is always no: `Memlimit.OwnOffset`.
- `waterCreated++` is outside the mutex: `Water.CounterRightIff` shows for which numbers of atoms the
  counter is right under every schedule, `Water.LostUpdate` gives a run that loses an update.
- `%+d` and `% d` print their flag after a minus sign, so `atoi` does not read negative numbers back:
  `Decimal.RoundTripIff`. The sign characters are stored without a look at the size of the buffer:
  `Decimal.StaysInBufferIff` has the exact condition, `Decimal.OverrunExample` a call that stores three bytes into
  a buffer of one.
- `stringcopy` is documented to pad with NULs but writes one cell over and over: `Libc.PaddedIff` has the exact
  condition, `Libc.NotPaddedExample` a case. Names are compared up to the first NUL.
- `semaphore_destroy` does not look whether anybody waits: `Semaphores.SemaphoreTable.Destroy`.
- `sfs_create` takes the last free directory entry, not the first; the comment on `sfs_close` says that
  nothing is done there, but the last close of a removed file frees it.

## Model

| member | source | states |
|---|---|---|
| `ThreadLists.InsertKeepsLinked` | kernel/thread.c:454-506 | splicing a new element in at any position of a singly linked list by two link writes gives the list with the element inserted there |
| `ThreadLists.RemoveKeepsLinked` | kernel/sleepq.c:148-197 | unlinking position i gives the list without it, and the links of all others still form it |
| `ThreadTable.ReadyOrderOfArrival` | kernel/scheduler.c:88-141 | a HIGH thread arrives behind the last HIGH one, any other at the end, in the order "all HIGH by arrival, then all NORMAL by arrival" |
| `ThreadTable.ReadyOrderOfRemoval` | kernel/scheduler.c:153-178 | taking out the first thread leaves the order of the others |
| `ThreadSteps.ArriveReadyKeeps` | kernel/scheduler.c:190-204 | making a thread ready keeps the whole table consistent: disjoint acyclic lists, membership by state, head and tail |
| `ThreadSteps.EnqueueKeeps` | kernel/sleepq.c:99-136 | queueing the running thread on a resource keeps the table consistent although it shares the `next` field |
| `SleepQueue.EnqueueQueue` | kernel/sleepq.c:99-136 | the thread goes to the end of its resource's FIFO queue, and the queues of all other resources, colliding ones included, stay the same |
| `SleepQueue.WakeKeeps` | kernel/sleepq.c:148-197 | a wake-up keeps the table consistent |
| `SleepQueue.WakeQueue` | kernel/sleepq.c:148-197 | a wake-up takes exactly the oldest waiter off the resource's queue and changes no other queue |
| `SleepQueue.WakeEffect` | kernel/sleepq.c:148-197 | the woken thread waits for nothing any more and becomes READY exactly if it was SLEEPING; every other row changes at most in its link |
| `SleepQueue.WakeAllEffect` | kernel/sleepq.c:206-263 | waking all empties the queue, clears what its members wait for, readies the sleeping ones in queue order, keeps the state of one that still runs, and leaves all other queues and rows alone |
| `Scheduling.SleepUntilKeeps` | kernel/thread.c:454-506 | a timed sleep keeps the table consistent, with the timed list sorted and acyclic, if and only if the wake-up time is not zero |
| `Scheduling.ZeroSleepEffect` | kernel/thread.c:454-506 | after a sleep until time zero the thread still waits for nothing, and the next switch puts it on the ready list while it is on the timed list |
| `Scheduling.ExpireEffect` | kernel/scheduler.c:214-237 | a wake-up pass moves exactly the maximal prefix of sleepers whose time is before now to the ready list, in order: nobody early, nobody skipped |
| `Scheduling.DispatchKeeps` | kernel/scheduler.c:260-309 | putting the first ready thread (or idle) on the processor keeps the table consistent |
| `KernelRuns.CreatedKeeps` | kernel/thread.c:146-233 | taking a free row for a new thread keeps the table consistent |
| `KernelRuns.FinishKeeps` | kernel/thread.c:425-445 | a finishing thread keeps the table consistent |
| `KernelRuns.StepKeeps` | kernel/scheduler.c:88-309 | every step (create, start, sleep on a resource or for a time, wake one or all, finish, switch) keeps the table consistent |
| `KernelRuns.ReachableInv` | kernel/thread.c:77-131 | every table that any run from boot reaches is consistent |
| `KernelRuns.ExactlyOnePlace` | kernel/sleepq.c:99-263 | in a consistent table the ready list holds exactly the READY threads, each SLEEPING thread is on exactly one hash chain or on the timed list, and no other thread but one about to sleep is on a list |
| `KernelRuns.EarlyWakeIsNotLost` | kernel/scheduler.c:260-304 | a `sleepq_wake` between `sleepq_add` and the switch leaves the thread runnable: the switch, at any time, puts it on the ready list |
| `KernelRuns.EarlyWakeAllIsNotLost` | kernel/sleepq.c:206-263 | the same of `sleepq_wake_all`, wherever on the queue the thread is |
| `KernelRuns.SwitchKeepsWaiter` | kernel/scheduler.c:260-304 | without a wake-up the switch puts the queued thread to sleep, still on its queue |
| `KernelRuns.SwitchKeepsQueues` | kernel/scheduler.c:260-309 | a switch with all its timed wake-ups leaves the queue of every resource unchanged |
| `Turns.TurnsInOrder` | kernel/scheduler.c:260-304 | in every run a ready thread moves up one place among those of its priority with each switch to one of them |
| `Turns.ThenItsTurn` | kernel/scheduler.c:153-178 | after as many such switches as threads stood before it, the next one is to it |
| `Turns.HighGoesFirst` | kernel/scheduler.c:88-141 | in every run a switch goes to a NORMAL thread only when no HIGH one is ready, and to the idle thread only when nobody is |
| `Turns.SleepsUntilDue` | kernel/thread.c:454-506 | in every run a thread that has called `thread_sleep` stays on the timed list, with its time, until the first switch from the idle thread later than that |
| `Turns.ThenItWakes` | kernel/scheduler.c:214-237 | that switch takes it off the list, and it is ready or runs |
| `Turns.WakesEarlyIff` | kernel/thread.c:454-457 | before a sleep is over, its wake-up time looks past if and only if the clock has still to wrap around |
| `SleepOrder.ReachableStable` | kernel/thread.c:454-506 | in every table of every run, for each wake-up time, the sleepers of that time are listed in the order in which they fell asleep |
| `SleepOrder.EqualTimesInOrder` | kernel/scheduler.c:214-237 | any two timed sleepers stand in order of their times, and with equal times in the order of falling asleep, whatever was inserted and woken in between |
| `Kernel.ThreadSystem.constructor` | kernel/thread.c:77-131 | boot: the empty consistent table with the idle thread READY |
| `Kernel.ThreadSystem.AddToReadyList` | kernel/scheduler.c:88-141 | the pointer walk links the thread in at its place in the priority order, head and tail included |
| `Kernel.ThreadSystem.RemoveFirstReady` | kernel/scheduler.c:153-178 | returns and unlinks the first thread of the order, or idle exactly when the list is empty |
| `Kernel.ThreadSystem.SleepqAdd` | kernel/sleepq.c:99-136 | the chain walk is the enqueue step |
| `Kernel.ThreadSystem.SleepqWake` | kernel/sleepq.c:148-197 | the chain walk is the wake-one step |
| `Kernel.ThreadSystem.SleepqWakeAll` | kernel/sleepq.c:206-263 | the single pass over the chain is the wake-all step |
| `Kernel.ThreadSystem.WakeupExpired` | kernel/scheduler.c:214-237 | the loop is the wake-up pass |
| `Kernel.ThreadSystem.Reschedule` | kernel/scheduler.c:260-309 | retires the running thread by its state and dispatches the next one |
| `Kernel.ThreadSystem.ThreadSleep` | kernel/thread.c:454-506 | the ordered insertion is the timed-sleep step at the wrapped wake-up time; the table stays consistent exactly when that is not zero |
| `Kernel.ThreadSystem.FindFreeRow` | kernel/thread.c:146-233 | the first free row after the start in cyclic order, never row 0, and -1 exactly when there is none |
| `Kernel.ThreadSystem.ThreadCreateWithPriority` | kernel/thread.c:146-233 | takes that row, or leaves everything unchanged exactly when no row is free |
| `Kernel.ThreadSystem.ThreadCreate` | kernel/thread.c:237-325 | the same at normal priority with a search position of its own |
| `Kernel.ThreadSystem.ThreadRun` | kernel/thread.c:334-337 | the created thread becomes ready |
| `Kernel.ThreadSystem.ThreadFinish` | kernel/thread.c:425-445 | the running thread is marked dying |
| `ThreadLives.StepPhase` | kernel/scheduler.c:260-304 | only a creation, a start and a switch from a dying thread take a row from FREE to NONREADY, from there to life, and back to FREE |
| `ThreadLives.LivesOverRun` | kernel/thread.c:77-131 | in every run a row is FREE exactly when its thread has died as often as it was created, and NONREADY exactly between a creation and the start that follows it |
| `ThreadLives.CreateAll` | kernel/thread.c:146-325 | right after boot, creations of either kind succeed with 31 different ids, and the next returns -1 |
| `ThreadLives.CreateAndRun` | kernel/thread.c:146-234 | a created and started thread is READY, last among those of the priority asked for, and no other order changes |
| `Semaphores.SemaphoreLaw` | kernel/semaphore.c:142-185 | in every history value = initial + Vs - Ps started, and the queue is exactly the last max(0,-value) threads to have started a P, in order |
| `Semaphores.LawInKernel` | kernel/semaphore.c:142-185 | the law holds of every semaphore in use in the kernel, with its waiters on the hashed sleep queue |
| `Semaphores.SemaphoreTable.constructor` | kernel/semaphore.c:62-69 | all entries free |
| `Semaphores.SemaphoreTable.Create` | kernel/semaphore.c:82-116 | takes the first free entry in turn, sets its value and the rotating position, or fails exactly when none is free; entries in use stay and nobody waits on the new one |
| `Semaphores.SemaphoreTable.Destroy` | kernel/semaphore.c:125-128 | frees the entry; the table stays in order exactly when nobody waited on it |
| `Semaphores.SemaphoreTable.Down` | kernel/semaphore.c:142-158 | is P on that semaphore, with the kernel's sleep queue as its queue, changes no other, and keeps the law unless it blocks on a free entry |
| `Semaphores.SemaphoreTable.Up` | kernel/semaphore.c:171-185 | is V on that semaphore, changes no other, and keeps the law |
| `Semaphores.SemaphoreTable.Switch` | kernel/scheduler.c:260-309 | a context switch leaves every semaphore as it was |
| `LockCond.StepKeeps` | kernel/lock_cond.c:153-357 | every step of acquire, release, wait, signal and broadcast by any thread keeps fields, queues, arrival order and depths in agreement |
| `LockCond.LockSafety` | kernel/lock_cond.c:153-246 | in every reachable state at most one holder; `waiting_thread_count` is the sleepers plus one exactly when RESERVED; a free lock has no waiters; the condition's counter is its queue length |
| `LockCond.GrantsFollowArrivals` | kernel/lock_cond.c:153-246 | grants follow arrivals in order, however many ask later: no barging |
| `LockCond.HeldIffUnbalanced` | kernel/lock_cond.c:205-246 | a thread holds the lock exactly while it has acquired it more often than released it, and the nesting count is the difference |
| `LockCond.WaitReturnsAtDepth` | kernel/lock_cond.c:304-323 | `condition_wait` entered at depth d returns holding the lock at depth d |
| `LockCond.WaiterOverRuns` | kernel/lock_cond.c:304-357 | over any stretch of any run a waiter stands ahead by exactly the signals made since, or a signal or broadcast has reached it |
| `LockCond.WaiterStaysQueued` | kernel/lock_cond.c:304-357 | in one step: from before its lock is given up until a signal or broadcast reaches it, a waiter stays on the queue and only moves forward |
| `LockCond.SignalEffects` | kernel/lock_cond.c:325-357 | signal wakes exactly the longest waiter, broadcast exactly those queued, and neither touches the lock |
| `SyncObjects.Monitor.AcquireEnter` | kernel/lock_cond.c:153-203 | the first half of acquire is the machine's acquire step, queues included |
| `SyncObjects.Monitor.AcquireResume` | kernel/lock_cond.c:195-203 | the half after the sleep is the resume step |
| `SyncObjects.Monitor.Release` | kernel/lock_cond.c:205-246 | release is the unlock step |
| `SyncObjects.Monitor.WaitEnter` | kernel/lock_cond.c:304-323 | wait up to the switch is the wait step: queued first, unlocked then |
| `SyncObjects.Monitor.Signal` | kernel/lock_cond.c:325-340 | signal is the signal step |
| `SyncObjects.Monitor.Broadcast` | kernel/lock_cond.c:342-357 | broadcast is the broadcast step |
| `SyncObjects.Monitor.Switch` | kernel/thread.c:348-355 | a context switch in between leaves the monitor's state as it was |
| `ReadersWriter.StepKeeps` | fs/sfs.c:914-920 | every line of the protocol by any thread keeps the invariant |
| `ReadersWriter.Safety` | fs/sfs.c:1068-1077 | in every reachable state a writing thread is alone, `readernum` counts exactly the threads between raising and lowering it, and whoever sleeps on `io_cond` has its guard closed unless the lock's holder is about to broadcast |
| `ReadersWriter.SomeoneAwake` | fs/sfs.c:866-876 | whenever a thread sleeps on `io_cond`, another thread inside the protocol can go on |
| `ReadersWriter.StuckMeansFinished` | fs/sfs.c:866-876 | no deadlock: a state where nobody can go on is one where everybody has finished |
| `ReadersWriter.RunsAreBounded` | fs/sfs.c:914-920 | every schedule is finite: a measure of the first state bounds the length of every run |
| `ReadersWriter.SectionsAreJobs` | fs/sfs.c:914-920 | in every run the inner sections a thread has entered are those of the jobs it has begun, a reader's for a read and the writer's for a write, in order, and it is in one for the job begun last |
| `ReadersWriter.OnlyReadsTogether` | fs/sfs.c:1068-1077 | two threads are in inner sections together only when the jobs of both are reads |
| `ReadersWriter.EveryMaximalRunFinishes` | fs/sfs.c:1020-1028 | under every schedule each thread has in the end entered exactly the sections of the reads and writes it was asked for, in order, and the entry's fields are back at rest |
| `FileAccess.ReadKeeps` | fs/sfs.c:976-1010 | reading one more block gives the next bytes of the file that the finished accesses leave |
| `FileAccess.PutKeeps` | fs/sfs.c:1107-1161 | putting back a block, fetched and changed in part or written whole, stores just the next bytes of the data |
| `FileAccess.StepKeeps` | fs/sfs.c:914-1164 | every protocol line and every block read, fetched or written by any thread keeps the finished accesses an explanation of what all reads got |
| `FileAccess.AccessesAreAtomic` | fs/sfs.c:893-1164 | in every run of any number of threads, block by block, the finished reads and writes in the order of their ends, each taken at once, explain the bytes of every read and the file; an unfinished read has its bytes from that one file |
| `FileAccess.BlocksAdvance` | fs/sfs.c:976-1018 | an access that is not complete can go on, by one block, to the end of that block or to its own |
| `FileAccess.AsAskedOverRuns` | fs/sfs.c:957-1161 | in every run an access that ends joins the log with the offset it was asked for, and with bytes of the file from there on, or of its data stored there; when it is complete, as many as asked for and as the file has |
| `Bitmap.SizeOf` | lib/bitmap.c:57-60 | the least whole number of words, in bytes, that holds the bits |
| `Bitmap.Init` | lib/bitmap.c:70-78 | clears every bit and touches no word beyond |
| `Bitmap.Get` | lib/bitmap.c:89-100 | the bit at the position |
| `Bitmap.Set` | lib/bitmap.c:112-129 | writes that bit |
| `Bitmap.BitOfWithBit` | lib/bitmap.c:112-129 | a written bit is read back and every other bit keeps its value |
| `Bitmap.FindAndSet` | lib/bitmap.c:142-173 | the word-skipping search returns the least clear bit below the length and sets only it, or -1 exactly when all are set |
| `Bitmap.FindAndSetBitwise` | util/tfstool.c:670-685 | the bit-by-bit search has the same contract |
| `Bitmap.SearchesAgree` | util/tfstool.c:670-685 | both searches give the same answer and leave the same bitmap, on every bitmap and length |
| `Bitmap.ClearBitsOfWithBit` | lib/bitmap.c:112-129 | writing a bit moves the count of clear bits by exactly its change |
| `Libc.StringCompare` | lib/libc.c:108-123 | zero exactly on equal strings, else the difference of the two characters at the first differing place, for signed and unsigned `char` |
| `Libc.StringCopy` | lib/libc.c:143-166 | the text cut to fit, one NUL, and the old bytes behind it |
| `Libc.PaddedIff` | lib/libc.c:125-166 | the cells behind a text that fits are all NUL, as documented, if and only if those behind the first NUL were so before |
| `Libc.NotPaddedExample` | lib/libc.c:143-166 | a target whose old bytes stay behind the NUL |
| `Libc.CopiedReadsBack` | lib/libc.c:143-166 | a text that fits is read back unchanged |
| `Libc.MemCopy` | lib/libc.c:180-217 | by words or by bytes, exactly the range is copied and nothing else changes |
| `BlockLayout.WordsRoundTrip` | fs/sfs.h:63-70 | 128 words stored in a block are read back |
| `BlockLayout.EntriesOfWithEntry` | fs/sfs.h:73-81 | storing one 20-byte directory entry changes that entry and no other |
| `SfsPath.IsValidPath` | fs/sfs.c:297-330 | the scan accepts exactly a slash followed by valid elements of at most 15 characters |
| `SfsPath.ElementsFlatten` | fs/sfs.c:361-379 | the elements put together are the path minus its leading slash |
| `SfsPath.OnlyLastIsFile` | fs/sfs.c:347-379 | every element but the last ends in a slash, and the last does exactly when the path does |
| `SfsPath.NextPathElem` | fs/sfs.c:361-379 | delivers the first element and the rest, ends exactly at the end, and never overruns the 16-byte buffer on a valid path |
| `SfsPath.ActualFilename` | fs/sfs.c:332-345 | the last element of every path of two or more characters |
| `SfsTree.UniquePath` | fs/sfs.c:382-437 | in a tree where everything has one home, two paths to the same inode are equal |
| `SfsTree.RemovedPathIsGone` | fs/sfs.c:184-214 | after a name is taken out, neither its path nor any path through it resolves |
| `SfsTree.OthersStayAfterRemoval` | fs/sfs.c:184-214 | every other path resolves as before |
| `SfsTree.OthersStayAfterAddition` | fs/sfs.c:681-830 | after a name is added, every path not through it resolves as before |
| `SfsTree.AddedPathResolves` | fs/sfs.c:681-830 | the new path leads to the new inode and nothing is below it |
| `SfsBlocks.FirstFitIsFresh` | lib/bitmap.c:142-173 | blocks handed out one after the other are different and were all free |
| `SfsBlocks.FirstFitRunsOut` | fs/sfs.c:752-769 | the search after k successes fails exactly when only k blocks were free |
| `SfsBlocks.AllocateMany` | fs/sfs.c:759-769 | the allocation loop succeeds exactly when there are enough free blocks |
| `SfsSteps.TreeIsForest` | fs/sfs.c:382-437 | on a consistent volume every listed inode has one home folder and one name there |
| `SfsSteps.ResolvedNode` | fs/sfs.c:382-437 | a path leads to an existing inode, at home in the folder before it, a folder exactly when its last element ends in a slash |
| `SfsSteps.OpenedKeeps` | fs/sfs.c:217-265 | opening keeps one row per inode and its exact count of openings |
| `SfsSteps.UnlistedKeeps` | fs/sfs.c:184-214 | taking a name out and marking the row deleted keeps the volume consistent |
| `SfsSteps.UnlistedView` | fs/sfs.c:184-214 | exactly that name leaves the tree and no file changes |
| `SfsRelease.DestroyedKeeps` | fs/sfs.c:128-181 | freeing an unreachable inode keeps the volume consistent: marked blocks are exactly the system blocks and the owned ones, each with one owner |
| `SfsRelease.DestroyedFrees` | fs/sfs.c:128-181 | exactly the inode's own blocks become free, once |
| `SfsRelease.ClosedKeeps` | fs/sfs.c:271-283 | a close keeps consistency and is invisible unless it is the last close of a removed file |
| `SfsEffects.PicksAreHigh` | fs/sfs.c:752-769 | blocks that are clear in the bitmap of a consistent volume are no system blocks and belong to no inode, listed or only open |
| `SfsEffects.PlanIsSound` | fs/sfs.c:681-776 | what the searches of `sfs_create` come up with is a new valid name, a free entry and blocks that belong to nobody |
| `SfsCreate.CreatedKeeps` | fs/sfs.c:681-830 | creating keeps the volume consistent |
| `SfsCreate.CreatedTree` | fs/sfs.c:778-826 | the tree gains exactly one name, and a new folder is empty |
| `SfsCreate.CreatedFiles` | fs/sfs.c:794-815 | a new file is all zeros and every other file keeps its bytes |
| `SfsCreate.CreatedTakes` | fs/sfs.c:752-784 | exactly the planned blocks are taken |
| `SfsEffects.RemoveEffect` | fs/sfs.c:842-863 | a removed file that is open stays whole and marked; one that is not open is gone and its blocks are free |
| `SfsEffects.RemovedPaths` | fs/sfs.c:842-863 | after a removal the path leads nowhere and all others lead where they led |
| `SfsEffects.NameIsReusable` | fs/sfs.c:184-214 | after a removal, also with old handles open, whatever fits an inode can be created under the same path if and only if there is space |
| `SfsEffects.CreatedPaths` | fs/sfs.c:681-830 | after a creation the path leads to the new inode and all others lead where they led |
| `SfsEffects.CreateEffect` | fs/sfs.c:681-830 | the new state in terms of names, bytes, free space and handles |
| `SfsData.StoreInBlock` | fs/sfs.c:1087-1162 | storing a run over one block stores the same run over the file |
| `SfsData.OnlyDataView` | fs/sfs.c:1087-1162 | writing data blocks of one file changes no other file, name or free block |
| `SfsVolume.Volume.constructor` | util/tfstool.c:193-214 | a freshly formatted volume is consistent |
| `SfsVolume.FormattedInv` | util/tfstool.c:193-214 | blocks 0 to 2 marked, an empty root, nothing else |
| `SfsVolume.Volume.Resolve` | fs/sfs.c:382-437 | the walk over disk blocks agrees with lookup in the tree, for result, parent and "parent exists" |
| `SfsVolume.Volume.FindRow` | fs/sfs.c:224-237 | the row of the file, else a free one, else none |
| `SfsVolume.Volume.EnterOpen` | fs/sfs.c:217-265 | one more opening in that row, and for a removal the name taken out, or nothing changed |
| `SfsVolume.Volume.Enter` | fs/sfs.c:267-269 | the row of an open file, or none exactly when it is not open |
| `SfsVolume.Volume.Exit` | fs/sfs.c:271-283 | one opening less; at the last one the row is reset and a removed file destroyed |
| `SfsVolume.Volume.Delete` | fs/sfs.c:128-181 | frees the inode's blocks and makes rows forget a destroyed folder |
| `SfsVolume.Volume.DeleteFromDirtree` | fs/sfs.c:184-214 | clears the entry in the parent's block and nothing else |
| `SfsVolume.Volume.Open` | fs/sfs.c:613-640 | returns what the path leads to and adds a handle, or fails exactly for no target or no row, with nothing changed |
| `SfsVolume.Volume.Close` | fs/sfs.c:652-665 | takes one handle; a removed file vanishes with its blocks exactly at its last close; fails exactly when the file is not open |
| `SfsVolume.Volume.Create` | fs/sfs.c:681-830 | all or nothing: succeeds exactly under `CanCreate`, else every block is unchanged; free space falls by 512 for each block needed |
| `SfsVolume.Volume.Remove` | fs/sfs.c:842-863 | the path stops resolving; an open file keeps its bytes and handles; refused for the root, for no target and for no row |
| `SfsVolume.Volume.Read` | fs/sfs.c:893-1016 | exactly content[offset..offset+min(bufsize,size-offset)] reaches the buffer, or the listing of a folder, or an error; the volume is unchanged |
| `SfsVolume.Volume.ReadBlocks` | fs/sfs.c:970-1010 | the block loop refines a flat copy for all offsets and lengths |
| `SfsVolume.Volume.ReadFolder` | fs/sfs.c:924-949 | the number of names and the names with their NULs |
| `SfsVolume.Volume.Write` | fs/sfs.c:1045-1167 | exactly that range of that file changes, nothing else on the volume |
| `SfsVolume.Volume.WriteBlocks` | fs/sfs.c:1099-1162 | the block loop refines a flat store for all offsets and lengths |
| `SfsVolume.Volume.GetFree` | fs/sfs.c:1178-1201 | 512 times the clear bits |
| `SfsVolume.ReadAfterWrite` | fs/sfs.c:1045-1167 | a read of the range just written returns the bytes written |
| `SfsRuns.HandleKeepsFile` | fs/sfs.c:184-283 | through any run of operations by anybody, a file that always has a handle open keeps its bytes, changed only by the writes made to it |
| `SfsRuns.OpenHappens` | fs/sfs.c:613-640 | a successful open is a transition of these runs, a failed one changes nothing |
| `SfsRuns.CloseHappens` | fs/sfs.c:652-665 | the same of close |
| `SfsRuns.CreateHappens` | fs/sfs.c:681-830 | the same of create |
| `SfsRuns.RemoveHappens` | fs/sfs.c:842-863 | the same of remove |
| `SfsRuns.WriteHappens` | fs/sfs.c:1045-1167 | the same of write |
| `SfsRuns.UseAfterRemoval` | fs/sfs.c:217-283 | a client that opens a file, removes it, creates another under its name, writes and reads through the old handle and closes it: the name is free from the removal on, the new file is made exactly when there is space, the bytes come back through the old handle, and the last close frees exactly 512*(1+ceil(size/512)) bytes and leaves the new file alone |
| `SfsRuns.CostOf` | fs/sfs.c:681-830 | a file costs 512*(1+ceil(size/512)) bytes, a folder 512 |
| `SfsRuns.CreateRemoveRestores` | fs/sfs.c:128-181 | creating and then removing restores free space, inodes and files |
| `SfsClients.ReadFailsIff` | fs/sfs.c:957-968 | a read of an open file fails if and only if the offset is negative or beyond the size, and is short only at the end of the file |
| `SfsClients.WriteFailsIff` | fs/sfs.c:1087-1099 | the same of writes |
| `SfsClients.ReadToEnd` | fs/sfs.c:893-1018 | reading piece by piece with any buffer until nothing comes never fails, ends, and gives the file |
| `SfsClients.FolderReadFailsIff` | fs/sfs.c:924-931 | a read of an open folder fails if and only if it is not from the start with room for a block |
| `SfsClients.ListingIsFolder` | fs/sfs.c:932-949 | the first word of a listing is the number of names, and its NULs end exactly the names of the folder, each once |
| `SfsClients.ListFolder` | fs/sfs.c:924-949 | a caller that takes a listing apart has the names of the folder |
| `SfsClients.RowIff` | fs/sfs.c:224-237 | an inode can be opened if and only if it is open already or fewer than 32 are |
| `SfsClients.FirstCreation` | fs/sfs.c:681-830 | on a fresh volume something can be created in the root folder if and only if its name has up to fifteen allowed characters, it is a folder or of at most 127 blocks, and all blocks but three are enough for it |
| `PagePool.Pool.constructor` | vm/pagepool.c:74-101 | the static area is marked and the counter counts the rest |
| `PagePool.TakenOk` | vm/pagepool.c:109-131 | taking a clear page keeps counter and bitmap in step, and the page was out of nobody's hands and not static |
| `PagePool.GivenBackOk` | vm/pagepool.c:139-160 | giving a page back keeps them in step |
| `PagePool.Pool.Get` | vm/pagepool.c:109-131 | the lowest free page, never one that is out or static; zero exactly when none is free; the kernel's assertion holds |
| `PagePool.Pool.Free` | vm/pagepool.c:139-160 | the page is no longer out, and an assertion stops the kernel exactly when it was not out |
| `PageTable.CreatePagetable` | vm/vm.c:89-109 | a new empty table on a page of its own, or null exactly when no page is free |
| `PageTable.Table.Map` | vm/vm.c:143-242 | maps exactly that page and adds its frame to those of the table, or fails exactly when it is mapped or there is no entry left |
| `PageTable.Table.GetEntry` | vm/vm.c:287-302 | the entry of the page's pair, or none |
| `PageTable.Table.Unmap` | vm/vm.c:315-339 | the half becomes invalid and its frame number, valid or not, goes back to the pool, or the kernel stops exactly when that frame is not out |
| `PageTable.Table.SetDirty` | vm/vm.c:353-384 | only that page's write permission changes |
| `PageTable.Table.ReleaseAll` | proc/process.c:152-168 | every mapped frame and then the table's page go back, in order, up to the first that is not out |
| `PageTable.Table.ExitRelease` | proc/syscall_handler_proc.c:106-143 | from any table: the heap's frame number, every frame still mapped and the table's page go back in order, up to the first that is not out, and all entries become invalid |
| `PageTable.ExitReleasesIff` | proc/syscall_handler_proc.c:106-143 | exit releases exactly the process's pages if and only if the heap page is mapped or its pair has no entry |
| `PageTable.StaleHeapExample` | vm/vm.c:315-339 | a stale heap frame stops exit at an assertion or takes another owner's page |
| `ProcessPages.HoldsMore` | vm/vm.c:143-242 | mapping a page that was not out keeps a process's pages all different, all out and nobody else's |
| `ProcessPages.UnmapKeepsIff` | vm/vm.c:315-339 | unmapping gives up the process's own page, if any, and leaves it the others, if and only if the page is mapped or its pair has no entry |
| `ProcessPages.GetAndMap` | proc/process.c:375-384 | succeeds exactly when a page is free, the virtual page is not mapped and its pair has an entry or can get one; then it is the process's; a page that cannot be mapped is lost, and counted |
| `ProcessPages.Unmap` | vm/vm.c:315-339 | as `vm_unmap`; stops only on a stale frame number, and otherwise keeps pool, table and their description by addresses in step |
| `ProcessPages.MapImage` | proc/process.c:322-363 | the loops over stack and segments map every page or stop at the first failure, exactly as `MapWhile` says of the addresses and the free pages |
| `ProcessPages.Serve` | proc/syscall_handler_proc.c:275-289 | any sequence of mappings and of unmappings without a look leaves pool and table as `ServeAll` says of the addresses, or stops on a stale frame number |
| `ProcessPages.Restore` | proc/process.c:136-169 | from any table, with the heap address in the process entry, zero or not: exactly these frame numbers go back in order, up to the first that is not out |
| `ProcessPages.RunProcess` | proc/process.c:289-443 | with any image, heap address, address left in the entry and later requests: unless stopped, the fate is as `LifeOf` says and as many pages more are out as are lost, less one for each stale frame number; nothing stops it, nobody else's page is touched and only lost pages stay out if and only if there is no stale frame number |
| `ProcessPages.StaleHeapIsReached` | proc/process.c:352-379 | an image that ends on an even page with a new entry leaves the heap page, its neighbour, in the state where the clean-up frees a stale frame number |
| `ProcessLife.MapWhileStops` | proc/process.c:322-363 | mapping up to the first failure maps exactly the pages before the first that is wasted or for which there is no page |
| `ProcessLife.FateIff` | proc/process.c:289-443 | each of the five fates exactly when the pages for table, image and heap are there, none of them is asked for twice or finds no entry, and the image can be read, in this order |
| `ProcessLife.LosesIff` | proc/process.c:322-384 | a process that unmaps nothing in between loses a page if and only if, while pages are left, it asks for one it has asked for before or for a pair for which there is no entry |
| `ProcessLife.StaleIff` | proc/process.c:84-89 | such a process hands back a stale frame number if and only if its start fails with the heap address in its entry, old or new, next to a page mapped so far |
| `ProcessLife.ServingIff` | proc/syscall_handler_proc.c:275-289 | with unmapping: it happens exactly at a request to unmap an unmapped page whose pair has an entry, and a page is lost exactly at a request that cannot be mapped while pages are left |
| `ProcessLife.LostPageExample` | proc/process.c:335-363 | two segments on one page lose a page |
| `ProcessLife.StaleStartExample` | proc/process.c:365-384 | an image that takes the last page, with the heap page next to it |
| `ProcessLife.LeftHeapExample` | proc/process.c:246-268 | a failing image in an entry that holds the heap address of the process before |
| `Memlimit.ShrinkIs` | proc/syscall_handler_proc.c:285-289 | exactly the pages above the new end are unmapped; a frame number is stale exactly when one of them was not mapped while its pair has an entry |
| `Memlimit.GrowIs` | proc/syscall_handler_proc.c:273-284 | every new page is mapped but those for whose pair there is no entry left |
| `Memlimit.CallStaleIff` | proc/syscall_handler_proc.c:247-298 | whatever the shared offset, a call hands back a stale frame number if and only if it is not refused and a page between the new end and the offset's end is unmapped with an entry for its pair |
| `Memlimit.OwnOffset` | proc/syscall_handler_proc.c:247-298 | with the process's own offset no frame number is stale, the heap keeps all its pages unless the table is full, and the call is refused exactly out of range or for want of pages |
| `Memlimit.OwnOffsetLife` | proc/syscall_handler_proc.c:247-298 | a process that alone has moved its heap's end, by any calls, hands back no stale frame number in its life as long as its table does not fill up |
| `Memlimit.ForeignOffsetExample` | proc/syscall_handler_proc.c:248-258 | after another process has grown its heap by a page, setting the end to where it is unmaps a page that was never mapped |
| `Memlimit.LooksMappable` | proc/syscall_handler_proc.c:208-233 | true exactly with an entry for each page and none of them mapped |
| `Memlimit.MoveEnd` | proc/syscall_handler_proc.c:247-298 | asked for nothing it answers where the heap ends; otherwise the end asked for, or zero exactly when it refuses, and then nothing has changed; pool and table are as the functions of the addresses say, or the kernel stops on a stale frame number |
| `Memlimit.MoveAndAsk` | proc/syscall_handler_proc.c:291-297 | after a call that answers an end, that is the end asked for and the heap ends there; after one that answers zero, it ends where it did |
| `Water.StepKeeps` | kernel_tests/make_water.c:28-56 | every step keeps the semaphore law, who sleeps where, and the bounds of the counter |
| `Water.MoleculesAreMaximal` | kernel_tests/make_water.c:28-61 | every stuck state, for any numbers of atoms and any schedule, has min(nO, nH div 2) molecules and exactly twice as many hydrogens returned |
| `Water.CounterRightIff` | kernel_tests/make_water.c:58-61 | `waterCreated` equals that number in every stuck state if and only if it is at most one |
| `Water.LostUpdate` | kernel_tests/make_water.c:58-61 | for two or more oxygens and four or more hydrogens there is a run that loses an update for good |
| `Water.RunsAreBounded` | kernel_tests/make_water.c:28-56 | every run has at most 2 nH + 8 nO steps |
| `Decimal.DigitsHaveValue` | lib/xprintf.c:166-215 | the digits printed stand for the number |
| `Decimal.FewDigits` | lib/xprintf.c:166-215 | eleven digits are enough for every 32-bit number in base 8, 10 or 16 |
| `Decimal.CollectDigits` | lib/xprintf.c:180-188 | the digit loop fills the reverse buffer with exactly the digits and never exceeds its eleven bytes |
| `Decimal.PrintUint` | lib/xprintf.c:166-215 | as much of the padded text as the size allows, in order, and its length |
| `Decimal.UnsignedReadsBack` | lib/xprintf.c:166-215 | the text is blanks and then digits of the base, in the case asked for, that stand for the number: as many as it has or the precision asks for, and filled up to the width |
| `Decimal.NoLeadingZero` | lib/xprintf.c:180-188 | without a precision no number but zero begins with a zero |
| `Decimal.FormatSigned` | lib/xprintf.c:317-336 | makes exactly the stores of `Trace`, sign, digits and NUL with their indices, and returns the count or -1 |
| `Decimal.FormattedText` | lib/xprintf.c:240-405 | when the sign fits, the buffer holds the whole text and a NUL, or a cut text and a NUL with -1 returned, and the bytes behind it are untouched |
| `Decimal.StaysInBufferIff` | lib/xprintf.c:317-336 | no byte is stored at or beyond the size if and only if the sign characters fit into it |
| `Decimal.OverrunExample` | lib/xprintf.c:317-336 | `%+d` of -1 into one byte stores three and returns 2 |
| `Decimal.Atoi` | lib/libc.c:249-278 | blanks, one sign, digits up to the first other character, with wrap-around |
| `Decimal.AtoiReads` | lib/libc.c:249-278 | of blanks, at most one sign, digits, and anything that is no digit, `atoi` makes the number of the digits reduced to 32 bits |
| `Decimal.RoundTripIff` | lib/xprintf.c:317-336 | for every 32-bit number `atoi` reads `%d` output back; with a flag exactly when the number is not negative |

## Left out

- Disk input and output failures in SFS: blocks read and write successfully.
- `sfs_unmount` and mounting an image that was not freshly formatted.
- The null-pointer checks of the path functions.
- SfsVolume.Volume.Open: resolve and enter are one step, although the source holds different locks for the two halves.
- SfsVolume.Volume.Read: atomic, as is the write: a handle is assumed to stay open while a read or write on it is in flight, so that leaving never closes the row. The interleaving of reads and writes of one file is the subject of `ReadersWriter` and `FileAccess`.
- "Allocated implies reachable" after the removal of a non-empty folder: only the folder's own block is freed, so ownership is proved there, not freedom from leaks.
- Wrap-around of the clock within a run: the timed list is ordered by the times as they are stored.
- Decimal.FormatSigned: one conversion with nothing around it; widths, precisions and the other conversions of `vxnprintf` are not modelled.
- PageTable.Table.Map: the global bits, the address space identifier and the TLB are not modelled.
- PagePool.Pool.Free: a frame number beyond the memory counts as one that is not out; the source looks behind its bitmap.
- ProcessPages.RunProcess: no other process takes or gives back pages while the life of one is followed.
- FileAccess.AccessesAreAtomic: one file of fixed size; the inode block, which no read or write changes, is not read as a step of its own.
- LockCond.StepKeeps: one lock with one condition variable; the tables that locks and conditions are created from are left out.
- Context of threads, user processes, the process child list, `vm_get_vaddr_page_offsets`.
- `fs/tfs.c`, VFS mounting and counting, drivers, networking, the console, bootstrapping, user programs: easier members or hardware.
