# A verified model of the Karg kernel

Karg is a single-core RISC-V kernel. This project models its process machinery, its
allocators, its page tables and program loader, its terminal input path and the intrusive
list they share, and proves what they keep over every run. `dafny verify dfyconfig.toml`
checks all of it.

The form follows the source. Each entry point of the kernel is a method of a class whose
fields it updates (`Scheduler`, `System`, `TimerQueue`, `Terminal`, `KernelHeap`,
`PageAllocator`, `AddressSpace`, `Loader`, `Node`), with the loops of the source; its
postcondition equates the new state with a function of the old one. Those functions form
step machines, and the theorems are about all their runs:

| file | what it models |
|---|---|
| Ring.dfy, Queues.dfy | `include/list.h` on the heap, refining sequences |
| Timers.dfy, Semaphores.dfy | `src/timer.c`, `src/sync/sem.c` |
| Sched.dfy, SchedSteps.dfy, Scheduler.dfy | `src/sched.c`, `src/syscalls/sleep.c`, `src/syscalls/yield.c` |
| ProcTree.dfy, History.dfy, Pids.dfy, Lifecycle.dfy, KernelObject.dfy | `src/proc.c`, `src/syscalls/{exit,wait,proc}.c` |
| Runs.dfy, KernelTheorems.dfy, KernelRuns.dfy | all runs of the kernel from boot, and some in particular |
| ListOrder.dfy, SemRuns.dfy, Answers.dfy | over those runs: the order of the child lists, the semaphores, and what the calls answer |
| PageAlloc.dfy, ProcPages.dfy | `src/mm/page_alloc.c`, and the stack pages of processes over all runs |
| Tty.dfy, TtyObject.dfy | `src/drivers/{ldisc,tty}.c` |
| Kalloc.dfy, KallocTheorems.dfy, KallocObject.dfy | `src/mm/kalloc.c` |
| Sv39.dfy, Sv39Map.dfy, Sv39Runs.dfy, Sv39Object.dfy | `src/arch/riscv/vm.c` |
| Elf.dfy, ElfFormat.dfy, ElfLoader.dfy, ElfFiles.dfy, Bytes.dfy | `src/elf.c`, the file format it reads, and files of one segment |
| Argv.dfy | the two stacks of a new process: `src/proc.c`, `src/arch/riscv/proc.c` |
| Errno.dfy | the error numbers the modelled calls return |

A kernel entry runs without interruption up to its context switch, so it is one step; what
follows a block in `sys_wait` is a step of its own (`Resume`). Interrupts may come between
any two steps, which is more than the hardware allows. Processes are named by the address of
their `proc_t`. Fields described as history (`birth`, `readied`, `stamp`, `armed`, `log`,
`taken`, `lent`, `kept`, `role`, `editor`, `delivered`, `owners`, `req`) are read by no code; they let the
theorems speak about the past. `Lifecycle.Inv` is the kernel's invariant: `BootInv` shows
that boot establishes it, `NextInv` that every step keeps it, and the step theorems that
assume it therefore hold in every reachable state.

What the code does where its documentation or a caller might expect something else, each
with the exact condition and, for most, an input on which it shows:

- The ready queue is a stack, not the round-robin queue of `docs/README.md:28`, and nothing
  takes the CPU from a process: `SwitchesExactly` lists the steps that change `curr_proc`,
  `SuccessorReadiedLast` says who comes next. Idle, once it has the CPU, never gives it back
  (`IdleForever`), against `docs/README.md:25`. `StopsExactly` says which steps stop the system
  for good; one sleep of init right after boot is such a step (`BootSleepStops`), and
  `BootSleepStrands` is a run that leaves init READY for ever.
- A sleep whose end lies beyond the wrap of the 64-bit counter is cut short. `ExpiryOnTime` says when
  that is, `SleepLastsItsTime` how long every other sleep lasts; in `SleepCutShort` init asks for
  20 milliseconds and is READY one tick later.
- `new_pid` never looks at the last pid it gave out. `NewPidExact` says when it fails;
  `NewPidMissesLast` is a run after which a spawn gets -EAGAIN with a slot free.
- Adoption of a zombie does not wake a waiting init. `InitSleepsThroughAdoption` says when it
  stays asleep; `InitMissesZombie` is a run that ends with init blocked and holding a zombie.
- A full terminal ring drops newlines too. `FullLineStuck` says which bytes have no effect;
  `LongLineLost` shows it for every first line of 127 bytes.
- A failed spawn gives no page back. `FailedSpawnLoses` says when it loses some;
  `LastPageLost` is a state in which init's first spawn takes the last page and fails.
- A lookup ignores the leaf's valid bit. `NeverMappedFaults` says which pages that were never
  mapped fault; `NeverMappedTranslates` is a map of page 1 after which address 0 translates.
- An entry holds 44 bits of the page number. `MapThenLookup` says for which frames the lookup
  gives the frame mapped; `FrameTruncated` is a map of 2^56 that translates to 0.
- A segment is loaded from the start of its first page, wherever in that page it should
  begin. `ShiftedRead` says what each address then reads, `ImageExact` and `SuppliedAlone` when
  that is the image asked for; `ShiftedImageWrong` is a file on which it is not.
- A `kmalloc` request near 2^64 wraps. `RoomUnlessWrapped` says when the block granted has room;
  `WrappedRequest` is a request that gets a block of no bytes.
- The argument vector is not checked against the size of the stack page, and the words stored
  on the kernel stack afterwards may run over it. `OverwrittenExactly` says for which sizes
  and pages they meet it, `BuiltExactly` what then stays in place; `LongArgumentDamaged` is one
  argument that loses its first letter.
- Initialising a semaphore again loses its waiters; `SemInitedValid` says when it does no harm,
  and `SemInitLosesWaiter` is a run in which it does.
- The value of a semaphore has 32 bits. `OverflowExactly` says which histories overflow it;
  `TooManySignals` is one.
- `sys_wait` reads the pid of the reaped process after `kfree`; the model takes the value
  the record had before.

## Model

| member | source | states |
|---|---|---|
| `Ring.Node.constructor` | include/list.h:12-15 | a fresh head is a ring of no entries |
| `Ring.Front` | include/list.h:17 | the first entry, or the head itself when the list is empty |
| `Ring.Back` | include/list.h:19 | the last entry, or the head itself when the list is empty |
| `Ring.Empty` | include/list.h:21-23 | true exactly for the list of no entries |
| `Ring.Insert` | include/list.h:40-45 | the ring of the sequence with the node inserted at that place; every other ring with no common node is untouched |
| `Ring.PushFront` | include/list.h:47-49 | the ring of the node followed by the old entries |
| `Ring.PushBack` | include/list.h:51-53 | the ring of the old entries followed by the node |
| `Ring.Remove` | include/list.h:55-58 | the ring without that entry, the removed node's own links and all other rings untouched; removing a self-linked node changes nothing |
| `Ring.RemoveInit` | include/list.h:60-64 | the ring without that entry, and the node a ring of its own |
| `Ring.PopFront` | include/list.h:66-68 | the ring of all entries but the first |
| `Ring.PopBack` | include/list.h:70-72 | the ring of all entries but the last |
| `Queues.WithoutMembers` | include/list.h:55-58 | removal takes out exactly that entry and leaves no repetition |
| `Timers.Slot` | src/timer.c:17-25 | the place of a new timer: after everything due no later, before everything due strictly later |
| `Timers.ExpiryOnTime` | src/timer.c:13 | on the 64-bit counter the expiry is as many ticks of 100 nanoseconds ahead as fit in the time asked; it is not in the past exactly if the counter does not wrap before |
| `Timers.ArmedValid` | src/timer.c:11-30 | arming keeps the queue strictly ordered by deadline with ties in arming order, adds exactly that timer, and keeps the hardware deadline the earliest one |
| `Timers.ArmedOnTime` | src/timer.c:11-30 | the timer armed is pending, and every one of that name is due on time |
| `Timers.FiredValid` | src/timer.c:43-50 | the timer fired precedes all others pending; the rest stays ordered and the hardware matches |
| `Timers.CancelledValid` | src/timer.c:32-41 | cancelling removes that timer alone and reprograms the hardware; a timer not pending changes nothing |
| `Timers.TimerQueue.Wait` | src/timer.c:11-30 | the insertion loop computes the ordered insertion, and the timer is then pending for the nanoseconds asked, at 100 to a tick |
| `Timers.TimerQueue.Cancel` | src/timer.c:32-41 | the queue without the timer, the hardware deadline recomputed |
| `Timers.TimerQueue.Isr` | src/timer.c:43-50 | the first timer comes off and the next deadline is programmed |
| `Semaphores.GrantsAreFirstArrivals` | src/sync/sem.c:5-31 | for every history the waits let through are the first min(signals, waits) in arrival order, the queue holds the others in order, and the value is signals minus waits |
| `Semaphores.OverflowExactly` | src/sync/sem.c:18-31 | computed in 32 signed bits the history is the same exactly if signals minus waits fits in them at every point; otherwise it overflows |
| `Semaphores.TooManySignals` | src/sync/sem.c:25-26 | 2^31 signals with no wait overflow the value |
| `Sched.SwitchKeepsCurrent` | src/sched.c:88-97 | rescheduling a runnable process picks that same process |
| `Sched.BlockHandsOver` | src/sched.c:35-74 | blocking the current process hands the CPU to the head of the ready queue and changes nothing else |
| `Sched.SomebodyReady` | src/sched.c:88-94 | whenever a process other than idle runs, the ready queue has a real READY process at its head |
| `SchedSteps.BootValid` | src/sched.c:21-31 | boot ends with init running and idle alone on the ready queue, in a valid state |
| `SchedSteps.WokenValid` | src/sched.c:35-55 | waking a process that waits for a child keeps the invariant |
| `SchedSteps.HandOverValid` | src/sched.c:58-69 | blocking in wait, or exiting, keeps the invariant |
| `SchedSteps.TickedValid` | src/timer.c:43-53 | the timer interrupt with either callback keeps the invariant |
| `SchedSteps.SliceCallback` | src/sched.c:76-80 | the preemption callback, run from the interrupt, re-arms its timer and resumes the process it interrupted |
| `SchedSteps.SleeperCallback` | src/syscalls/sleep.c:5-7 | the wake-up callback readies its process; the timer it cancels is already off |
| `SchedSteps.SleptValid` | src/syscalls/sleep.c:9-15 | sleeping keeps the invariant |
| `SchedSteps.SemWaitedValid` | src/sync/sem.c:18-23 | waiting on a semaphore, blocked or not, keeps the invariant; what it does to the value and the queue is `SemRuns.StepAgrees` |
| `SchedSteps.SemSignaledValid` | src/sync/sem.c:25-31 | signalling keeps the invariant |
| `SchedSteps.SemInitedValid` | src/sync/sem.c:5-8 | initialising a semaphore, new or in use, keeps the invariant exactly if nobody waits on it |
| `KernelRuns.SemInitLosesWaiter` | src/sync/sem.c:5-8 | a run in which init waits on a semaphore whose second initialisation breaks the invariant |
| `SchedSteps.DrainReadiesAll` | src/sync/sem.c:10-16 | tearing down puts every waiter on the ready queue, last arrival first, and the current process runs on |
| `SchedSteps.DrainEmpties` | src/sync/sem.c:10-16 | tearing down empties the queue, leaves the value above zero, touches no other semaphore |
| `SchedSteps.DrainStatus` | src/sync/sem.c:10-16 | exactly the waiters become READY |
| `SchedSteps.DrainIsSignals` | src/sync/sem.c:10-37 | tearing down equals one signal per waiter and one more |
| `Scheduler.Scheduler.constructor` | src/sched.c:21-31 | after the module's setup idle is READY and alone |
| `Scheduler.Scheduler.UpdateState` | src/sched.c:35-74 | all branches of the state change, the reschedule included |
| `Scheduler.Scheduler.LeaveState` | src/sched.c:39-48 | the first switch: off the ready queue, or the timer cancelled |
| `Scheduler.Scheduler.EnterState` | src/sched.c:50-73 | the second switch, with the reschedule of a process that blocks itself |
| `Scheduler.Scheduler.Resched` | src/sched.c:88-97 | requeue if runnable, take the head, switch context |
| `Scheduler.Scheduler.Start` | src/sched.c:82-86 | the boot state, valid |
| `Scheduler.Scheduler.Yield` | src/syscalls/yield.c:5-9 | a yield changes nothing but the history |
| `Scheduler.Scheduler.Preempt` | src/sched.c:76-80 | re-arm the slice timer, then reschedule |
| `Scheduler.Scheduler.TimerIsr` | src/timer.c:43-53 | the queue is never empty; the interrupt is the tick step and keeps the invariant |
| `Scheduler.Scheduler.Sleep` | src/syscalls/sleep.c:9-15 | the sleep step, invariant kept; `KernelTheorems.SleepArms` gives the time it arms |
| `Scheduler.Scheduler.SemInit` | src/sync/sem.c:5-8 | a semaphore at zero with no waiters; the invariant holds after it exactly if nobody was waiting |
| `Scheduler.Scheduler.SemWait` | src/sync/sem.c:18-23 | the wait step, invariant kept; `SemRuns.SemOverRuns` gives value and queue |
| `Scheduler.Scheduler.SemSignal` | src/sync/sem.c:25-31 | the signal step, invariant kept; `SemRuns.SemOverRuns` gives value and queue |
| `Scheduler.Scheduler.SemSignalN` | src/sync/sem.c:33-37 | the loop is n signal steps |
| `Scheduler.Scheduler.SemDeinit` | src/sync/sem.c:10-16 | the loop terminates in the torn-down state |
| `Pids.FirstFree` | src/proc.c:19-24 | the least free slot of a range, none exactly if the range is full |
| `Pids.NewPidExact` | src/proc.c:17-32 | the pid is the first free slot in the cyclic scan after the last one; failure exactly when every slot but the last one given out is taken |
| `KernelRuns.NewPidMissesLast` | src/proc.c:17-32 | a state reached by a run on a growing clock, with a free pid, in which a spawn with memory, stacks and mappings at hand fails with -EAGAIN |
| `ProcTree.AdoptedTree` | src/syscalls/exit.c:10-20 | adoption of all children by init keeps the tree well formed |
| `ProcTree.AdoptedLinks` | src/proc.c:156-164 | exactly the children of the exiting process get init as parent, live ones and zombies on the matching lists |
| `ProcTree.BuriedTree` | src/syscalls/exit.c:22-24 | moving the exiting process to its parent's zombies keeps the tree well formed; its place there is `ListOrder.ExitLists` |
| `ProcTree.UnlinkedTree` | src/proc.c:141-143 | reaping a zombie keeps the tree well formed; no parent pointer to it remains |
| `ProcTree.GrownTree` | src/proc.c:135-138 | a new child keeps the tree well formed |
| `ProcTree.DescendsFromInit` | src/proc.c:93-164 | from every process but idle the parent pointers lead to init |
| `ProcTree.Acyclic` | src/proc.c:93-164 | no process is its own ancestor |
| `History.MaskedStatus` | src/syscalls/wait.c:24-25 | the masked status is the low eight bits of the exit argument, through the conversion to 32 signed bits |
| `History.ExitHistory` | src/syscalls/exit.c:6-8 | an exit is the first of that process, and its status stays in its record until it is reaped |
| `History.ReapHistory` | src/syscalls/wait.c:23-28 | a reaping is the first of that process, follows its exit and delivers its status |
| `History.CodeInRecord` | src/syscalls/wait.c:24-25 | the record of a zombie holds, in its low eight bits, those of the argument of its exit |
| `History.SpawnHistory` | src/proc.c:135-138 | a new process has no past |
| `Lifecycle.SpawnedInv` | src/syscalls/proc.c:7-27 | spawning, in every outcome, keeps the kernel invariant |
| `Lifecycle.ReapedInv` | src/syscalls/wait.c:23-28 | reaping a zombie child keeps it |
| `Lifecycle.WaitedInv` | src/syscalls/wait.c:7-21 | waiting, in every outcome, keeps it |
| `Lifecycle.ResumeFacts` | src/syscalls/wait.c:20-21 | a process that resumes in wait finds a zombie child of its own recorded |
| `Lifecycle.ResumedInv` | src/syscalls/wait.c:21-28 | the rest of wait keeps it |
| `Lifecycle.ExitStatuses` | src/syscalls/exit.c:26-31 | the caller becomes a zombie, the waiting parent or else the head of the queue runs, nobody else changes state |
| `Lifecycle.ExitRecords` | src/syscalls/exit.c:10-29 | which fields of which records an exit changes; the lists themselves are `ListOrder.ExitLists` |
| `Lifecycle.ExitedInv` | src/syscalls/exit.c:5-33 | exiting keeps the kernel invariant |
| `Runs.BootPids` | src/kmain.c:23-25 | idle and init get pids 0 and 1 |
| `Runs.BootInv` | src/kmain.c:13-32 | the boot state satisfies the invariant |
| `Runs.NextInv` | src/arch/riscv/trap.c:23-48 | every kernel entry keeps the invariant |
| `Runs.ReachableInv` | src/arch/riscv/trap.c:23-48 | the invariant holds in every reachable state |
| `Runs.ReachableByOn` | src/timer.c:11-30 | a run on a growing clock goes on with any enabled step that reads a later time |
| `KernelTheorems.OnePlace` | src/sched.c:35-97 | in every reachable state each process is in exactly one place, the one its state names |
| `KernelTheorems.RunsAsCurrent` | src/sched.c:88-97 | the process whose context was switched to is `curr_proc` and in state CURR |
| `KernelTheorems.SemFloor` | src/sync/sem.c:18-23 | in every reachable state no semaphore's value is below minus the size of the process table |
| `KernelTheorems.TreeOverRuns` | src/proc.c:93-164 | in every reachable state parents and child lists agree, every process but idle climbs to init, and holds its own table slot and no other |
| `KernelTheorems.HandshakeOverRuns` | src/syscalls/wait.c:7-29 | over all runs nobody exits or is reaped twice, each reaping is by the parent of that moment with the masked status of that exit, and every process created exists or was reaped |
| `KernelTheorems.BlockedHasLiveChild` | src/syscalls/wait.c:10-20 | a process blocked in wait has a live child and, unless it is init, no zombie: no wake-up is lost |
| `KernelTheorems.ExitHandsOver` | src/syscalls/exit.c:26-31 | an exit hands the CPU directly to the waiting parent with the child recorded |
| `KernelTheorems.AwaitedChildStays` | src/syscalls/wait.c:20-28 | until the parent has resumed, no step takes its CPU or touches the recorded child |
| `KernelTheorems.InitSleepsThroughAdoption` | src/proc.c:156-164 | a waiting init stays blocked after an exit exactly if the caller was not its own child, whatever zombies it inherits |
| `KernelRuns.InitMissesZombie` | src/proc.c:156-164 | a run of three generations, on a growing clock, that ends with init blocked in wait and holding a zombie it could reap |
| `KernelTheorems.SwitchesExactly` | src/sched.c:52-69 | the current process changes exactly in a sleep, an exit, a semaphore wait with nothing left, and a wait for a child with children but no zombie |
| `KernelTheorems.SwitchIsHandOver` | src/sched.c:88-97 | every change of the current process gives the CPU to the head of the ready queue |
| `KernelTheorems.SuccessorReadiedLast` | src/sched.c:88-94 | the successor is the process readied last among all that are READY |
| `KernelTheorems.IdleIsLastResort` | src/sched.c:88-94 | a process that gives up the CPU leaves it to idle exactly if nobody else is READY and it wakes no parent by exiting |
| `KernelTheorems.IdleForever` | src/sched.c:88-97 | in every continuation of a state where idle runs, idle runs |
| `KernelTheorems.StopsExactly` | src/sched.c:52-97 | after a step no process but idle runs in any continuation exactly if the step gives up the CPU with only idle READY and wakes no parent |
| `KernelTheorems.BootSleepStops` | src/kmain.c:30-31 | a sleep of init right after boot has that effect |
| `KernelRuns.BootSleepStrands` | src/kmain.c:30-31 | the run in which init sleeps at time 10 and its timer fires at 11 ends with init READY and idle running |
| `KernelTheorems.TimerOverRuns` | src/timer.c:43-53 | in every reachable state the queue is ordered and non-empty, the hardware waits for its head, and a fired timer is due and precedes all others |
| `KernelTheorems.NoEarlyWake` | src/syscalls/sleep.c:5-15 | a sleeper leaves SLEEP only by the tick of its own timer, at or after its deadline |
| `KernelTheorems.SleepLastsItsTime` | src/syscalls/sleep.c:5-15 | over runs: a process that called sleep leaves SLEEP only in a tick, at or after the deadline of that very call, and, unless the counter wraps before that deadline, only when the nanoseconds asked have passed, up to one tick |
| `KernelTheorems.DueKept` | src/timer.c:11-53 | no step moves the pending deadline of a process that goes on sleeping |
| `KernelTheorems.SleepArms` | src/syscalls/sleep.c:9-15 | after a sleep the caller's timer is pending for the time asked |
| `KernelTheorems.SliceArms` | src/sched.c:76-80 | whenever the slice timer fires it is pending again, 100 000 ticks after that time |
| `KernelTheorems.BootSlice` | src/sched.c:82-86 | at boot it is pending 100 000 ticks after the start |
| `KernelRuns.SleepCutShort` | src/timer.c:13 | a run in which init sleeps for 20 milliseconds, 15 before the counter wraps, and is READY one tick later |
| `ListOrder.ExitLists` | src/syscalls/exit.c:10-24 | after an exit, for every process: its children and its zombies, as sequences; the caller is the last zombie of its parent, and its own lists stand, in order, at the end of init's |
| `ListOrder.NextOrder` | src/syscalls/exit.c:22-24 | every step keeps the zombies of each process but init in the order of their exits, and its children in the order of their births |
| `ListOrder.OrderOverRuns` | src/syscalls/exit.c:22-24 | so they are in every reachable state |
| `ListOrder.WaitReapsFirst` | src/syscalls/wait.c:15-18 | over runs: the child a wait reaps at once exited before every other zombie child of the caller, unless the caller is init |
| `ListOrder.WaitReapsHead` | src/syscalls/wait.c:15-18 | for init too it is the first of the list |
| `SemRuns.StepAgrees` | src/sync/sem.c:5-31 | every kernel step takes the value and the queue of each semaphore on as its history of waits and signals does |
| `SemRuns.SemOverRuns` | src/sync/sem.c:5-31 | in every run the value of a semaphore is signals minus waits since it was initialised last, and its queue is the waits beyond the number of signals, in the order in which they came |
| `Answers.WaitAnswers` | src/syscalls/wait.c:10-18 | no child exactly if no process has the caller as parent; blocked exactly if there are children and none is a zombie |
| `Answers.WaitDelivers` | src/syscalls/wait.c:15-28 | otherwise the slot of a zombie child of the caller and the low eight bits of its exit argument; that process is gone and its slot free |
| `Answers.ResumeDelivers` | src/syscalls/wait.c:20-28 | the same of the recorded child, after a block |
| `Answers.SpawnAnswers` | src/syscalls/proc.c:7-27 | -14, -12, -11 or a pid, each exactly in its cases; after an error nothing has changed but, past the pid, the last pid given out |
| `Answers.SpawnMakes` | src/syscalls/proc.c:18-26 | the pid was free and is the new process's; it is READY, without children, and last among those of the caller; nobody else changes state |
| `KernelObject.NextChild` | src/syscalls/exit.c:10-14 | the next child to adopt is a live child of the caller, different from init, not moved before |
| `KernelObject.MoveChild` | src/syscalls/exit.c:10-14 | one pass of the first loop moves one more child |
| `KernelObject.MoveCorpse` | src/syscalls/exit.c:16-20 | one pass of the second loop moves one more zombie |
| `KernelObject.System.constructor` | src/kmain.c:13-32 | the boot state of the kernel and of its pages |
| `KernelObject.System.FirstProcs` | src/kmain.c:13-25 | idle and init with pids 0 and 1, idle's stacks after the pages of the drivers, init's after those of the program |
| `KernelObject.System.Register` | src/proc.c:93-139 | a process without parent gets the next pid, its slot, its record and the first two free pages as stacks |
| `KernelObject.System.InitStacks` | src/proc.c:70-74 | the first two free pages become the stacks, or the call fails and what it took stays taken |
| `KernelObject.System.Enlist` | src/proc.c:135-138 | slot, place among the children, and the way to the ready queue |
| `KernelObject.System.NextPid` | src/proc.c:17-32 | the two loops compute the cyclic scan and move the static last pid |
| `KernelObject.System.Spawn` | src/syscalls/proc.c:7-27 | the spawn step of the kernel with its pages, and its result; -ENOMEM if fewer than two pages are free |
| `KernelObject.System.Bury` | src/proc.c:141-147 | the reaping step; user and kernel stack go to the end of the free list; pid and masked status returned |
| `KernelObject.System.Wait` | src/syscalls/wait.c:7-29 | the wait step; no child, the first zombie, or blocked |
| `KernelObject.System.Resume` | src/syscalls/wait.c:20-29 | the resume step; the recorded child's pid and masked status returned |
| `KernelObject.System.Adopt` | src/proc.c:156-164 | off the old list, new parent, onto the list the state calls for |
| `KernelObject.System.AdoptAll` | src/syscalls/exit.c:10-20 | both loops end with all children adopted in order |
| `KernelObject.System.Detach` | src/syscalls/exit.c:6-24 | the tree work of an exit, whose lists `ListOrder.ExitLists` gives |
| `KernelObject.System.Exit` | src/syscalls/exit.c:5-33 | the exit step, invariant kept; whose zombie is where is `ListOrder.ExitLists`, who runs next `KernelTheorems.ExitHandsOver` |
| `ProcPages.EquippedOk` | src/proc.c:70-74 | taking stacks and tables, in every outcome, leaves each page in one place |
| `ProcPages.ReturnedOk` | src/proc.c:141-147 | returning the stacks does |
| `ProcPages.StepKeys` | src/syscalls/wait.c:7-29 | a step other than a spawn removes exactly the zombie it reaps |
| `ProcPages.AfterOk` | src/proc.c:70-147 | every step keeps each page in one place and gives each process two stacks of its own |
| `ProcPages.StacksOverRuns` | src/proc.c:70-147 | over all runs of the kernel and other page clients: every process has two stack pages, nobody else's, neither free nor otherwise in use, and no page is lost or doubled |
| `ProcPages.StacksForLife` | src/proc.c:141-147 | a process keeps its stacks until it is reaped, and the reaping puts exactly those two pages on the free list |
| `ProcPages.FailedSpawnLoses` | src/proc.c:70-133 | a spawn takes pages without making a process exactly if it fails after its first page; then it loses all it took |
| `ProcPages.LastPageLost` | src/proc.c:70-74 | a boot state with one page left, in which a spawn takes it and fails |
| `ProcPages.BootPagesOk` | src/kmain.c:13-25 | the pages at the end of boot are in order |
| `ProcPages.BootStacksAdjacent` | src/kmain.c:13-25 | idle's stacks are the first two pages after those of the drivers, init's the first two after those of the program, each user stack right above its kernel stack |
| `Tty.SignalledCount` | src/sync/sem.c:33-37 | n signals add n to the positive value plus wake-ups granted, and release in queue order |
| `Tty.DropIsFull` | src/drivers/ldisc.c:70-72 | a byte is dropped exactly when the editor holds 127 |
| `Tty.Keys` | src/drivers/ldisc.c:49-84 | by key code: 13 does exactly what 10 does; a newline makes the line final and grants exactly its bytes, readers in queue order; 127 takes the last byte of the line off; any other byte joins the line; with 127 bytes held nothing but 127 has an effect |
| `Tty.ReceivedBuffer` | src/drivers/ldisc.c:49-84 | the ring buffer after any byte holds what the reference line editor holds: unread final text, then the line being edited; what the editor does with each key is `Tty.Keys` |
| `Tty.ReceivedReaders` | src/drivers/ldisc.c:49-84 | receiving keeps the count, the readers and their buffers, whether the byte goes in or is dropped |
| `Tty.ReceivedValid` | src/drivers/ldisc.c:49-84 | receiving keeps the invariant, readers and semaphore included |
| `Tty.TakenBuffer` | src/drivers/tty.c:14-15 | the byte at the head is the next one of the final text |
| `Tty.TakenGot` | src/drivers/tty.c:14 | the byte taken goes to its reader's buffer, in order, and to no other |
| `Tty.IteratedValid` | src/drivers/tty.c:12-18 | a pass of a reader's loop keeps the invariant |
| `Tty.ResumedValid` | src/drivers/tty.c:13-17 | a released reader's pass keeps the invariant |
| `Tty.StepValid` | src/drivers/tty.c:8-20 | every step keeps it, and final text and delivered text only grow |
| `Tty.DeliveredIsCommittedPrefix` | src/drivers/tty.c:8-20 | for every interleaving of bytes and readers the delivered text is a prefix of the editor's final text, unread final bytes are the positive value plus wake-ups granted but unused, and each reader's buffer holds exactly the bytes it took last |
| `Tty.TakenByteIsFinal` | src/drivers/tty.c:13-15 | no reader gets a byte still open to editing |
| `Tty.AppendedReaders` | src/drivers/ldisc.c:73-79 | a byte that goes in keeps the count and the readers; a newline grants exactly the bytes of its line |
| `Tty.FullLineStuck` | src/drivers/ldisc.c:59-72 | a byte has no effect exactly if it deletes from an empty line, or is anything else and 127 bytes are held |
| `Tty.LongLineLost` | src/drivers/ldisc.c:70-72 | after any first line of 127 bytes no newline gets in and no reader is ever told |
| `Tty.CountFits` | src/sync/sem.c:18-37 | the value of the receive semaphore stays between minus the number of readers and 127 |
| `TtyObject.Terminal.constructor` | src/drivers/tty.c:33-41 | an empty terminal |
| `TtyObject.Terminal.SignalN` | src/sync/sem.c:33-37 | the loop is n signals |
| `TtyObject.Terminal.RecvByte` | src/drivers/ldisc.c:49-84 | the receive step on the array, invariant kept; its effect key by key is `Tty.Keys` |
| `TtyObject.Terminal.Take` | src/drivers/tty.c:14-15 | the byte at the head goes to the reader's buffer and the head moves on around the ring |
| `TtyObject.Terminal.Loop` | src/drivers/tty.c:12-19 | from any number of bytes on, the loop takes final text up to the first newline or its size and returns, or blocks exactly when the count has run out before; alone with data it does not block |
| `TtyObject.Terminal.Resume` | src/drivers/tty.c:13-19 | a released reader takes its byte and goes on the same way |
| `TtyObject.Terminal.Read` | src/drivers/tty.c:11-19 | a call from its start to its end or first block, whatever other readers wait: what it took, what it left of the count, and that nothing else changed |
| `TtyObject.TtyDriver.Read` | src/drivers/tty.c:8-20 | -ENXIO exactly for a number out of range or without terminal, otherwise the same of that terminal alone |
| `Kalloc.FirstFit` | src/mm/kalloc.c:21-25 | the first free block in list order that is large enough |
| `Kalloc.PlacedOk` | src/mm/kalloc.c:36-44 | allocating with a split keeps the list tiled, coalesced and sized |
| `Kalloc.ReleasedOk` | src/mm/kalloc.c:58-85 | freeing with its merges keeps the list tiled, coalesced and sized |
| `KallocTheorems.MallocBlocks` | src/mm/kalloc.c:16-47 | so does `kmalloc` with its page request |
| `KallocTheorems.HeapOverRuns` | src/mm/kalloc.c:16-85 | after any sequence of `kmalloc`, `kfree`, `page_alloc` and `page_free` the blocks tile exactly the pages taken, are coalesced, and every page is in one hand |
| `KallocTheorems.BootHeap` | src/mm/page_alloc.c:14-21 | the initial heap is in order |
| `KallocTheorems.EachPageOnce` | src/mm/page_alloc.c:14-37 | every heap page is on the free list once or owned once |
| `KallocTheorems.BlocksDisjoint` | src/mm/kalloc.c:16-85 | no two blocks overlap |
| `KallocTheorems.PayloadApart` | src/mm/kalloc.c:36-46 | a live payload fits in its block and meets no other header or payload |
| `KallocTheorems.CoalescedUnique` | src/mm/kalloc.c:65-84 | a coalesced free list is determined by the bytes it covers |
| `KallocTheorems.AllFreedIsRuns` | src/mm/kalloc.c:65-84 | once all is freed there is one block per maximal run of pages taken consecutively at adjacent addresses |
| `KallocTheorems.MallocExact` | src/mm/kalloc.c:16-47 | null exactly if the block exceeds a page or there is neither a fit nor a page; otherwise the first fit, large enough |
| `KallocTheorems.MallocGrants` | src/mm/kalloc.c:16-47 | the list after a successful request: the first fit, or a new page, becomes a block of 32 bytes more than asked and the rest a free block, or is given whole if the rest is 32 bytes or less; no other block changes and no other becomes allocated |
| `KallocTheorems.RoomUnlessWrapped` | src/mm/kalloc.c:17-19 | the block granted has room exactly if the size does not wrap |
| `KallocTheorems.WrappedRequest` | src/mm/kalloc.c:17-47 | a request of 2^64 - 32 bytes to a heap of one page gets a block of no bytes at the address of the next block |
| `KallocTheorems.ReleaseFrees` | src/mm/kalloc.c:58-85 | a release takes that block off the allocated ones and leaves the others as they are |
| `KallocTheorems.FreeUndoesMalloc` | src/mm/kalloc.c:16-85 | freeing what was just allocated restores the exact list, or the list with one free page more, merged into a free adjacent tail |
| `PageAlloc.PageAllocator.constructor` | src/mm/page_alloc.c:14-21 | the loop builds the list of all 2048 pages in address order |
| `PageAlloc.PageAllocator.Alloc` | src/mm/page_alloc.c:25-31 | the first free page, or null |
| `PageAlloc.PageAllocator.Free` | src/mm/page_alloc.c:33-37 | the page goes to the end; null is ignored |
| `KallocObject.KernelHeap.Malloc` | src/mm/kalloc.c:16-47 | the search loop, page request and split compute the allocation |
| `KallocObject.KernelHeap.Split` | src/mm/kalloc.c:36-44 | the allocation of one block in place |
| `KallocObject.KernelHeap.Free` | src/mm/kalloc.c:58-85 | the two merges in place compute the release |
| `Sv39.IndicesOfAddress` | src/arch/riscv/vm.c:48-68 | the shifts and masks are the three indices of the page number |
| `Sv39.IndicesInjective` | src/arch/riscv/vm.c:48-68 | the three indices determine the page |
| `Sv39.PermsExact` | src/arch/riscv/vm.c:26-33 | the entry has exactly the R, W, X and U bits asked for |
| `Sv39.BitsOfSv39` | src/arch/riscv/vm.c:23-36 | in the bits of Sv39: V set, R, W, X and U exactly if asked for or there before, the other bits kept, and the low 44 bits of the page number |
| `Sv39.LinkTables` | src/arch/riscv/vm.c:52-57 | linking a new zeroed table keeps the tables a tree |
| `Sv39.DescendOk` | src/arch/riscv/vm.c:51-57 | one level either fails for want of a page or leaves a present entry to the right table |
| `Sv39.LinkEntry` | src/arch/riscv/vm.c:61-67 | a new empty table changes no page's entry and makes only its own 2 MiB walk |
| `Sv39Map.MapUpdatesOne` | src/arch/riscv/vm.c:46-73 | mapping updates the one entry, frame replaced by 44 bits of page number and flags added, and no other; failure updates none |
| `Sv39Map.MapThenLookup` | src/arch/riscv/vm.c:75-97 | after a map every address of the page translates into the frame of its low 44 page-number bits, the frame given exactly if that is below 2^56; all other mapped pages translate as before |
| `Sv39Map.FailureInvisible` | src/arch/riscv/vm.c:53-66 | after -ENOMEM every lookup result is unchanged |
| `Sv39Map.UnmappedLookup` | src/arch/riscv/vm.c:84-95 | the lookup of an unmapped page is a fault or frame zero, depending on the upper levels alone |
| `Sv39Map.HighFaults` | src/arch/riscv/vm.c:75-77 | an address of more than 39 bits faults |
| `Sv39Map.MapPages` | src/arch/riscv/vm.c:38-73 | a map takes one page per missing level, from the front of the free list, and writes nothing but tables; it fails exactly when fewer are free |
| `Sv39Map.MapMids` | src/arch/riscv/vm.c:51-57 | a successful map leaves the first level present where it was and for the page mapped, nowhere else |
| `Sv39Map.MapRooted` | src/arch/riscv/vm.c:46-73 | every table page hangs from exactly the entries its place names |
| `Sv39Map.PointersDistinct` | src/arch/riscv/vm.c:56-66 | different pointer entries point to different pages and have R, W and X clear |
| `Sv39Runs.MapsRefine` | src/arch/riscv/vm.c:46-73 | after any sequence of maps the entry of a page is the replay of its own successful maps |
| `Sv39Runs.PermissionsAreUnion` | src/arch/riscv/vm.c:23-36 | a page's permissions are the union of all flags ever given for it, its page number the low 44 bits of the last one |
| `Sv39Runs.NeverMappedFaults` | src/arch/riscv/vm.c:84-95 | a page never mapped faults exactly if no page of its 2 MiB was ever mapped |
| `Sv39Runs.NeverMappedTranslates` | src/arch/riscv/vm.c:84-97 | with page 1 mapped and page 0 never, address 0 translates to 0 |
| `Sv39Runs.FrameTruncated` | src/arch/riscv/vm.c:35 | page 0 mapped to 2^56 translates to 0 |
| `Sv39Runs.TreeOverRuns` | src/arch/riscv/vm.c:38-73 | any sequence of n maps leaves a tree of at most 2n more table pages, and loses or doubles no page |
| `Sv39Object.AddressSpace.constructor` | src/arch/riscv/vm.c:38-44 | a fresh zeroed root table |
| `Sv39Object.AddressSpace.CreateTable` | src/arch/riscv/vm.c:38-44 | a zeroed page, or null with nothing changed |
| `Sv39Object.AddressSpace.InitEntry` | src/arch/riscv/vm.c:23-36 | flags are added, the page number is replaced by its low 44 bits |
| `Sv39Object.AddressSpace.Descend` | src/arch/riscv/vm.c:51-57 | one level of the walk in place |
| `Sv39Object.AddressSpace.MapPage` | src/arch/riscv/vm.c:46-73 | the three levels in place compute the map step; 0, or -ENOMEM exactly if fewer pages are free than levels missing |
| `Sv39Object.AddressSpace.VirtToPhys` | src/arch/riscv/vm.c:75-97 | the three-level walk computes the lookup |
| `Elf.LoadNext` | src/elf.c:107-120 | one pass of the page loop loads the next page and leaves the earlier ones loaded |
| `Elf.KeepsHolding` | src/elf.c:107-120 | a loaded page keeps its frame, bytes and rights while another is loaded |
| `Elf.PayNext` | src/elf.c:107-120 | with all pages accounted for, loading one more succeeds exactly if the pages cover it and the tables of its new regions |
| `ElfFormat.FieldReadsBack` | src/elf.c:20-54 | of little-endian fields written one after another each reads back at its place |
| `ElfFormat.ProgHdrReadsBack` | src/elf.c:45-54 | a program header written field by field in the order of its structure is the one the loader sees in that place of the table |
| `ElfFormat.FileHdrReadsBack` | src/elf.c:20-86 | of a file that starts with a given header the loader takes identification, class, byte order, version and type as required exactly if the header has them, and its entry, table place and table length |
| `ElfLoader.LoadedReads` | src/elf.c:92-121 | every address of a loaded segment's pages reads the image byte at its distance from the first page's start, with exactly the segment's rights plus user |
| `ElfLoader.RightsExact` | src/elf.c:99-105 | a loaded page is valid and a user page, and readable, writable, executable exactly as bits 4, 2 and 1 of the segment's flags say |
| `ElfLoader.AlignedImage` | src/elf.c:92-121 | with a page-aligned address the program reads file[offset+k] at vaddr+k below the file size and zero up to the memory size; that those are the fields of the header in the file is `ElfFormat.ProgHdrReadsBack` |
| `ElfLoader.ShiftedRead` | src/elf.c:107-117 | any vaddr+k of the segment reads the image byte vaddr mod 4096 further on, up to the last page loaded; past it, it reads as the segment that has the next page, or faults if none has |
| `ElfLoader.ImageExact` | src/elf.c:107-117 | every byte of the segment reads right exactly if the file supplies it there: by the shift within its own pages, or by another segment's page |
| `ElfLoader.SuppliedAlone` | src/elf.c:107-117 | with nobody on the page it runs on to, that is: the shifted segment ends within its pages and is the same bytes |
| `ElfFiles.ShiftedImageWrong` | src/elf.c:107-117 | a file of one segment of two bytes from 0x10FFF on: loaded, the first reads zero and the second faults |
| `ElfFiles.LoadsSucceed` | src/elf.c:107-120 | any list of pages to load, no two the same, can be loaded where the pages cover it and its tables |
| `ElfFiles.TailReadsZero` | src/elf.c:107-117 | a file with two bytes for a segment of two pages: loaded, it reads those bytes, then zeros to the end, and faults past it |
| `ElfLoader.Loader.Rights` | src/elf.c:99-105 | the flags tests compute the segment's rights |
| `ElfLoader.Loader.FillPage` | src/elf.c:111-115 | zeroing and the bounded copy give the page's image bytes |
| `ElfLoader.Loader.LoadPage` | src/elf.c:108-119 | one page allocated, filled and mapped, or -ENOMEM exactly if the pages do not cover it |
| `ElfLoader.Loader.LoadSegment` | src/elf.c:107-120 | the page loop loads the whole segment, or fails exactly if the pages do not cover it |
| `ElfLoader.Loader.LoadSegments` | src/elf.c:92-121 | the header loop loads every segment of the table `ElfFormat.ProgHdrReadsBack` describes, none overwriting another or a table |
| `ElfLoader.Loader.ElfLoad` | src/elf.c:78-124 | the entry address of the header (`ElfFormat.FileHdrReadsBack`); -13 exactly for a bad identification, -22 exactly for a bad class or type, -12 exactly if the pages are fewer than the image and its tables cost; on success the whole image loaded |
| `Bytes.LeRoundTrip` | src/proc.c:83 | a pointer written to its slot reads back |
| `Argv.StringsDisjoint` | src/proc.c:80-85 | no two strings overlap |
| `Argv.Inside` | src/proc.c:76-85 | every string lies below the vector and above the lowest byte laid out |
| `Argv.PlacedKept` | src/proc.c:80-85 | placing an argument leaves the earlier strings and slots in place |
| `Argv.PlacedNew` | src/proc.c:80-85 | the argument's slot points to an exact terminated copy |
| `Argv.OutsideKept` | src/proc.c:80-85 | placing an argument touches neither the null slot nor anything outside the layout |
| `Argv.LaidInPlace` | src/proc.c:76-85 | the loop leaves every slot pointing to its argument, the last null, and writes nothing but the stretch they need |
| `Argv.InPlaceUnique` | src/proc.c:76-85 | two memories with the vector in place agree on its whole stretch |
| `Argv.StoredWord` | src/arch/riscv/proc.c:18-25 | each word stored on the kernel stack stands there in the end |
| `Argv.OverwrittenExactly` | src/proc.c:71-88 | a word of the kernel stack meets the vector exactly if the kernel page lies below the user page and the vector is more than 48 bytes longer than their distance; never within a page |
| `Argv.BuiltExactly` | src/proc.c:76-88 | afterwards the seven words stand, the vector is in place exactly if the words that cover it have its bytes, and all other memory is unchanged |
| `Argv.BuiltInPlace` | src/proc.c:76-88 | a vector the words do not meet, so any of at most a page, is in place |
| `Argv.StringReadsBack` | src/proc.c:80-85 | a terminated string without zeros reads back |
| `Argv.VectorReadsBack` | src/proc.c:76-85 | through a vector in place a program reads back its arguments, packed below the vector from the first to the last, and the null pointer after them |
| `Argv.SavedRegisters` | src/arch/riscv/proc.c:18-25 | in which of the 38 words stand the vector, the count, the entry, the status, the aligned stack pointer, the translation register and the return address |
| `Argv.ProgramFindsArguments` | src/proc.c:76-88 | from the saved vector and count a program finds exactly its arguments, all at or above the saved stack pointer, if the words do not meet them |
| `Argv.ByteCleared` | src/arch/riscv/proc.c:19 | otherwise the byte of the vector 49 below the kernel page's end is cleared |
| `Argv.LongArgumentDamaged` | src/arch/riscv/proc.c:19 | with adjacent pages an argument of 4128 letters loses its first one |
| `Argv.FillStack` | src/arch/riscv/proc.c:18-25 | the seven stores in order, 38 words below the end of the kernel page |
| `Argv.CopyIn` | src/utils/mem.c:9-13 | the copy loop overwrites exactly that range |
| `Argv.InitStack` | src/proc.c:76-88 | for arguments of any size the memory is that of `Argv.BuiltExactly`; the vector is in place unless overwritten, and the 16-byte aligned user stack pointer is in its page exactly if the vector is no more than a page |

## Left out

- Assembly, control registers, firmware calls, trap frames and register saving: a context switch is only which process is on the CPU, a deadline only the value programmed.
- UART and interrupt-controller drivers, device table, interrupt dispatch, logging, errno names, reboot, getpid, file-descriptor checks: device access, or a single test with a return value, and no state the rest depends on.
- The echo of the line discipline to its sinks.
- Liveness and fairness: the ready queue is a stack, so there is none to prove.
- Lifecycle.SpawnedInv: what `kmalloc` returned and whether stacks and mappings succeeded come from the environment; `ProcPages.AfterOk` ties the stacks to the page allocator. The null root table that `sys_proc` passes is not followed; nor are the argument count loop and the file descriptors.
- KernelObject.System.Spawn: what `kmalloc` and the mappings answer, and how many tables the mappings make, are given.
- KernelObject.System.Register: file descriptors are left out, and the mappings succeed, as boot needs them to.
- KernelObject.System.Exit: an exit of init, which has no parent for the source to follow, is not modelled.
- KernelObject.System.Bury: the third page freed by the source is the root table, null for every process that can be reaped, so it is not followed.
- The kernel machine keeps processes, semaphores and lists as values in the fields of its objects; that the intrusive nodes implement those sequences is proved once, in Ring.
- `kcalloc`: a product and a fill around `kmalloc`.
- KallocObject.KernelHeap.Free: takes the list position of the header besides its address, because blocks are entries of a sequence; alignment of split blocks is not modelled.
- Sv39Object.AddressSpace.MapPage: virtual addresses are below 2^39, as `vm_map_page` needs; tables lie below 2^56, where the page-number field reaches; a page of memory is a table or bytes, by what was last written to it. Products and shifts of the 44-bit field are computed in 64 bits; a compiler that computes them in 44 agrees below 2^44.
- ElfLoader.Loader.ElfLoad: the file holds all the bytes its headers point to and segments end below 2^39; the zeroing and copying helpers are one assignment each in `FillPage`; the results for an image are for segments that share no page; pages taken by a failed load are not followed.
- Argv.InitStack: memory starts at address zero and holds everything below the page that the layout may reach; the arguments are values, so that a layout larger than the page could overwrite the strings being copied is not modelled; the status register arrives with its bits set.
- TtyObject.TtyDriver.Read: a call that blocks ends the method; `Terminal.Resume` is the rest of it.
