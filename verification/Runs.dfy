/** The kernel as a machine: boot, then any interleaving of interrupts and system calls.
    Everything here is about all runs of that machine. */
module Runs {
  import opened Queues
  import opened Semaphores
  import opened Sched
  import opened SchedSteps
  import opened ProcTree
  import opened History
  import opened Pids
  import opened Lifecycle

  /** One atomic kernel entry. `Resume` is the part of a blocked `sys_wait` after the
      context switch back. Waking a semaphore may come from an interrupt. */
  datatype Label =
    | Tick(now: nat)
    | Yield
    | Sleep(now: nat, ns: nat)
    | SemInit(id: nat)
    | SemWait(id: nat)
    | SemSignal(id: nat)
    | Spawn(env: SpawnEnv)
    | Wait
    | Resume
    | Exit(status: nat)

  /** The timer interrupt comes when the programmed deadline has passed. System calls
      come from a process other than idle that is not stopped inside `sys_wait`. */
  predicate Enabled(k: Kernel, l: Label) {
    match l
    case Tick(now) => k.sched.timers.deadline <= now
    case Yield => Calls(k)
    case Sleep(_, _) => Calls(k)
    case SemInit(id) => id in k.sched.sems ==> k.sched.sems[id].queue == []
    case SemWait(id) => Calls(k) && id in k.sched.sems
    case SemSignal(id) => id in k.sched.sems
    case Spawn(env) => Calls(k) && (env.memory.Some? ==> env.memory.value !in k.procs)
    case Wait => Calls(k)
    case Resume => k.sched.curr.Some? && k.sched.curr.value in k.inWait
    case Exit(_) => Calls(k) && k.sched.curr != Some(k.init)
  }

  lemma StepDefined(k: Kernel)
    requires Inv(k)
    ensures Valid(k.sched) && TableOk(k) && k.sched.timers.pending != []
    ensures k.sched.curr.Some? && k.sched.curr.value in k.procs && k.procs.Keys == k.sched.status.Keys
    ensures forall id :: id in k.sched.sems ==> Consistent(k.sched.sems[id])
  {
    CurrentProc(k);
    hide TreeOk, HistoryOk, WaitOk, TableOk, Core;
    NeverEmpty(k.sched);
  }

  function Next(k: Kernel, l: Label): Kernel
    requires Inv(k) && Enabled(k, l)
  {
    hide Inv, Valid, TableOk;
    StepDefined(k);
    match l
    case Tick(now) => k.(sched := Ticked(k.sched, now))
    case Yield => k.(sched := Rescheduled(k.sched))
    case Sleep(now, ns) => k.(sched := Slept(k.sched, now, ns))
    case SemInit(id) => k.(sched := SemInited(k.sched, id))
    case SemWait(id) => k.(sched := SemWaited(k.sched, id))
    case SemSignal(id) => k.(sched := SemSignaled(k.sched, id))
    case Spawn(env) => Spawned(k, env).0
    case Wait => Waited(k)
    case Resume => Resumed(k)
    case Exit(a0) => Lifecycle.Exit(k, a0)
  }

  // ---- the invariant over all runs ----

  lemma TickKeeps(k: Kernel, now: nat)
    requires Inv(k) && k.sched.timers.pending != [] && k.sched.curr.Some?
    ensures Inv(k.(sched := Ticked(k.sched, now)))
  {
    hide TreeOk, HistoryOk, WaitOk, TableOk, Valid;
    TickedValid(k.sched, now);
    match k.sched.timers.pending[0].id {
      case Slice =>
      case Sleeper(p) => SleeperTicked(k.sched, p, now);
    }
    SchedOnly(k, Ticked(k.sched, now));
  }

  lemma SleepKeeps(k: Kernel, now: nat, ns: nat)
    requires Inv(k) && Calls(k)
    ensures Inv(k.(sched := Slept(k.sched, now, ns)))
  {
    hide TreeOk, HistoryOk, WaitOk, TableOk, Valid;
    CurrentProc(k);
    SomebodyReadyIn(k.sched);
    SleptValid(k.sched, now, ns);
    SchedOnly(k, Slept(k.sched, now, ns));
  }

  lemma SemWaitKeeps(k: Kernel, id: nat)
    requires Inv(k) && Calls(k) && id in k.sched.sems
    ensures Inv(k.(sched := SemWaited(k.sched, id)))
  {
    hide TreeOk, HistoryOk, WaitOk, TableOk, Valid;
    CurrentProc(k);
    SomebodyReadyIn(k.sched);
    SemWaitedValid(k.sched, id);
    SchedOnly(k, SemWaited(k.sched, id));
  }

  lemma SemSignalKeeps(k: Kernel, id: nat)
    requires Inv(k) && id in k.sched.sems && Consistent(k.sched.sems[id])
    ensures Inv(k.(sched := SemSignaled(k.sched, id)))
  {
    hide TreeOk, HistoryOk, WaitOk, TableOk, Valid;
    SemSignaledValid(k.sched, id);
    if k.sched.sems[id].val < 0 {
      HeadWaits(k.sched, id);
    }
    SchedOnly(k, SemSignaled(k.sched, id));
  }

  /** Every step keeps the invariant. */
  lemma NextInv(k: Kernel, l: Label)
    requires Inv(k) && Enabled(k, l)
    ensures Inv(Next(k, l))
  {
    hide Valid, TableOk, TreeOk, HistoryOk, WaitOk;
    StepDefined(k);
    match l {
      case Tick(now) => TickKeeps(k, now);
      case Yield =>
        RescheduledValid(k.sched);
        SchedOnly(k, Rescheduled(k.sched));
      case Sleep(now, ns) => SleepKeeps(k, now, ns);
      case SemInit(id) =>
        SemInitedValid(k.sched, id);
        SchedOnly(k, SemInited(k.sched, id));
      case SemWait(id) => SemWaitKeeps(k, id);
      case SemSignal(id) => SemSignalKeeps(k, id);
      case Spawn(env) => SpawnedInv(k, env);
      case Wait => WaitedInv(k);
      case Resume => ResumedInv(k);
      case Exit(a0) => ExitedInv(k, a0);
    }
  }

  function NoPids(): Table {
    seq(PROC_TABLE_SIZE, i => None)
  }

  /** The kernel when `sched_start` has switched to init. */
  function BootKernel(idle: Ptr, init: Ptr, now: nat): Kernel
    requires idle != init
  {
    Kernel(
      Boot(idle, init, now),
      BootProcs(idle, init),
      NoPids()[0 := Some(idle)][1 := Some(init)],
      1, init, {}, 2, [])
  }

  /** The pids of idle and init are the two that `new_pid` hands out first. */
  lemma BootPids(idle: Ptr)
    ensures |NoPids()| == PROC_TABLE_SIZE
    ensures NewPid(NoPids(), PROC_TABLE_SIZE - 1) == Some(0)
    ensures NewPid(NoPids()[0 := Some(idle)], 0) == Some(1)
  {
  }

  function BootProcs(idle: Ptr, init: Ptr): Procs {
    map[idle := Proc(0, None, [], [], None, 0, 0), init := Proc(1, None, [], [], None, 0, 1)]
  }

  lemma BootTree(idle: Ptr, init: Ptr)
    requires idle != init
    ensures TreeOk(BootProcs(idle, init), {}, idle, init)
  {
    var t := BootProcs(idle, init);
    assert forall p, c :: !Kid(t, p, c) && !Corpse(t, p, c) && !ChildOf(t, c, p);
  }

  lemma BootHistory(idle: Ptr, init: Ptr)
    requires idle != init
    ensures HistoryOk([], BootProcs(idle, init), {}, 2)
  {
    var t := BootProcs(idle, init);
    assert forall p, b :: BornAs(t, p, b) <==> (p == idle && b == 0) || (p == init && b == 1);
    forall b | 0 <= b < 2 ensures Accounted([], t, b) {
      assert BornAs(t, if b == 0 then idle else init, b);
    }
  }

  lemma BootInv(idle: Ptr, init: Ptr, now: nat)
    requires idle != init
    ensures Inv(BootKernel(idle, init, now))
  {
    hide Valid, Boot, TreeOk, HistoryOk;
    var k := BootKernel(idle, init, now);
    BootValid(idle, init, now);
    assert Zombies(k.sched) == {};
    BootTree(idle, init);
    BootHistory(idle, init);
  }

  /** The labels `ls` lead from `k` to `k'`. */
  ghost predicate Leads(k: Kernel, ls: seq<Label>, k': Kernel)
    requires Inv(k)
    decreases |ls|
  {
    if ls == [] then k' == k
    else Enabled(k, ls[0]) && (NextInv(k, ls[0]); Leads(Next(k, ls[0]), ls[1..], k'))
  }

  lemma {:induction false} LeadsInv(k: Kernel, ls: seq<Label>, k': Kernel)
    requires Inv(k) && Leads(k, ls, k')
    ensures Inv(k')
    decreases |ls|
  {
    hide Inv;
    if ls != [] {
      NextInv(k, ls[0]);
      LeadsInv(Next(k, ls[0]), ls[1..], k');
    }
  }

  /** A run can go on with any step enabled where it ends. */
  lemma {:induction false} LeadsOn(k: Kernel, ls: seq<Label>, k': Kernel, l: Label)
    requires Inv(k) && Leads(k, ls, k') && Inv(k') && Enabled(k', l)
    ensures Leads(k, ls + [l], Next(k', l))
    decreases |ls|
  {
    hide Inv, Next;
    if ls == [] {
      NextInv(k, l);
      assert [l][1..] == [] && Leads(Next(k, l), [], Next(k, l));
    } else {
      NextInv(k, ls[0]);
      assert (ls + [l])[1..] == ls[1..] + [l];
      LeadsOn(Next(k, ls[0]), ls[1..], k', l);
    }
  }

  ghost predicate Reachable(k: Kernel) {
    exists idle, init, now, ls :: RunsTo(idle, init, now, ls, k)
  }

  ghost predicate RunsTo(idle: Ptr, init: Ptr, now: nat, ls: seq<Label>, k: Kernel) {
    idle != init && (BootInv(idle, init, now); Leads(BootKernel(idle, init, now), ls, k))
  }

  /** The invariant holds in every reachable state. */
  lemma ReachableInv(k: Kernel)
    requires Reachable(k)
    ensures Inv(k)
  {
    var idle, init, now, ls :| RunsTo(idle, init, now, ls, k);
    BootInv(idle, init, now);
    LeadsInv(BootKernel(idle, init, now), ls, k);
  }

  // ---- runs on a clock ----

  /** The time a step reads. */
  function Clock(l: Label): Option<nat> {
    match l
    case Tick(now) => Some(now)
    case Sleep(now, _) => Some(now)
    case _ => None
  }

  /** The times read along `ls` grow, from boot at time 0 up to `now`. */
  ghost predicate Clocked(ls: seq<Label>, now: int)
    decreases |ls|
  {
    if ls == [] then 0 <= now
    else
      match Clock(ls[|ls| - 1])
      case None => Clocked(ls[..|ls| - 1], now)
      case Some(t) => t <= now && Clocked(ls[..|ls| - 1], t - 1)
  }

  lemma {:induction false} ClockedLater(ls: seq<Label>, now: int, later: int)
    requires Clocked(ls, now) && now <= later
    ensures Clocked(ls, later)
    decreases |ls|
  {
    if ls != [] && Clock(ls[|ls| - 1]).None? {
      ClockedLater(ls[..|ls| - 1], now, later);
    }
  }

  /** Reachable by a run whose clock grows and shows at most `now` in the end. */
  ghost predicate ReachableBy(k: Kernel, now: nat) {
    exists idle, init, ls :: RunsTo(idle, init, 0, ls, k) && Clocked(ls, now)
  }

  lemma ReachableByOn(k: Kernel, now: nat, l: Label, later: nat)
    requires ReachableBy(k, now) && Enabled(k, l)
    requires match Clock(l) case None => later == now case Some(t) => now < t == later
    ensures Inv(k) && Inv(Next(k, l)) && ReachableBy(Next(k, l), later)
  {
    hide Inv, Next, Boot, Leads;
    var idle, init, ls :| RunsTo(idle, init, 0, ls, k) && Clocked(ls, now);
    BootInv(idle, init, 0);
    LeadsInv(BootKernel(idle, init, 0), ls, k);
    NextInv(k, l);
    LeadsOn(BootKernel(idle, init, 0), ls, k, l);
    var ls' := ls + [l];
    assert ls'[..|ls'| - 1] == ls;
    ClockedLater(ls, now, if Clock(l).Some? then later - 1 else later);
    assert RunsTo(idle, init, 0, ls', Next(k, l)) && Clocked(ls', later);
  }

  lemma ReachableInTime(k: Kernel, now: nat)
    requires ReachableBy(k, now)
    ensures Reachable(k)
  {
    hide RunsTo;
    var idle, init, ls :| RunsTo(idle, init, 0, ls, k) && Clocked(ls, now);
  }

  lemma ReachableByBoot(idle: Ptr, init: Ptr)
    requires idle != init
    ensures ReachableBy(BootKernel(idle, init, 0), 0)
  {
    hide Inv, Boot;
    BootInv(idle, init, 0);
    assert RunsTo(idle, init, 0, [], BootKernel(idle, init, 0)) && Clocked([], 0);
  }
}
