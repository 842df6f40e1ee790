/** What the invariant and the step machine say about every run of the kernel. */
module KernelTheorems {
  import opened Queues
  import opened Semaphores
  import opened Sched
  import opened SchedSteps
  import opened ProcTree
  import opened History
  import opened Pids
  import opened Lifecycle
  import opened Runs
  import T = Timers

  // ---- one place per process ----

  datatype Place = OnReadyQueue | OnCpu | OnSemQueue(id: nat) | OnTimerQueue | InWaitCall | OnZombieList

  /** Everywhere the kernel's lists and variables mention `p` as a schedulable entity. */
  ghost function Places(k: Kernel, p: Ptr): set<Place> {
    (if p in k.sched.ready then {OnReadyQueue} else {})
    + (if k.sched.curr == Some(p) then {OnCpu} else {})
    + (set id | id in k.sched.sems && Queued(k.sched, p, id) :: OnSemQueue(id))
    + (if T.Pending(k.sched.timers.pending, T.Sleeper(p)) then {OnTimerQueue} else {})
    + (if p in k.inWait && k.sched.curr != Some(p) then {InWaitCall} else {})
    + (if exists q :: Corpse(k.procs, q, p) then {OnZombieList} else {})
  }

  ghost predicate PlaceFits(st: Status, place: Place) {
    match st
    case INIT => false
    case READY => place == OnReadyQueue
    case CURR => place == OnCpu
    case WAIT_SEM => place.OnSemQueue?
    case WAIT_CHILD => place == InWaitCall
    case SLEEP => place == OnTimerQueue
    case ZOMBIE => place == OnZombieList
  }

  lemma ZombieListed(k: Kernel, p: Ptr)
    requires Inv(k) && p in k.procs
    ensures (exists q :: Corpse(k.procs, q, p)) <==> k.sched.status[p] == ZOMBIE
  {
    hide Valid, HistoryOk, WaitOk, TableOk;
    if k.sched.status[p] == ZOMBIE {
      assert p in Zombies(k.sched);
      assert ChildOf(k.procs, p, k.procs[p].parent.value);
      assert Corpse(k.procs, k.procs[p].parent.value, p);
    }
  }

  lemma QueueOrNot(k: Kernel, p: Ptr)
    requires Inv(k) && p in k.procs
    ensures p in k.sched.ready <==> k.sched.status[p] == READY
    ensures k.sched.curr == Some(p) <==> k.sched.status[p] == CURR
    ensures T.Pending(k.sched.timers.pending, T.Sleeper(p)) <==> k.sched.status[p] == SLEEP
    ensures (p in k.inWait && k.sched.curr != Some(p)) <==> k.sched.status[p] == WAIT_CHILD
    ensures k.sched.status[p] != INIT
  {
    hide TreeOk, HistoryOk, TableOk, SemsOk, T.Valid, T.Pending;
  }

  lemma SemOrNot(k: Kernel, p: Ptr) returns (id: nat)
    requires Inv(k) && p in k.procs
    ensures k.sched.status[p] != WAIT_SEM ==> forall i :: !Queued(k.sched, p, i)
    ensures k.sched.status[p] == WAIT_SEM ==> forall i :: Queued(k.sched, p, i) <==> i == id
  {
    hide TreeOk, HistoryOk, TableOk, WaitOk, Core, TimersOk;
    if k.sched.status[p] == WAIT_SEM {
      id :| Queued(k.sched, p, id);
    } else {
      id := 0;
    }
  }

  /** In every reachable state each process is in exactly one place, the one its state names. */
  lemma OnePlace(k: Kernel, p: Ptr) returns (place: Place)
    requires Reachable(k) && p in k.procs
    ensures p in k.sched.status && Places(k, p) == {place} && PlaceFits(k.sched.status[p], place)
  {
    hide Valid, HistoryOk, WaitOk, TableOk, TreeOk, Reachable, Corpse, T.Pending;
    ReachableInv(k);
    QueueOrNot(k, p);
    ZombieListed(k, p);
    var id := SemOrNot(k, p);
    match k.sched.status[p] {
      case READY => place := OnReadyQueue;
      case CURR => place := OnCpu;
      case WAIT_SEM =>
        place := OnSemQueue(id);
        assert Queued(k.sched, p, id);
      case WAIT_CHILD => place := InWaitCall;
      case SLEEP => place := OnTimerQueue;
      case ZOMBIE => place := OnZombieList;
    }
  }

  /** The process whose context runs is the one `curr_proc` names, in state CURR. */
  lemma RunsAsCurrent(k: Kernel)
    requires Reachable(k)
    ensures k.sched.cpu == k.sched.curr && k.sched.curr.Some?
    ensures k.sched.curr.value in k.sched.status && k.sched.status[k.sched.curr.value] == CURR
  {
    hide Reachable;
    ReachableInv(k);
    CurrentProc(k);
    hide TreeOk, HistoryOk, TableOk, WaitOk, SemsOk, TimersOk;
  }

  /** The process tree is well formed: it agrees with the parent pointers and every
      process but idle climbs to init. */
  lemma TreeOverRuns(k: Kernel, p: Ptr) returns (path: seq<Ptr>)
    requires Reachable(k) && p in k.procs && p != k.sched.idle
    ensures TreeOk(k.procs, Zombies(k.sched), k.sched.idle, k.init)
    ensures Climbs(k.procs, p, path, k.init)
    ensures k.procs[p].pid < |k.table| && k.table[k.procs[p].pid] == Some(p)
    ensures forall i :: 0 <= i < |k.table| && k.table[i] == Some(p) ==> i == k.procs[p].pid
  {
    hide Reachable, Valid, HistoryOk, WaitOk, TreeOk, TableOk;
    ReachableInv(k);
    path := DescendsFromInit(k.procs, Zombies(k.sched), k.sched.idle, k.init, p);
    OwnSlot(k, p);
  }

  lemma OwnSlot(k: Kernel, p: Ptr)
    requires TableOk(k) && p in k.procs
    ensures k.procs[p].pid < |k.table| && k.table[k.procs[p].pid] == Some(p)
    ensures forall i :: 0 <= i < |k.table| && k.table[i] == Some(p) ==> i == k.procs[p].pid
  {
  }

  // ---- exit and wait ----

  /** Over all runs: nobody exits or is reaped twice; a reaping is by the parent, after
      the exit, with the low eight bits of the exit status; every process ever created
      exists or was reaped, never both. */
  lemma HandshakeOverRuns(k: Kernel)
    requires Reachable(k)
    ensures Once(k.log) && Answered(k.log)
    ensures Current(k.log, k.procs, Zombies(k.sched))
    ensures Conserved(k.log, k.procs, k.births)
  {
    ReachableInv(k);
  }

  /** No wake-up is lost: a process blocked in wait has a live child and, unless it is
      init, no zombie child. */
  lemma BlockedHasLiveChild(k: Kernel, p: Ptr)
    requires Reachable(k) && p in k.sched.status && k.sched.status[p] == WAIT_CHILD
    ensures p in k.procs && k.procs[p].children != []
    ensures forall c :: Kid(k.procs, p, c) ==> c in k.sched.status && k.sched.status[c] != ZOMBIE
    ensures p != k.init ==> forall c :: !Corpse(k.procs, p, c)
  {
    ReachableInv(k);
    hide Reachable, Valid, HistoryOk, TableOk;
  }

  /** An exit hands the CPU directly to a waiting parent, with the child to reap. */
  lemma ExitHandsOver(k: Kernel, a0: nat, p: Ptr)
    requires Inv(k) && Enabled(k, Exit(a0)) && ChildOf(k.procs, k.sched.curr.value, p)
    requires p in k.sched.status && k.sched.status[p] == WAIT_CHILD
    ensures
      var k' := Next(k, Exit(a0));
      k'.sched.curr == Some(p) && p in k'.inWait && p in k'.procs && k'.procs[p].waiting == k.sched.curr
  {
    hide Valid, HistoryOk, TableOk, TreeOk, ExitTree, ExitSched;
    ExitFacts(k);
    ExitSchedOk(k.sched, p);
    ExitRecords(k.procs, k.sched.curr.value, k.init, a0, true);
  }

  /** Until the resumed parent has reaped, no step takes the CPU from it or touches the
      child it was woken for. */
  lemma AwaitedChildStays(k: Kernel, l: Label)
    requires Inv(k) && Enabled(k, l) && Enabled(k, Resume) && l != Resume
    ensures
      var k', c := Next(k, l), k.sched.curr.value;
      && k'.sched.curr == k.sched.curr && c in k'.inWait && k'.procs == k.procs
      && c in k.procs && k.procs[c].waiting.Some? && Corpse(k'.procs, c, k.procs[c].waiting.value)
  {
    hide Inv, Valid;
    StepDefined(k);
    ResumeFacts(k);
  }

  /** Adopted zombies do not wake init: after an exit by a process that is not its child,
      a waiting init is still blocked, and has a zombie to reap if the caller had one. */
  lemma InitSleepsThroughAdoption(k: Kernel, a0: nat)
    requires Inv(k) && Enabled(k, Exit(a0)) && k.sched.status[k.init] == WAIT_CHILD
    ensures k.init in k.procs
    ensures
      var k', c := Next(k, Exit(a0)), k.sched.curr.value;
      && c in k.procs && k.init in k'.procs && k.init in k'.sched.status
      && (k'.sched.status[k.init] == WAIT_CHILD <==> !ChildOf(k.procs, c, k.init))
      && (!ChildOf(k.procs, c, k.init) ==>
            k'.procs[k.init].zombies == k.procs[k.init].zombies + k.procs[c].zombies)
  {
    hide Valid, HistoryOk, TableOk, TreeOk, WaitOk, ExitTree, ExitSched;
    ExitFacts(k);
    var c := k.sched.curr.value;
    var p := k.procs[c].parent.value;
    ExitRecords(k.procs, c, k.init, a0, k.sched.status[p] == WAIT_CHILD);
    ExitStatuses(k.sched, p);
  }

  // ---- the scheduling policy ----

  ghost predicate KeepsSleepers(s: State, s': State) {
    forall p :: p in s.status && s.status[p] == SLEEP ==> p in s'.status && s'.status[p] == SLEEP
  }

  lemma SleepHandsOver(k: Kernel, now: nat, ns: nat) returns (s: State)
    requires Inv(k) && Calls(k)
    ensures Core(s) && s.curr == k.sched.curr && s.idle == k.sched.idle && s.ready == k.sched.ready && s.ready != []
    ensures Slept(k.sched, now, ns) == HandOver(s, SLEEP)
    ensures KeepsSleepers(k.sched, s)
  {
    hide HistoryOk, TableOk, TreeOk, WaitOk, SemsOk, TimersOk, Core;
    SomebodyReady(k.sched);
    s := k.sched.(timers := T.Armed(k.sched.timers, T.Sleeper(k.sched.curr.value), T.Expiry(now, ns)));
    CoreFrame(k.sched, s);
  }

  lemma SemWaitHandsOver(k: Kernel, id: nat) returns (s: State)
    requires Inv(k) && Calls(k) && id in k.sched.sems && k.sched.sems[id].val - 1 < 0
    ensures Core(s) && s.curr == k.sched.curr && s.idle == k.sched.idle && s.ready == k.sched.ready && s.ready != []
    ensures SemWaited(k.sched, id) == HandOver(s, WAIT_SEM)
    ensures KeepsSleepers(k.sched, s)
  {
    hide HistoryOk, TableOk, TreeOk, WaitOk, SemsOk, TimersOk, Core;
    SomebodyReady(k.sched);
    s := k.sched.(sems := k.sched.sems[id := Down(k.sched.sems[id], k.sched.curr.value)]);
    CoreFrame(k.sched, s);
  }

  lemma WaitHandsOver(k: Kernel) returns (s: State)
    requires Inv(k) && Calls(k) && k.sched.curr.value in k.procs
    requires k.procs[k.sched.curr.value].zombies == [] && k.procs[k.sched.curr.value].children != []
    ensures Core(s) && s.curr == k.sched.curr && s.idle == k.sched.idle && s.ready == k.sched.ready && s.ready != []
    ensures Waited(k).sched == HandOver(s, WAIT_CHILD)
    ensures KeepsSleepers(k.sched, s)
  {
    hide HistoryOk, TableOk, TreeOk, WaitOk, SemsOk, TimersOk, Core;
    SomebodyReady(k.sched);
    s := k.sched;
  }

  lemma ExitHandsOverTo(k: Kernel, a0: nat) returns (s: State)
    requires Inv(k) && Calls(k) && k.sched.curr != Some(k.init)
    ensures Core(s) && s.curr == k.sched.curr && s.idle == k.sched.idle && s.ready != []
    ensures k.sched.curr.value in k.procs
    ensures if ParentWaits(k) then s.ready == [k.procs[k.sched.curr.value].parent.value] + k.sched.ready
            else s.ready == k.sched.ready
    ensures Lifecycle.Exit(k, a0).sched == HandOver(s, ZOMBIE)
    ensures KeepsSleepers(k.sched, s)
  {
    hide HistoryOk, TableOk, TreeOk, WaitOk, SemsOk, TimersOk, Core;
    ExitFacts(k);
    var p := k.procs[k.sched.curr.value].parent.value;
    if k.sched.status[p] == WAIT_CHILD {
      ReadiedCore(k.sched, p);
      s := Readied(k.sched, p);
    } else {
      s := k.sched;
    }
  }

  /** The steps in which the current process gives up the CPU: a sleep, an exit, a wait on a
      semaphore with nothing left, a wait for a child with children but no zombie. */
  predicate Switches(k: Kernel, l: Label)
    requires k.sched.curr.Some? && k.sched.curr.value in k.procs
  {
    match l
    case Sleep(_, _) => true
    case Exit(_) => true
    case SemWait(id) => id in k.sched.sems && k.sched.sems[id].val <= 0
    case Wait => k.procs[k.sched.curr.value].zombies == [] && k.procs[k.sched.curr.value].children != []
    case _ => false
  }

  /** `curr_proc` changes in exactly those steps: no yield and no timer tick, and nothing
      another process or an interrupt does, takes the CPU from a process. */
  lemma SwitchesExactly(k: Kernel, l: Label)
    requires Inv(k) && Enabled(k, l)
    ensures k.sched.curr.Some? && k.sched.curr.value in k.procs
    ensures Next(k, l).sched.curr != k.sched.curr <==> Switches(k, l)
  {
    hide Inv, Valid, Core;
    StepDefined(k);
    if Switches(k, l) {
      var s, st := SwitchIsHandOver(k, l);
      HeadIsOther(s);
    }
  }

  lemma HeadIsOther(s: State)
    requires Core(s) && s.ready != []
    ensures s.curr != Some(s.ready[0])
  {
    assert s.ready[0] in s.ready;
  }

  /** The parent of the current process waits for a child. */
  predicate ParentWaits(k: Kernel)
    requires k.sched.curr.Some? && k.sched.curr.value in k.procs
  {
    var p := k.procs[k.sched.curr.value].parent;
    p.Some? && p.value in k.sched.status && k.sched.status[p.value] == WAIT_CHILD
  }

  /** Whenever the CPU changes hands, the head of the ready queue takes it. */
  lemma SwitchIsHandOver(k: Kernel, l: Label) returns (s: State, st: Status)
    requires Inv(k) && Enabled(k, l)
    requires k.sched.curr.Some? && k.sched.curr.value in k.procs && Switches(k, l)
    ensures Core(s) && s.curr == k.sched.curr && s.curr != Some(s.idle) && s.idle == k.sched.idle
    ensures s.ready != [] && Blocks(st) && Next(k, l).sched == HandOver(s, st)
    ensures KeepsSleepers(k.sched, s)
    ensures if l.Exit? && ParentWaits(k) then s.ready == [k.procs[k.sched.curr.value].parent.value] + k.sched.ready
            else s.ready == k.sched.ready
  {
    hide Inv, Valid, Core;
    CurrentProc(k);
    match l {
      case Sleep(now, ns) => s := SleepHandsOver(k, now, ns); st := SLEEP;
      case SemWait(id) => s := SemWaitHandsOver(k, id); st := WAIT_SEM;
      case Wait => s := WaitHandsOver(k); st := WAIT_CHILD;
      case Exit(a0) => s := ExitHandsOverTo(k, a0); st := ZOMBIE;
    }
  }

  lemma HandOverPicksLatest(s: State, st: Status)
    requires Core(s) && s.curr != Some(s.idle) && Blocks(st) && s.ready != []
    ensures
      var s' := HandOver(s, st);
      && s'.curr.Some? && s'.curr.value in s'.readied && s'.status.Keys == s.status.Keys
      && forall p :: p in s'.status && s'.status[p] == READY ==> p in s'.readied && s'.readied[p] < s'.readied[s'.curr.value]
  {
    HandOverReady(s, st);
    HandOverStack(s, st);
    HandOverCurr(s, st);
    assert s.ready[0] in s.ready;
  }

  /** The process switched to is the one readied last among all that are ready. */
  lemma SuccessorReadiedLast(k: Kernel, l: Label)
    requires Inv(k) && Enabled(k, l) && Next(k, l).sched.curr != k.sched.curr
    ensures
      var s := Next(k, l).sched;
      && s.curr.Some? && s.curr.value in s.readied
      && forall p :: p in s.status && s.status[p] == READY ==> p in s.readied && s.readied[p] < s.readied[s.curr.value]
  {
    hide Inv, Core, Next;
    SwitchesExactly(k, l);
    var s, st := SwitchIsHandOver(k, l);
    HandOverPicksLatest(s, st);
  }

  /** A process that gives up the CPU leaves it to idle exactly if nobody else is ready and
      it does not wake its parent by exiting. */
  lemma IdleIsLastResort(k: Kernel, l: Label)
    requires Inv(k) && Enabled(k, l)
    requires k.sched.curr.Some? && k.sched.curr.value in k.procs && Switches(k, l)
    ensures Next(k, l).sched.curr == Some(k.sched.idle)
      <==> k.sched.ready == [k.sched.idle] && !(l.Exit? && ParentWaits(k))
  {
    hide Inv, Next, Switches;
    var s, st := SwitchIsHandOver(k, l);
    IdleAtHead(s);
    if ParentWaits(k) {
      ParentNotIdle(k);
    }
  }

  /** Idle lies at the bottom of the queue, so it is at the head only alone. */
  lemma IdleAtHead(s: State)
    requires Core(s) && s.ready != []
    ensures s.ready[0] == s.idle <==> s.ready == [s.idle]
  {
    if s.ready[0] == s.idle {
      assert s.ready[0] in s.ready;
      assert s.ready[|s.ready| - 1] == s.idle;
    }
  }

  lemma ParentNotIdle(k: Kernel)
    requires Inv(k) && k.sched.curr.Some? && k.sched.curr.value in k.procs && ParentWaits(k)
    ensures k.procs[k.sched.curr.value].parent.value != k.sched.idle
  {
    hide HistoryOk, TableOk, TreeOk, WaitOk, SemsOk, TimersOk;
  }

  /** Once idle has the CPU it keeps it: no interrupt and no wake-up ever gives it back. */
  lemma {:induction false} IdleForever(k: Kernel, ls: seq<Label>, k': Kernel)
    requires Inv(k) && k.sched.curr == Some(k.sched.idle) && Leads(k, ls, k')
    ensures k'.sched.curr == Some(k'.sched.idle) && k'.sched.idle == k.sched.idle
    decreases |ls|
  {
    if ls != [] {
      NextInv(k, ls[0]);
      IdleStays(k, ls[0]);
      hide Inv;
      IdleForever(Next(k, ls[0]), ls[1..], k');
    }
  }

  lemma IdleStays(k: Kernel, l: Label)
    requires Inv(k) && Enabled(k, l) && k.sched.curr == Some(k.sched.idle)
    ensures Next(k, l).sched.curr == Some(k.sched.idle) && Next(k, l).sched.idle == k.sched.idle
  {
    hide HistoryOk, TableOk, TreeOk, Valid;
    StepDefined(k);
  }

  /** After step `l` nothing but idle runs, whatever expires or is signalled later. */
  ghost predicate StopsForGood(k: Kernel, l: Label)
    requires Inv(k) && Enabled(k, l)
  {
    NextInv(k, l);
    forall ls, k' :: Leads(Next(k, l), ls, k') ==> k'.sched.curr == Some(k.sched.idle)
  }

  /** A step of a process stops the system for good exactly if it gives up the CPU while
      only idle is ready, and wakes no parent by exiting. */
  lemma StopsExactly(k: Kernel, l: Label)
    requires Inv(k) && Enabled(k, l) && k.sched.curr != Some(k.sched.idle)
    ensures k.sched.curr.Some? && k.sched.curr.value in k.procs
    ensures StopsForGood(k, l)
      <==> Switches(k, l) && k.sched.ready == [k.sched.idle] && !(l.Exit? && ParentWaits(k))
  {
    hide Inv, Next, Switches;
    SwitchesExactly(k, l);
    NextInv(k, l);
    NextIdle(k, l);
    if Switches(k, l) {
      IdleIsLastResort(k, l);
    }
    var k1 := Next(k, l);
    if k1.sched.curr == Some(k.sched.idle) {
      forall ls, k' | Leads(k1, ls, k') ensures k'.sched.curr == Some(k.sched.idle) {
        IdleForever(k1, ls, k');
      }
    } else {
      assert Leads(k1, [], k1);
    }
  }

  lemma NextIdle(k: Kernel, l: Label)
    requires Inv(k) && Enabled(k, l)
    ensures Next(k, l).sched.idle == k.sched.idle
  {
    hide Inv, Valid;
    StepDefined(k);
    if Switches(k, l) {
      var s, st := SwitchIsHandOver(k, l);
    }
  }

  /** So a single sleep of init, the first process, stops the system for good. */
  lemma BootSleepStops(idle: Ptr, init: Ptr, t0: nat, now: nat, ns: nat, ls: seq<Label>, k': Kernel)
    requires RunsTo(idle, init, t0, [Sleep(now, ns)] + ls, k')
    ensures k'.sched.curr == Some(idle) && k'.sched.idle == idle
  {
    hide Inv, Boot;
    BootInv(idle, init, t0);
    BootValid(idle, init, t0);
    var k := BootKernel(idle, init, t0);
    assert ([Sleep(now, ns)] + ls)[1..] == ls;
    StepDefined(k);
    NextInv(k, Sleep(now, ns));
    IdleForever(Next(k, Sleep(now, ns)), ls, k');
  }

  /** No semaphore's value falls below minus the size of the process table: its waiters are
      different processes, each with its own slot. */
  lemma SemFloor(k: Kernel, id: nat)
    requires Reachable(k) && id in k.sched.sems
    ensures 0 - PROC_TABLE_SIZE <= k.sched.sems[id].val
  {
    hide Reachable;
    ReachableInv(k);
    hide HistoryOk, TreeOk, WaitOk, Core, TimersOk;
    var q := k.sched.sems[id].queue;
    assert forall p :: p in q ==> Queued(k.sched, p, id);
    NoDupSize(q, k.procs.Keys);
    FewProcs(k);
  }

  lemma FewProcs(k: Kernel)
    requires TableOk(k)
    ensures |k.procs.Keys| <= PROC_TABLE_SIZE
  {
    assert forall p :: p in k.procs ==> Some(p) in k.table;
    ListedSize(k.procs.Keys, k.table);
  }

  lemma {:induction false} ListedSize(s: set<Ptr>, table: seq<Option<nat>>)
    requires forall p :: p in s ==> Some(p) in table
    ensures |s| <= |table|
  {
    if table != [] {
      var x, rest := table[0], table[1..];
      var s' := if x.Some? then s - {x.value} else s;
      forall p | p in s' ensures Some(p) in rest {
        assert Some(p) in table;
      }
      ListedSize(s', rest);
      SubsetSize(s, s', x);
    } else {
      assert forall p :: p !in s;
      assert s == {};
    }
  }

  lemma SubsetSize(s: set<Ptr>, s': set<Ptr>, x: Option<Ptr>)
    requires s' == if x.Some? then s - {x.value} else s
    ensures |s| <= |s'| + 1
  {
    if x.Some? && x.value in s {
      assert s == s' + {x.value};
    } else {
      assert s == s';
    }
  }

  // ---- timers ----

  /** The interrupt handler never sees an empty queue; it fires the least pending timer,
      which is due, and the hardware always waits for the earliest one. */
  lemma TimerOverRuns(k: Kernel, now: nat)
    requires Reachable(k)
    ensures T.Valid(k.sched.timers) && k.sched.timers.pending != []
    ensures Enabled(k, Tick(now)) ==> k.sched.timers.pending[0].time <= now
    ensures forall t :: t in k.sched.timers.pending[1..] ==> T.Before(k.sched.timers.pending[0], t)
  {
    ReachableInv(k);
    hide Reachable;
    StepDefined(k);
    T.FiredValid(k.sched.timers);
  }

  /** A sleeping process leaves SLEEP only by a tick at or after its own deadline. */
  lemma NoEarlyWake(k: Kernel, l: Label, p: Ptr)
    requires Inv(k) && Enabled(k, l) && p in k.sched.status && k.sched.status[p] == SLEEP
    requires p !in Next(k, l).sched.status || Next(k, l).sched.status[p] != SLEEP
    ensures l.Tick? && k.sched.timers.pending != []
    ensures k.sched.timers.pending[0].id == T.Sleeper(p) && k.sched.timers.pending[0].time <= l.now
  {
    hide Inv, Valid;
    StepDefined(k);
    if l.Tick? {
      DeadlineIsFirst(k.sched);
    } else {
      SleepersStay(k, l, p);
    }
  }

  /** The timer of `p` is pending for time `e`. */
  ghost predicate DueAt(q: seq<T.Timer>, p: Ptr, e: nat) {
    exists i :: 0 <= i < |q| && q[i].id == T.Sleeper(p) && q[i].time == e
  }

  lemma DueInserted(q: seq<T.Timer>, k: nat, t: T.Timer, p: Ptr, e: nat)
    requires k <= |q| && DueAt(q, p, e)
    ensures DueAt(Inserted(q, k, t), p, e)
  {
    var i :| 0 <= i < |q| && q[i].id == T.Sleeper(p) && q[i].time == e;
    T.InsertIndex(q, k, t, if i < k then i else i + 1);
  }

  lemma DueAfterFirst(q: seq<T.Timer>, p: Ptr, e: nat)
    requires q != [] && DueAt(q, p, e) && q[0].id != T.Sleeper(p)
    ensures DueAt(q[1..], p, e)
  {
    var i :| 0 <= i < |q| && q[i].id == T.Sleeper(p) && q[i].time == e;
    assert q[1..][i - 1] == q[i];
  }

  /** A pending deadline does not move while its process sleeps. */
  lemma DueKept(k: Kernel, l: Label, p: Ptr, e: nat)
    requires Inv(k) && Enabled(k, l) && DueAt(k.sched.timers.pending, p, e)
    requires p in Next(k, l).sched.status && Next(k, l).sched.status[p] == SLEEP
    ensures DueAt(Next(k, l).sched.timers.pending, p, e)
  {
    hide Inv, Valid, DueAt, T.Slot;
    StepDefined(k);
    if l.Tick? {
      DueTicked(k.sched, l.now, p, e);
    } else if l.Sleep? {
      var q, time := k.sched.timers.pending, T.Expiry(l.now, l.ns);
      DueInserted(q, T.Slot(q, time), T.Timer(T.Sleeper(k.sched.curr.value), time, k.sched.timers.armed), p, e);
    } else {
      hide Next;
      TimersUntouched(k, l);
    }
  }

  /** Only a tick and a sleep touch the timer queue. */
  lemma TimersUntouched(k: Kernel, l: Label)
    requires Inv(k) && Enabled(k, l) && !l.Tick? && !l.Sleep?
    ensures Next(k, l).sched.timers == k.sched.timers
  {
    hide Inv, Valid;
    StepDefined(k);
  }

  lemma DueTicked(s: State, now: nat, p: Ptr, e: nat)
    requires s.timers.pending != [] && s.curr.Some? && DueAt(s.timers.pending, p, e)
    requires p in Ticked(s, now).status && Ticked(s, now).status[p] == SLEEP
    ensures DueAt(Ticked(s, now).timers.pending, p, e)
  {
    hide DueAt, T.Slot;
    var q := s.timers.pending;
    if q[0].id != T.Sleeper(p) {
      DueAfterFirst(q, p, e);
      var time := T.Expiry(now, TIMESLICE);
      DueInserted(q[1..], T.Slot(q[1..], time), T.Timer(T.Slice, time, s.timers.armed), p, e);
    }
  }

  /** `p` sleeps from `k` through all the steps `ls`. */
  ghost predicate SleepsThrough(k: Kernel, ls: seq<Label>, p: Ptr)
    requires Inv(k)
    decreases |ls|
  {
    && p in k.sched.status && k.sched.status[p] == SLEEP
    && (ls != [] ==> Enabled(k, ls[0]) && (NextInv(k, ls[0]); SleepsThrough(Next(k, ls[0]), ls[1..], p)))
  }

  lemma {:induction false} DueThrough(k: Kernel, ls: seq<Label>, k': Kernel, p: Ptr, e: nat)
    requires Inv(k) && Leads(k, ls, k') && SleepsThrough(k, ls, p) && DueAt(k.sched.timers.pending, p, e)
    ensures DueAt(k'.sched.timers.pending, p, e) && p in k'.sched.status && k'.sched.status[p] == SLEEP
    decreases |ls|
  {
    hide Inv, Next, DueAt;
    if ls != [] {
      NextInv(k, ls[0]);
      DueKept(k, ls[0], p, e);
      DueThrough(Next(k, ls[0]), ls[1..], k', p, e);
    }
  }

  /** Over runs: a process that called sleep at `now` for `ns` and leaves SLEEP for the first
      time in step `l` does so by a tick at or after the deadline of that call. Unless the
      counter wraps before the deadline, `ns` nanoseconds have passed then, up to a tick. */
  lemma SleepLastsItsTime(k: Kernel, now: nat, ns: nat, ls: seq<Label>, k': Kernel, l: Label)
    requires Inv(k) && Enabled(k, Sleep(now, ns)) && Inv(Next(k, Sleep(now, ns)))
    requires Leads(Next(k, Sleep(now, ns)), ls, k') && SleepsThrough(Next(k, Sleep(now, ns)), ls, k.sched.curr.value)
    requires Inv(k') && Enabled(k', l)
    requires
      var p := k.sched.curr.value;
      p !in Next(k', l).sched.status || Next(k', l).sched.status[p] != SLEEP
    ensures l.Tick? && T.Expiry(now, ns) <= l.now
    ensures now + ns / 100 < 0x1_0000_0000_0000_0000 && ns < 0x1_0000_0000_0000_0000 ==> ns < 100 * (l.now - now) + 100
  {
    hide Inv, Leads, SleepsThrough, DueAt, Next, T.Expiry;
    StepDefined(k);
    var p, k1, e := k.sched.curr.value, Next(k, Sleep(now, ns)), T.Expiry(now, ns);
    DueSlept(k, now, ns);
    DueThrough(k1, ls, k', p, e);
    NoEarlyWake(k', l, p);
    OneDeadline(k', p, e);
    TimePassed(now, ns, l.now);
  }

  lemma TimePassed(now: nat, ns: nat, t: nat)
    requires T.Expiry(now, ns) <= t
    ensures now + ns / 100 < 0x1_0000_0000_0000_0000 && ns < 0x1_0000_0000_0000_0000 ==> ns < 100 * (t - now) + 100
  {
    if ns < 0x1_0000_0000_0000_0000 {
      T.ExpiryOnTime(now, ns);
    }
  }

  /** A sleep makes its caller's timer pending for the deadline of the call. */
  lemma DueSlept(k: Kernel, now: nat, ns: nat)
    requires Inv(k) && Enabled(k, Sleep(now, ns))
    ensures k.sched.curr.Some? && DueAt(Next(k, Sleep(now, ns)).sched.timers.pending, k.sched.curr.value, T.Expiry(now, ns))
  {
    hide Inv, Valid, T.Slot;
    StepDefined(k);
    var p, q, e := k.sched.curr.value, k.sched.timers.pending, T.Expiry(now, ns);
    var at, t := T.Slot(q, e), T.Timer(T.Sleeper(p), e, k.sched.timers.armed);
    T.InsertIndex(q, at, t, at);
    assert Next(k, Sleep(now, ns)).sched.timers.pending == Inserted(q, at, t);
  }

  /** After a sleep the caller's timer is pending, for the time the call asked. */
  lemma SleepArms(k: Kernel, now: nat, ns: nat)
    requires Inv(k) && Enabled(k, Sleep(now, ns)) && ns < 0x1_0000_0000_0000_0000
    ensures k.sched.curr.Some?
    ensures T.ArmedFor(Next(k, Sleep(now, ns)).sched.timers.pending, T.Sleeper(k.sched.curr.value), now, ns)
  {
    hide Inv, Valid, T.Armed, T.ArmedFor, T.Expiry;
    StepDefined(k);
    AwakeNotPending(k);
    T.ArmedOnTime(k.sched.timers, T.Sleeper(k.sched.curr.value), now, ns);
  }

  lemma AwakeNotPending(k: Kernel)
    requires Inv(k)
    ensures k.sched.curr.Some? && !T.Pending(k.sched.timers.pending, T.Sleeper(k.sched.curr.value))
  {
    CurrentProc(k);
    hide HistoryOk, TableOk, TreeOk, WaitOk, SemsOk, Core;
  }

  /** The slice timer, in whatever state, is due 100_000 ticks after it was armed: at boot, and
      whenever it has fired. */
  lemma SliceArms(k: Kernel, now: nat)
    requires Inv(k) && Enabled(k, Tick(now)) && k.sched.timers.pending != [] && k.sched.timers.pending[0].id == T.Slice
    ensures
      var q := Next(k, Tick(now)).sched.timers.pending;
      && T.Pending(q, T.Slice)
      && forall i :: 0 <= i < |q| && q[i].id == T.Slice ==> q[i].time == (now + 100_000) % 0x1_0000_0000_0000_0000
  {
    hide Inv, Valid, T.Armed, T.ArmedFor, T.Expiry, T.OnTime;
    StepDefined(k);
    SliceGone(k);
    var q := Next(k, Tick(now)).sched.timers.pending;
    T.ArmedOnTime(T.Fired(k.sched.timers), T.Slice, now, TIMESLICE);
    SliceTime(q, now);
  }

  lemma SliceTime(q: seq<T.Timer>, now: nat)
    requires T.ArmedFor(q, T.Slice, now, 10_000_000)
    ensures T.Pending(q, T.Slice)
    ensures forall i :: 0 <= i < |q| && q[i].id == T.Slice ==> q[i].time == (now + 100_000) % 0x1_0000_0000_0000_0000
  {
    forall i | 0 <= i < |q| && q[i].id == T.Slice ensures q[i].time == (now + 100_000) % 0x1_0000_0000_0000_0000 {
      TenMillion(q[i].time, now);
    }
  }

  lemma TenMillion(e: nat, now: nat)
    requires T.OnTime(e, now, 10_000_000)
    ensures e == (now + 100_000) % 0x1_0000_0000_0000_0000
  {
    var q := (e - now) / 0x1_0000_0000_0000_0000;
    assert e - now == 0x1_0000_0000_0000_0000 * q + 100_000;
  }

  lemma SliceGone(k: Kernel)
    requires Inv(k) && k.sched.timers.pending != [] && k.sched.timers.pending[0].id == T.Slice
    ensures !T.Pending(T.Fired(k.sched.timers).pending, T.Slice)
  {
    hide HistoryOk, TableOk, TreeOk, WaitOk, SemsOk, Core;
    T.FiredValid(k.sched.timers);
  }

  lemma BootSlice(idle: Ptr, init: Ptr, now: nat)
    requires idle != init
    ensures
      var q := Boot(idle, init, now).timers.pending;
      && T.Pending(q, T.Slice)
      && forall i :: 0 <= i < |q| && q[i].id == T.Slice ==> q[i].time == (now + 100_000) % 0x1_0000_0000_0000_0000
  {
    hide Boot, T.Armed, T.ArmedFor, T.OnTime, T.Expiry;
    BootState(idle, init, now);
    NothingPending();
    T.ArmedOnTime(T.Queue([], T.TIME_MAX, 0), T.Slice, now, TIMESLICE);
    SliceTime(Boot(idle, init, now).timers.pending, now);
  }

  lemma OneDeadline(k: Kernel, p: Ptr, e: nat)
    requires Inv(k) && DueAt(k.sched.timers.pending, p, e) && k.sched.timers.pending != []
    requires k.sched.timers.pending[0].id == T.Sleeper(p)
    ensures k.sched.timers.pending[0].time == e
  {
    hide HistoryOk, TableOk, TreeOk, WaitOk, SemsOk, Core;
  }

  lemma DeadlineIsFirst(s: State)
    requires Valid(s) && s.timers.pending != []
    ensures s.timers.deadline == s.timers.pending[0].time
  {
  }

  lemma HandOverKeepsSleeper(s: State, st: Status, p: Ptr)
    requires Core(s) && s.ready != [] && p in s.status && s.status[p] == SLEEP
    ensures p in HandOver(s, st).status && HandOver(s, st).status[p] == SLEEP
  {
    assert s.ready[0] in s.ready;
  }

  lemma SleepersStay(k: Kernel, l: Label, p: Ptr)
    requires Inv(k) && Enabled(k, l) && !l.Tick? && p in k.sched.status && k.sched.status[p] == SLEEP
    ensures p in Next(k, l).sched.status && Next(k, l).sched.status[p] == SLEEP
  {
    hide Inv, Valid, Core, HandOver;
    StepDefined(k);
    CurrentProc(k);
    if Switches(k, l) {
      hide Next;
      var s, st := SwitchIsHandOver(k, l);
      HandOverKeepsSleeper(s, st, p);
    } else {
      SleepersUntouched(k, l, p);
    }
  }

  lemma SleepersUntouched(k: Kernel, l: Label, p: Ptr)
    requires Inv(k) && Enabled(k, l) && !l.Tick? && p in k.sched.status && k.sched.status[p] == SLEEP
    requires k.sched.curr.Some? && k.sched.curr.value in k.procs && !Switches(k, l)
    ensures p in Next(k, l).sched.status && Next(k, l).sched.status[p] == SLEEP
  {
    hide Inv, Valid, Core, HandOver;
    StepDefined(k);
    var c := k.sched.curr.value;
    match l {
      case SemSignal(id) =>
        if k.sched.sems[id].val < 0 { HeadWaits(k.sched, id); }
      case Wait =>
        if k.procs[c].zombies != [] {
          assert Corpse(k.procs, c, k.procs[c].zombies[0]);
          CorpseFacts(k, k.procs[c].zombies[0]);
        }
      case Resume =>
        ResumeFacts(k);
        CorpseFacts(k, k.procs[c].waiting.value);
      case _ =>
    }
  }
}
