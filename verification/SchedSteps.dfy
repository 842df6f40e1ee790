/** The scheduler's entry points as steps on its state, each proved to keep the
    invariant and to be what the code, branch by branch, computes. */
module SchedSteps {
  import opened Queues
  import opened Semaphores
  import opened Sched
  import T = Timers

  // ---- boot ----

  function Empty(idle: Ptr): State {
    State(idle, map[idle := INIT], [], None, None, map[], T.Queue([], T.TIME_MAX, 0), map[], 0)
  }

  /** Idle is set up, then init, then `sched_start` arms the slice timer and reschedules. */
  function BeforeStart(idle: Ptr, init: Ptr, now: nat): State {
    var s1 := Update(Empty(idle), idle, READY);
    var s2 := Update(s1.(status := s1.status[init := INIT]), init, READY);
    s2.(timers := T.Armed(s2.timers, T.Slice, T.Expiry(now, TIMESLICE)))
  }

  function Boot(idle: Ptr, init: Ptr, now: nat): State
    requires idle != init
  {
    assert BeforeStart(idle, init, now).ready == [init, idle];
    Switch(BeforeStart(idle, init, now))
  }

  /** Boot starts init, with idle alone on the ready queue. */
  lemma BootValid(idle: Ptr, init: Ptr, now: nat)
    requires idle != init
    ensures
      var s := Boot(idle, init, now);
      && Valid(s) && s.idle == idle && s.curr == Some(init) && s.ready == [idle]
      && s.status == map[idle := READY, init := CURR] && s.sems == map[]
  {
    hide BeforeStart, Switch, T.Armed, Core, SemsOk, T.Pending, T.Valid;
    BootState(idle, init, now);
    var s := Boot(idle, init, now);
    NothingPending();
    T.ArmedValid(T.Queue([], T.TIME_MAX, 0), T.Slice, T.Expiry(now, TIMESLICE));
    BootCore(idle, init, s);
    assert SemsOk(s) by { NoSems(s); }
  }

  /** The boot sequence, worked out. */
  lemma BootState(idle: Ptr, init: Ptr, now: nat)
    requires idle != init
    ensures Boot(idle, init, now) ==
      State(idle, map[idle := READY, init := CURR], [idle], Some(init), Some(init), map[],
        T.Armed(T.Queue([], T.TIME_MAX, 0), T.Slice, T.Expiry(now, TIMESLICE)), map[idle := 0, init := 1], 2)
  {
    hide T.Armed;
    var s0 := BeforeStart(idle, init, now);
    var s := Boot(idle, init, now);
    assert s0.ready == [init, idle];
    assert s.ready == [idle];
    assert s.status == map[idle := READY, init := CURR];
  }

  lemma BootCore(idle: Ptr, init: Ptr, s: State)
    requires idle != init && s.idle == idle && s.status == map[idle := READY, init := CURR] && s.ready == [idle]
    requires s.curr == Some(init) && s.cpu == Some(init) && s.readied == map[idle := 0, init := 1] && s.stamp == 2
    ensures Core(s)
  {
  }

  lemma NothingPending()
    ensures T.Valid(T.Queue([], T.TIME_MAX, 0)) && forall x :: !T.Pending([], x)
  {
  }

  lemma NoSems(s: State)
    requires s.sems == map[] && forall p :: p in s.status ==> s.status[p] != WAIT_SEM
    ensures SemsOk(s)
  {
  }

  // ---- the steps ----

  /** A new process becomes ready. */
  function Added(s: State, p: Ptr): State {
    Readied(s, p)
  }

  /** A reaped process disappears. */
  function Removed(s: State, p: Ptr): State {
    s.(status := s.status - {p})
  }

  function SemInited(s: State, id: nat): State {
    s.(sems := s.sems[id := Sem(0, [])])
  }

  function SemWaited(s: State, id: nat): State
    requires Valid(s) && id in s.sems && s.curr != Some(s.idle)
  {
    var s1 := s.(sems := s.sems[id := Down(s.sems[id], s.curr.value)]);
    if s.sems[id].val - 1 < 0 then SomebodyReady(s); HandOver(s1, WAIT_SEM) else s1
  }

  function SemSignaled(s: State, id: nat): State
    requires id in s.sems && Consistent(s.sems[id])
  {
    var s1 := s.(sems := s.sems[id := Up(s.sems[id])]);
    if s.sems[id].val < 0 then Readied(s1, s.sems[id].queue[0]) else s1
  }

  /** `timer_isr` with its callback, at time `now`. */
  function Ticked(s: State, now: nat): State
    requires s.timers.pending != [] && s.curr.Some?
  {
    match s.timers.pending[0].id
    case Slice =>
      Rescheduled(s.(timers := T.Armed(T.Fired(s.timers), T.Slice, T.Expiry(now, TIMESLICE))))
    case Sleeper(p) =>
      Readied(s.(timers := T.Fired(s.timers)), p)
  }

  function Slept(s: State, now: nat, ns: nat): State
    requires Valid(s) && s.curr != Some(s.idle)
  {
    SomebodyReady(s);
    HandOver(s.(timers := T.Armed(s.timers, T.Sleeper(s.curr.value), T.Expiry(now, ns))), SLEEP)
  }

  // ---- every step keeps the invariant ----

  lemma SomebodyReadyIn(s: State)
    requires Valid(s) && s.curr != Some(s.idle)
    ensures s.ready != [] && s.ready[0] in s.status && s.status[s.ready[0]] == READY
    ensures s.curr.Some? && s.curr.value in s.status && s.status[s.curr.value] == CURR
  {
    SomebodyReady(s);
  }

  lemma HeadWaits(s: State, id: nat)
    requires Valid(s) && id in s.sems && s.sems[id].val < 0
    ensures s.sems[id].queue != [] && s.sems[id].queue[0] in s.status && s.status[s.sems[id].queue[0]] == WAIT_SEM
  {
    hide Core, TimersOk;
    assert Queued(s, s.sems[id].queue[0], id);
  }

  lemma SemConsistent(s: State, id: nat)
    requires Valid(s) && id in s.sems
    ensures Consistent(s.sems[id])
  {
  }

  lemma NewbornCore(s: State, p: Ptr)
    requires Core(s) && p !in s.status
    ensures Core(s.(status := s.status[p := INIT]))
  {
  }

  lemma AddedValid(s: State, p: Ptr)
    requires Valid(s) && p !in s.status
    ensures Valid(Added(s, p))
  {
    hide SemsOk, TimersOk, Core;
    var s0 := s.(status := s.status[p := INIT]);
    NewbornCore(s, p);
    ReadiedCore(s0, p);
    assert s0.status[p := READY] == s.status[p := READY];
    SemsFrame(s, Added(s, p));
    TimersFrame(s, Added(s, p));
  }

  lemma RemovedValid(s: State, p: Ptr)
    requires Valid(s) && p in s.status && s.status[p] == ZOMBIE
    ensures Valid(Removed(s, p))
  {
    SemsFrame(s, Removed(s, p));
    TimersFrame(s, Removed(s, p));
  }

  lemma SemsFrame(s: State, s': State)
    requires SemsOk(s) && s'.sems == s.sems
    requires forall p :: p in s'.status && s'.status[p] == WAIT_SEM <==> p in s.status && s.status[p] == WAIT_SEM
    ensures SemsOk(s')
  {
    assert forall p, id :: Queued(s', p, id) <==> Queued(s, p, id);
  }

  lemma TimersFrame(s: State, s': State)
    requires TimersOk(s) && s'.timers == s.timers
    requires forall p :: p in s'.status && s'.status[p] == SLEEP <==> p in s.status && s.status[p] == SLEEP
    ensures TimersOk(s')
  {
  }

  /** Waking a process that waits for a child. */
  lemma WokenValid(s: State, p: Ptr)
    requires Valid(s) && p in s.status && s.status[p] == WAIT_CHILD
    ensures Valid(Readied(s, p))
    ensures CanUpdate(s, p, READY) && Update(s, p, READY) == Readied(s, p)
  {
    hide Core, SemsOk, TimersOk;
    ReadiedCore(s, p);
    SemsFrame(s, Readied(s, p));
    TimersFrame(s, Readied(s, p));
  }

  /** The current process blocks in a wait for a child or becomes a zombie. */
  lemma HandOverValid(s: State, st: Status)
    requires Valid(s) && s.curr != Some(s.idle) && st in {WAIT_CHILD, ZOMBIE}
    ensures s.ready != []
    ensures Valid(HandOver(s, st))
    ensures CanUpdate(s, s.curr.value, st) && Update(s, s.curr.value, st) == HandOver(s, st)
  {
    hide Core, SemsOk, TimersOk;
    SomebodyReady(s);
    BlockHandsOver(s, st);
    HandOverCore(s, st);
    hide Update, CanUpdate;
    SemsFrame(s, HandOver(s, st));
    TimersFrame(s, HandOver(s, st));
  }

  lemma RescheduledValid(s: State)
    requires Valid(s)
    ensures Valid(Rescheduled(s))
  {
    SemsFrame(s, Rescheduled(s));
    TimersFrame(s, Rescheduled(s));
    assert s.curr.value !in s.ready;
  }

  /** Initialising a semaphore, new or old, keeps the invariant exactly if nobody waits on
      it: a waiter would be in no queue any more. */
  lemma SemInitedValid(s: State, id: nat)
    requires Valid(s)
    ensures Valid(SemInited(s, id)) <==> (id in s.sems ==> s.sems[id].queue == [])
  {
    hide Core, T.Valid;
    var s' := SemInited(s, id);
    if id in s.sems && s.sems[id].queue != [] {
      var h := s.sems[id].queue[0];
      assert Queued(s, h, id);
      forall i ensures !Queued(s', h, i) {
        if i != id { assert Queued(s', h, i) ==> Queued(s, h, i); }
      }
      assert h in s'.status && s'.status[h] == WAIT_SEM;
    } else {
      assert forall p, i :: Queued(s', p, i) <==> Queued(s, p, i);
      TimersFrame(s, s');
      CoreFrame(s, s');
    }
  }

  lemma CoreFrame(s: State, s1: State)
    requires Core(s) && s1 == s.(timers := s1.timers, sems := s1.sems)
    ensures Core(s1)
  {
  }

  lemma SemWaitedSems(s: State, id: nat)
    requires Valid(s) && id in s.sems && s.curr != Some(s.idle)
    ensures SemsOk(SemWaited(s, id))
  {
    hide TimersOk, Core;
    SomebodyReady(s);
    if s.sems[id].val - 1 < 0 {
      SemBlockedSems(s, id);
    } else {
      var s' := SemWaited(s, id);
      assert forall p, i :: Queued(s', p, i) <==> Queued(s, p, i);
    }
  }

  /** The caller joins the end of the semaphore's queue and the head of the ready queue runs. */
  lemma SemBlockedSems(s: State, id: nat)
    requires SemsOk(s) && id in s.sems && s.sems[id].val - 1 < 0 && s.ready != [] && s.ready[0] in s.status
    requires s.status[s.ready[0]] == READY && s.curr.Some? && s.curr.value in s.status && s.status[s.curr.value] == CURR
    ensures SemsOk(HandOver(s.(sems := s.sems[id := Down(s.sems[id], s.curr.value)]), WAIT_SEM))
  {
    var c, q := s.curr.value, s.sems[id].queue;
    var s' := HandOver(s.(sems := s.sems[id := Down(s.sems[id], c)]), WAIT_SEM);
    assert forall p, i :: Queued(s', p, i) <==> Queued(s, p, i) || (p == c && i == id);
    assert forall p, i :: Queued(s, p, i) ==> p != c && p != s.ready[0];
    assert !Queued(s, c, id);
    NoDupConcat(q, [c]);
    hide NoDup;
    assert Queued(s', c, id);
    forall p | p in s'.status && s'.status[p] == WAIT_SEM ensures exists i :: Queued(s', p, i) {
      if p != c {
        var i :| Queued(s, p, i);
        assert Queued(s', p, i);
      }
    }
  }

  lemma SemWaitedValid(s: State, id: nat)
    requires Valid(s) && id in s.sems && s.curr != Some(s.idle)
    ensures Valid(SemWaited(s, id))
  {
    hide TimersOk, SemsOk;
    SomebodyReady(s);
    SemWaitedSems(s, id);
    var s1 := s.(sems := s.sems[id := Down(s.sems[id], s.curr.value)]);
    assert Core(s1);
    hide Core;
    if s.sems[id].val - 1 < 0 {
      HandOverCore(s1, WAIT_SEM);
    }
    TimersFrame(s, SemWaited(s, id));
  }

  lemma SemSignaledSems(s: State, id: nat)
    requires SemsOk(s) && id in s.sems
    ensures SemsOk(SemSignaled(s, id))
  {
    var s' := SemSignaled(s, id);
    if s.sems[id].val < 0 {
      var q := s.sems[id].queue;
      var h := q[0];
      assert q == [h] + q[1..];
      assert forall p :: p in q <==> p == h || p in q[1..];
      assert h !in q[1..];
      assert Queued(s, h, id);
      assert forall p, i :: Queued(s', p, i) <==> Queued(s, p, i) && p != h;
    } else {
      assert forall p, i :: Queued(s', p, i) <==> Queued(s, p, i);
    }
  }

  lemma SemSignaledValid(s: State, id: nat)
    requires Valid(s) && id in s.sems
    ensures Valid(SemSignaled(s, id))
    ensures SemSignaled(s, id).status.Keys == s.status.Keys
  {
    hide TimersOk, Core, SemsOk;
    SemConsistent(s, id);
    SemSignaledSems(s, id);
    var s1 := s.(sems := s.sems[id := Up(s.sems[id])]);
    CoreFrame(s, s1);
    if s.sems[id].val < 0 {
      HeadWaits(s, id);
      ReadiedCore(s1, s.sems[id].queue[0]);
    }
    TimersFrame(s, SemSignaled(s, id));
  }

  lemma NeverEmpty(s: State)
    requires TimersOk(s)
    ensures s.timers.pending != []
  {
  }

  lemma SliceTicked(s: State, now: nat)
    requires Valid(s) && s.timers.pending != [] && s.timers.pending[0].id == T.Slice
    ensures Valid(Ticked(s, now))
  {
    T.FiredValid(s.timers);
    T.ArmedValid(T.Fired(s.timers), T.Slice, T.Expiry(now, TIMESLICE));
    var s1 := s.(timers := T.Armed(T.Fired(s.timers), T.Slice, T.Expiry(now, TIMESLICE)));
    SemsFrame(s, s1);
    RescheduledValid(s1);
  }

  lemma SomebodyRuns(s: State)
    requires Core(s)
    ensures s.curr.Some?
  {
  }

  lemma FirstPending(q: seq<T.Timer>)
    requires q != []
    ensures T.Pending(q, q[0].id)
  {
  }

  lemma SleeperTicked(s: State, p: Ptr, now: nat)
    requires Valid(s) && s.timers.pending != [] && s.timers.pending[0].id == T.Sleeper(p)
    ensures Valid(Ticked(s, now))
    ensures p in s.status && s.status[p] == SLEEP
  {
    hide SemsOk, T.Valid, T.Pending, Core;
    T.FiredValid(s.timers);
    FirstPending(s.timers.pending);
    SomebodyRuns(s);
    var s1 := s.(timers := T.Fired(s.timers));
    CoreFrame(s, s1);
    ReadiedCore(s1, p);
    SemsFrame(s, Ticked(s, now));
  }

  /** The preemption callback reschedules the process it interrupted. */
  lemma SliceCallback(s: State, now: nat)
    requires Valid(s) && s.timers.pending != [] && s.timers.pending[0].id == T.Slice
    ensures
      var s1 := s.(timers := T.Fired(s.timers));
      var s2 := s1.(timers := T.Armed(s1.timers, T.Slice, T.Expiry(now, TIMESLICE)));
      CanSwitch(s1) && CanSwitch(s2) && Switch(s2) == Ticked(s, now)
  {
    var s1 := s.(timers := T.Fired(s.timers));
    var s2 := s1.(timers := T.Armed(s1.timers, T.Slice, T.Expiry(now, TIMESLICE)));
    assert Core(s1) && Core(s2);
    SwitchKeepsCurrent(s1);
    SwitchKeepsCurrent(s2);
  }

  /** The wake-up callback readies its process; the timer it then cancels is already off the queue. */
  lemma SleeperCallback(s: State, p: Ptr, now: nat)
    requires Valid(s) && s.timers.pending != [] && s.timers.pending[0].id == T.Sleeper(p)
    ensures
      var s1 := s.(timers := T.Fired(s.timers));
      CanUpdate(s1, p, READY) && Update(s1, p, READY) == Ticked(s, now)
  {
    hide Core, SemsOk, T.Valid, T.Cancelled, T.Pending;
    SleeperTicked(s, p, now);
    T.FiredValid(s.timers);
    T.CancelledValid(T.Fired(s.timers), T.Sleeper(p));
  }

  lemma TickedValid(s: State, now: nat)
    requires Valid(s) && s.timers.pending != []
    ensures Valid(Ticked(s, now))
    ensures Ticked(s, now).status.Keys == s.status.Keys
  {
    match s.timers.pending[0].id {
      case Slice => SliceTicked(s, now);
      case Sleeper(p) => SleeperTicked(s, p, now);
    }
  }

  lemma SleptValid(s: State, now: nat, ns: nat)
    requires Valid(s) && s.curr != Some(s.idle)
    ensures Valid(Slept(s, now, ns))
    ensures Slept(s, now, ns).status.Keys == s.status.Keys
  {
    hide SemsOk, T.Valid, T.Armed, T.Pending, Core;
    SomebodyReady(s);
    var c := s.curr.value;
    var t := T.Armed(s.timers, T.Sleeper(c), T.Expiry(now, ns));
    CoreFrame(s, s.(timers := t));
    T.ArmedValid(s.timers, T.Sleeper(c), T.Expiry(now, ns));
    HandOverCore(s.(timers := t), SLEEP);
    SemsFrame(s, Slept(s, now, ns));
  }

  // ---- repeated signals ----

  /** `sem_signaln`. */
  function SemSignaledN(s: State, id: nat, n: nat): (s': State)
    requires Valid(s) && id in s.sems
    ensures Valid(s') && id in s'.sems
    ensures s'.status.Keys == s.status.Keys
    decreases n
  {
    if n == 0 then s
    else
      SemSignaledValid(s, id);
      SemSignaledN(SemSignaled(s, id), id, n - 1)
  }

  /** `sem_deinit`: signal while there are waiters, then one more increment. */
  function SemDrained(s: State, id: nat): (s': State)
    requires Valid(s) && id in s.sems
    ensures Valid(s') && id in s'.sems
    ensures s'.status.Keys == s.status.Keys
    decreases Waiters(s.sems[id].val)
  {
    SemSignaledValid(s, id);
    if s.sems[id].val < 0 then SemDrained(SemSignaled(s, id), id) else SemSignaled(s, id)
  }

  function Reversed(q: seq<Ptr>): seq<Ptr> {
    if q == [] then [] else Reversed(q[1..]) + [q[0]]
  }

  lemma SignalMovesHead(s: State, id: nat)
    requires Valid(s) && id in s.sems && s.sems[id].val < 0
    ensures
      var q, s1 := s.sems[id].queue, SemSignaled(s, id);
      && s1.sems == s.sems[id := Sem(s.sems[id].val + 1, q[1..])]
      && s1.ready == [q[0]] + s.ready && s1.curr == s.curr
      && s1.status == s.status[q[0] := READY]
      && q[0] !in q[1..] && (forall p :: p in q <==> p == q[0] || p in q[1..])
  {
    var q := s.sems[id].queue;
    assert q == [q[0]] + q[1..];
  }

  lemma DrainStep(s: State, id: nat)
    requires Valid(s) && id in s.sems && s.sems[id].val < 0
    ensures Valid(SemSignaled(s, id)) && id in SemSignaled(s, id).sems
    ensures SemDrained(s, id) == SemDrained(SemSignaled(s, id), id)
  {
    SemSignaledValid(s, id);
  }

  lemma SignalNStep(s: State, id: nat, n: nat)
    requires Valid(s) && id in s.sems
    ensures Valid(SemSignaled(s, id)) && id in SemSignaled(s, id).sems
    ensures SemSignaledN(s, id, n + 1) == SemSignaledN(SemSignaled(s, id), id, n)
  {
    SemSignaledValid(s, id);
  }

  /** Tearing a semaphore down empties its queue and readies every waiter, the last
      arrival ending up at the head of the ready queue; the current process runs on. */
  lemma {:induction false} DrainReadiesAll(s: State, id: nat)
    requires Valid(s) && id in s.sems
    ensures SemDrained(s, id).ready == Reversed(s.sems[id].queue) + s.ready
    ensures SemDrained(s, id).curr == s.curr
    decreases Waiters(s.sems[id].val)
  {
    hide Valid;
    SemConsistent(s, id);
    var q := s.sems[id].queue;
    if s.sems[id].val < 0 {
      DrainStep(s, id);
      SignalMovesHead(s, id);
      DrainReadiesAll(SemSignaled(s, id), id);
      assert Reversed(q) + s.ready == Reversed(q[1..]) + ([q[0]] + s.ready);
    } else {
      assert Reversed(q) + s.ready == s.ready;
    }
  }

  /** It leaves the semaphore empty and above zero, and touches no other one. */
  lemma {:induction false} DrainEmpties(s: State, id: nat)
    requires Valid(s) && id in s.sems
    ensures SemDrained(s, id).sems == s.sems[id := Sem((if s.sems[id].val < 0 then 0 else s.sems[id].val) + 1, [])]
    decreases Waiters(s.sems[id].val)
  {
    hide Valid;
    SemConsistent(s, id);
    if s.sems[id].val < 0 {
      DrainStep(s, id);
      SignalMovesHead(s, id);
      DrainEmpties(SemSignaled(s, id), id);
    }
  }

  /** Tearing down is the same as signalling once for each waiter and once more. */
  lemma {:induction false} DrainIsSignals(s: State, id: nat)
    requires Valid(s) && id in s.sems
    ensures SemDrained(s, id) == SemSignaledN(s, id, Waiters(s.sems[id].val) + 1)
    decreases Waiters(s.sems[id].val)
  {
    hide Valid;
    SemConsistent(s, id);
    SignalNStep(s, id, Waiters(s.sems[id].val));
    if s.sems[id].val < 0 {
      DrainStep(s, id);
      DrainIsSignals(SemSignaled(s, id), id);
    }
  }

  lemma {:induction false} DrainStatus(s: State, id: nat)
    requires Valid(s) && id in s.sems
    ensures
      var q, s' := s.sems[id].queue, SemDrained(s, id);
      forall p :: p in s.status ==> s'.status[p] == if p in q then READY else s.status[p]
    decreases Waiters(s.sems[id].val)
  {
    hide Valid;
    SemConsistent(s, id);
    if s.sems[id].val < 0 {
      DrainStep(s, id);
      SignalMovesHead(s, id);
      DrainStatus(SemSignaled(s, id), id);
    }
  }
}
