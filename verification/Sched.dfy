/** The scheduler's state, the effect of each of its operations, and the invariant that
    puts every process in exactly one place. Models `src/sched.c`, `src/sync/sem.c`,
    `src/syscalls/sleep.c` and the callbacks of `src/timer.c`. */
module Sched {
  import opened Queues
  import opened Semaphores
  import T = Timers

  /** A process is named by the address of its `proc_t`. */
  type Ptr = nat

  const TIMESLICE: nat := 10_000_000

  datatype Status = INIT | READY | CURR | WAIT_SEM | WAIT_CHILD | SLEEP | ZOMBIE

  /** `curr` is the variable `curr_proc`; `cpu` is the process whose context the last
      `proc_ctx_sw` restored. `readied` and `stamp` number the entries into the ready
      queue: they are history, no code reads them. */
  datatype State = State(
    idle: Ptr,
    status: map<Ptr, Status>,
    ready: seq<Ptr>,
    curr: Option<Ptr>,
    cpu: Option<Ptr>,
    sems: map<nat, Sem>,
    timers: T.Queue,
    readied: map<Ptr, nat>,
    stamp: nat)

  predicate Blocks(st: Status) {
    st in {WAIT_SEM, WAIT_CHILD, SLEEP, ZOMBIE}
  }

  // ---- sched_update_state and sched_resched, branch by branch ----

  /** The first switch of `sched_update_state`: leaving the old state. */
  function Leave(s: State, p: Ptr): State
    requires p in s.status
  {
    match s.status[p]
    case READY => s.(ready := Without(s.ready, p))
    case SLEEP => s.(timers := T.Cancelled(s.timers, T.Sleeper(p)))
    case _ => s
  }

  function Readied(s: State, p: Ptr): State {
    s.(status := s.status[p := READY],
       ready := [p] + s.ready,
       readied := s.readied[p := s.stamp],
       stamp := s.stamp + 1)
  }

  /** The second switch, without the reschedule it may end with: entering the new state. */
  function Enter(s: State, p: Ptr, st: Status): State {
    match st
    case READY => Readied(s, p)
    case CURR => s.(status := s.status[p := CURR], curr := Some(p))
    case ZOMBIE => s.(status := s.status[p := ZOMBIE], curr := if s.curr == Some(p) then None else s.curr)
    case _ => s.(status := s.status[p := st])
  }

  /** `sched_update_state` without the reschedule. */
  function Move(s: State, p: Ptr, st: Status): State
    requires p in s.status
  {
    if s.status[p] == st then s else Enter(Leave(s, p), p, st)
  }

  function Requeued(s: State): State
    requires s.curr.Some? ==> s.curr.value in s.status
  {
    if s.curr.Some? && s.status[s.curr.value] == CURR then Move(s, s.curr.value, READY) else s
  }

  predicate CanSwitch(s: State) {
    && (s.curr.Some? ==> s.curr.value in s.status)
    && Requeued(s).ready != []
    && Requeued(s).ready[0] in Requeued(s).status
  }

  /** `sched_resched`. */
  function Switch(s: State): State
    requires CanSwitch(s)
  {
    var s1 := Requeued(s);
    Move(s1, s1.ready[0], CURR).(cpu := Some(s1.ready[0]))
  }

  predicate CanUpdate(s: State, p: Ptr, st: Status) {
    && p in s.status
    && (s.status[p] != st && Blocks(st) && s.curr == Some(p) ==> CanSwitch(Move(s, p, st)))
  }

  /** `sched_update_state`. */
  function Update(s: State, p: Ptr, st: Status): State
    requires CanUpdate(s, p, st)
  {
    if s.status[p] != st && Blocks(st) && s.curr == Some(p) then Switch(Move(s, p, st)) else Move(s, p, st)
  }

  // ---- the invariant ----

  /** On the ready queue, once, if and only if READY. */
  ghost predicate ReadyOk(s: State) {
    && NoDup(s.ready)
    && (forall p :: p in s.ready <==> p in s.status && s.status[p] == READY)
  }

  /** `curr_proc` is the one process in state CURR, and the one on the CPU. */
  ghost predicate CurrOk(s: State) {
    && s.curr.Some?
    && s.curr.value in s.status
    && s.cpu == s.curr
    && (forall p :: p in s.status ==> (s.status[p] == CURR <==> s.curr == Some(p)))
  }

  /** Idle is always READY or CURR, and while READY it lies at the bottom of the queue. */
  ghost predicate IdleOk(s: State) {
    && s.idle in s.status
    && s.status[s.idle] in {READY, CURR}
    && (s.status[s.idle] == READY ==> s.ready != [] && s.ready[|s.ready| - 1] == s.idle)
  }

  /** The queue lists the ready processes from the last readied to the first. */
  ghost predicate StackOk(s: State) {
    && (forall p :: p in s.readied ==> s.readied[p] < s.stamp)
    && (forall p :: p in s.ready ==> p in s.readied)
    && (forall i, j :: 0 <= i < j < |s.ready| ==> s.readied[s.ready[i]] > s.readied[s.ready[j]])
  }

  ghost predicate Core(s: State) {
    ReadyOk(s) && CurrOk(s) && IdleOk(s) && StackOk(s)
  }

  predicate Queued(s: State, p: Ptr, id: nat) {
    id in s.sems && p in s.sems[id].queue
  }

  /** On a semaphore's queue, once and on one only, if and only if WAIT_SEM. */
  ghost predicate SemsOk(s: State) {
    && (forall id :: id in s.sems ==> Consistent(s.sems[id]) && NoDup(s.sems[id].queue))
    && (forall p, id :: Queued(s, p, id) ==> p in s.status && s.status[p] == WAIT_SEM)
    && (forall p, i, j :: Queued(s, p, i) && Queued(s, p, j) ==> i == j)
    && (forall p :: p in s.status && s.status[p] == WAIT_SEM ==> exists id :: Queued(s, p, id))
  }

  /** Timer pending if and only if SLEEP; the slice timer is always pending. */
  ghost predicate TimersOk(s: State) {
    && T.Valid(s.timers)
    && T.Pending(s.timers.pending, T.Slice)
    && (forall p :: T.Pending(s.timers.pending, T.Sleeper(p)) <==> p in s.status && s.status[p] == SLEEP)
  }

  ghost predicate Valid(s: State) {
    && Core(s) && SemsOk(s) && TimersOk(s)
    && (forall p :: p in s.status ==> s.status[p] != INIT)
  }

  // ---- effects in closed form ----

  /** The current process leaves the CPU in state `st` and the head of the ready queue takes it. */
  function HandOver(s: State, st: Status): State
    requires s.curr.Some? && s.ready != []
  {
    s.(status := s.status[s.curr.value := st][s.ready[0] := CURR],
       ready := s.ready[1..],
       curr := Some(s.ready[0]),
       cpu := Some(s.ready[0]))
  }

  /** A reschedule of a runnable process: only the history moves. */
  function Rescheduled(s: State): State
    requires s.curr.Some?
  {
    s.(readied := s.readied[s.curr.value := s.stamp], stamp := s.stamp + 1)
  }

  /** The reschedule of a runnable process picks that same process again. */
  lemma SwitchKeepsCurrent(s: State)
    requires Core(s)
    ensures CanSwitch(s)
    ensures Switch(s) == Rescheduled(s)
  {
    var c := s.curr.value;
    var s1 := Requeued(s);
    assert Without([c] + s.ready, c) == s.ready by { assert ([c] + s.ready)[1..] == s.ready; }
    assert s.status[c := READY][c := CURR] == s.status;
  }

  /** Blocking the current process hands the CPU to the head of the ready queue. */
  lemma BlockHandsOver(s: State, st: Status)
    requires s.curr.Some? && s.curr.value in s.status && s.status[s.curr.value] == CURR
    requires s.ready != [] && s.ready[0] in s.status && s.status[s.ready[0]] == READY
    requires Blocks(st)
    ensures CanUpdate(s, s.curr.value, st)
    ensures Update(s, s.curr.value, st) == HandOver(s, st)
  {
    var s1 := Move(s, s.curr.value, st);
    assert Requeued(s1) == s1;
    assert Without(s.ready, s.ready[0]) == s.ready[1..];
  }

  /** Whoever runs besides idle leaves somebody on the ready queue. */
  lemma SomebodyReady(s: State)
    requires Core(s) && s.curr != Some(s.idle)
    ensures s.ready != [] && s.ready[0] in s.status && s.status[s.ready[0]] == READY
    ensures s.curr.Some? && s.curr.value in s.status && s.status[s.curr.value] == CURR
  {
    assert s.ready[0] in s.ready;
  }

  lemma ReadiedReady(s: State, p: Ptr)
    requires ReadyOk(s) && p in s.status && s.status[p] !in {READY, CURR}
    ensures ReadyOk(Readied(s, p))
  {
    assert p !in s.ready;
    assert forall q :: q in [p] + s.ready <==> q == p || q in s.ready;
    NoDupCons(p, s.ready);
    hide NoDup;
  }

  lemma ReadiedStack(s: State, p: Ptr)
    requires StackOk(s) && p !in s.ready
    ensures StackOk(Readied(s, p))
  {
    var s' := Readied(s, p);
    assert forall q :: q in s'.ready <==> q == p || q in s.ready;
    forall i, j | 0 <= i < j < |s'.ready|
      ensures s'.readied[s'.ready[i]] > s'.readied[s'.ready[j]]
    {
      assert s'.ready[j] == s.ready[j - 1];
      assert s.ready[j - 1] in s.ready;
      if i > 0 {
        assert s'.ready[i] == s.ready[i - 1];
        assert s.ready[i - 1] in s.ready;
      }
    }
  }

  lemma ReadiedCore(s: State, p: Ptr)
    requires Core(s) && p in s.status && s.status[p] !in {READY, CURR}
    ensures Core(Readied(s, p))
  {
    assert p !in s.ready;
    ReadiedReady(s, p);
    ReadiedStack(s, p);
    ReadiedIdle(s, p);
    hide ReadyOk, StackOk, IdleOk;
  }

  lemma ReadiedIdle(s: State, p: Ptr)
    requires IdleOk(s) && p in s.status && s.status[p] !in {READY, CURR}
    ensures IdleOk(Readied(s, p))
  {
    var r := [p] + s.ready;
    assert s.ready != [] ==> r[|r| - 1] == s.ready[|s.ready| - 1];
  }

  lemma HandOverReady(s: State, st: Status)
    requires ReadyOk(s) && CurrOk(s) && s.ready != [] && Blocks(st)
    ensures ReadyOk(HandOver(s, st))
  {
    var n, rest := s.ready[0], s.ready[1..];
    assert s.ready == [n] + rest;
    assert forall q :: q in s.ready <==> q == n || q in rest;
    assert s.curr.value !in s.ready;
  }

  lemma HandOverCurr(s: State, st: Status)
    requires ReadyOk(s) && CurrOk(s) && s.ready != [] && Blocks(st)
    ensures CurrOk(HandOver(s, st))
    ensures HandOver(s, st).status.Keys == s.status.Keys
  {
    assert s.ready[0] in s.ready;
  }

  lemma HandOverStack(s: State, st: Status)
    requires StackOk(s) && s.curr.Some? && s.ready != []
    ensures StackOk(HandOver(s, st))
    ensures forall p :: p in s.ready[1..] ==> s.readied[p] < s.readied[s.ready[0]]
  {
    var rest := s.ready[1..];
    assert forall i :: 0 <= i < |rest| ==> rest[i] == s.ready[i + 1];
  }

  lemma HandOverCore(s: State, st: Status)
    requires Core(s) && s.curr != Some(s.idle) && Blocks(st)
    requires s.ready != []
    ensures Core(HandOver(s, st))
    ensures HandOver(s, st).status.Keys == s.status.Keys
  {
    HandOverReady(s, st);
    HandOverCurr(s, st);
    HandOverStack(s, st);
    var s' := HandOver(s, st);
    assert IdleOk(s') by {
      if s.ready[0] != s.idle {
        assert s.status[s.idle] == READY;
        assert |s.ready| > 1;
        assert s'.ready[|s'.ready| - 1] == s.ready[|s.ready| - 1];
      }
    }
  }
}
