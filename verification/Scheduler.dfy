/** `src/sched.c`, `src/sync/sem.c` and `src/syscalls/sleep.c` in place: one object
    whose fields the kernel entry points update. */
module Scheduler {
  import opened Queues
  import opened Semaphores
  import opened Sched
  import opened SchedSteps
  import T = Timers

  class Scheduler {
    const idle: Ptr
    const timers: T.TimerQueue
    var status: map<Ptr, Status>
    var ready: seq<Ptr>
    var curr: Option<Ptr>
    var cpu: Option<Ptr>
    var sems: map<nat, Sem>
    var readied: map<Ptr, nat>
    var stamp: nat

    ghost function View(): State
      reads this, timers
    {
      State(idle, status, ready, curr, cpu, sems, timers.View(), readied, stamp)
    }

    /** The module's initialisation: idle exists and is ready. */
    constructor (idleProc: Ptr)
      ensures fresh(timers) && idle == idleProc
      ensures View() == Update(Empty(idleProc), idleProc, READY)
    {
      idle := idleProc;
      timers := new T.TimerQueue();
      status, ready, curr, cpu, sems, readied, stamp := map[idleProc := INIT], [], None, None, map[], map[], 0;
      new;
      UpdateState(idleProc, READY);
    }

    method UpdateState(p: Ptr, st: Status)
      requires CanUpdate(View(), p, st)
      modifies this, timers
      ensures View() == Update(old(View()), p, st)
      decreases if Blocks(st) then 2 else 0, 1
    {
      hide CanSwitch, Switch, Enter;
      if status[p] == st {
        return;
      }
      LeaveState(p);
      EnterState(p, st);
    }

    /** The first switch of `sched_update_state`. */
    method LeaveState(p: Ptr)
      requires p in status
      modifies this`ready, timers
      ensures View() == Leave(old(View()), p)
    {
      match status[p] {
        case READY => ready := Without(ready, p);
        case SLEEP => timers.Cancel(T.Sleeper(p));
        case _ =>
      }
    }

    /** The second switch of `sched_update_state`. */
    method EnterState(p: Ptr, st: Status)
      requires Blocks(st) && curr == Some(p) ==> CanSwitch(Enter(View(), p, st))
      modifies this, timers
      ensures View() == if Blocks(st) && old(curr) == Some(p) then Switch(Enter(old(View()), p, st)) else Enter(old(View()), p, st)
      decreases if Blocks(st) then 2 else 0, 0
    {
      hide CanSwitch, Switch;
      status := status[p := st];
      match st {
        case READY =>
          ready := [p] + ready;
          readied, stamp := readied[p := stamp], stamp + 1;
        case CURR =>
          curr := Some(p);
        case WAIT_SEM | WAIT_CHILD | SLEEP =>
          if curr == Some(p) {
            Resched();
          }
        case ZOMBIE =>
          if curr == Some(p) {
            curr := None;
            Resched();
          }
        case INIT =>
      }
    }

    method Resched()
      requires CanSwitch(View())
      modifies this, timers
      ensures View() == Switch(old(View()))
      decreases 1, 0
    {
      if curr.Some? && status[curr.value] == CURR {
        UpdateState(curr.value, READY);
      }
      var next := ready[0];
      UpdateState(next, CURR);
      cpu := Some(next);
    }

    /** `sched_start`, once init has been readied. */
    method Start(init: Ptr, now: nat)
      requires idle != init && View() == Update(Empty(idle), idle, READY)
      modifies this, timers
      ensures View() == Boot(idle, init, now) && Valid(View())
    {
      BootValid(idle, init, now);
      status := status[init := INIT];
      UpdateState(init, READY);
      timers.Wait(T.Slice, now, TIMESLICE);
      assert View() == BeforeStart(idle, init, now);
      Resched();
    }

    method Yield()
      requires Valid(View())
      modifies this, timers
      ensures View() == Rescheduled(old(View())) && Valid(View())
    {
      SwitchKeepsCurrent(View());
      RescheduledValid(View());
      Resched();
    }

    method Preempt(now: nat)
      requires CanSwitch(View())
      modifies this, timers
      ensures View() == Switch(old(View()).(timers := T.Armed(old(timers.View()), T.Slice, T.Expiry(now, TIMESLICE))))
    {
      timers.Wait(T.Slice, now, TIMESLICE);
      Resched();
    }

    method TimerIsr(now: nat)
      requires Valid(View())
      modifies this, timers
      ensures old(timers.pending) != []
      ensures View() == Ticked(old(View()), now) && Valid(View())
    {
      NeverEmpty(View());
      TickedValid(View(), now);
      ghost var s := View();
      var t := timers.Isr();
      match t.id {
        case Slice =>
          SliceCallback(s, now);
          Preempt(now);
        case Sleeper(p) =>
          SleeperCallback(s, p, now);
          UpdateState(p, READY);
      }
    }

    method Sleep(now: nat, ns: nat)
      requires Valid(View()) && curr != Some(idle)
      modifies this, timers
      ensures View() == Slept(old(View()), now, ns) && Valid(View())
    {
      hide Valid;
      SomebodyReadyIn(View());
      SleptValid(View(), now, ns);
      timers.Wait(T.Sleeper(curr.value), now, ns);
      BlockHandsOver(View(), SLEEP);
      UpdateState(curr.value, SLEEP);
    }

    method SemInit(id: nat)
      requires Valid(View())
      modifies this
      ensures View() == SemInited(old(View()), id)
      ensures Valid(View()) <==> old(id in sems ==> sems[id].queue == [])
    {
      SemInitedValid(View(), id);
      sems := sems[id := Sem(0, [])];
    }

    method SemWait(id: nat)
      requires Valid(View()) && id in sems && curr != Some(idle)
      modifies this, timers
      ensures View() == SemWaited(old(View()), id) && Valid(View())
    {
      hide Valid;
      SomebodyReadyIn(View());
      SemWaitedValid(View(), id);
      var val := sems[id].val - 1;
      sems := sems[id := Sem(val, sems[id].queue)];
      if val < 0 {
        sems := sems[id := Sem(val, sems[id].queue + [curr.value])];
        assert sems == old(sems)[id := Down(old(sems)[id], curr.value)];
        BlockHandsOver(View(), WAIT_SEM);
        UpdateState(curr.value, WAIT_SEM);
      }
    }

    method SemSignal(id: nat)
      requires Valid(View()) && id in sems
      modifies this, timers
      ensures View() == SemSignaled(old(View()), id) && Valid(View())
    {
      hide Valid;
      SemConsistent(View(), id);
      SemSignaledValid(View(), id);
      if sems[id].val < 0 {
        HeadWaits(View(), id);
      }
      var val := sems[id].val;
      sems := sems[id := Sem(val + 1, sems[id].queue)];
      if val < 0 {
        var p := sems[id].queue[0];
        sems := sems[id := Sem(val + 1, sems[id].queue[1..])];
        assert sems == old(sems)[id := Up(old(sems)[id])];
        UpdateState(p, READY);
      }
    }

    method SemSignalN(id: nat, n: nat)
      requires Valid(View()) && id in sems
      modifies this, timers
      ensures View() == SemSignaledN(old(View()), id, n) && Valid(View())
    {
      hide Valid;
      ghost var goal := SemSignaledN(View(), id, n);
      var i := 0;
      while i < n
        invariant i <= n && Valid(View()) && id in sems
        invariant SemSignaledN(View(), id, n - i) == goal
      {
        SignalNStep(View(), id, n - i - 1);
        SemSignal(id);
        i := i + 1;
      }
    }

    method SemDeinit(id: nat)
      requires Valid(View()) && id in sems
      modifies this, timers
      ensures View() == SemDrained(old(View()), id) && Valid(View())
    {
      hide Valid;
      ghost var goal := SemDrained(View(), id);
      while sems[id].val < 0
        invariant Valid(View()) && id in sems
        invariant SemDrained(View(), id) == goal
        decreases -sems[id].val
      {
        DrainStep(View(), id);
        SemSignal(id);
      }
      SemSignal(id);
    }
  }
}
