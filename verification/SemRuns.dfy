/** The semaphores of the running kernel are those of `Semaphores`: each is what the waits and
    signals since its last initialisation make it. */
module SemRuns {
  import opened Queues
  import opened Sched
  import opened SchedSteps
  import opened Lifecycle
  import opened Runs
  import S = Semaphores

  /** The operations on semaphore `id` since its last initialisation, after the step `l` too. */
  function Noted(k: Kernel, l: Label, id: nat, ops: seq<S.Op>): seq<S.Op>
    requires k.sched.curr.Some?
  {
    match l
    case SemInit(i) => if i == id then [] else ops
    case SemWait(i) => if i == id then ops + [S.Wait(k.sched.curr.value)] else ops
    case SemSignal(i) => if i == id then ops + [S.Signal] else ops
    case _ => ops
  }

  /** The operations since the last initialisation, at the end of a run that starts with `ops`. */
  ghost function OpsAlong(k: Kernel, ls: seq<Label>, k': Kernel, id: nat, ops: seq<S.Op>): seq<S.Op>
    requires Inv(k) && Leads(k, ls, k')
    decreases |ls|
  {
    hide Inv, Next;
    if ls == [] then ops
    else
      StepDefined(k);
      NextInv(k, ls[0]);
      OpsAlong(Next(k, ls[0]), ls[1..], k', id, Noted(k, ls[0], id, ops))
  }

  lemma RunAppend(ops: seq<S.Op>, op: S.Op)
    ensures S.Run(ops + [op]) == S.Apply(S.Run(ops), op)
  {
    assert (ops + [op])[..|ops|] == ops;
  }

  ghost predicate Agrees(k: Kernel, id: nat, ops: seq<S.Op>) {
    id in k.sched.sems ==> k.sched.sems[id] == S.Run(ops).sem
  }

  lemma StepAgrees(k: Kernel, l: Label, id: nat, ops: seq<S.Op>)
    requires Inv(k) && Enabled(k, l) && Agrees(k, id, ops)
    ensures k.sched.curr.Some? && Agrees(Next(k, l), id, Noted(k, l, id, ops))
  {
    hide Inv, Valid, S.Run;
    StepDefined(k);
    match l {
      case SemInit(i) => assert S.Run([]).sem == S.Sem(0, []) by { NoOps(); }
      case SemWait(i) =>
        if i == id {
          RunAppend(ops, S.Wait(k.sched.curr.value));
        }
      case SemSignal(i) =>
        if i == id {
          RunAppend(ops, S.Signal);
        }
      case _ =>
    }
  }

  lemma NoOps()
    ensures S.Run([]) == S.History(S.Sem(0, []), [])
  {
  }

  lemma {:induction false} AgreesAlong(k: Kernel, ls: seq<Label>, k': Kernel, id: nat, ops: seq<S.Op>)
    requires Inv(k) && Leads(k, ls, k') && Agrees(k, id, ops)
    ensures Agrees(k', id, OpsAlong(k, ls, k', id, ops))
    decreases |ls|
  {
    hide Inv, Next, Agrees;
    if ls != [] {
      StepDefined(k);
      NextInv(k, ls[0]);
      StepAgrees(k, ls[0], id, ops);
      AgreesAlong(Next(k, ls[0]), ls[1..], k', id, Noted(k, ls[0], id, ops));
    }
  }

  /** In every run: the value of a semaphore is the signals minus the waits since it was last
      initialised; of those waits the first ones, as many as there were signals, have been let
      through, and the others are its queue, in the order in which they came. */
  lemma SemOverRuns(idle: Ptr, init: Ptr, now: nat, ls: seq<Label>, k: Kernel, id: nat)
    requires RunsTo(idle, init, now, ls, k) && id in k.sched.sems
    ensures Inv(BootKernel(idle, init, now))
    ensures
      var ops := OpsAlong(BootKernel(idle, init, now), ls, k, id, []);
      var waits, signals := S.Arrivals(ops), S.Signals(ops);
      && k.sched.sems[id].val == signals - |waits|
      && k.sched.sems[id].queue == if signals < |waits| then waits[signals..] else []
  {
    hide Inv, Boot, Leads, OpsAlong;
    BootInv(idle, init, now);
    BootValid(idle, init, now);
    AgreesAlong(BootKernel(idle, init, now), ls, k, id, []);
    S.GrantsAreFirstArrivals(OpsAlong(BootKernel(idle, init, now), ls, k, id, []));
  }
}
