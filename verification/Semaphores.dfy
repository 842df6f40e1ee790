/** The counting semaphore of `src/sync/sem.c` and what it does over a whole history
    of waits and signals. */
module Semaphores {
  import opened Queues

  /** `queue` holds the blocked processes in arrival order. */
  datatype Sem = Sem(val: int, queue: seq<nat>)

  function Waiters(val: int): nat {
    if val < 0 then -val else 0
  }

  ghost predicate Consistent(m: Sem) {
    |m.queue| == Waiters(m.val)
  }

  /** `sem_wait` by process `p`: the process blocks exactly when the new value is negative. */
  function Down(m: Sem, p: nat): Sem {
    if m.val - 1 < 0 then Sem(m.val - 1, m.queue + [p]) else Sem(m.val - 1, m.queue)
  }

  /** `sem_signal`: the head waiter, if any, is released. */
  function Up(m: Sem): Sem
    requires m.val < 0 ==> m.queue != []
  {
    if m.val < 0 then Sem(m.val + 1, m.queue[1..]) else Sem(m.val + 1, m.queue)
  }

  datatype Op = Wait(proc: nat) | Signal

  /** A semaphore and the processes it has let through so far, in that order. */
  datatype History = History(sem: Sem, granted: seq<nat>)

  function Apply(h: History, op: Op): History
    requires Consistent(h.sem)
  {
    match op
    case Wait(p) =>
      History(Down(h.sem, p), if h.sem.val - 1 < 0 then h.granted else h.granted + [p])
    case Signal =>
      History(Up(h.sem), if h.sem.val < 0 then h.granted + [h.sem.queue[0]] else h.granted)
  }

  /** The history of a semaphore from `sem_init` on. */
  function Run(ops: seq<Op>): (h: History)
    ensures Consistent(h.sem)
  {
    if ops == [] then History(Sem(0, []), [])
    else Apply(Run(ops[..|ops| - 1]), ops[|ops| - 1])
  }

  function Arrivals(ops: seq<Op>): seq<nat> {
    if ops == [] then []
    else
      var before := Arrivals(ops[..|ops| - 1]);
      match ops[|ops| - 1] case Wait(p) => before + [p] case Signal => before
  }

  function Signals(ops: seq<Op>): nat {
    if ops == [] then 0
    else Signals(ops[..|ops| - 1]) + if ops[|ops| - 1].Signal? then 1 else 0
  }

  function Min(a: nat, b: nat): nat {
    if a < b then a else b
  }

  /** For every history: the waits let through are exactly the first min(signals, waits)
      of them in arrival order, and the others are the wait queue, in arrival order. */
  lemma {:induction false} GrantsAreFirstArrivals(ops: seq<Op>)
    ensures
      var h, arrived, n := Run(ops), Arrivals(ops), Min(Signals(ops), |Arrivals(ops)|);
      && h.granted == arrived[..n]
      && h.sem.queue == arrived[n..]
      && h.sem.val == Signals(ops) - |arrived|
  {
    if ops != [] {
      var before := ops[..|ops| - 1];
      GrantsAreFirstArrivals(before);
      var arrived, n := Arrivals(before), Min(Signals(before), |Arrivals(before)|);
      match ops[|ops| - 1] {
        case Wait(p) =>
          assert Arrivals(ops) == arrived + [p];
          if Run(before).sem.val - 1 < 0 {
            assert (arrived + [p])[n..] == arrived[n..] + [p];
            assert (arrived + [p])[..n] == arrived[..n];
          } else {
            assert (arrived + [p])[..n + 1] == arrived[..n] + [p];
          }
        case Signal =>
          if Run(before).sem.val < 0 {
            assert arrived[..n + 1] == arrived[..n] + [arrived[n]];
          }
      }
    }
  }

  // ---- in 32 bits ----

  predicate In32(v: int) {
    -0x8000_0000 <= v < 0x8000_0000
  }

  /** The history as the code computes it, in a signed 32-bit value; none once a wait or a
      signal has overflowed it, which C leaves undefined. */
  function Run32(ops: seq<Op>): (r: Option<History>)
    ensures r.Some? ==> Consistent(r.value.sem)
  {
    if ops == [] then Some(History(Sem(0, []), []))
    else
      match Run32(ops[..|ops| - 1])
      case None => None
      case Some(h) => if In32(Apply(h, ops[|ops| - 1]).sem.val) then Some(Apply(h, ops[|ops| - 1])) else None
  }

  /** At no point are there 2^31 more signals than waits, or more than 2^31 more waits than
      signals. */
  ghost predicate Balanced(ops: seq<Op>) {
    forall n :: 0 <= n <= |ops| ==> In32(Signals(ops[..n]) - |Arrivals(ops[..n])|)
  }

  /** The code does what the unbounded value would exactly for those histories. */
  lemma {:induction false} OverflowExactly(ops: seq<Op>)
    ensures Run32(ops) == if Balanced(ops) then Some(Run(ops)) else None
  {
    if ops == [] {
      assert ops[..0] == [];
    } else {
      var n := |ops| - 1;
      var before := ops[..n];
      OverflowExactly(before);
      GrantsAreFirstArrivals(ops);
      assert ops[..n + 1] == ops;
      assert forall i :: 0 <= i <= n ==> before[..i] == ops[..i];
    }
  }

  function Many(n: nat): seq<Op> {
    seq(n, i => Signal)
  }

  lemma {:induction false} ManySignals(n: nat)
    ensures Signals(Many(n)) == n && Arrivals(Many(n)) == []
  {
    if n > 0 {
      ManySignals(n - 1);
      assert Many(n)[..n - 1] == Many(n - 1);
    }
  }

  /** The history on which it shows: 2^31 signals and no wait. */
  lemma TooManySignals()
    ensures Run32(Many(0x8000_0000)) == None
  {
    ManySignals(0x8000_0000);
    OverflowExactly(Many(0x8000_0000));
    assert Many(0x8000_0000)[..0x8000_0000] == Many(0x8000_0000);
  }
}
