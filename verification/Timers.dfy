/** The timer queue of `src/timer.c`: a list of armed timers in order of expiry, and
    the one deadline programmed into the hardware. */
module Timers {
  import opened Queues

  const TIME_MAX: nat := 0xFFFF_FFFF_FFFF_FFFF
  const NS_IN_SEC: nat := 1_000_000_000
  const TIMER_FREQ: nat := 10_000_000

  /** The scheduler's own timer, or the timer embedded in a process. The callback goes
      with the timer: the first always runs the preemption, the others wake their process. */
  datatype TimerId = Slice | Sleeper(proc: nat)

  /** `armed` numbers the calls of `timer_wait`; it is a history field, no code reads it. */
  datatype Timer = Timer(id: TimerId, time: nat, armed: nat)

  datatype Queue = Queue(pending: seq<Timer>, deadline: nat, armed: nat)

  /** The absolute 64-bit expiry time of a wait of `ns` nanoseconds started at `now`. */
  function Expiry(now: nat, ns: nat): nat {
    (now + ns / (NS_IN_SEC / TIMER_FREQ)) % (TIME_MAX + 1)
  }

  /** Time `e` of the 10 MHz counter of 64 bits comes `ns` nanoseconds after `now`, rounded
      down to a whole tick of 100 nanoseconds. */
  predicate OnTime(e: int, now: int, ns: int) {
    var ticks := (e - now) % 0x1_0000_0000_0000_0000;
    0 <= e < 0x1_0000_0000_0000_0000 && 100 * ticks <= ns < 100 * ticks + 100
  }

  /** The expiry time is on time; it lies in the past exactly if the counter wraps before. */
  lemma ExpiryOnTime(now: nat, ns: nat)
    requires ns < 0x1_0000_0000_0000_0000
    ensures OnTime(Expiry(now, ns), now, ns)
    ensures now < 0x1_0000_0000_0000_0000 ==>
      (now <= Expiry(now, ns) <==> now + ns / 100 < 0x1_0000_0000_0000_0000)
  {
    assert NS_IN_SEC / TIMER_FREQ == 100;
    var n, e, q := ns / 100, Expiry(now, ns), (now + ns / 100) / 0x1_0000_0000_0000_0000;
    assert e - now == n - 0x1_0000_0000_0000_0000 * q;
    assert (e - now) % 0x1_0000_0000_0000_0000 == n;
  }

  /** A timer of that name is pending, and every one is on time. */
  ghost predicate ArmedFor(q: seq<Timer>, id: TimerId, now: nat, ns: nat) {
    Pending(q, id) && forall i :: 0 <= i < |q| && q[i].id == id ==> OnTime(q[i].time, now, ns)
  }

  ghost predicate Before(a: Timer, b: Timer) {
    a.time < b.time || (a.time == b.time && a.armed < b.armed)
  }

  ghost predicate Sorted(q: seq<Timer>) {
    forall i, j :: 0 <= i < j < |q| ==> Before(q[i], q[j])
  }

  ghost predicate DistinctIds(q: seq<Timer>) {
    forall i, j :: 0 <= i < j < |q| ==> q[i].id != q[j].id
  }

  predicate Pending(q: seq<Timer>, id: TimerId) {
    exists i :: 0 <= i < |q| && q[i].id == id
  }

  function Earliest(q: seq<Timer>): nat {
    if q == [] then TIME_MAX else q[0].time
  }

  /** Strictly ordered by expiry and then by arming order, no timer queued twice, and
      the hardware armed for the earliest of them. */
  ghost predicate Valid(q: Queue) {
    && Sorted(q.pending)
    && DistinctIds(q.pending)
    && (forall i :: 0 <= i < |q.pending| ==> q.pending[i].armed < q.armed)
    && q.deadline == Earliest(q.pending)
  }

  /** The position of the first entry that expires strictly later than `time`. */
  function Slot(q: seq<Timer>, time: nat): (k: nat)
    ensures k <= |q|
    ensures forall i :: 0 <= i < k ==> q[i].time <= time
    ensures k < |q| ==> time < q[k].time
  {
    if q == [] || time < q[0].time then 0
    else
      var k := Slot(q[1..], time);
      assert forall i :: 0 <= i < k + 1 ==> q[i].time <= time by {
        forall i | 0 <= i < k + 1 ensures q[i].time <= time {
          if i > 0 { assert q[i] == q[1..][i - 1]; }
        }
      }
      1 + k
  }

  /** The queue after `timer_wait`. */
  function Armed(q: Queue, id: TimerId, time: nat): Queue {
    var t := Timer(id, time, q.armed);
    var k := Slot(q.pending, time);
    Queue(Inserted(q.pending, k, t), if k == 0 then time else q.deadline, q.armed + 1)
  }

  lemma ArmedOnTime(q: Queue, id: TimerId, now: nat, ns: nat)
    requires !Pending(q.pending, id) && ns < 0x1_0000_0000_0000_0000
    ensures ArmedFor(Armed(q, id, Expiry(now, ns)).pending, id, now, ns)
  {
    hide OnTime, Expiry;
    ExpiryOnTime(now, ns);
    var e := Expiry(now, ns);
    var k, t := Slot(q.pending, e), Timer(id, e, q.armed);
    var r := Inserted(q.pending, k, t);
    assert r[k].id == id;
    forall i | 0 <= i < |r| && r[i].id == id ensures OnTime(r[i].time, now, ns) {
      InsertIndex(q.pending, k, t, i);
    }
  }

  /** The position of the timer `id`; the queue's length if it is not pending. */
  function Find(q: seq<Timer>, id: TimerId): (k: nat)
    ensures k <= |q| && (k < |q| ==> q[k].id == id)
    ensures k < |q| <==> Pending(q, id)
  {
    if q == [] then 0
    else if q[0].id == id then 0
    else
      var k := Find(q[1..], id);
      assert Pending(q[1..], id) ==> Pending(q, id) by {
        if i :| 0 <= i < |q[1..]| && q[1..][i].id == id { assert q[i + 1].id == id; }
      }
      assert Pending(q, id) ==> Pending(q[1..], id) by {
        if i :| 0 <= i < |q| && q[i].id == id { assert q[1..][i - 1].id == id; }
      }
      1 + k
  }

  /** The queue after `timer_cancel`. */
  function Cancelled(q: Queue, id: TimerId): Queue {
    var k := Find(q.pending, id);
    if k < |q.pending|
    then q.(pending := Deleted(q.pending, k), deadline := Earliest(Deleted(q.pending, k)))
    else q
  }

  /** The queue after `timer_isr` has taken the first timer off. */
  function Fired(q: Queue): Queue
    requires q.pending != []
  {
    q.(pending := q.pending[1..], deadline := Earliest(q.pending[1..]))
  }

  lemma InsertPending(q: seq<Timer>, k: nat, t: Timer)
    requires k <= |q|
    ensures forall x :: Pending(Inserted(q, k, t), x) <==> x == t.id || Pending(q, x)
  {
    var r := Inserted(q, k, t);
    assert r[k].id == t.id;
    forall x | Pending(q, x) ensures Pending(r, x) {
      var i :| 0 <= i < |q| && q[i].id == x;
      assert r[if i < k then i else i + 1].id == x;
    }
  }

  lemma InsertIndex(q: seq<Timer>, k: nat, t: Timer, i: nat)
    requires k <= |q| && i <= |q|
    ensures Inserted(q, k, t)[i] == if i < k then q[i] else if i == k then t else q[i - 1]
  {
  }

  lemma InsertSorted(q: seq<Timer>, t: Timer)
    requires Sorted(q) && forall i :: 0 <= i < |q| ==> q[i].armed < t.armed
    ensures Sorted(Inserted(q, Slot(q, t.time), t))
  {
    var k := Slot(q, t.time);
    var r := Inserted(q, k, t);
    forall i, j | 0 <= i < j < |r| ensures Before(r[i], r[j]) {
      InsertIndex(q, k, t, i);
      InsertIndex(q, k, t, j);
    }
  }

  lemma InsertDistinct(q: seq<Timer>, k: nat, t: Timer)
    requires k <= |q| && DistinctIds(q) && !Pending(q, t.id)
    ensures DistinctIds(Inserted(q, k, t))
  {
    var r := Inserted(q, k, t);
    forall i, j | 0 <= i < j < |r| ensures r[i].id != r[j].id {
      InsertIndex(q, k, t, i);
      InsertIndex(q, k, t, j);
    }
  }

  lemma InsertMultiset(q: seq<Timer>, k: nat, t: Timer)
    requires k <= |q|
    ensures multiset(Inserted(q, k, t)) == multiset(q) + multiset{t}
  {
    assert q == q[..k] + q[k..];
  }

  /** Arming keeps the order, with ties in arming order, and keeps the hardware deadline
      equal to the earliest expiry; it adds exactly one timer. */
  lemma ArmedValid(q: Queue, id: TimerId, time: nat)
    requires Valid(q) && !Pending(q.pending, id)
    ensures Valid(Armed(q, id, time))
    ensures forall x :: Pending(Armed(q, id, time).pending, x) <==> x == id || Pending(q.pending, x)
    ensures multiset(Armed(q, id, time).pending) == multiset(q.pending) + multiset{Timer(id, time, q.armed)}
  {
    var t := Timer(id, time, q.armed);
    var k := Slot(q.pending, time);
    var r := Inserted(q.pending, k, t);
    InsertMultiset(q.pending, k, t);
    InsertSorted(q.pending, t);
    InsertPending(q.pending, k, t);
    InsertDistinct(q.pending, k, t);
    forall i | 0 <= i < |r| ensures r[i].armed <= q.armed {
      InsertIndex(q.pending, k, t, i);
    }
  }

  /** Firing takes the least of the pending timers and leaves the rest valid. */
  lemma FiredValid(q: Queue)
    requires Valid(q) && q.pending != []
    ensures Valid(Fired(q))
    ensures forall t :: t in Fired(q).pending ==> Before(q.pending[0], t)
    ensures forall x :: Pending(Fired(q).pending, x) <==> x != q.pending[0].id && Pending(q.pending, x)
    ensures q.deadline == q.pending[0].time
  {
    var r := Fired(q).pending;
    forall x | x != q.pending[0].id && Pending(q.pending, x) ensures Pending(r, x) {
      var i :| 0 <= i < |q.pending| && q.pending[i].id == x;
      assert r[i - 1].id == x;
    }
  }

  lemma CutPending(q: seq<Timer>, k: nat, x: TimerId)
    requires DistinctIds(q) && k < |q|
    ensures Pending(Deleted(q, k), x) <==> x != q[k].id && Pending(q, x)
  {
    var r := Deleted(q, k);
    assert forall i :: 0 <= i < k ==> r[i] == q[i];
    assert forall i :: k <= i < |r| ==> r[i] == q[i + 1];
    if x != q[k].id && Pending(q, x) {
      var i :| 0 <= i < |q| && q[i].id == x;
      assert r[if i < k then i else i - 1].id == x;
    }
  }

  lemma CutSorted(q: seq<Timer>, k: nat)
    requires Sorted(q) && DistinctIds(q) && k < |q|
    ensures Sorted(Deleted(q, k)) && DistinctIds(Deleted(q, k))
    ensures forall t :: t in Deleted(q, k) ==> t in q
  {
    var r := Deleted(q, k);
    forall i, j | 0 <= i < j < |r| ensures Before(r[i], r[j]) && r[i].id != r[j].id {
      var i', j' := if i < k then i else i + 1, if j < k then j else j + 1;
      assert r[i] == q[i'] && r[j] == q[j'];
    }
  }

  /** Cancelling removes that timer alone, and reprograms the hardware to match. */
  lemma CancelledValid(q: Queue, id: TimerId)
    requires Valid(q)
    ensures Valid(Cancelled(q, id))
    ensures forall x :: Pending(Cancelled(q, id).pending, x) <==> x != id && Pending(q.pending, x)
    ensures !Pending(q.pending, id) ==> Cancelled(q, id) == q
  {
    var k := Find(q.pending, id);
    if k < |q.pending| {
      forall x ensures Pending(Cancelled(q, id).pending, x) <==> x != id && Pending(q.pending, x) {
        CutPending(q.pending, k, x);
      }
      CutSorted(q.pending, k);
      var r := Cancelled(q, id).pending;
      forall i | 0 <= i < |r| ensures r[i].armed < q.armed {
        assert r[i] in q.pending;
      }
    }
  }

  /** `src/timer.c` in place: the static `wait_queue` and the programmed deadline. */
  class TimerQueue {
    var pending: seq<Timer>
    var deadline: nat
    var armed: nat

    ghost function View(): Queue
      reads this
    {
      Queue(pending, deadline, armed)
    }

    constructor ()
      ensures View() == Queue([], TIME_MAX, 0)
      ensures Valid(View())
    {
      pending, deadline, armed := [], TIME_MAX, 0;
    }

    method Wait(id: TimerId, now: nat, ns: nat)
      modifies this
      ensures View() == Armed(old(View()), id, Expiry(now, ns))
      ensures ns < 0x1_0000_0000_0000_0000 && !old(Pending(pending, id)) ==> ArmedFor(pending, id, now, ns)
    {
      if ns < 0x1_0000_0000_0000_0000 && !Pending(pending, id) {
        ArmedOnTime(View(), id, now, ns);
      }
      hide OnTime;
      var t := Timer(id, Expiry(now, ns), armed);
      armed := armed + 1;
      var i := 0;
      while i < |pending|
        invariant 0 <= i <= |pending|
        invariant forall j :: 0 <= j < i ==> pending[j].time <= t.time
        invariant View() == old(View()).(armed := t.armed + 1)
      {
        if t.time < pending[i].time {
          SlotUnique(pending, t.time, i);
          pending := Inserted(pending, i, t);
          if i == 0 {
            deadline := t.time;
          }
          return;
        }
        i := i + 1;
      }
      SlotUnique(pending, t.time, i);
      assert Inserted(pending, i, t) == pending + [t];
      pending := pending + [t];
      if i == 0 {
        deadline := t.time;
      }
    }

    method Cancel(id: TimerId)
      modifies this
      ensures View() == Cancelled(old(View()), id)
    {
      var k := Find(pending, id);
      if k == |pending| {
        return;
      }
      pending := Deleted(pending, k);
      deadline := TIME_MAX;
      if pending != [] {
        deadline := pending[0].time;
      }
    }

    method Isr() returns (t: Timer)
      requires pending != []
      modifies this
      ensures t == old(pending)[0]
      ensures View() == Fired(old(View()))
    {
      t := pending[0];
      pending := pending[1..];
      deadline := TIME_MAX;
      if pending != [] {
        deadline := pending[0].time;
      }
    }
  }

  lemma SlotUnique(q: seq<Timer>, time: nat, k: nat)
    requires k <= |q|
    requires forall i :: 0 <= i < k ==> q[i].time <= time
    requires k < |q| ==> time < q[k].time
    ensures Slot(q, time) == k
  {
  }
}
