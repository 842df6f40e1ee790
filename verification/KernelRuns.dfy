/** Runs of the kernel in which something a reader might expect does not happen. The theorems
    that say exactly when are `KernelTheorems.StopsExactly`, `SchedSteps.SemInitedValid`,
    `KernelTheorems.InitSleepsThroughAdoption` and `Pids.NewPidExact`. */
module KernelRuns {
  import opened Queues
  import opened Sched
  import opened SchedSteps
  import opened ProcTree
  import opened Pids
  import opened Errno
  import opened Lifecycle
  import opened Runs
  import S = Semaphores
  import T = Timers

  const IDLE: Ptr := 0
  const INIT_PROC: Ptr := 1

  /** Everything here happens before this time, and no timer but a nap's is due. */
  const LATE: nat := 1000

  /** The state of the scheduler in a run from boot, with every pid above the last still free. */
  ghost predicate Scene(k: Kernel, now: nat, curr: Ptr, status: map<Ptr, Status>, ready: seq<Ptr>, inWait: set<Ptr>) {
    && ReachableBy(k, now) && k.sched.idle == IDLE && k.init == INIT_PROC
    && k.sched.curr == Some(curr) && k.sched.status == status && k.sched.ready == ready && k.inWait == inWait
    && k.procs.Keys == status.Keys && INIT_PROC in k.procs
    && |k.table| == PROC_TABLE_SIZE && k.lastPid < PROC_TABLE_SIZE
    && (forall i :: k.lastPid < i < PROC_TABLE_SIZE ==> k.table[i] == None)
    && k.sched.timers.pending != [] && k.sched.timers.pending[0].time > LATE
  }

  lemma BootScene() returns (k: Kernel)
    ensures Scene(k, 0, INIT_PROC, map[IDLE := READY, INIT_PROC := CURR], [IDLE], {})
    ensures k == BootKernel(IDLE, INIT_PROC, 0)
  {
    hide ReachableBy, Boot, Sched.Valid;
    k := BootKernel(IDLE, INIT_PROC, 0);
    ReachableByBoot(IDLE, INIT_PROC);
    BootValid(IDLE, INIT_PROC, 0);
    BootTimers();
  }

  lemma BootTimers()
    ensures
      var q := Boot(IDLE, INIT_PROC, 0).timers.pending;
      q != [] && q[0].time > LATE
  {
    assert BeforeStart(IDLE, INIT_PROC, 0).ready == [INIT_PROC, IDLE];
  }

  /** A successful spawn takes the next pid and puts the child at the head of the ready queue. */
  lemma SpawnScene(k: Kernel, now: nat, p: Ptr, curr: Ptr, status: map<Ptr, Status>, ready: seq<Ptr>, inWait: set<Ptr>)
    returns (k': Kernel)
    requires Scene(k, now, curr, status, ready, inWait) && curr != IDLE && curr !in inWait && p !in status
    requires k.lastPid < PROC_TABLE_SIZE - 1
    ensures Scene(k', now, curr, status[p := READY], [p] + ready, inWait)
    ensures curr in k.procs && k'.procs == Grown(k.procs, curr, p, k.lastPid + 1, k.births)
    ensures k'.lastPid == k.lastPid + 1 && k'.table == k.table[k.lastPid + 1 := Some(p)]
  {
    hide Inv, ReachableBy, NewPid;
    var env := SpawnEnv(false, Some(p), true, true);
    ReachableByOn(k, now, Spawn(env), now);
    CurrentProc(k);
    NextPid(k.table, k.lastPid);
    k' := Next(k, Spawn(env));
  }

  lemma NextPid(table: Table, last: nat)
    requires |table| == PROC_TABLE_SIZE && last < PROC_TABLE_SIZE - 1
    requires forall i :: last < i < PROC_TABLE_SIZE ==> table[i] == None
    ensures NewPid(table, last) == Some(last + 1)
  {
  }

  /** Blocking in wait or in a sleep hands the CPU to the head of the queue. */
  lemma WaitScene(k: Kernel, now: nat, curr: Ptr, status: map<Ptr, Status>, ready: seq<Ptr>, inWait: set<Ptr>)
    returns (k': Kernel)
    requires Scene(k, now, curr, status, ready, inWait) && curr != IDLE && curr !in inWait && curr in status && ready != []
    requires k.procs[curr].children != [] && k.procs[curr].zombies == []
    ensures Scene(k', now, ready[0], status[curr := WAIT_CHILD][ready[0] := CURR], ready[1..], inWait + {curr})
    ensures k'.procs == k.procs && k'.table == k.table && k'.lastPid == k.lastPid
  {
    hide Inv, ReachableBy;
    ReachableByOn(k, now, Wait, now);
    SameKeys(k, Wait);
    k' := Next(k, Wait);
  }

  lemma SleepScene(k: Kernel, now: nat, at: nat, ns: nat, curr: Ptr, status: map<Ptr, Status>, ready: seq<Ptr>, inWait: set<Ptr>)
    returns (k': Kernel)
    requires Scene(k, now, curr, status, ready, inWait) && curr != IDLE && curr !in inWait && curr in status && ready != []
    requires now < at <= LATE < T.Expiry(at, ns)
    ensures Scene(k', at, ready[0], status[curr := SLEEP][ready[0] := CURR], ready[1..], inWait)
    ensures k'.procs == k.procs && k'.table == k.table && k'.lastPid == k.lastPid
  {
    hide Inv, ReachableBy;
    ReachableByOn(k, now, Sleep(at, ns), at);
    SameKeys(k, Sleep(at, ns));
    k' := Next(k, Sleep(at, ns));
    var q, t := k.sched.timers.pending, T.Timer(T.Sleeper(curr), T.Expiry(at, ns), k.sched.timers.armed);
    assert k'.sched.timers.pending == Inserted(q, T.Slot(q, t.time), t);
    T.InsertIndex(q, T.Slot(q, t.time), t, 0);
  }

  lemma SameKeys(k: Kernel, l: Label)
    requires Inv(k) && Enabled(k, l) && Inv(Next(k, l))
    ensures Next(k, l).procs.Keys == Next(k, l).sched.status.Keys
  {
    StepDefined(Next(k, l));
  }

  /** A sleep of no time followed by its tick: the caller is back on the ready queue, and
      the process that was its head runs. */
  lemma NapScene(k: Kernel, now: nat, at: nat, curr: Ptr, status: map<Ptr, Status>, ready: seq<Ptr>, inWait: set<Ptr>)
    returns (k': Kernel)
    requires Scene(k, now, curr, status, ready, inWait) && curr != IDLE && curr !in inWait && curr in status && ready != []
    requires ready[0] != curr && now < at < LATE
    ensures Scene(k', at + 1, ready[0], status[curr := READY][ready[0] := CURR], [curr] + ready[1..], inWait)
    ensures k'.procs == k.procs && k'.table == k.table && k'.lastPid == k.lastPid
  {
    hide Inv, ReachableBy;
    ReachableByOn(k, now, Sleep(at, 0), at);
    SameKeys(k, Sleep(at, 0));
    var k1 := Next(k, Sleep(at, 0));
    var t := T.Timer(T.Sleeper(curr), at, k.sched.timers.armed);
    assert k1.sched.timers.pending == [t] + k.sched.timers.pending && k1.sched.timers.deadline == at;
    ReachableByOn(k1, at, Tick(at + 1), at + 1);
    SameKeys(k1, Tick(at + 1));
    k' := Next(k1, Tick(at + 1));
    assert k1.sched.timers.pending[1..] == k.sched.timers.pending;
    assert status[curr := SLEEP][ready[0] := CURR][curr := READY] == status[curr := READY][ready[0] := CURR];
  }

  /** The run of `KernelTheorems.BootSleepStops`: init sleeps, its timer fires, init is
      READY again, and idle keeps the CPU. */
  lemma BootSleepStrands() returns (k: Kernel)
    ensures ReachableBy(k, 11) && k.init == INIT_PROC && k.sched.idle == IDLE
    ensures k.sched.status == map[IDLE := CURR, INIT_PROC := READY] && k.sched.curr == Some(IDLE)
  {
    hide ReachableBy;
    k := BootScene();
    k := NapScene(k, 0, 10, INIT_PROC, map[IDLE := READY, INIT_PROC := CURR], [IDLE], {});
  }

  // ---- a sleep across the end of the counter ----

  /** Init sleeps for 20 milliseconds when 15 are left until the counter wraps, and is woken a
      tick later. */
  lemma SleepCutShort() returns (k: Kernel)
    ensures
      var boot, at := 0x1_0000_0000_0000_0000 - 200_000, 0x1_0000_0000_0000_0000 - 150_000;
      && RunsTo(IDLE, INIT_PROC, boot, [Sleep(at, 20_000_000), Tick(at + 1)], k)
      && k.sched.status == map[IDLE := CURR, INIT_PROC := READY]
  {
    hide Inv, Sched.Valid, Boot, Leads;
    var boot, at := 0x1_0000_0000_0000_0000 - 200_000, 0x1_0000_0000_0000_0000 - 150_000;
    var k0 := BootKernel(IDLE, INIT_PROC, boot);
    BootInv(IDLE, INIT_PROC, boot);
    BootValid(IDLE, INIT_PROC, boot);
    LateSlice(boot);
    NextInv(k0, Sleep(at, 20_000_000));
    var k1 := Next(k0, Sleep(at, 20_000_000));
    assert T.Expiry(at, 20_000_000) == 50_000;
    var t := T.Timer(T.Sleeper(INIT_PROC), 50_000, k0.sched.timers.armed);
    assert k1.sched.timers.pending == [t] + k0.sched.timers.pending && k1.sched.timers.deadline == 50_000;
    NextInv(k1, Tick(at + 1));
    k := Next(k1, Tick(at + 1));
    TwoSteps(k0, Sleep(at, 20_000_000), Tick(at + 1));
  }

  lemma LateSlice(boot: nat)
    requires boot == 0x1_0000_0000_0000_0000 - 200_000
    ensures
      var q := Boot(IDLE, INIT_PROC, boot).timers.pending;
      q != [] && q[0].time > 50_000
  {
    hide Boot;
    BootState(IDLE, INIT_PROC, boot);
  }

  lemma TwoSteps(k: Kernel, l: Label, l': Label)
    requires Inv(k) && Enabled(k, l) && Inv(Next(k, l)) && Enabled(Next(k, l), l')
    ensures Leads(k, [l, l'], Next(Next(k, l), l'))
  {
    hide Inv, Next;
    LeadsOn(k, [], k, l);
    LeadsOn(k, [] + [l], Next(k, l), l');
    assert [] + [l] + [l'] == [l, l'];
  }

  // ---- a semaphore initialised twice ----

  lemma NewSem() returns (k: Kernel)
    ensures ReachableBy(k, 0) && k.sched.idle == IDLE && k.sched.curr == Some(INIT_PROC) && k.inWait == {}
    ensures k.sched.sems == map[0 := S.Sem(0, [])]
  {
    hide Inv, ReachableBy, Sched.Valid, Boot;
    var k0 := BootScene();
    BootValid(IDLE, INIT_PROC, 0);
    ReachableByOn(k0, 0, SemInit(0), 0);
    k := Next(k0, SemInit(0));
  }

  /** Init waits on a new semaphore; initialising it again leaves init in no queue. */
  lemma SemInitLosesWaiter() returns (k: Kernel)
    ensures ReachableBy(k, 0) && k.sched.sems == map[0 := S.Sem(-1, [INIT_PROC])]
    ensures Sched.Valid(k.sched) && !Sched.Valid(SemInited(k.sched, 0))
  {
    hide Inv, ReachableBy, Sched.Valid;
    var k1 := NewSem();
    ReachableByOn(k1, 0, SemWait(0), 0);
    k := Next(k1, SemWait(0));
    assert [] + [INIT_PROC] == [INIT_PROC];
    assert k.sched.sems == map[0 := S.Sem(-1, [INIT_PROC])];
    StepDefined(k);
    SemInitedValid(k.sched, 0);
  }

  // ---- init misses an adopted zombie ----

  /** An exit whose parent is not waiting. */
  lemma ExitScene(k: Kernel, now: nat, curr: Ptr, status: map<Ptr, Status>, ready: seq<Ptr>, inWait: set<Ptr>)
    returns (k': Kernel)
    requires Scene(k, now, curr, status, ready, inWait) && curr != IDLE && curr != INIT_PROC && curr !in inWait
    requires curr in status && ready != [] && ready[0] != curr
    requires k.procs[curr].parent.Some? && k.procs[curr].parent.value in status
    requires k.procs[curr].parent.value != curr && status[k.procs[curr].parent.value] != WAIT_CHILD
    ensures Scene(k', now, ready[0], status[curr := ZOMBIE][ready[0] := CURR], ready[1..], inWait)
    ensures k'.procs == ExitTree(k.procs, curr, INIT_PROC, 0, false)
  {
    hide Inv, ReachableBy, ExitTree;
    ReachableByOn(k, now, Exit(0), now);
    SameKeys(k, Exit(0));
    k' := Next(k, Exit(0));
  }

  /** A line of descent: 2 is a child of init, 3 of 2, and so on up to the last; no zombies. */
  ghost predicate Line(t: Procs, last: Ptr) {
    && (forall p :: p in t <==> 0 <= p <= last)
    && (forall p :: p in t && p >= 2 ==> t[p].parent == Some(p - 1))
    && (forall p :: p in t && p >= 1 ==> t[p].zombies == [] && t[p].children == if p == last then [] else [p + 1])
  }

  lemma LineGrows(t: Procs, last: Ptr, pid: nat, birth: nat)
    requires Line(t, last) && last >= 1
    ensures Line(Grown(t, last, last + 1, pid, birth), last + 1)
  {
  }

  /** When the last and then its parent exit, init inherits the zombie. */
  lemma LineDies(t: Procs)
    requires Line(t, 4)
    ensures
      var t1 := ExitTree(t, 4, INIT_PROC, 0, false);
      && t1.Keys == t.Keys && t1[3].parent == Some(2)
      && ExitTree(t1, 3, INIT_PROC, 0, false)[INIT_PROC].zombies == [4]
  {
    var t1 := ExitTree(t, 4, INIT_PROC, 0, false);
    assert t1[3].zombies == [4] && t1[INIT_PROC].zombies == [];
  }

  /** Init spawns 2 and waits for it. */
  lemma InitWaits() returns (k: Kernel, status: map<Ptr, Status>)
    ensures Scene(k, 0, 2, status, [IDLE], {INIT_PROC}) && Line(k.procs, 2) && k.lastPid == 2
    ensures status.Keys == {IDLE, INIT_PROC, 2} && status[INIT_PROC] == WAIT_CHILD
  {
    hide Scene, Grown, BootKernel;
    var k0 := BootScene();
    var s0 := map[IDLE := READY, INIT_PROC := CURR];
    assert k0.lastPid == 1 && Line(k0.procs, 1) by { BootLine(); }
    var k1 := SpawnScene(k0, 0, 2, INIT_PROC, s0, [IDLE], {});
    LineGrows(k0.procs, 1, 2, k0.births);
    var r := [2] + [IDLE];
    assert r[0] == 2 && r[1..] == [IDLE] && {} + {INIT_PROC} == {INIT_PROC};
    status := s0[2 := READY];
    k := WaitScene(k1, 0, INIT_PROC, status, r, {});
    status := status[INIT_PROC := WAIT_CHILD][2 := CURR];
  }

  lemma BootLine()
    ensures BootKernel(IDLE, INIT_PROC, 0).lastPid == 1 && Line(BootKernel(IDLE, INIT_PROC, 0).procs, 1)
  {
    hide Boot;
  }

  /** Then 2 spawns 3 and sleeps, and 3 spawns 4 and naps: now 4 runs and 3 is ready. */
  lemma LineScene() returns (k: Kernel, status: map<Ptr, Status>)
    ensures Scene(k, 21, 4, status, [3, IDLE], {INIT_PROC}) && Line(k.procs, 4)
    ensures status.Keys == {IDLE, INIT_PROC, 2, 3, 4}
    ensures status[INIT_PROC] == WAIT_CHILD && status[2] == SLEEP && status[3] == READY
  {
    hide Scene, Grown, Line;
    var k2, s2 := InitWaits();
    var k3 := SpawnScene(k2, 0, 3, 2, s2, [IDLE], {INIT_PROC});
    LineGrows(k2.procs, 2, 3, k2.births);
    var r3, r5 := [3] + [IDLE], [4] + [IDLE];
    assert r3[0] == 3 && r3[1..] == [IDLE] && r5[0] == 4 && r5[1..] == [IDLE] && r3 == [3, IDLE];
    var s3 := s2[3 := READY];
    assert T.Expiry(10, 1_000_000) > LATE;
    var k4 := SleepScene(k3, 0, 10, 1_000_000, 2, s3, r3, {INIT_PROC});
    var s4 := s3[2 := SLEEP][3 := CURR];
    var k5 := SpawnScene(k4, 10, 4, 3, s4, [IDLE], {INIT_PROC});
    LineGrows(k4.procs, 3, 4, k4.births);
    k := NapScene(k5, 10, 20, 3, s4[4 := READY], r5, {INIT_PROC});
    status := s4[4 := READY][3 := READY][4 := CURR];
  }

  /** Then 4 exits, and 3 after it: init stays blocked in wait, and holds a zombie it could reap. */
  lemma InitMissesZombie() returns (k: Kernel)
    ensures ReachableBy(k, 21) && k.init == INIT_PROC && INIT_PROC in k.procs && INIT_PROC in k.sched.status
    ensures k.sched.status[INIT_PROC] == WAIT_CHILD && k.procs[INIT_PROC].zombies == [4]
  {
    hide ExitTree, ReachableBy;
    var k6, s6 := LineScene();
    LineDies(k6.procs);
    var r := [3, IDLE];
    assert r[1..] == [IDLE];
    var k7 := ExitScene(k6, 21, 4, s6, r, {INIT_PROC});
    k := ExitScene(k7, 21, 3, s6[4 := ZOMBIE][3 := CURR], [IDLE], {INIT_PROC});
  }

  // ---- a free pid that is never found ----

  /** Init has spawned the processes 2 to `n`, each with its own address as its pid. */
  ghost predicate Crowd(k: Kernel, n: nat) {
    && k.lastPid == n && |k.table| == PROC_TABLE_SIZE && n < PROC_TABLE_SIZE
    && (forall i :: 0 <= i <= n ==> k.table[i] == Some(i))
    && INIT_PROC in k.procs && k.procs[INIT_PROC].zombies == []
    && (n > 1 ==> k.procs[INIT_PROC].children != [] && n in k.procs && k.procs[n].parent == Some(INIT_PROC) && k.procs[n].pid == n)
  }

  lemma {:induction false} Crowded(n: nat) returns (k: Kernel, status: map<Ptr, Status>, ready: seq<Ptr>)
    requires 1 <= n < PROC_TABLE_SIZE
    ensures Crowd(k, n) && Scene(k, 0, INIT_PROC, status, ready, {})
    ensures ready != [] && (n > 1 ==> ready[0] == n) && (forall p :: p in status <==> 0 <= p <= n)
  {
    hide ReachableBy, Boot;
    if n == 1 {
      k := BootScene();
      status, ready := map[IDLE := READY, INIT_PROC := CURR], [IDLE];
    } else {
      var k1, s1, r1 := Crowded(n - 1);
      k := SpawnScene(k1, 0, n, INIT_PROC, s1, r1, {});
      status, ready := s1[n := READY], [n] + r1;
    }
  }

  /** Init waits, the last of the crowd runs and exits, and init is woken for it. */
  lemma LastExits(n: nat) returns (k: Kernel)
    requires 2 <= n < PROC_TABLE_SIZE
    ensures ReachableBy(k, 0) && k.sched.idle == IDLE && k.sched.curr == Some(INIT_PROC) && k.inWait == {INIT_PROC}
    ensures INIT_PROC in k.procs && k.procs[INIT_PROC].waiting == Some(n)
    ensures n in k.procs && k.procs[n].pid == n && forall p :: p in k.procs ==> p <= n
    ensures k.lastPid == n && |k.table| == PROC_TABLE_SIZE && forall i :: 0 <= i <= n ==> k.table[i] == Some(i)
  {
    hide ReachableBy, Inv, ExitTree;
    var k0, status, ready := Crowded(n);
    var k1 := WaitScene(k0, 0, INIT_PROC, status, ready, {});
    ReachableByOn(k1, 0, Exit(0), 0);
    ExitRecords(k1.procs, n, INIT_PROC, 0, true);
    k := Next(k1, Exit(0));
  }

  lemma LastReaped(n: nat) returns (k: Kernel)
    requires 2 <= n < PROC_TABLE_SIZE
    ensures ReachableBy(k, 0) && Calls(k) && k.lastPid == n && |k.table| == PROC_TABLE_SIZE
    ensures k.table[n] == None && forall i :: 0 <= i < n ==> k.table[i] == Some(i)
    ensures forall p :: p in k.procs ==> p <= n
  {
    hide ReachableBy, Inv;
    var k1 := LastExits(n);
    ReachableByOn(k1, 0, Resume, 0);
    ResumeFacts(k1);
    ReapedInv(k1, n);
    k := Next(k1, Resume);
    assert k.procs == Unlinked(k1.procs, n);
  }

  /** 255 is free, and still a spawn with memory, stacks and mappings at hand gets EAGAIN. */
  lemma NewPidMissesLast() returns (k: Kernel, env: SpawnEnv)
    ensures ReachableBy(k, 0) && Enabled(k, Spawn(env)) && Spawned.requires(k, env)
    ensures !env.nullArgs && env.memory.Some? && env.stacks && env.maps
    ensures |k.table| == PROC_TABLE_SIZE && k.table[255] == None && Spawned(k, env) == (k, EAGAIN)
  {
    hide ReachableBy, Reachable, Inv, NewPid, Sched.Valid, TableOk;
    k := LastReaped(255);
    ReachableInTime(k, 0);
    ReachableInv(k);
    StepDefined(k);
    env := SpawnEnv(false, Some(256), true, true);
    NewPidExact(k.table, 255);
  }
}
