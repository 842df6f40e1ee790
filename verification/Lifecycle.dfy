/** Spawn, wait and exit over the scheduler, the process tree and the process table:
    `src/syscalls/proc.c`, `src/syscalls/wait.c`, `src/syscalls/exit.c`, `src/proc.c`. */
module Lifecycle {
  import opened Queues
  import opened Sched
  import opened SchedSteps
  import opened ProcTree
  import opened History
  import opened Pids
  import opened Errno

  /** `inWait` holds the processes whose kernel context stopped inside `sys_wait`. */
  datatype Kernel = Kernel(
    sched: State,
    procs: Procs,
    table: Table,
    lastPid: nat,
    init: Ptr,
    inWait: set<Ptr>,
    births: nat,
    log: seq<Event>)

  function Zombies(s: State): set<Ptr> {
    set p | p in s.status && s.status[p] == ZOMBIE
  }

  /** Each process holds exactly its own slot of the process table. */
  ghost predicate TableOk(k: Kernel) {
    && |k.table| == PROC_TABLE_SIZE && k.lastPid < PROC_TABLE_SIZE
    && (forall i :: 0 <= i < |k.table| && k.table[i].Some? ==>
          k.table[i].value in k.procs && k.procs[k.table[i].value].pid == i)
    && (forall p :: p in k.procs ==> k.procs[p].pid < PROC_TABLE_SIZE && k.table[k.procs[p].pid] == Some(p))
    && k.table[0] == Some(k.sched.idle) && k.table[1] == Some(k.init)
  }

  /** A process inside `sys_wait` is blocked, or has been handed the CPU together with
      an unreaped zombie child; a blocked one has a live child and, init apart, no zombie. */
  ghost predicate WaitOk(k: Kernel) {
    && (forall p :: p in k.inWait ==> p in k.procs && p in k.sched.status && p != k.sched.idle)
    && (forall p :: p in k.inWait ==>
          || k.sched.status[p] == WAIT_CHILD
          || (k.sched.status[p] == CURR && k.procs[p].waiting.Some? && k.procs[p].waiting.value in k.procs[p].zombies))
    && (forall p :: p in k.sched.status && p in k.procs && k.sched.status[p] == WAIT_CHILD ==>
          && p in k.inWait
          && k.procs[p].children != []
          && (p != k.init ==> k.procs[p].zombies == []))
  }

  ghost predicate Inv(k: Kernel) {
    && Valid(k.sched)
    && k.procs.Keys == k.sched.status.Keys
    && TableOk(k)
    && TreeOk(k.procs, Zombies(k.sched), k.sched.idle, k.init)
    && WaitOk(k)
    && HistoryOk(k.log, k.procs, Zombies(k.sched), k.births)
  }

  /** The current process, running user code or about to call the kernel. */
  predicate Calls(k: Kernel) {
    k.sched.curr.Some? && k.sched.curr != Some(k.sched.idle) && k.sched.curr.value !in k.inWait
  }

  lemma CurrentProc(k: Kernel)
    requires Inv(k)
    ensures k.sched.curr.Some?
    ensures
      var c := k.sched.curr.value;
      c in k.procs && c in k.sched.status && k.sched.status[c] == CURR && c !in Zombies(k.sched)
    ensures forall q :: q in k.sched.status && k.sched.status[q] == CURR ==> q == k.sched.curr.value
  {
    hide TableOk, TreeOk, WaitOk, HistoryOk, SemsOk, TimersOk, ReadyOk;
  }

  // ---- steps that only the scheduler sees ----

  /** A scheduler step that keeps the processes, the zombies and the waits keeps the invariant. */
  lemma SchedOnly(k: Kernel, s: State)
    requires Inv(k) && Valid(s) && s.idle == k.sched.idle && s.status.Keys == k.sched.status.Keys
    requires forall p :: p in s.status ==> (s.status[p] == ZOMBIE <==> k.sched.status[p] == ZOMBIE)
    requires forall p :: p in s.status ==> (s.status[p] == WAIT_CHILD <==> k.sched.status[p] == WAIT_CHILD)
    requires forall p :: p in k.inWait && k.sched.status[p] == CURR ==> s.status[p] == CURR
    ensures Inv(k.(sched := s))
  {
    hide Valid, TreeOk, HistoryOk;
    assert Zombies(s) == Zombies(k.sched);
  }

  // ---- spawn ----

  /** What the environment answers to a spawn: whether the arguments are null, what
      `kmalloc` returned, and whether stacks and mappings could be set up. */
  datatype SpawnEnv = SpawnEnv(nullArgs: bool, memory: Option<Ptr>, stacks: bool, maps: bool)

  /** `sys_proc`. A failure after the pid was chosen still moves `last_pid`. */
  function Spawned(k: Kernel, env: SpawnEnv): (Kernel, int)
    requires TableOk(k) && k.sched.curr.Some? && k.sched.curr.value in k.procs
  {
    if env.nullArgs then (k, EFAULT)
    else if env.memory.None? then (k, ENOMEM)
    else match NewPid(k.table, k.lastPid)
      case None => (k, EAGAIN)
      case Some(pid) =>
        if !env.stacks || !env.maps then (k.(lastPid := pid), ENOMEM)
        else
          var p := env.memory.value;
          (k.(sched := Added(k.sched, p),
              procs := Grown(k.procs, k.sched.curr.value, p, pid, k.births),
              table := k.table[pid := Some(p)],
              lastPid := pid,
              births := k.births + 1), pid)
  }

  lemma SpawnedInv(k: Kernel, env: SpawnEnv)
    requires Inv(k) && Calls(k) && (env.memory.Some? ==> env.memory.value !in k.procs)
    ensures Spawned.requires(k, env) && Inv(Spawned(k, env).0)
  {
    hide Valid, TreeOk, Conserved, Once, Answered, Current, TableOk, WaitOk, NewPid;
    CurrentProc(k);
    SpawnedTable(k, env);
    SpawnedWait(k, env);
    var k' := Spawned(k, env).0;
    if k'.births != k.births {
      var p, c, zs := env.memory.value, k.sched.curr.value, Zombies(k.sched);
      BirthsBelow(k.log, k.procs, k.births);
      AddedValid(k.sched, p);
      assert Zombies(k'.sched) == zs;
      GrownTree(k.procs, zs, k.sched.idle, k.init, c, p, k'.lastPid, k.births);
      SpawnHistory(k.log, k.procs, k'.procs, zs, k.births, p);
    }
  }

  lemma SpawnedTable(k: Kernel, env: SpawnEnv)
    requires TableOk(k) && k.sched.curr.Some? && k.sched.curr.value in k.procs
    requires env.memory.Some? ==> env.memory.value !in k.procs
    ensures TableOk(Spawned(k, env).0)
  {
    hide NewPid, TableOk, Grown, Added;
    SlotTaken(k, env);
    NewPidExact(k.table, k.lastPid);
  }

  /** Moving `last_pid`, and giving a new process a free slot, keep the table. */
  lemma SlotTaken(k: Kernel, env: SpawnEnv)
    requires TableOk(k) && k.sched.curr.Some? && k.sched.curr.value in k.procs
    requires env.memory.Some? ==> env.memory.value !in k.procs
    ensures |k.table| == PROC_TABLE_SIZE && k.lastPid < PROC_TABLE_SIZE
    ensures forall pid: nat :: pid < PROC_TABLE_SIZE ==> TableOk(k.(lastPid := pid))
    ensures env.memory.Some? ==>
      var c, p := k.sched.curr.value, env.memory.value;
      forall pid: nat :: pid < PROC_TABLE_SIZE && k.table[pid] == None ==>
        TableOk(k.(sched := Added(k.sched, p), procs := Grown(k.procs, c, p, pid, k.births),
                   table := k.table[pid := Some(p)], lastPid := pid, births := k.births + 1))
  {
  }

  lemma SpawnedWait(k: Kernel, env: SpawnEnv)
    requires Inv(k) && Calls(k) && (env.memory.Some? ==> env.memory.value !in k.procs)
    ensures Spawned.requires(k, env) && WaitOk(Spawned(k, env).0)
  {
    hide TableOk, TreeOk, HistoryOk, NewPid, Valid;
    CurrentProc(k);
  }

  // ---- wait ----

  /** The tail of `sys_wait`: deliver the status of `z`, then `proc_deinit` and `kfree`. */
  function Reap(k: Kernel, z: Ptr): Kernel
    requires k.sched.curr.Some? && k.sched.curr.value in k.procs
    requires z in k.procs && k.procs[z].parent.Some? && k.procs[z].parent.value in k.procs
    requires k.procs[z].parent.value != z && k.procs[z].pid < |k.table|
  {
    var x := k.procs[z];
    k.(sched := Removed(k.sched, z),
       procs := Unlinked(k.procs, z),
       table := k.table[x.pid := None],
       log := k.log + [Reaped(x.birth, k.procs[x.parent.value].birth, k.procs[k.sched.curr.value].birth, x.exitStatus % 256)])
  }

  /** A zombie child of the current process can be reaped, and the process is then done waiting. */
  lemma ReapedInv(k: Kernel, z: Ptr)
    requires Inv(k) && k.sched.curr.Some? && Corpse(k.procs, k.sched.curr.value, z)
    ensures Reap.requires(k, z)
    ensures Inv(Reap(k.(inWait := k.inWait - {k.sched.curr.value}), z))
  {
    hide Valid, Conserved, Once, Answered, Current, TableOk, WaitOk, TreeOk;
    CurrentProc(k);
    var c, zs := k.sched.curr.value, Zombies(k.sched);
    CorpseFacts(k, z);
    UnlinkedTree(k.procs, zs, k.sched.idle, z, k.init);
    var k' := Reap(k.(inWait := k.inWait - {c}), z);
    RemovedValid(k.sched, z);
    assert Zombies(k'.sched) == zs - {z};
    ReapedTable(k, z);
    ReapedWait(k, z);
    ReapHistory(k.log, k.procs, k'.procs, zs, k.births, z, k.procs[c].birth);
  }

  lemma CorpseFacts(k: Kernel, z: Ptr)
    requires Inv(k) && k.sched.curr.Some? && Corpse(k.procs, k.sched.curr.value, z)
    ensures z in k.procs && k.procs[z].parent == k.sched.curr && k.procs[z].pid < |k.table|
    ensures k.sched.status[z] == ZOMBIE && z != k.sched.curr.value && z in Zombies(k.sched)
    ensures z != k.sched.idle && z != k.init
  {
    hide Valid, HistoryOk, WaitOk, BirthsOk, OnceOk;
    CurrentProc(k);
    IsChild(k.procs, Zombies(k.sched), k.sched.curr.value, z);
  }

  lemma ReapedTable(k: Kernel, z: Ptr)
    requires TableOk(k) && z in k.procs && z != k.sched.idle && z != k.init && Reap.requires(k, z)
    ensures TableOk(Reap(k.(inWait := k.inWait - {k.sched.curr.value}), z))
  {
    var k' := Reap(k.(inWait := k.inWait - {k.sched.curr.value}), z);
    forall q | q in k'.procs ensures k'.table[k'.procs[q].pid] == Some(q) {
      assert k'.procs[q].pid == k.procs[q].pid;
    }
  }

  lemma ReapedWait(k: Kernel, z: Ptr)
    requires Inv(k) && k.sched.curr.Some? && Reap.requires(k, z) && k.procs[z].parent == k.sched.curr
    requires z in k.sched.status && k.sched.status[z] == ZOMBIE
    ensures WaitOk(Reap(k.(inWait := k.inWait - {k.sched.curr.value}), z))
  {
    hide TableOk, TreeOk, HistoryOk;
    CurrentProc(k);
    hide Valid;
  }

  /** `sys_wait` up to its return or its block. */
  function Waited(k: Kernel): Kernel
    requires Inv(k) && Calls(k)
  {
    CurrentProc(k);
    var c := k.sched.curr.value;
    if k.procs[c].children == [] && k.procs[c].zombies == [] then k
    else if k.procs[c].zombies != [] then
      assert Corpse(k.procs, c, k.procs[c].zombies[0]);
      ReapedInv(k, k.procs[c].zombies[0]);
      Reap(k, k.procs[c].zombies[0])
    else
      HandOverValid(k.sched, WAIT_CHILD);
      k.(sched := HandOver(k.sched, WAIT_CHILD), inWait := k.inWait + {c})
  }

  /** How a `sys_wait` call ends, or that it has not ended yet. */
  datatype WaitResult = NoChild | Child(pid: nat, code: int) | Blocked

  /** What `sys_wait` answers: no child at all, the first zombie's pid and masked status,
      or nothing yet. */
  function WaitAnswer(k: Kernel): WaitResult
    requires Inv(k) && Calls(k)
  {
    hide Inv;
    CurrentProc(k);
    var x := k.procs[k.sched.curr.value];
    if x.zombies != [] then
      assert Corpse(k.procs, k.sched.curr.value, x.zombies[0]);
      CorpseFacts(k, x.zombies[0]);
      Child(k.procs[x.zombies[0]].pid, k.procs[x.zombies[0]].exitStatus % 256)
    else if x.children != [] then Blocked
    else NoChild
  }

  lemma WaitedInv(k: Kernel)
    requires Inv(k) && Calls(k)
    ensures Inv(Waited(k))
  {
    hide Inv;
    CurrentProc(k);
    var c := k.sched.curr.value;
    if k.procs[c].zombies != [] {
      assert Corpse(k.procs, c, k.procs[c].zombies[0]);
      ReapedInv(k, k.procs[c].zombies[0]);
      assert k.inWait - {c} == k.inWait;
    } else if k.procs[c].children != [] {
      WaitBlocks(k);
    }
  }

  lemma WaitBlocks(k: Kernel)
    requires Inv(k) && Calls(k)
    requires k.procs[k.sched.curr.value].zombies == [] && k.procs[k.sched.curr.value].children != []
    ensures k.sched.ready != []
    ensures Inv(k.(sched := HandOver(k.sched, WAIT_CHILD), inWait := k.inWait + {k.sched.curr.value}))
  {
    hide HistoryOk, TreeOk, Valid, WaitOk, TableOk;
    HandOverValid(k.sched, WAIT_CHILD);
    var s := HandOver(k.sched, WAIT_CHILD);
    SomebodyReadyIn(k.sched);
    TableFrame(k, s, k.inWait + {k.sched.curr.value});
    WaitBlocksWait(k);
    assert Zombies(s) == Zombies(k.sched);
    assert s.status.Keys == k.sched.status.Keys;
  }

  lemma TableFrame(k: Kernel, s: State, w: set<Ptr>)
    requires TableOk(k) && s.idle == k.sched.idle
    ensures TableOk(k.(sched := s, inWait := w))
  {
  }

  lemma WaitBlocksWait(k: Kernel)
    requires Valid(k.sched) && WaitOk(k) && Calls(k) && k.sched.ready != [] && k.procs.Keys == k.sched.status.Keys
    requires k.sched.curr.value in k.procs
    requires k.procs[k.sched.curr.value].zombies == [] && k.procs[k.sched.curr.value].children != []
    ensures WaitOk(k.(sched := HandOver(k.sched, WAIT_CHILD), inWait := k.inWait + {k.sched.curr.value}))
  {
    hide Valid;
    SomebodyReadyIn(k.sched);
  }

  /** The rest of `sys_wait`, when the blocked process runs again. */
  function Resumed(k: Kernel): Kernel
    requires Inv(k) && k.sched.curr.Some? && k.sched.curr.value in k.inWait
  {
    ResumeFacts(k);
    var c := k.sched.curr.value;
    ReapedInv(k, k.procs[c].waiting.value);
    Reap(k.(inWait := k.inWait - {c}), k.procs[c].waiting.value)
  }

  /** The child recorded for a process that resumes is still there, a zombie, and its own. */
  lemma ResumeFacts(k: Kernel)
    requires Inv(k) && k.sched.curr.Some? && k.sched.curr.value in k.inWait
    ensures k.sched.curr.value in k.procs && k.procs[k.sched.curr.value].waiting.Some?
    ensures Corpse(k.procs, k.sched.curr.value, k.procs[k.sched.curr.value].waiting.value)
  {
    hide Valid, HistoryOk, TableOk, TreeOk;
    CurrentProc(k);
  }

  lemma ResumedInv(k: Kernel)
    requires Inv(k) && k.sched.curr.Some? && k.sched.curr.value in k.inWait
    ensures Inv(Resumed(k))
  {
    hide Inv;
    ResumeFacts(k);
    ReapedInv(k, k.procs[k.sched.curr.value].waiting.value);
  }

  // ---- exit ----

  /** The tree after `sys_exit` by `c`: status stored, children adopted, `c` among its
      parent's zombies, and named as the awaited child if the parent waits. */
  function ExitTree(t: Procs, c: Ptr, init: Ptr, a0: nat, wake: bool): Procs
    requires c in t && t[c].parent.Some? && t[c].parent.value in t && c != t[c].parent.value
  {
    var t1 := t[c := t[c].(exitStatus := ToI32(a0))];
    var t2 := Buried(Adopted(t1, c, init), c);
    var p := t[c].parent.value;
    if wake then t2[p := t2[p].(waiting := Some(c))] else t2
  }

  /** The scheduler after `sys_exit`: a waiting parent is readied, then the CPU handed over. */
  function ExitSched(s: State, p: Ptr): State
    requires s.curr.Some? && p in s.status && s.ready != []
  {
    HandOver(if s.status[p] == WAIT_CHILD then Readied(s, p) else s, ZOMBIE)
  }

  /** `sys_exit` with argument register `a0`. The caller is not init and has a parent. */
  function Exit(k: Kernel, a0: nat): Kernel
    requires Inv(k) && Calls(k) && k.sched.curr != Some(k.init)
  {
    ExitFacts(k);
    var c := k.sched.curr.value;
    var p := k.procs[c].parent.value;
    k.(sched := ExitSched(k.sched, p),
       procs := ExitTree(k.procs, c, k.init, a0, k.sched.status[p] == WAIT_CHILD),
       log := k.log + [Exited(k.procs[c].birth, a0)])
  }

  lemma ExitFacts(k: Kernel)
    requires Inv(k) && Calls(k) && k.sched.curr != Some(k.init)
    ensures k.sched.curr.Some? && k.sched.curr.value in k.procs && k.sched.ready != []
    ensures k.sched.curr.value in k.sched.status && k.sched.status[k.sched.curr.value] == CURR
    ensures k.sched.curr.value !in Zombies(k.sched) && k.sched.ready[0] in k.sched.status
    ensures k.sched.status[k.sched.ready[0]] == READY && k.init in k.procs
    ensures forall q :: q in k.sched.status && k.sched.status[q] == CURR ==> q == k.sched.curr.value
    ensures
      var c := k.sched.curr.value;
      && k.procs[c].parent.Some?
      && k.procs[c].parent.value in k.procs && k.procs[c].parent.value != c
      && k.procs[c].parent.value in k.sched.status
      && k.sched.status[k.procs[c].parent.value] != ZOMBIE
  {
    hide Valid, HistoryOk, WaitOk, TableOk;
    CurrentProc(k);
    SomebodyReadyIn(k.sched);
    var c := k.sched.curr.value;
    assert ChildOf(k.procs, c, k.procs[c].parent.value);
    assert Kid(k.procs, k.procs[c].parent.value, c);
  }

  /** The records of a tree may change in the fields no list goes through. */
  lemma TreeFrame(t: Procs, t': Procs, zs: set<Ptr>, idle: Ptr, init: Ptr)
    requires TreeOk(t, zs, idle, init) && t'.Keys == t.Keys
    requires forall p :: p in t ==>
      t'[p].parent == t[p].parent && t'[p].children == t[p].children && t'[p].zombies == t[p].zombies && t'[p].birth == t[p].birth
    ensures TreeOk(t', zs, idle, init)
  {
    assert forall p, c :: Kid(t', p, c) <==> Kid(t, p, c);
    assert forall p, c :: Corpse(t', p, c) <==> Corpse(t, p, c);
    assert forall p, c :: ChildOf(t', c, p) <==> ChildOf(t, c, p);
  }

  lemma ExitTreeOk(t: Procs, zs: set<Ptr>, idle: Ptr, init: Ptr, c: Ptr, a0: nat, wake: bool)
    requires TreeOk(t, zs, idle, init) && c in t && c != idle && c != init && c !in zs
    requires t[c].parent.Some? && t[c].parent.value in t && c != t[c].parent.value
    ensures TreeOk(ExitTree(t, c, init, a0, wake), zs + {c}, idle, init)
  {
    hide TreeOk;
    var t1 := t[c := t[c].(exitStatus := ToI32(a0))];
    TreeFrame(t, t1, zs, idle, init);
    AdoptedTree(t1, zs, idle, c, init);
    BuriedTree(Adopted(t1, c, init), zs, idle, c, init);
    TreeFrame(Buried(Adopted(t1, c, init), c), ExitTree(t, c, init, a0, wake), zs + {c}, idle, init);
  }

  lemma ExitSchedOk(s: State, p: Ptr)
    requires Valid(s) && s.curr != Some(s.idle) && p in s.status && s.ready != []
    ensures Valid(ExitSched(s, p))
    ensures s.status[p] == WAIT_CHILD ==> ExitSched(s, p).curr == Some(p)
    ensures ExitSched(s, p).idle == s.idle
  {
    hide Valid;
    if s.status[p] == WAIT_CHILD {
      WokenValid(s, p);
      HandOverValid(Readied(s, p), ZOMBIE);
    } else {
      HandOverValid(s, ZOMBIE);
    }
  }

  /** Which state each process is in after an exit. */
  lemma ExitStatuses(s: State, p: Ptr)
    requires s.curr.Some? && s.curr.value in s.status && p in s.status && s.ready != [] && p != s.curr.value
    requires s.ready[0] in s.status && s.ready[0] != s.curr.value
    ensures
      var s', wake := ExitSched(s, p), s.status[p] == WAIT_CHILD;
      && s'.status.Keys == s.status.Keys
      && forall q :: q in s.status ==>
        s'.status[q] == (if q == s.curr.value then ZOMBIE
                         else if q == (if wake then p else s.ready[0]) then CURR
                         else s.status[q])
  {
  }

  lemma ExitedInv(k: Kernel, a0: nat)
    requires Inv(k) && Calls(k) && k.sched.curr != Some(k.init)
    ensures Inv(Exit(k, a0))
  {
    hide Valid, Conserved, Once, Answered, Current, TreeOk, WaitOk, TableOk, ExitTree;
    ExitFacts(k);
    var k', c, zs := Exit(k, a0), k.sched.curr.value, Zombies(k.sched);
    var p := k.procs[c].parent.value;
    ExitSchedOk(k.sched, p);
    ExitStatuses(k.sched, p);
    assert Zombies(k'.sched) == zs + {c};
    ExitTreeOk(k.procs, zs, k.sched.idle, k.init, c, a0, k.sched.status[p] == WAIT_CHILD);
    ExitRecords(k.procs, c, k.init, a0, k.sched.status[p] == WAIT_CHILD);
    ExitHistory(k.log, k.procs, k'.procs, zs, k.births, c, a0);
    ExitedTable(k, a0);
    ExitedWait(k, a0);
  }

  /** What an exit leaves of every record it does not have to touch. */
  lemma ExitRecords(t: Procs, c: Ptr, init: Ptr, a0: nat, wake: bool)
    requires c in t && t[c].parent.Some? && t[c].parent.value in t && c != t[c].parent.value && init in t && c != init
    ensures
      var t', p := ExitTree(t, c, init, a0, wake), t[c].parent.value;
      && t'.Keys == t.Keys
      && forall q :: q in t ==>
        && t'[q].pid == t[q].pid && t'[q].birth == t[q].birth
        && t'[q].exitStatus == (if q == c then ToI32(a0) else t[q].exitStatus)
        && t'[q].waiting == (if q == p && wake then Some(c) else t[q].waiting)
        && (q != c && q != p && q != init ==> t'[q].children == t[q].children && t'[q].zombies == t[q].zombies)
        && (q == init && q != p ==> t'[q].children == t[q].children + t[c].children && t'[q].zombies == t[q].zombies + t[c].zombies)
        && (q == p ==> c in t'[q].zombies)
  {
  }

  lemma ExitedTable(k: Kernel, a0: nat)
    requires Inv(k) && Calls(k) && k.sched.curr != Some(k.init)
    ensures TableOk(Exit(k, a0))
  {
    hide Valid, TreeOk, HistoryOk, WaitOk, ExitTree, ExitSched;
    ExitFacts(k);
    var c := k.sched.curr.value;
    var p := k.procs[c].parent.value;
    ExitRecords(k.procs, c, k.init, a0, k.sched.status[p] == WAIT_CHILD);
    hide ExitSched;
    assert Exit(k, a0).sched.idle == k.sched.idle by { ExitSchedOk(k.sched, p); }
  }

  lemma ExitedWait(k: Kernel, a0: nat)
    requires Inv(k) && Calls(k) && k.sched.curr != Some(k.init)
    ensures WaitOk(Exit(k, a0))
  {
    hide Valid, TableOk, TreeOk, HistoryOk, ExitTree, ExitSched;
    ExitFacts(k);
    var k', c := Exit(k, a0), k.sched.curr.value;
    var p := k.procs[c].parent.value;
    var wake := k.sched.status[p] == WAIT_CHILD;
    ExitRecords(k.procs, c, k.init, a0, wake);
    ExitStatuses(k.sched, p);
    ExitSchedOk(k.sched, p);
    ExitedWaits(k, k', c, p);
  }

  /** The waits after an exit of `c`, child of `p`, from what it does to states and records. */
  lemma ExitedWaits(k: Kernel, k': Kernel, c: Ptr, p: Ptr)
    requires WaitOk(k) && k'.init == k.init && k'.inWait == k.inWait && k'.sched.idle == k.sched.idle
    requires c in k.procs && p in k.procs && c !in k.inWait && p != c && p in k.sched.status && c in k.sched.status
    requires k.sched.status[c] == CURR && forall q :: q in k.sched.status && k.sched.status[q] == CURR ==> q == c
    requires k'.procs.Keys == k.procs.Keys && k'.sched.status.Keys == k.sched.status.Keys
    requires forall q :: q in k.sched.status && q != c && q != p ==>
      k'.sched.status[q] == k.sched.status[q] || (k'.sched.status[q] == CURR && k.sched.status[q] == READY)
    requires k'.sched.status[c] == ZOMBIE
    requires if k.sched.status[p] == WAIT_CHILD then k'.sched.status[p] == CURR && k'.procs[p].waiting == Some(c)
             else k'.sched.status[p] == k.sched.status[p] || k'.sched.status[p] == CURR
    requires c in k'.procs[p].zombies
    requires forall q :: q in k.procs && q != c && q != p && q != k.init ==>
      k'.procs[q].children == k.procs[q].children && k'.procs[q].zombies == k.procs[q].zombies
    requires k.init in k.procs && k.init != c && (k.init != p ==> |k'.procs[k.init].children| >= |k.procs[k.init].children|)
    ensures WaitOk(k')
  {
    forall q | q in k.inWait
      ensures q in k'.procs && q in k'.sched.status && q != k'.sched.idle
      ensures k'.sched.status[q] == WAIT_CHILD || (k'.sched.status[q] == CURR && k'.procs[q].waiting == Some(c) && c in k'.procs[q].zombies)
    {
      assert k.sched.status[q] == WAIT_CHILD;
    }
  }
}
