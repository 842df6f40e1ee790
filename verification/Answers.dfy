/** What the process system calls answer, in terms of the processes there are. */
module Answers {
  import opened Queues
  import opened Sched
  import opened ProcTree
  import opened History
  import opened Pids
  import opened Lifecycle
  import opened Runs

  // ---- wait ----

  /** `sys_wait` answers at once that there is no child exactly if no process has the caller as
      its parent, and blocks exactly if there are children and none is a zombie. */
  lemma WaitAnswers(k: Kernel)
    requires Inv(k) && Calls(k)
    ensures
      var c, r := k.sched.curr.value, WaitAnswer(k);
      && (r == NoChild <==> forall q :: !ChildOf(k.procs, q, c))
      && (r == Blocked <==>
            (exists q :: ChildOf(k.procs, q, c)) && forall q :: ChildOf(k.procs, q, c) ==> q !in Zombies(k.sched))
  {
    hide Valid, HistoryOk, WaitOk, TableOk;
    CurrentProc(k);
    var c := k.sched.curr.value;
    var x := k.procs[c];
    assert forall q :: Kid(k.procs, c, q) <==> q in x.children;
    assert forall q :: Corpse(k.procs, c, q) <==> q in x.zombies;
    if x.zombies != [] {
      assert Corpse(k.procs, c, x.zombies[0]);
    } else if x.children != [] {
      assert Kid(k.procs, c, x.children[0]);
    }
  }

  /** `pid` and `code` are the slot and the low eight bits of the exit argument of `z`, a zombie
      child of the caller, and the step removes `z` and frees the slot. */
  ghost predicate Delivers(k: Kernel, k': Kernel, z: Ptr, pid: nat, code: int) {
    && k.sched.curr.Some? && ChildOf(k.procs, z, k.sched.curr.value) && z in Zombies(k.sched)
    && pid < |k.table| == |k'.table| && k.table[pid] == Some(z) && k'.table[pid] == None
    && k'.procs.Keys == k.procs.Keys - {z}
    && exists i :: ExitAt(k.log, i, k.procs[z].birth) && code == k.log[i].status % 256
  }

  lemma WaitDelivers(k: Kernel)
    requires Inv(k) && Enabled(k, Wait) && WaitAnswer(k).Child?
    ensures
      var k', r := Next(k, Wait), WaitAnswer(k);
      exists z :: Delivers(k, k', z, r.pid, r.code)
  {
    hide Inv, Valid, TableOk;
    StepDefined(k);
    var c := k.sched.curr.value;
    var z := k.procs[c].zombies[0];
    assert Corpse(k.procs, c, z);
    ReapedInv(k, z);
    CorpseFacts(k, z);
    CodeOf(k, z);
    SlotOf(k, z);
    assert Delivers(k, Next(k, Wait), z, WaitAnswer(k).pid, WaitAnswer(k).code);
  }

  /** The answer after a block is of the same kind. */
  lemma ResumeDelivers(k: Kernel)
    requires Inv(k) && Enabled(k, Resume)
    ensures k.sched.curr.value in k.procs && k.procs[k.sched.curr.value].waiting.Some?
    ensures
      var z := k.procs[k.sched.curr.value].waiting.value;
      z in k.procs && Delivers(k, Next(k, Resume), z, k.procs[z].pid, k.procs[z].exitStatus % 256)
  {
    hide Inv, Valid, TableOk;
    StepDefined(k);
    ResumeFacts(k);
    var z := k.procs[k.sched.curr.value].waiting.value;
    ReapedInv(k, z);
    CorpseFacts(k, z);
    CodeOf(k, z);
    SlotOf(k, z);
  }

  lemma CodeOf(k: Kernel, z: Ptr)
    requires Inv(k) && z in k.procs && z in Zombies(k.sched)
    ensures exists i :: ExitAt(k.log, i, k.procs[z].birth) && k.procs[z].exitStatus % 256 == k.log[i].status % 256
  {
    hide Valid, TableOk, TreeOk, WaitOk, Once, Answered, Conserved, Current, Zombies;
    CodeInRecord(k.log, k.procs, Zombies(k.sched), z);
  }

  lemma SlotOf(k: Kernel, z: Ptr)
    requires Inv(k) && z in k.procs
    ensures k.procs[z].pid < |k.table| && k.table[k.procs[z].pid] == Some(z)
  {
    hide Valid, TreeOk, WaitOk, HistoryOk;
  }

  // ---- spawn ----

  /** Every slot of the process table is taken, but perhaps that of the last pid given out. */
  ghost predicate NoPidLeft(k: Kernel) {
    forall i :: 0 <= i < |k.table| && i != k.lastPid ==> k.table[i].Some?
  }

  /** The answer of `sys_proc`, in all cases: a new process with its own slot, READY, last among
      the children of the caller; or an error, and then nothing has changed but the last pid. */
  lemma SpawnAnswers(k: Kernel, env: SpawnEnv)
    requires Inv(k) && Enabled(k, Spawn(env))
    ensures Spawned.requires(k, env) && Next(k, Spawn(env)) == Spawned(k, env).0
    ensures
      var (k', r) := Spawned(k, env);
      && (env.nullArgs ==> r == -14)
      && (!env.nullArgs && env.memory.None? ==> r == -12)
      && (!env.nullArgs && env.memory.Some? && NoPidLeft(k) ==> r == -11)
      && (!env.nullArgs && env.memory.Some? && !NoPidLeft(k) && !(env.stacks && env.maps) ==> r == -12)
      && (!env.nullArgs && env.memory.Some? && !NoPidLeft(k) && env.stacks && env.maps ==> r >= 0)
      && (r < 0 ==> k' == k.(lastPid := k'.lastPid))
      && (env.nullArgs || env.memory.None? || NoPidLeft(k) ==> k' == k)
      && (!env.nullArgs && env.memory.Some? && !NoPidLeft(k) ==> k'.lastPid != k.lastPid)
  {
    hide Inv, Valid, NewPid, TableOk;
    StepDefined(k);
    PidFacts(k);
  }

  lemma PidFacts(k: Kernel)
    requires TableOk(k)
    ensures |k.table| == PROC_TABLE_SIZE && k.lastPid < PROC_TABLE_SIZE
    ensures NewPid(k.table, k.lastPid) == None <==> NoPidLeft(k)
    ensures NewPid(k.table, k.lastPid).Some? ==>
      var pid := NewPid(k.table, k.lastPid).value;
      pid < PROC_TABLE_SIZE && pid != k.lastPid && k.table[pid] == None
  {
    NewPidExact(k.table, k.lastPid);
  }

  lemma SpawnMakes(k: Kernel, env: SpawnEnv)
    requires Inv(k) && Enabled(k, Spawn(env)) && Spawned.requires(k, env) && Spawned(k, env).1 >= 0
    ensures
      var k', pid, p, c := Spawned(k, env).0, Spawned(k, env).1, env.memory, k.sched.curr.value;
      && p.Some? && p.value !in k.procs && c in k.procs && k'.procs.Keys == k.procs.Keys + {p.value}
      && pid < |k.table| && k.table[pid] == None && k'.table == k.table[pid := p] && k'.lastPid == pid
      && k'.procs[p.value].pid == pid && k'.procs[p.value].parent == Some(c)
      && k'.procs[p.value].children == [] && k'.procs[p.value].zombies == []
      && k'.procs[c].children == k.procs[c].children + [p.value] && k'.procs[c].zombies == k.procs[c].zombies
      && k'.sched.status == k.sched.status[p.value := READY] && k'.sched.curr == k.sched.curr
  {
    hide Inv, Valid, NewPid, TableOk;
    StepDefined(k);
    PidFacts(k);
  }
}
