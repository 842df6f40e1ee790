/** The process system calls in place: `src/syscalls/exit.c`, `src/syscalls/wait.c`,
    `src/syscalls/proc.c` and `src/proc.c` on one object that owns the scheduler. */
module KernelObject {
  import opened Queues
  import opened Sched
  import opened SchedSteps
  import opened ProcTree
  import opened History
  import opened Pids
  import opened Errno
  import opened Lifecycle
  import opened Runs
  import opened PageAlloc
  import opened ProcPages
  import opened Scheduler

  // ---- the adoption loops, step by step ----

  /** `proc_adopt`: off its old list, new parent, onto the list its state calls for. */
  function AdoptOne(t: Procs, parent: Ptr, p: Ptr, zombie: bool): Procs
    requires p in t && parent in t && t[p].parent.Some? && t[p].parent.value in t && p != parent
  {
    var q := t[p].parent.value;
    var t1 := t[q := t[q].(children := Without(t[q].children, p), zombies := Without(t[q].zombies, p))];
    var t2 := t1[p := t1[p].(parent := Some(parent))];
    if zombie then t2[parent := t2[parent].(zombies := t2[parent].zombies + [p])]
    else t2[parent := t2[parent].(children := t2[parent].children + [p])]
  }

  /** The tree when the first `n` children and `m` zombie children of `c` have moved to init. */
  function Moved(t: Procs, c: Ptr, init: Ptr, n: nat, m: nat): Procs
    requires c in t && n <= |t[c].children| && m <= |t[c].zombies|
  {
    map q | q in t ::
      if q == c then t[q].(children := t[q].children[n..], zombies := t[q].zombies[m..])
      else if q == init then
        t[q].(children := t[q].children + t[c].children[..n], zombies := t[q].zombies + t[c].zombies[..m])
      else if q in t[c].children[..n] || q in t[c].zombies[..m] then t[q].(parent := Some(init))
      else t[q]
  }

  lemma MovedLists(t: Procs, c: Ptr, init: Ptr, n: nat, m: nat)
    requires c in t && n <= |t[c].children| && m <= |t[c].zombies|
    ensures
      var t' := Moved(t, c, init, n, m);
      && t'.Keys == t.Keys && c in t'
      && t'[c].children == t[c].children[n..] && t'[c].zombies == t[c].zombies[m..]
  {
  }

  lemma MovedNone(t: Procs, c: Ptr, init: Ptr)
    requires c in t
    ensures Moved(t, c, init, 0, 0) == t
  {
    var t' := Moved(t, c, init, 0, 0);
    assert forall q :: q in t ==> t'[q] == t[q];
  }

  lemma MovedAll(t: Procs, c: Ptr, init: Ptr)
    requires c in t
    ensures Moved(t, c, init, |t[c].children|, |t[c].zombies|) == Adopted(t, c, init)
  {
    var t1, t2 := Moved(t, c, init, |t[c].children|, |t[c].zombies|), Adopted(t, c, init);
    assert t[c].children[..|t[c].children|] == t[c].children && t[c].children[|t[c].children|..] == [];
    assert t[c].zombies[..|t[c].zombies|] == t[c].zombies && t[c].zombies[|t[c].zombies|..] == [];
    assert forall q :: q in t ==> t1[q] == t2[q];
  }

  ghost predicate Adoptable(t: Procs, zs: set<Ptr>, idle: Ptr, init: Ptr, c: Ptr) {
    TreeOk(t, zs, idle, init) && c in t && c != idle && c != init
  }

  lemma NextChild(t: Procs, zs: set<Ptr>, idle: Ptr, init: Ptr, c: Ptr, n: nat)
    requires Adoptable(t, zs, idle, init, c) && n < |t[c].children|
    ensures
      var p := t[c].children[n];
      && p in t && p !in zs && p != init && p != c && t[p].parent == Some(c) && init in t && c in t && init != c
      && p !in t[c].children[..n] && p !in t[c].zombies && p !in t[c].children[n + 1..]
  {
    var p := t[c].children[n];
    assert Kid(t, c, p);
    assert ChildOf(t, p, c) && !Corpse(t, c, p);
  }

  lemma MoveChild(t: Procs, zs: set<Ptr>, idle: Ptr, init: Ptr, c: Ptr, n: nat)
    requires Adoptable(t, zs, idle, init, c) && n < |t[c].children|
    ensures
      var t1, p := Moved(t, c, init, n, 0), t[c].children[n];
      && p in t1 && init in t1 && t1[p].parent == Some(c) && c in t1 && p != init && p !in zs
      && t1[c].children != [] && t1[c].children[0] == p
      && AdoptOne(t1, init, p, false) == Moved(t, c, init, n + 1, 0)
  {
    hide Adoptable;
    NextChild(t, zs, idle, init, c, n);
    var ch, t1, p := t[c].children, Moved(t, c, init, n, 0), t[c].children[n];
    var t2, t3 := AdoptOne(t1, init, p, false), Moved(t, c, init, n + 1, 0);
    assert Without(ch[n..], p) == ch[n + 1..];
    assert ch[..n + 1] == ch[..n] + [p];
    assert t[init].children + ch[..n] + [p] == t[init].children + ch[..n + 1];
    forall q | q in t ensures t2[q] == t3[q] {
      assert q in ch[..n + 1] <==> q in ch[..n] || q == p;
    }
  }

  lemma NextCorpse(t: Procs, zs: set<Ptr>, idle: Ptr, init: Ptr, c: Ptr, m: nat)
    requires Adoptable(t, zs, idle, init, c) && m < |t[c].zombies|
    ensures
      var p := t[c].zombies[m];
      && p in t && p in zs && p != init && p != c && t[p].parent == Some(c) && init in t && c in t && init != c
      && p !in t[c].zombies[..m] && p !in t[c].children && p !in t[c].zombies[m + 1..]
  {
    var p := t[c].zombies[m];
    assert Corpse(t, c, p);
    assert ChildOf(t, p, c) && !Kid(t, c, p);
  }

  lemma MoveCorpse(t: Procs, zs: set<Ptr>, idle: Ptr, init: Ptr, c: Ptr, m: nat)
    requires Adoptable(t, zs, idle, init, c) && m < |t[c].zombies|
    ensures
      var n := |t[c].children|;
      var t1, p := Moved(t, c, init, n, m), t[c].zombies[m];
      && p in t1 && init in t1 && t1[p].parent == Some(c) && c in t1 && p != init && p in zs
      && t1[c].zombies != [] && t1[c].zombies[0] == p
      && AdoptOne(t1, init, p, true) == Moved(t, c, init, n, m + 1)
  {
    hide Adoptable;
    NextCorpse(t, zs, idle, init, c, m);
    var n, zo := |t[c].children|, t[c].zombies;
    var t1, p := Moved(t, c, init, n, m), zo[m];
    var t2, t3 := AdoptOne(t1, init, p, true), Moved(t, c, init, n, m + 1);
    assert t[c].children[n..] == [] && t[c].children[..n] == t[c].children;
    assert Without(zo[m..], p) == zo[m + 1..];
    assert zo[..m + 1] == zo[..m] + [p];
    assert t[init].zombies + zo[..m] + [p] == t[init].zombies + zo[..m + 1];
    forall q | q in t ensures t2[q] == t3[q] {
      assert q in zo[..m + 1] <==> q in zo[..m] || q == p;
    }
  }

  // ---- the object ----

  class System {
    const sched: Scheduler
    const pages: PageAllocator
    const init: Ptr
    var procs: Procs
    var table: Table
    var lastPid: nat
    var inWait: set<Ptr>
    var births: nat
    var log: seq<Event>
    var stacks: map<Ptr, Stacks>
    ghost var kept: seq<nat>

    ghost function View(): Kernel
      reads this, sched, sched.timers
    {
      Kernel(sched.View(), procs, table, lastPid, init, inWait, births, log)
    }

    ghost function PagesView(): Pages
      reads this, pages
    {
      Pages(pages.free, stacks, kept)
    }

    ghost function Whole(): Machine
      reads this, sched, sched.timers, pages
    {
      Machine(View(), PagesView())
    }

    /** The invariant, and every page in hand is a real one. */
    ghost predicate Sound()
      reads this, sched, sched.timers, pages
    {
      Inv(View()) && stacks.Keys == procs.Keys && 0 !in pages.free && NoNull(stacks)
    }

    /** Boot: idle and init get their pids, records and stacks, idle's after the `early` pages
        of the device drivers, init's after the `image` pages of its program, then the scheduler starts. */
    constructor (idle: Ptr, initProc: Ptr, now: nat, allocator: PageAllocator,
                 early: nat, image: nat, tables: nat)
      requires idle != initProc && |allocator.free| >= 4 + early + image + tables && 0 !in allocator.free
      modifies allocator`free
      ensures fresh(sched) && fresh(sched.timers) && pages == allocator
      ensures View() == BootKernel(idle, initProc, now)
      ensures PagesView() == BootPages(old(allocator.free), idle, initProc, early, image, tables) && Sound()
    {
      hide Inv, Valid, Boot, Update, Empty, NewPid, NoNull, NoPids, BootPages, BootProcs;
      sched := new Scheduler(idle);
      init, pages := initProc, allocator;
      procs, table, lastPid := map[], NoPids(), PROC_TABLE_SIZE - 1;
      inWait, births, log, stacks, kept := {}, 0, [], map[], [];
      new;
      BootInv(idle, initProc, now);
      FirstProcs(idle, initProc, early, image, tables);
      sched.Start(initProc, now);
    }

    method FirstProcs(idle: Ptr, initProc: Ptr, early: nat, image: nat, tables: nat)
      requires procs == map[] && table == NoPids() && lastPid == PROC_TABLE_SIZE - 1 && births == 0
      requires stacks == map[] && kept == [] && |pages.free| >= 4 + early + image + tables && 0 !in pages.free
      modifies this, pages`free
      ensures procs == BootProcs(idle, initProc) && table == NoPids()[0 := Some(idle)][1 := Some(initProc)]
      ensures lastPid == 1 && births == 2 && inWait == old(inWait) && log == old(log)
      ensures PagesView() == BootPages(old(pages.free), idle, initProc, early, image, tables)
      ensures 0 !in pages.free && NoNull(stacks) && stacks.Keys == procs.Keys
    {
      hide NewPid, NoNull, NoPids, Equipped, Kept;
      BootPids(idle);
      EmptyNoNull();
      KeptSize(PagesView(), early);
      TakePages(early);
      EquippedSize(PagesView(), idle, 0);
      Register(idle, 0);
      KeptSize(PagesView(), image);
      TakePages(image);
      EquippedSize(PagesView(), initProc, tables);
      Register(initProc, tables);
    }

    /** `proc_init` without a parent, for a process that gets its pid, its stacks, and `tables`
        tables for their mappings. */
    method Register(p: Ptr, tables: nat)
      requires |table| == PROC_TABLE_SIZE && lastPid < PROC_TABLE_SIZE && NewPid(table, lastPid).Some?
      requires |pages.free| >= 2 + tables && 0 !in pages.free && NoNull(stacks)
      modifies this, pages`free
      ensures Some(lastPid) == NewPid(old(table), old(lastPid)) && lastPid < PROC_TABLE_SIZE
      ensures table == old(table)[lastPid := Some(p)]
      ensures procs == old(procs)[p := Proc(lastPid, None, [], [], None, 0, old(births))] && births == old(births) + 1
      ensures inWait == old(inWait) && log == old(log)
      ensures PagesView() == Equipped(old(PagesView()), p, tables, true) && 0 !in pages.free && NoNull(stacks)
    {
      hide NewPid, NoNull, Equipped;
      NewPidExact(table, lastPid);
      var pid := NextPid();
      var ok := InitStacks(p, tables, true);
      table := table[pid := Some(p)];
      procs := procs[p := Proc(pid, None, [], [], None, 0, births)];
      births := births + 1;
    }

    /** The pages another client takes. */
    method TakePages(n: nat)
      requires n <= |pages.free| && 0 !in pages.free
      modifies this`kept, pages`free
      ensures PagesView() == Kept(old(PagesView()), n) && 0 !in pages.free
    {
      ghost var free, kept0 := pages.free, kept;
      var i := 0;
      while i < n
        invariant i <= n && pages.free == free[i..] && kept == kept0 + free[..i]
      {
        var page := pages.Alloc();
        kept := kept + [page];
        i := i + 1;
        assert free[..i] == free[..i - 1] + [page];
      }
    }

    /** `init_stacks` and the three mappings of `proc_init`, which take `tables` pages and may
        fail; what was taken is not given back. */
    method InitStacks(p: Ptr, tables: nat, maps: bool) returns (ok: bool)
      requires 0 !in pages.free && NoNull(stacks) && (|pages.free| >= 2 ==> tables <= |pages.free| - 2)
      modifies this`stacks, this`kept, pages`free
      ensures PagesView() == Equipped(old(PagesView()), p, tables, maps) && 0 !in pages.free && NoNull(stacks)
      ensures ok <==> |old(pages.free)| >= 2 && maps
    {
      ghost var free, kept0 := pages.free, kept;
      Slices(free, tables);
      var kern := pages.Alloc();
      var user := pages.Alloc();
      if kern == 0 || user == 0 {
        kept := kept + free;
        return false;
      }
      TakePages(tables);
      if !maps {
        kept := kept0 + free[..2 + tables];
        return false;
      }
      stacks := stacks[p := Stacks(kern, user)];
      return true;
    }

    /** `new_pid`, with its static `last_pid`. */
    method NextPid() returns (pid: int)
      requires |table| == PROC_TABLE_SIZE && lastPid < PROC_TABLE_SIZE
      modifies this`lastPid
      ensures match NewPid(table, old(lastPid))
        case None => pid == EAGAIN && lastPid == old(lastPid)
        case Some(i) => pid == i && lastPid == i
    {
      var i := lastPid + 1;
      while i < PROC_TABLE_SIZE
        invariant lastPid < i <= PROC_TABLE_SIZE && lastPid == old(lastPid)
        invariant FirstFree(table, i, PROC_TABLE_SIZE) == FirstFree(table, lastPid + 1, PROC_TABLE_SIZE)
      {
        if table[i] == None {
          lastPid := i;
          return i;
        }
        i := i + 1;
      }
      i := 0;
      while i < lastPid
        invariant 0 <= i <= lastPid && lastPid == old(lastPid)
        invariant FirstFree(table, i, lastPid) == FirstFree(table, 0, lastPid)
      {
        if table[i] == None {
          lastPid := i;
          return i;
        }
        i := i + 1;
      }
      return EAGAIN;
    }

    /** `sys_proc`. What `kmalloc` and the mappings answer is given; the stacks come from the
        page allocator. */
    method Spawn(nullArgs: bool, memory: Option<Ptr>, tables: nat, maps: bool) returns (r: int)
      requires Sound() && Calls(View()) && (memory.Some? ==> memory.value !in procs)
      requires |pages.free| >= 2 ==> tables <= |pages.free| - 2
      modifies this, sched, sched.timers, pages`free
      ensures Can(old(Whole()), SpawnWith(nullArgs, memory, tables, maps))
      ensures Whole() == After(old(Whole()), SpawnWith(nullArgs, memory, tables, maps)) && Sound()
      ensures
        var env := SpawnEnv(nullArgs, memory, |old(pages.free)| >= 2, maps);
        Spawned.requires(old(View()), env) && r == Spawned(old(View()), env).1
    {
      hide Inv, TableOk, NewPid, NoNull, Equipped, After, Grown, Added;
      ghost var env := SpawnEnv(nullArgs, memory, |pages.free| >= 2, maps);
      SpawnFacts(View(), env);
      SpawnedInv(View(), env);
      SpawnMoves(Whole(), SpawnWith(nullArgs, memory, tables, maps));
      if nullArgs {
        return EFAULT;
      }
      if memory.None? {
        return ENOMEM;
      }
      var p := memory.value;
      var c := sched.curr.value;
      var pid := NextPid();
      if pid < 0 {
        return pid;
      }
      var ok := InitStacks(p, tables, maps);
      if !ok {
        return ENOMEM;
      }
      Enlist(p, pid, c);
      return pid;
    }

    /** The record, the slot and the place among the children of the new process `p`, and its
        way to the ready queue. */
    method Enlist(p: Ptr, pid: nat, c: Ptr)
      requires pid < |table| && c in procs && p !in procs && p !in sched.status
      modifies this`procs, this`table, this`births, sched, sched.timers
      ensures View() == old(View()).(
          sched := Added(old(sched.View()), p),
          procs := Grown(old(procs), c, p, pid, old(births)),
          table := old(table)[pid := Some(p)],
          births := old(births) + 1)
    {
      hide Update, CanUpdate;
      SpawnReadies(sched.View(), p);
      procs := procs[p := Proc(pid, Some(c), [], [], None, 0, births)];
      sched.status := sched.status[p := INIT];
      table := table[pid := Some(p)];
      procs := procs[c := procs[c].(children := procs[c].children + [p])];
      births := births + 1;
      sched.UpdateState(p, READY);
    }

    /** The tail of `sys_wait`, with `proc_deinit`. */
    method Bury(z: Ptr) returns (r: WaitResult)
      requires Reap.requires(View(), z) && z in stacks && stacks[z].user != 0 && stacks[z].kern != 0
      modifies this, sched, pages`free
      ensures View() == Reap(old(View()), z) && PagesView() == Returned(old(PagesView()), z)
      ensures r == Child(old(procs)[z].pid, old(procs)[z].exitStatus % 256)
    {
      var x := procs[z];
      var p := x.parent.value;
      log := log + [Reaped(x.birth, procs[p].birth, procs[sched.curr.value].birth, x.exitStatus % 256)];
      procs := procs[p := procs[p].(zombies := Without(procs[p].zombies, z))];
      table := table[x.pid := None];
      pages.Free(stacks[z].user);
      pages.Free(stacks[z].kern);
      procs := procs - {z};
      stacks := stacks - {z};
      sched.status := sched.status - {z};
      assert procs == Unlinked(old(procs), z);
      return Child(x.pid, x.exitStatus % 256);
    }

    method Wait() returns (r: WaitResult)
      requires Sound() && Calls(View())
      modifies this, sched, sched.timers, pages`free
      ensures View() == Waited(old(View())) && r == WaitAnswer(old(View()))
      ensures Can(old(Whole()), Do(Label.Wait)) && Whole() == After(old(Whole()), Do(Label.Wait)) && Sound()
    {
      hide Inv, Valid, NoNull;
      CurrentProc(View());
      WaitedInv(View());
      WaitMoves(Whole());
      var c := sched.curr.value;
      if procs[c].children == [] && procs[c].zombies == [] {
        return NoChild;
      }
      if procs[c].zombies != [] {
        var z := procs[c].zombies[0];
        assert Corpse(procs, c, z);
        ReapedInv(View(), z);
        StillNoNull(PagesView(), z);
        r := Bury(z);
        return;
      }
      WaitCallBlocks(View());
      inWait := inWait + {c};
      sched.UpdateState(c, WAIT_CHILD);
      return Blocked;
    }

    /** `sys_wait` after the context switch back. */
    method Resume() returns (r: WaitResult)
      requires Sound() && sched.curr.Some? && sched.curr.value in inWait
      modifies this, sched, pages`free
      ensures View() == Resumed(old(View()))
      ensures Can(old(Whole()), Do(Label.Resume)) && Whole() == After(old(Whole()), Do(Label.Resume)) && Sound()
      ensures old(sched.curr.value in procs && procs[sched.curr.value].waiting.Some?)
      ensures
        var z := old(procs[sched.curr.value].waiting.value);
        z in old(procs) && r == Child(old(procs)[z].pid, old(procs)[z].exitStatus % 256)
    {
      hide Inv, NoNull;
      ResumeFacts(View());
      ResumedInv(View());
      ResumeMoves(Whole());
      var c := sched.curr.value;
      var z := procs[c].waiting.value;
      ReapedInv(View(), z);
      StillNoNull(PagesView(), z);
      inWait := inWait - {c};
      r := Bury(z);
    }

    method Adopt(parent: Ptr, p: Ptr)
      requires p in procs && parent in procs && procs[p].parent.Some? && procs[p].parent.value in procs && p != parent
      requires p in sched.status
      modifies this`procs
      ensures procs == AdoptOne(old(procs), parent, p, sched.status[p] == ZOMBIE)
    {
      var q := procs[p].parent.value;
      procs := procs[q := procs[q].(children := Without(procs[q].children, p), zombies := Without(procs[q].zombies, p))];
      procs := procs[p := procs[p].(parent := Some(parent))];
      if sched.status[p] != ZOMBIE {
        procs := procs[parent := procs[parent].(children := procs[parent].children + [p])];
      } else {
        procs := procs[parent := procs[parent].(zombies := procs[parent].zombies + [p])];
      }
    }

    /** The two loops of `sys_exit`. */
    method AdoptAll(c: Ptr, ghost idle: Ptr)
      requires Adoptable(procs, Zombies(sched.View()), idle, init, c)
      requires procs.Keys == sched.status.Keys && |table| > 1 && table[1] == Some(init)
      modifies this`procs
      ensures procs == Adopted(old(procs), c, init)
    {
      hide TreeOk, Moved, AdoptOne, Adopted;
      ghost var t, zs := procs, Zombies(sched.View());
      ghost var n, m := 0, 0;
      MovedNone(t, c, init);
      MovedLists(t, c, init, 0, 0);
      while procs[c].children != []
        invariant n <= |t[c].children| && c in procs && procs == Moved(t, c, init, n, 0) && procs.Keys == t.Keys
        invariant procs[c].children == t[c].children[n..] && procs[c].zombies == t[c].zombies[0..]
        decreases |t[c].children| - n
      {
        MoveChild(t, zs, idle, init, c, n);
        var child := procs[c].children[0];
        Adopt(table[1].value, child);
        n := n + 1;
        MovedLists(t, c, init, n, 0);
      }
      assert n == |t[c].children|;
      while procs[c].zombies != []
        invariant m <= |t[c].zombies| && c in procs && procs == Moved(t, c, init, n, m) && procs.Keys == t.Keys
        invariant procs[c].zombies == t[c].zombies[m..]
        decreases |t[c].zombies| - m
      {
        MoveCorpse(t, zs, idle, init, c, m);
        var child := procs[c].zombies[0];
        Adopt(table[1].value, child);
        m := m + 1;
        MovedLists(t, c, init, n, m);
      }
      MovedAll(t, c, init);
    }

    /** The tree work of `sys_exit`: status, adoptions, and the move to the parent's zombies. */
    method Detach(c: Ptr, a0: nat, ghost idle: Ptr)
      requires Adoptable(procs, Zombies(sched.View()), idle, init, c)
      requires procs.Keys == sched.status.Keys && procs[c].parent.Some? && procs[c].parent.value in procs
      requires procs[c].parent.value != c && |table| > 1 && table[1] == Some(init)
      modifies this`procs
      ensures procs == ExitTree(old(procs), c, init, a0, false)
    {
      hide TreeOk;
      ghost var t := procs;
      procs := procs[c := procs[c].(exitStatus := ToI32(a0))];
      TreeFrame(t, procs, Zombies(sched.View()), idle, init);
      AdoptAll(c, idle);
      var parent := procs[c].parent.value;
      procs := procs[parent := procs[parent].(children := Without(procs[parent].children, c))];
      procs := procs[parent := procs[parent].(zombies := procs[parent].zombies + [c])];
    }

    method Exit(a0: nat)
      requires Sound() && Calls(View()) && sched.curr != Some(init)
      modifies this, sched, sched.timers
      ensures View() == Lifecycle.Exit(old(View()), a0)
      ensures Can(old(Whole()), Do(Label.Exit(a0))) && Whole() == After(old(Whole()), Do(Label.Exit(a0))) && Sound()
    {
      hide Inv, Valid, TreeOk, Update, CanUpdate, ExitSched, Buried, Adopted, NoNull, After;
      ExitMoves(Whole(), a0);
      ExitFacts(View());
      ExitParts(View());
      ExitedInv(View(), a0);
      ghost var k := View();
      var c := sched.curr.value;
      var parent := procs[c].parent.value;
      log := log + [Exited(procs[c].birth, a0)];
      Detach(c, a0, sched.idle);
      ExitRecords(k.procs, c, init, a0, false);
      ExitSchedCalls(k.sched, parent);
      if sched.status[parent] == WAIT_CHILD {
        procs := procs[parent := procs[parent].(waiting := Some(c))];
        sched.UpdateState(parent, READY);
      }
      sched.UpdateState(c, ZOMBIE);
    }
  }

  // ---- the calls as steps of the machine ----

  ghost predicate NoNull(stacks: map<Ptr, Stacks>) {
    forall p :: p in stacks ==> stacks[p].kern != 0 && stacks[p].user != 0
  }

  lemma Slices(free: seq<nat>, tables: nat)
    requires |free| >= 2 ==> tables <= |free| - 2
    ensures free[..|free|] == free && free[|free|..] == []
    ensures |free| >= 2 ==> free[1..][1..] == free[2..] && free[2..][tables..] == free[2 + tables..]
  {
  }

  lemma EmptyNoNull()
    ensures NoNull(map[])
  {
  }

  lemma StillNoNull(g: Pages, z: Ptr)
    requires z in g.stacks && NoNull(g.stacks) && 0 !in g.free
    ensures g.stacks[z].user != 0 && g.stacks[z].kern != 0
    ensures NoNull(Returned(g, z).stacks) && 0 !in Returned(g, z).free
  {
  }

  lemma SpawnMoves(m: Machine, a: Act)
    requires Inv(m.k) && m.g.stacks.Keys == m.k.procs.Keys && Calls(m.k) && a.SpawnWith?
    requires (a.memory.Some? ==> a.memory.value !in m.k.procs) && (|m.g.free| >= 2 ==> a.tables <= |m.g.free| - 2)
    ensures Can(m, a) && TableOk(m.k) && Spawned.requires(m.k, Env(m.g, a))
    ensures After(m, a) ==
      Machine(Spawned(m.k, Env(m.g, a)).0,
        if ReachesStacks(m.k, a) then Equipped(m.g, a.memory.value, a.tables, a.maps) else m.g)
    ensures After(m, a).g.stacks.Keys == After(m, a).k.procs.Keys
  {
    hide Inv, Valid, TableOk, NewPid;
    StepDefined(m.k);
    SpawnKeys(m, a);
  }

  lemma WaitMoves(m: Machine)
    requires Inv(m.k) && m.g.stacks.Keys == m.k.procs.Keys && Calls(m.k)
    ensures Can(m, Do(Label.Wait)) && After(m, Do(Label.Wait)).k == Waited(m.k)
    ensures m.k.sched.curr.Some? && m.k.sched.curr.value in m.k.procs
    ensures
      var zs := m.k.procs[m.k.sched.curr.value].zombies;
      if zs == [] then After(m, Do(Label.Wait)).g == m.g
      else zs[0] in m.g.stacks && After(m, Do(Label.Wait)).g == Returned(m.g, zs[0])
    ensures After(m, Do(Label.Wait)).g.stacks.Keys == After(m, Do(Label.Wait)).k.procs.Keys
  {
    hide Inv, Valid, TableOk;
    StepDefined(m.k);
    StepKeys(m.k, Label.Wait);
  }

  lemma ResumeMoves(m: Machine)
    requires Inv(m.k) && m.g.stacks.Keys == m.k.procs.Keys && m.k.sched.curr.Some? && m.k.sched.curr.value in m.k.inWait
    ensures Can(m, Do(Label.Resume)) && After(m, Do(Label.Resume)).k == Resumed(m.k)
    ensures m.k.sched.curr.value in m.k.procs && m.k.procs[m.k.sched.curr.value].waiting.Some?
    ensures
      var z := m.k.procs[m.k.sched.curr.value].waiting.value;
      z in m.g.stacks && After(m, Do(Label.Resume)).g == Returned(m.g, z)
    ensures After(m, Do(Label.Resume)).g.stacks.Keys == After(m, Do(Label.Resume)).k.procs.Keys
  {
    hide Inv, Valid, TableOk;
    StepDefined(m.k);
    ResumeFacts(m.k);
    StepKeys(m.k, Label.Resume);
  }

  lemma ExitMoves(m: Machine, a0: nat)
    requires Inv(m.k) && m.g.stacks.Keys == m.k.procs.Keys && Calls(m.k) && m.k.sched.curr != Some(m.k.init)
    ensures Can(m, Do(Label.Exit(a0)))
    ensures After(m, Do(Label.Exit(a0))) == Machine(Lifecycle.Exit(m.k, a0), m.g)
    ensures Lifecycle.Exit(m.k, a0).procs.Keys == m.k.procs.Keys
  {
    hide Inv, Valid, TableOk;
    StepDefined(m.k);
    StepKeys(m.k, Label.Exit(a0));
  }

  lemma SpawnFacts(k: Kernel, env: SpawnEnv)
    requires Inv(k) && Calls(k) && (env.memory.Some? ==> env.memory.value !in k.procs)
    ensures TableOk(k) && |k.table| == PROC_TABLE_SIZE && k.lastPid < PROC_TABLE_SIZE
    ensures k.sched.curr.Some? && k.sched.curr.value in k.procs
    ensures env.memory.Some? ==> env.memory.value !in k.sched.status
    ensures forall i :: NewPid(k.table, k.lastPid) == Some(i) ==> i < PROC_TABLE_SIZE
  {
    hide Valid, TreeOk, HistoryOk, WaitOk, NewPid;
    CurrentProc(k);
    NewPidExact(k.table, k.lastPid);
  }

  lemma SpawnReadies(s: State, p: Ptr)
    requires p !in s.status
    ensures CanUpdate(s.(status := s.status[p := INIT]), p, READY)
    ensures Update(s.(status := s.status[p := INIT]), p, READY) == Added(s, p)
  {
    assert s.status[p := INIT][p := READY] == s.status[p := READY];
  }

  lemma ExitParts(k: Kernel)
    requires Inv(k) && Calls(k)
    ensures Valid(k.sched) && k.procs.Keys == k.sched.status.Keys
    ensures TreeOk(k.procs, Zombies(k.sched), k.sched.idle, k.init)
    ensures |k.table| > 1 && k.table[1] == Some(k.init)
  {
    hide Valid, TreeOk, HistoryOk, WaitOk;
  }

  lemma WaitCallBlocks(k: Kernel)
    requires Inv(k) && Calls(k)
    ensures k.sched.ready != [] && CanUpdate(k.sched, k.sched.curr.value, WAIT_CHILD)
    ensures Update(k.sched, k.sched.curr.value, WAIT_CHILD) == HandOver(k.sched, WAIT_CHILD)
  {
    hide Valid;
    HandOverValid(k.sched, WAIT_CHILD);
  }

  lemma ExitSchedCalls(s: State, p: Ptr)
    requires Valid(s) && s.curr.Some? && s.curr != Some(s.idle) && p in s.status && p != s.curr.value && s.ready != []
    ensures s.status[p] == WAIT_CHILD ==>
      && CanUpdate(s, p, READY)
      && CanUpdate(Update(s, p, READY), s.curr.value, ZOMBIE)
      && ExitSched(s, p) == Update(Update(s, p, READY), s.curr.value, ZOMBIE)
    ensures s.status[p] != WAIT_CHILD ==>
      CanUpdate(s, s.curr.value, ZOMBIE) && ExitSched(s, p) == Update(s, s.curr.value, ZOMBIE)
  {
    hide Valid, Update, CanUpdate;
    if s.status[p] == WAIT_CHILD {
      WokenValid(s, p);
      HandOverValid(Readied(s, p), ZOMBIE);
    } else {
      HandOverValid(s, ZOMBIE);
    }
  }
}
