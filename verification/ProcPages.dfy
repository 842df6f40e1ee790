/** The stack pages of the processes: `init_stacks` and `proc_deinit` of `src/proc.c` on the
    page allocator's free list, over every run of the kernel. */
module ProcPages {
  import opened Queues
  import opened Bytes
  import opened PageAlloc
  import opened Sched
  import opened SchedSteps
  import opened ProcTree
  import opened Pids
  import opened Lifecycle
  import opened Runs

  /** The fields `kern_stack` and `user_stack` of a process. */
  datatype Stacks = Stacks(kern: nat, user: nat)

  /** `free` is the page allocator's list. `kept` are the pages that are neither free nor a
      stack: tables, the pages of `kmalloc` and of the program, and what failed spawns took.
      It is history, no code reads it. */
  datatype Pages = Pages(free: seq<nat>, stacks: map<Ptr, Stacks>, kept: seq<nat>)

  // ---- what the steps do to pages ----

  /** `n` pages go from the front of the free list to somebody who keeps them. */
  function Kept(g: Pages, n: nat): Pages
    requires n <= |g.free|
  {
    g.(free := g.free[n..], kept := g.kept + g.free[..n])
  }

  /** `init_stacks` and the mappings of `proc_init` for `p`, where the mappings make `tables`
      tables. Nothing is given back on failure. */
  function Equipped(g: Pages, p: Ptr, tables: nat, maps: bool): Pages
    requires |g.free| >= 2 ==> tables <= |g.free| - 2
  {
    if |g.free| < 2 then Kept(g, |g.free|)
    else if !maps then Kept(g, 2 + tables)
    else Kept(g.(free := g.free[2..], stacks := g.stacks[p := Stacks(g.free[0], g.free[1])]), tables)
  }

  /** `proc_deinit`: the two stacks go to the end of the free list; the root table of a
      spawned process is null. */
  function Returned(g: Pages, z: Ptr): Pages
    requires z in g.stacks
  {
    g.(free := g.free + [g.stacks[z].user, g.stacks[z].kern], stacks := g.stacks - {z})
  }

  lemma EquippedSize(g: Pages, p: Ptr, tables: nat)
    requires |g.free| >= 2 + tables
    ensures |Equipped(g, p, tables, true).free| == |g.free| - 2 - tables
    ensures Equipped(g, p, tables, true).stacks.Keys == g.stacks.Keys + {p}
  {
  }

  lemma KeptSize(g: Pages, n: nat)
    requires n <= |g.free|
    ensures |Kept(g, n).free| == |g.free| - n && Kept(g, n).stacks == g.stacks
  {
  }

  // ---- the invariant ----

  predicate Holds(stacks: map<Ptr, Stacks>, p: Ptr, x: nat) {
    p in stacks && (stacks[p].kern == x || stacks[p].user == x)
  }

  ghost predicate Held(stacks: map<Ptr, Stacks>, x: nat) {
    exists p :: Holds(stacks, p, x)
  }

  /** No page is the stack of two processes, or both stacks of one. */
  ghost predicate Distinct(stacks: map<Ptr, Stacks>) {
    && (forall p :: p in stacks ==> stacks[p].kern != stacks[p].user)
    && (forall p, q, x :: Holds(stacks, p, x) && Holds(stacks, q, x) ==> p == q)
  }

  /** How often page `x` is on a list. */
  ghost function Listed(g: Pages, x: nat): nat {
    multiset(g.free)[x] + multiset(g.kept)[x]
  }

  /** Every page of `all` is in one place, once: free, kept, or a stack; and no other is. */
  ghost predicate PagesOk(g: Pages, all: set<nat>) {
    && Distinct(g.stacks)
    && forall x :: Listed(g, x) + (if Held(g.stacks, x) then 1 else 0) == if x in all then 1 else 0
  }

  lemma KeptListed(g: Pages, n: nat, x: nat)
    requires n <= |g.free|
    ensures Listed(Kept(g, n), x) == Listed(g, x)
  {
    assert g.free == g.free[..n] + g.free[n..];
  }

  lemma KeptOk(g: Pages, n: nat, all: set<nat>)
    requires n <= |g.free| && PagesOk(g, all)
    ensures PagesOk(Kept(g, n), all)
  {
    forall x ensures Listed(Kept(g, n), x) == Listed(g, x) {
      KeptListed(g, n, x);
    }
    hide Listed;
  }

  /** A page on the free list is nobody's stack, and on no list twice. */
  lemma FreeIsNobodys(g: Pages, i: nat, all: set<nat>)
    requires PagesOk(g, all) && i < |g.free|
    ensures !Held(g.stacks, g.free[i]) && g.free[i] in all && Listed(g, g.free[i]) == 1
  {
    assert g.free[i] in multiset(g.free);
  }

  lemma TwoListed(g: Pages, x: nat)
    requires |g.free| >= 2
    ensures Listed(g.(free := g.free[2..]), x) + multiset{g.free[0], g.free[1]}[x] == Listed(g, x)
  {
    assert g.free == [g.free[0], g.free[1]] + g.free[2..];
  }

  lemma EquippedOk(g: Pages, p: Ptr, tables: nat, maps: bool, all: set<nat>)
    requires PagesOk(g, all) && p !in g.stacks && (|g.free| >= 2 ==> tables <= |g.free| - 2)
    ensures PagesOk(Equipped(g, p, tables, maps), all)
  {
    hide PagesOk;
    if |g.free| < 2 {
      KeptOk(g, |g.free|, all);
    } else if !maps {
      KeptOk(g, 2 + tables, all);
    } else {
      NewStacksOk(g, p, all);
      KeptOk(g.(free := g.free[2..], stacks := g.stacks[p := Stacks(g.free[0], g.free[1])]), tables, all);
    }
  }

  lemma NewStacksOk(g: Pages, p: Ptr, all: set<nat>)
    requires PagesOk(g, all) && p !in g.stacks && |g.free| >= 2
    ensures PagesOk(g.(free := g.free[2..], stacks := g.stacks[p := Stacks(g.free[0], g.free[1])]), all)
  {
    var k, u := g.free[0], g.free[1];
    var g' := g.(free := g.free[2..], stacks := g.stacks[p := Stacks(k, u)]);
    FreeIsNobodys(g, 0, all);
    FreeIsNobodys(g, 1, all);
    TwoListed(g, k);
    forall q, x ensures Holds(g'.stacks, q, x) <==> if q == p then x == k || x == u else Holds(g.stacks, q, x) {
    }
    forall x ensures Held(g'.stacks, x) <==> Held(g.stacks, x) || x == k || x == u {
      assert Holds(g'.stacks, p, x) <==> x == k || x == u;
      if q :| Holds(g.stacks, q, x) {
        assert Holds(g'.stacks, q, x);
      }
    }
    hide Listed;
    forall x ensures Listed(g', x) == Listed(g, x) - if x == k || x == u then 1 else 0 {
      TwoListed(g, x);
    }
  }

  lemma ReturnedOk(g: Pages, z: Ptr, all: set<nat>)
    requires PagesOk(g, all) && z in g.stacks
    ensures PagesOk(Returned(g, z), all)
  {
    var k, u, g' := g.stacks[z].kern, g.stacks[z].user, Returned(g, z);
    forall q, x ensures Holds(g'.stacks, q, x) <==> q != z && Holds(g.stacks, q, x) {
    }
    forall x ensures Held(g'.stacks, x) <==> Held(g.stacks, x) && x != k && x != u {
      assert Holds(g.stacks, z, x) <==> x == k || x == u;
      if q :| q != z && Holds(g.stacks, q, x) {
        assert Holds(g'.stacks, q, x);
      }
    }
    assert Holds(g.stacks, z, k) && Holds(g.stacks, z, u);
    forall x ensures Listed(g', x) == Listed(g, x) + if x == k || x == u then 1 else 0 {
    }
    hide Listed;
  }

  // ---- the kernel with its pages ----

  datatype Machine = Machine(k: Kernel, g: Pages)

  /** A kernel entry other than a spawn; a spawn, with what `kmalloc` and the mappings answer;
      or another client of the page allocator that takes a page or gives one back. */
  datatype Act =
    | Do(l: Label)
    | SpawnWith(nullArgs: bool, memory: Option<Ptr>, tables: nat, maps: bool)
    | Take
    | Give(i: nat)

  /** The stacks of a spawn succeed if two pages are free. */
  function Env(g: Pages, a: Act): SpawnEnv
    requires a.SpawnWith?
  {
    SpawnEnv(a.nullArgs, a.memory, |g.free| >= 2, a.maps)
  }

  predicate Can(m: Machine, a: Act) {
    match a
    case Do(l) => !l.Spawn? && Enabled(m.k, l)
    case SpawnWith(_, _, tables, _) =>
      Enabled(m.k, Spawn(Env(m.g, a))) && (|m.g.free| >= 2 ==> tables <= |m.g.free| - 2)
    case Take => m.g.free != []
    case Give(i) => i < |m.g.kept|
  }

  ghost predicate MachineOk(m: Machine, all: set<nat>) {
    Inv(m.k) && m.g.stacks.Keys == m.k.procs.Keys && PagesOk(m.g, all)
  }

  /** The process that step `l` reaps. */
  function Reaps(k: Kernel, l: Label): Option<Ptr>
    requires k.sched.curr.Some? && k.sched.curr.value in k.procs
  {
    var x := k.procs[k.sched.curr.value];
    match l
    case Wait => if x.zombies != [] then Some(x.zombies[0]) else None
    case Resume => x.waiting
    case _ => None
  }

  /** A spawn that gets as far as its stacks. */
  predicate ReachesStacks(k: Kernel, a: Act) {
    && a.SpawnWith? && !a.nullArgs && a.memory.Some?
    && |k.table| == PROC_TABLE_SIZE && k.lastPid < PROC_TABLE_SIZE && NewPid(k.table, k.lastPid).Some?
  }

  /** Which processes there are after a step that is not a spawn. */
  lemma StepKeys(k: Kernel, l: Label)
    requires Inv(k) && Enabled(k, l) && !l.Spawn?
    ensures k.sched.curr.Some? && k.sched.curr.value in k.procs
    ensures
      match Reaps(k, l)
      case None => Next(k, l).procs.Keys == k.procs.Keys
      case Some(z) => z in k.procs && k.sched.status[z] == ZOMBIE && Next(k, l).procs.Keys == k.procs.Keys - {z}
  {
    hide Inv, Valid, TableOk;
    StepDefined(k);
    var c := k.sched.curr.value;
    match l {
      case Wait =>
        if k.procs[c].zombies != [] {
          assert Corpse(k.procs, c, k.procs[c].zombies[0]);
          CorpseFacts(k, k.procs[c].zombies[0]);
        }
      case Resume =>
        ResumeFacts(k);
        CorpseFacts(k, k.procs[c].waiting.value);
      case Exit(a0) =>
        hide ExitTree;
        ExitFacts(k);
        var p := k.procs[c].parent.value;
        ExitRecords(k.procs, c, k.init, a0, k.sched.status[p] == WAIT_CHILD);
      case _ =>
    }
  }

  lemma SpawnKeys(m: Machine, a: Act)
    requires Inv(m.k) && a.SpawnWith? && Can(m, a)
    ensures Next(m.k, Spawn(Env(m.g, a))).procs.Keys ==
      if ReachesStacks(m.k, a) && |m.g.free| >= 2 && a.maps then m.k.procs.Keys + {a.memory.value} else m.k.procs.Keys
  {
    hide Inv, Valid, TableOk, NewPid;
    StepDefined(m.k);
    assert |m.k.table| == PROC_TABLE_SIZE && m.k.lastPid < PROC_TABLE_SIZE by { TableSize(m.k); }
  }

  lemma TableSize(k: Kernel)
    requires TableOk(k)
    ensures |k.table| == PROC_TABLE_SIZE && k.lastPid < PROC_TABLE_SIZE
  {
  }

  function After(m: Machine, a: Act): Machine
    requires Inv(m.k) && m.g.stacks.Keys == m.k.procs.Keys && Can(m, a)
  {
    hide Inv, TableOk;
    StepDefined(m.k);
    TableSize(m.k);
    match a
    case Do(l) =>
      StepKeys(m.k, l);
      Machine(Next(m.k, l), match Reaps(m.k, l) case None => m.g case Some(z) => Returned(m.g, z))
    case SpawnWith(_, memory, tables, maps) =>
      Machine(Next(m.k, Spawn(Env(m.g, a))), if ReachesStacks(m.k, a) then Equipped(m.g, memory.value, tables, maps) else m.g)
    case Take => m.(g := Kept(m.g, 1))
    case Give(i) => m.(g := m.g.(free := m.g.free + [m.g.kept[i]], kept := Deleted(m.g.kept, i)))
  }

  lemma GiveOk(g: Pages, i: nat, all: set<nat>)
    requires PagesOk(g, all) && i < |g.kept|
    ensures PagesOk(g.(free := g.free + [g.kept[i]], kept := Deleted(g.kept, i)), all)
  {
    var g' := g.(free := g.free + [g.kept[i]], kept := Deleted(g.kept, i));
    assert g.kept == g.kept[..i] + [g.kept[i]] + g.kept[i + 1..];
    forall x ensures Listed(g', x) == Listed(g, x) {
    }
    hide Listed;
  }

  /** Every step keeps each page in one place and each process with two stacks of its own. */
  lemma AfterOk(m: Machine, a: Act, all: set<nat>)
    requires MachineOk(m, all) && Can(m, a)
    ensures MachineOk(After(m, a), all)
  {
    hide Inv, Valid, PagesOk, TableOk, Next;
    StepDefined(m.k);
    TableSize(m.k);
    match a {
      case Do(l) =>
        NextInv(m.k, l);
        StepKeys(m.k, l);
        if Reaps(m.k, l).Some? {
          ReturnedOk(m.g, Reaps(m.k, l).value, all);
        }
      case SpawnWith(_, memory, tables, maps) =>
        NextInv(m.k, Spawn(Env(m.g, a)));
        SpawnKeys(m, a);
        if ReachesStacks(m.k, a) {
          EquippedOk(m.g, memory.value, tables, maps, all);
        }
      case Take => KeptOk(m.g, 1, all);
      case Give(i) => GiveOk(m.g, i, all);
    }
  }

  /** The acts lead from `m` to `m'`. */
  ghost predicate Moves(m: Machine, acts: seq<Act>, m': Machine, all: set<nat>)
    requires MachineOk(m, all)
    decreases |acts|
  {
    if acts == [] then m' == m
    else Can(m, acts[0]) && (AfterOk(m, acts[0], all); Moves(After(m, acts[0]), acts[1..], m', all))
  }

  /** Over every run: no page is lost, doubled or shared, and every process there is has two
      stack pages, which are nobody else's and not free. */
  lemma {:induction false} StacksOverRuns(m: Machine, acts: seq<Act>, m': Machine, all: set<nat>)
    requires MachineOk(m, all) && Moves(m, acts, m', all)
    ensures MachineOk(m', all)
    ensures forall p :: p in m'.k.procs ==> p in m'.g.stacks && m'.g.stacks[p].kern != m'.g.stacks[p].user
    ensures forall p, x :: Holds(m'.g.stacks, p, x) ==> x in all && x !in m'.g.free && x !in m'.g.kept
    ensures forall p, q, x :: Holds(m'.g.stacks, p, x) && Holds(m'.g.stacks, q, x) ==> p == q
    decreases |acts|
  {
    hide Inv, After;
    if acts == [] {
      StacksApart(m, all);
    } else {
      AfterOk(m, acts[0], all);
      StacksOverRuns(After(m, acts[0]), acts[1..], m', all);
    }
  }

  lemma StacksApart(m: Machine, all: set<nat>)
    requires MachineOk(m, all)
    ensures forall p, x :: Holds(m.g.stacks, p, x) ==> x in all && x !in m.g.free && x !in m.g.kept
  {
    hide Inv;
    forall p, x | Holds(m.g.stacks, p, x) ensures x in all && x !in m.g.free && x !in m.g.kept {
      assert Held(m.g.stacks, x) && Listed(m.g, x) == 0;
    }
  }

  /** A process keeps its stacks from its spawn to its reaping, and the reaping puts exactly
      those two pages at the end of the free list. */
  lemma StacksForLife(m: Machine, a: Act, all: set<nat>, p: Ptr)
    requires MachineOk(m, all) && Can(m, a) && p in m.k.procs
    ensures
      var m' := After(m, a);
      if p in m'.k.procs then p in m.g.stacks && p in m'.g.stacks && m'.g.stacks[p] == m.g.stacks[p]
      else p in m.g.stacks && m'.g.free == m.g.free + [m.g.stacks[p].user, m.g.stacks[p].kern] && m'.g.kept == m.g.kept
  {
    hide Inv, Valid, PagesOk, TableOk, Next;
    StepDefined(m.k);
    TableSize(m.k);
    AfterOk(m, a, all);
    match a {
      case Do(l) => StepKeys(m.k, l);
      case SpawnWith(_, _, _, _) => SpawnKeys(m, a);
      case _ =>
    }
  }

  /** The spawn gets its first page and then fails, for want of a second one or in the mappings. */
  predicate FailsLate(m: Machine, a: Act) {
    ReachesStacks(m.k, a) && (|m.g.free| == 1 || (|m.g.free| >= 2 && !a.maps))
  }

  /** Exactly then a spawn takes pages without making a process, and they are lost: the one
      page there was, or both stacks and all tables. */
  lemma FailedSpawnLoses(m: Machine, a: Act)
    requires Inv(m.k) && m.g.stacks.Keys == m.k.procs.Keys && a.SpawnWith? && Can(m, a)
    ensures After(m, a).k.procs.Keys == m.k.procs.Keys && After(m, a).g.free != m.g.free <==> FailsLate(m, a)
    ensures FailsLate(m, a) ==> After(m, a).g == Kept(m.g, if |m.g.free| == 1 then 1 else 2 + a.tables)
  {
    hide Inv, Valid, TableOk, Next;
    StepDefined(m.k);
    TableSize(m.k);
    SpawnKeys(m, a);
  }

  // ---- boot ----

  /** The pages at the end of boot: `early` pages of the device drivers, idle's stacks, `image`
      pages of the program and its tables, then init's stacks, then `tables` tables of its mappings. */
  function BootPages(pages: seq<nat>, idle: Ptr, init: Ptr, early: nat, image: nat, tables: nat): Pages
    requires |pages| >= 4 + early + image + tables
  {
    var g0 := Equipped(Kept(Pages(pages, map[], []), early), idle, 0, true);
    var g1 := Kept(g0, image);
    Equipped(g1, init, tables, true)
  }

  lemma BootPagesOk(pages: seq<nat>, idle: Ptr, init: Ptr, early: nat, image: nat, tables: nat, now: nat)
    requires |pages| >= 4 + early + image + tables && idle != init && NoDup(pages)
    ensures MachineOk(Machine(BootKernel(idle, init, now), BootPages(pages, idle, init, early, image, tables)), Elems(pages))
  {
    hide PagesOk, Inv, Boot;
    AllFree(pages);
    KeptOk(Pages(pages, map[], []), early, Elems(pages));
    var g := Kept(Pages(pages, map[], []), early);
    EquippedOk(g, idle, 0, true, Elems(pages));
    var g0 := Equipped(g, idle, 0, true);
    KeptOk(g0, image, Elems(pages));
    EquippedOk(Kept(g0, image), init, tables, true, Elems(pages));
    BootInv(idle, init, now);
  }

  lemma AllFree(pages: seq<nat>)
    requires NoDup(pages)
    ensures PagesOk(Pages(pages, map[], []), Elems(pages))
  {
    forall x ensures multiset(pages)[x] == if x in Elems(pages) then 1 else 0 {
      OnceInList(pages, x);
    }
  }

  lemma {:induction false} OnceInList(q: seq<nat>, x: nat)
    requires NoDup(q)
    ensures multiset(q)[x] == if x in q then 1 else 0
  {
    if q != [] {
      OnceInList(q[1..], x);
      assert q == [q[0]] + q[1..];
    }
  }

  /** With the heap as `page_alloc` sets it up, idle's stacks follow the pages of the drivers,
      init's those of the program, and the user stack lies right above the kernel stack. */
  lemma BootStacksAdjacent(base: nat, n: nat, idle: Ptr, init: Ptr, early: nat, image: nat, tables: nat)
    requires n >= 4 + early + image + tables && idle != init
    ensures
      var st := BootPages(AllPages(base, n), idle, init, early, image, tables).stacks;
      && st.Keys == {idle, init}
      && st[idle].kern == base + 4096 * early && st[init].kern == base + 4096 * (early + 2 + image)
      && st[idle].user == st[idle].kern + PAGE && st[init].user == st[init].kern + PAGE
  {
  }

  /** The state in which it shows: one page is left after boot, and init's first spawn takes it
      and fails. */
  lemma LastPageLost() returns (m: Machine, a: Act)
    ensures MachineOk(m, Elems(AllPages(PAGE, 5))) && m.k == BootKernel(0, 1, 0) && |m.g.free| == 1
    ensures Can(m, a) && FailsLate(m, a) && After(m, a).g.free == [] && After(m, a).k.procs.Keys == m.k.procs.Keys
  {
    hide PagesOk, Inv, Boot, Elems, Valid, Next;
    m := Machine(BootKernel(0, 1, 0), BootPages(AllPages(PAGE, 5), 0, 1, 0, 0, 0));
    a := SpawnWith(false, Some(2), 0, true);
    BootPagesOk(AllPages(PAGE, 5), 0, 1, 0, 0, 0, 0);
    BootValid(0, 1, 0);
    FailedSpawnLoses(m, a);
  }
}
