/** The order of the lists of children and of zombies, over all runs, and what it means for
    the answers of `sys_wait`. */
module ListOrder {
  import opened Queues
  import opened Sched
  import opened SchedSteps
  import opened ProcTree
  import opened History
  import opened Lifecycle
  import opened Runs
  import P = Pids

  // ---- the lists after a step ----

  /** Where an exit of `c` puts everybody: `c` goes to the end of its parent's zombies, and its
      own lists, in their order, to the end of init's. */
  lemma ExitLists(k: Kernel, a0: nat)
    requires Inv(k) && Enabled(k, Exit(a0))
    ensures
      var k', c := Next(k, Exit(a0)), k.sched.curr.value;
      && c in k.procs && k'.procs.Keys == k.procs.Keys && k'.procs[c].children == [] && k'.procs[c].zombies == []
      && forall q :: q in k.procs && q != c ==>
        && k'.procs[q].children ==
          (if ChildOf(k.procs, c, q) then Without(k.procs[q].children, c) else k.procs[q].children)
          + (if q == k.init then k.procs[c].children else [])
        && k'.procs[q].zombies ==
          k.procs[q].zombies + (if q == k.init then k.procs[c].zombies else [])
          + (if ChildOf(k.procs, c, q) then [c] else [])
  {
    hide Valid, HistoryOk, TableOk, WaitOk, TreeOk, ExitSched;
    ExitFacts(k);
    var c := k.sched.curr.value;
    NotOwnChild(k, c);
    ExitTreeLists(k.procs, c, k.init, a0, k.sched.status[k.procs[c].parent.value] == WAIT_CHILD);
  }

  lemma NotOwnChild(k: Kernel, c: Ptr)
    requires Inv(k) && c in k.procs
    ensures c !in k.procs[c].children && c !in k.procs[c].zombies
    ensures k.init in k.procs && k.init !in k.procs[c].children && k.init !in k.procs[c].zombies
  {
    hide Valid, HistoryOk, TableOk, WaitOk;
    assert !Kid(k.procs, c, c) && !Corpse(k.procs, c, c);
    assert !Kid(k.procs, c, k.init) && !Corpse(k.procs, c, k.init);
  }

  lemma ExitTreeLists(t: Procs, c: Ptr, init: Ptr, a0: nat, wake: bool)
    requires c in t && t[c].parent.Some? && t[c].parent.value in t && c != t[c].parent.value && init in t && c != init
    requires c !in t[c].children && c !in t[c].zombies
    ensures
      var t', p := ExitTree(t, c, init, a0, wake), t[c].parent.value;
      && t'.Keys == t.Keys && t'[c].children == [] && t'[c].zombies == []
      && forall q :: q in t && q != c ==>
        && t'[q].children ==
          (if p == q then Without(t[q].children, c) else t[q].children) + (if q == init then t[c].children else [])
        && t'[q].zombies ==
          t[q].zombies + (if q == init then t[c].zombies else []) + (if p == q then [c] else [])
  {
    hide Without;
    forall q | q in t && q != c
      ensures
        var t', p := ExitTree(t, c, init, a0, wake), t[c].parent.value;
        && t'[q].children ==
          (if p == q then Without(t[q].children, c) else t[q].children) + (if q == init then t[c].children else [])
        && t'[q].zombies ==
          t[q].zombies + (if q == init then t[c].zombies else []) + (if p == q then [c] else [])
    {
      ExitTreeListsAt(t, c, init, a0, wake, q);
    }
  }

  lemma ExitTreeListsAt(t: Procs, c: Ptr, init: Ptr, a0: nat, wake: bool, q: Ptr)
    requires c in t && t[c].parent.Some? && t[c].parent.value in t && c != t[c].parent.value && c != init
    requires c !in t[c].children && q in t && q != c
    ensures
      var t', p := ExitTree(t, c, init, a0, wake), t[c].parent.value;
      && t'[q].children ==
        (if p == q then Without(t[q].children, c) else t[q].children) + (if q == init then t[c].children else [])
      && t'[q].zombies ==
        t[q].zombies + (if q == init then t[c].zombies else []) + (if p == q then [c] else [])
  {
    hide Without, ToI32;
    if q == init {
      WithoutAppend(t[q].children, t[c].children, c);
    }
  }

  lemma {:induction false} WithoutAppend(a: seq<Ptr>, b: seq<Ptr>, x: Ptr)
    requires x !in b
    ensures Without(a + b, x) == Without(a, x) + b
  {
    if a == [] {
      assert a + b == b;
    } else {
      assert (a + b)[1..] == a[1..] + b;
      if a[0] != x {
        WithoutAppend(a[1..], b, x);
      }
    }
  }

  // ---- order over runs ----

  /** `x` exited before `y`. */
  ghost predicate ExitsBefore(log: seq<Event>, t: Procs, x: Ptr, y: Ptr) {
    x in t && y in t ==> forall a, b :: ExitAt(log, a, t[x].birth) && ExitAt(log, b, t[y].birth) ==> a < b
  }

  /** The processes of `q` exited in that order. */
  ghost predicate ExitOrder(log: seq<Event>, t: Procs, q: seq<Ptr>) {
    forall i, j :: 0 <= i < j < |q| ==> ExitsBefore(log, t, q[i], q[j])
  }

  predicate Older(t: Procs, x: Ptr, y: Ptr) {
    x in t && y in t ==> t[x].birth < t[y].birth
  }

  /** The processes of `q` were created in that order. */
  ghost predicate BirthOrder(t: Procs, q: seq<Ptr>) {
    forall i, j :: 0 <= i < j < |q| ==> Older(t, q[i], q[j])
  }

  ghost predicate ListsOk(log: seq<Event>, t: Procs, p: Ptr)
    requires p in t
  {
    ExitOrder(log, t, t[p].zombies) && BirthOrder(t, t[p].children)
  }

  /** Every process but init, which adopts, has its lists in order. */
  ghost predicate InOrder(k: Kernel) {
    forall p :: p in k.procs && p != k.init ==> ListsOk(k.log, k.procs, p)
  }

  /** The same births, and for the processes of `q` no exit that was not there before. */
  ghost predicate SamePast(log: seq<Event>, t: Procs, log': seq<Event>, t': Procs, x: Ptr) {
    x in t' ==>
      && x in t && t'[x].birth == t[x].birth
      && forall a :: ExitAt(log', a, t'[x].birth) ==> ExitAt(log, a, t[x].birth)
  }

  lemma ExitFrame(log: seq<Event>, t: Procs, log': seq<Event>, t': Procs, q: seq<Ptr>)
    requires ExitOrder(log, t, q) && forall x :: x in q ==> SamePast(log, t, log', t', x)
    ensures ExitOrder(log', t', q)
  {
    forall i, j | 0 <= i < j < |q| ensures ExitsBefore(log', t', q[i], q[j]) {
      assert q[i] in q && q[j] in q && ExitsBefore(log, t, q[i], q[j]);
    }
  }

  lemma BirthFrame(t: Procs, t': Procs, q: seq<Ptr>)
    requires BirthOrder(t, q) && forall x :: x in q && x in t' ==> x in t && t'[x].birth == t[x].birth
    ensures BirthOrder(t', q)
  {
    forall i, j | 0 <= i < j < |q| ensures Older(t', q[i], q[j]) {
      assert q[i] in q && q[j] in q && Older(t, q[i], q[j]);
    }
  }

  lemma WithoutOrdered(log: seq<Event>, t: Procs, q: seq<Ptr>, x: Ptr)
    requires NoDup(q)
    ensures ExitOrder(log, t, q) ==> ExitOrder(log, t, Without(q, x))
    ensures BirthOrder(t, q) ==> BirthOrder(t, Without(q, x))
  {
    hide ExitsBefore, Older, Without;
    if x in q {
      var k :| 0 <= k < |q| && q[k] == x;
      WithoutSplit(q, k);
      hide NoDup;
      var r := Deleted(q, k);
      assert forall i :: 0 <= i < |r| ==> r[i] == q[if i < k then i else i + 1];
    } else {
      NotThere(q, x);
    }
  }

  lemma NotThere(q: seq<Ptr>, x: Ptr)
    requires x !in q
    ensures Without(q, x) == q
  {
  }

  lemma AppendExited(log: seq<Event>, t: Procs, q: seq<Ptr>, c: Ptr)
    requires ExitOrder(log, t, q) && forall x :: x in q ==> ExitsBefore(log, t, x, c)
    ensures ExitOrder(log, t, q + [c])
  {
    hide ExitsBefore;
    var r := q + [c];
    assert forall i :: 0 <= i < |q| ==> r[i] == q[i] && q[i] in q;
  }

  lemma AppendBorn(t: Procs, q: seq<Ptr>, c: Ptr)
    requires BirthOrder(t, q) && forall x :: x in q ==> Older(t, x, c)
    ensures BirthOrder(t, q + [c])
  {
    var r := q + [c];
    assert forall i :: 0 <= i < |q| ==> r[i] == q[i] && q[i] in q;
  }

  // ---- every step keeps the order ----

  /** Everybody on a list exists, and was created before now. */
  lemma KidsExist(k: Kernel)
    requires Inv(k)
    ensures forall p, x :: Kid(k.procs, p, x) || Corpse(k.procs, p, x) ==> x in k.procs
    ensures forall p :: p in k.procs ==> k.procs[p].birth < k.births
    ensures forall p :: p in k.procs ==> NoDup(k.procs[p].children) && NoDup(k.procs[p].zombies)
  {
    hide Valid, TableOk, WaitOk, Once, Answered, Current, NoDup;
    BirthsBelow(k.log, k.procs, k.births);
    hide Conserved;
  }

  lemma GrownLists(log: seq<Event>, t: Procs, c: Ptr, p: Ptr, pid: nat, birth: nat, q: Ptr)
    requires c in t && p !in t && forall x :: x in t ==> t[x].birth < birth
    requires q in t && ListsOk(log, t, q) && forall x :: Kid(t, q, x) || Corpse(t, q, x) ==> x in t
    ensures ListsOk(log, Grown(t, c, p, pid, birth), q)
  {
    hide ExitOrder, BirthOrder;
    var t' := Grown(t, c, p, pid, birth);
    forall x | x in t[q].children || x in t[q].zombies
      ensures x in t && x != p && t'[x].birth == t[x].birth && SamePast(log, t, log, t', x)
    {
      assert Kid(t, q, x) || Corpse(t, q, x);
    }
    ExitFrame(log, t, log, t', t[q].zombies);
    BirthFrame(t, t', t[q].children);
    if q == c {
      AppendBorn(t', t[q].children, p);
    }
  }

  lemma SpawnOrder(k: Kernel, env: SpawnEnv)
    requires Inv(k) && Enabled(k, Spawn(env)) && InOrder(k)
    ensures InOrder(Next(k, Spawn(env)))
  {
    hide Inv, Valid, TableOk, P.NewPid, ListsOk, Grown;
    StepDefined(k);
    var k' := Next(k, Spawn(env));
    if k'.births != k.births {
      var p, c := env.memory.value, k.sched.curr.value;
      KidsExist(k);
      GrownKeys(k.procs, c, p, k'.lastPid, k.births);
      forall q | q in k'.procs && q != k'.init ensures ListsOk(k'.log, k'.procs, q) {
        if q != p {
          GrownLists(k.log, k.procs, c, p, k'.lastPid, k.births, q);
        } else {
          NoLists(k'.log, k'.procs, p);
        }
      }
    }
  }

  lemma GrownKeys(t: Procs, c: Ptr, p: Ptr, pid: nat, birth: nat)
    requires c in t && p !in t
    ensures
      var t' := Grown(t, c, p, pid, birth);
      t'.Keys == t.Keys + {p} && t'[p].children == [] && t'[p].zombies == []
  {
  }

  lemma NoLists(log: seq<Event>, t: Procs, p: Ptr)
    requires p in t && t[p].children == [] && t[p].zombies == []
    ensures ListsOk(log, t, p)
  {
  }

  lemma ReapedLists(log: seq<Event>, t: Procs, z: Ptr, e: Event, q: Ptr)
    requires z in t && t[z].parent.Some? && t[z].parent.value in t && t[z].parent.value != z && e.Reaped?
    requires q in t && q != z && ListsOk(log, t, q) && NoDup(t[q].zombies)
    ensures q in Unlinked(t, z) && ListsOk(log + [e], Unlinked(t, z), q)
  {
    hide ExitOrder, BirthOrder;
    var t', log' := Unlinked(t, z), log + [e];
    forall x ensures SamePast(log, t, log', t', x) {
      assert forall a, b :: ExitAt(log', a, b) ==> ExitAt(log, a, b);
    }
    WithoutOrdered(log, t, t[q].zombies, z);
    ExitFrame(log, t, log', t', t'[q].zombies);
    BirthFrame(t, t', t'[q].children);
  }

  lemma ReapOrder(k: Kernel, z: Ptr, w: set<Ptr>)
    requires Inv(k) && InOrder(k) && Reap.requires(k, z)
    ensures InOrder(Reap(k.(inWait := w), z))
  {
    hide Inv, ListsOk;
    KidsExist(k);
    var k', x := Reap(k.(inWait := w), z), k.procs[z];
    forall q | q in k'.procs && q != k'.init ensures ListsOk(k'.log, k'.procs, q) {
      ReapedLists(k.log, k.procs, z, k'.log[|k.log|], q);
    }
  }

  /** A process that has not exited, and one that has, before the first does. */
  lemma ExitIsLast(k: Kernel, a0: nat, x: Ptr)
    requires Inv(k) && Enabled(k, Exit(a0)) && x in Zombies(k.sched) && x in k.procs
    ensures
      var k', c := Next(k, Exit(a0)), k.sched.curr.value;
      ExitsBefore(k'.log, k'.procs, x, c) && SamePast(k.log, k.procs, k'.log, k'.procs, x)
  {
    hide Valid, TableOk, WaitOk, TreeOk, ExitTree, ExitSched, Once, Answered;
    ExitFacts(k);
    var k', c := Next(k, Exit(a0)), k.sched.curr.value;
    ExitRecords(k.procs, c, k.init, a0, k.sched.status[k.procs[c].parent.value] == WAIT_CHILD);
    var n, b := |k.log|, k.procs[c].birth;
    assert BornAs(k.procs, c, b) && BornAs(k.procs, x, k.procs[x].birth);
    assert forall i, y :: ExitAt(k'.log, i, y) <==> ExitAt(k.log, i, y) || (i == n && y == b);
  }

  lemma ExitOrderKept(k: Kernel, a0: nat, q: Ptr)
    requires Inv(k) && Enabled(k, Exit(a0)) && q in k.procs && q != k.init && ListsOk(k.log, k.procs, q)
    ensures q in Next(k, Exit(a0)).procs && ListsOk(Next(k, Exit(a0)).log, Next(k, Exit(a0)).procs, q)
  {
    hide Inv, Valid, ExitOrder, BirthOrder, Lifecycle.Exit, Without, ExitsBefore, SamePast;
    StepDefined(k);
    var k', c := Next(k, Exit(a0)), k.sched.curr.value;
    ExitLists(k, a0);
    SameBirths(k, a0);
    if q == c {
      NoLists(k'.log, k'.procs, c);
    } else {
      KidsExist(k);
      assert k'.procs[q].zombies == k.procs[q].zombies + if ChildOf(k.procs, c, q) then [c] else [];
      assert k.procs[q].zombies + [] == k.procs[q].zombies;
      assert k'.procs[q].children ==
        if ChildOf(k.procs, c, q) then Without(k.procs[q].children, c) else k.procs[q].children;
      forall x | x in k.procs[q].zombies
        ensures ExitsBefore(k'.log, k'.procs, x, c) && SamePast(k.log, k.procs, k'.log, k'.procs, x)
      {
        assert Corpse(k.procs, q, x);
        CorpseZombie(k, q, x);
        ExitIsLast(k, a0, x);
      }
      ExitFrame(k.log, k.procs, k'.log, k'.procs, k.procs[q].zombies);
      AppendExited(k'.log, k'.procs, k.procs[q].zombies, c);
      WithoutOrdered(k.log, k.procs, k.procs[q].children, c);
      BirthFrame(k.procs, k'.procs, k.procs[q].children);
      BirthFrame(k.procs, k'.procs, Without(k.procs[q].children, c));
    }
  }

  lemma SameBirths(k: Kernel, a0: nat)
    requires Inv(k) && Enabled(k, Exit(a0))
    ensures
      var k' := Next(k, Exit(a0));
      k'.procs.Keys == k.procs.Keys && forall q :: q in k.procs ==> k'.procs[q].birth == k.procs[q].birth
  {
    hide Valid, TableOk, WaitOk, TreeOk, ExitTree, ExitSched, HistoryOk;
    ExitFacts(k);
    var c := k.sched.curr.value;
    ExitRecords(k.procs, c, k.init, a0, k.sched.status[k.procs[c].parent.value] == WAIT_CHILD);
  }

  lemma CorpseZombie(k: Kernel, q: Ptr, x: Ptr)
    requires Inv(k) && Corpse(k.procs, q, x)
    ensures x in Zombies(k.sched) && x in k.procs
  {
    hide Valid, TableOk, WaitOk, HistoryOk;
  }

  lemma NextOrder(k: Kernel, l: Label)
    requires Inv(k) && Enabled(k, l) && InOrder(k)
    ensures InOrder(Next(k, l))
  {
    hide Inv, Valid, TableOk, ListsOk;
    StepDefined(k);
    var c := k.sched.curr.value;
    match l {
      case Spawn(env) => SpawnOrder(k, env);
      case Wait =>
        if k.procs[c].zombies != [] {
          assert Corpse(k.procs, c, k.procs[c].zombies[0]);
          ReapedInv(k, k.procs[c].zombies[0]);
          ReapOrder(k, k.procs[c].zombies[0], k.inWait);
        }
      case Resume =>
        ResumeFacts(k);
        ReapedInv(k, k.procs[c].waiting.value);
        ReapOrder(k, k.procs[c].waiting.value, k.inWait - {c});
      case Exit(a0) =>
        SameBirths(k, a0);
        hide Next;
        KeepsInit(k, a0);
        forall q | q in k.procs && q != k.init ensures ListsOk(Next(k, l).log, Next(k, l).procs, q) {
          ExitOrderKept(k, a0, q);
        }
      case _ =>
    }
  }

  lemma KeepsInit(k: Kernel, a0: nat)
    requires Inv(k) && Enabled(k, Exit(a0))
    ensures Next(k, Exit(a0)).init == k.init
  {
    hide Inv;
  }

  lemma {:induction false} OrderAlong(k: Kernel, ls: seq<Label>, k': Kernel)
    requires Inv(k) && Leads(k, ls, k') && InOrder(k)
    ensures InOrder(k')
    decreases |ls|
  {
    hide Inv, Next, InOrder;
    if ls != [] {
      NextInv(k, ls[0]);
      NextOrder(k, ls[0]);
      OrderAlong(Next(k, ls[0]), ls[1..], k');
    }
  }

  /** In every reachable state the zombies of a process other than init are listed in the
      order in which they exited, and its children in the order in which it spawned them. */
  lemma OrderOverRuns(k: Kernel)
    requires Reachable(k)
    ensures InOrder(k)
  {
    hide Inv, Next, Boot, Leads;
    var idle, init, now, ls :| RunsTo(idle, init, now, ls, k);
    BootInv(idle, init, now);
    OrderAlong(BootKernel(idle, init, now), ls, k);
  }

  /** So the child that `sys_wait` reaps at once is, of all zombie children of the caller, the
      one that exited first. */
  lemma WaitReapsFirst(k: Kernel, z: Ptr)
    requires Reachable(k) && Enabled(k, Wait) && k.sched.curr != Some(k.init) && Corpse(k.procs, k.sched.curr.value, z)
    ensures Inv(k)
    ensures
      var k', n := Next(k, Wait), |k.log|;
      && |k'.log| == n + 1 && k'.log[..n] == k.log && k'.log[n].Reaped?
      && (exists x :: Corpse(k.procs, k.sched.curr.value, x) && k.procs[x].birth == k'.log[n].birth && x !in k'.procs)
      && forall a, b :: ExitAt(k.log, a, k'.log[n].birth) && ExitAt(k.log, b, k.procs[z].birth) ==> a <= b
  {
    hide Reachable, Inv, Next, InOrder;
    ReachableInv(k);
    StepDefined(k);
    OrderOverRuns(k);
    WaitReapsHead(k);
    FirstIsFirst(k, z);
    assert Corpse(k.procs, k.sched.curr.value, k.procs[k.sched.curr.value].zombies[0]);
  }

  /** A wait that finds zombies reaps the first of the list. */
  lemma WaitReapsHead(k: Kernel)
    requires Inv(k) && Enabled(k, Wait) && k.sched.curr.value in k.procs && k.procs[k.sched.curr.value].zombies != []
    ensures
      var k', n, z := Next(k, Wait), |k.log|, k.procs[k.sched.curr.value].zombies[0];
      && |k'.log| == n + 1 && k'.log[..n] == k.log && k'.log[n].Reaped?
      && z in k.procs && k'.log[n].birth == k.procs[z].birth && z !in k'.procs
  {
    hide Inv, Valid, TableOk;
    StepDefined(k);
    var c := k.sched.curr.value;
    var z := k.procs[c].zombies[0];
    assert Corpse(k.procs, c, z);
    ReapedInv(k, z);
    CorpseFacts(k, z);
  }

  lemma FirstIsFirst(k: Kernel, z: Ptr)
    requires Inv(k) && InOrder(k) && k.sched.curr.Some? && k.sched.curr != Some(k.init) && Corpse(k.procs, k.sched.curr.value, z)
    ensures
      var x := k.procs[k.sched.curr.value].zombies[0];
      && x in k.procs && z in k.procs
      && forall a, b :: ExitAt(k.log, a, k.procs[x].birth) && ExitAt(k.log, b, k.procs[z].birth) ==> a <= b
  {
    hide Inv, BirthOrder;
    var c := k.sched.curr.value;
    var zs := k.procs[c].zombies;
    assert Corpse(k.procs, c, zs[0]);
    CorpseFacts(k, zs[0]);
    CorpseFacts(k, z);
    var j :| 0 <= j < |zs| && zs[j] == z;
    assert ListsOk(k.log, k.procs, c);
    if j > 0 {
      assert ExitsBefore(k.log, k.procs, zs[0], zs[j]);
    } else {
      OneExit(k, z);
    }
  }

  lemma OneExit(k: Kernel, z: Ptr)
    requires Inv(k) && z in k.procs
    ensures forall a, b :: ExitAt(k.log, a, k.procs[z].birth) && ExitAt(k.log, b, k.procs[z].birth) ==> a == b
  {
    hide Valid, TableOk, WaitOk, TreeOk, Answered, Current, Conserved;
  }
}
