/** The process tree of `src/proc.c`: parents, live children, zombie children, and the
    three ways the kernel rewrites it. */
module ProcTree {
  import opened Queues
  import opened Sched

  /** The tree part of `proc_t`. `birth` numbers the processes in order of creation; it
      is history, no code reads it. */
  datatype Proc = Proc(
    pid: nat,
    parent: Option<Ptr>,
    children: seq<Ptr>,
    zombies: seq<Ptr>,
    waiting: Option<Ptr>,
    exitStatus: int,
    birth: nat)

  type Procs = map<Ptr, Proc>

  /** The parent pointer of `c` is `p`. */
  predicate ChildOf(t: Procs, c: Ptr, p: Ptr) {
    c in t && t[c].parent == Some(p)
  }

  /** `c` is on the list of live children of `p`. */
  predicate Kid(t: Procs, p: Ptr, c: Ptr) {
    p in t && c in t[p].children
  }

  /** `c` is on the list of zombie children of `p`. */
  predicate Corpse(t: Procs, p: Ptr, c: Ptr) {
    p in t && c in t[p].zombies
  }

  /** Parent pointers and child lists agree: the live children of a process are on one
      of its lists and the zombies (`zs`) on the other, each once. */
  ghost predicate LinksOk(t: Procs, zs: set<Ptr>) {
    && (forall p, c :: Kid(t, p, c) <==> ChildOf(t, c, p) && c !in zs)
    && (forall p, c :: Corpse(t, p, c) <==> ChildOf(t, c, p) && c in zs)
  }

  ghost predicate OnceOk(t: Procs) {
    forall p :: p in t ==> NoDup(t[p].children) && NoDup(t[p].zombies)
  }

  /** Only idle and init have no parent; zombies and idle have no children. */
  ghost predicate ShapeOk(t: Procs, zs: set<Ptr>, idle: Ptr, init: Ptr) {
    && idle in t && init in t && idle != init && init !in zs && idle !in zs && zs <= t.Keys
    && (forall c :: c in t ==> (t[c].parent == None <==> c == idle || c == init))
    && (forall c :: c in t && (c in zs || c == idle) ==> t[c].children == [] && t[c].zombies == [])
  }

  /** Births grow from parent to child, and init is older than all but idle. */
  ghost predicate BirthsOk(t: Procs, idle: Ptr, init: Ptr) {
    && init in t
    && (forall c, p :: ChildOf(t, c, p) ==> p in t && t[p].birth < t[c].birth)
    && (forall c :: c in t && c != idle && c != init ==> t[init].birth < t[c].birth)
  }

  ghost predicate TreeOk(t: Procs, zs: set<Ptr>, idle: Ptr, init: Ptr) {
    LinksOk(t, zs) && OnceOk(t) && ShapeOk(t, zs, idle, init) && BirthsOk(t, idle, init)
  }

  /** The two loops of `sys_exit`: all children of `c` move to the end of init's lists. */
  function Adopted(t: Procs, c: Ptr, init: Ptr): Procs
    requires c in t
  {
    map q | q in t ::
      if q == c then t[q].(children := [], zombies := [])
      else if q == init then t[q].(children := t[q].children + t[c].children, zombies := t[q].zombies + t[c].zombies)
      else if q in t[c].children || q in t[c].zombies then t[q].(parent := Some(init))
      else t[q]
  }

  /** `c` moves from its parent's children to the end of its zombie children. */
  function Buried(t: Procs, c: Ptr): Procs
    requires c in t && t[c].parent.Some? && t[c].parent.value in t
  {
    var p := t[c].parent.value;
    t[p := t[p].(children := Without(t[p].children, c), zombies := t[p].zombies + [c])]
  }

  /** `proc_deinit`: `z` leaves its parent's list and its record goes. */
  function Unlinked(t: Procs, z: Ptr): Procs
    requires z in t && t[z].parent.Some? && t[z].parent.value in t && t[z].parent.value != z
  {
    var p := t[z].parent.value;
    (t - {z})[p := t[p].(zombies := Without(t[p].zombies, z))]
  }

  /** `proc_init` for a new process `p` of parent `c`. */
  function Grown(t: Procs, c: Ptr, p: Ptr, pid: nat, birth: nat): Procs
    requires c in t
  {
    t[p := Proc(pid, Some(c), [], [], None, 0, birth)][c := t[c].(children := t[c].children + [p])]
  }

  lemma AdoptedLinks(t: Procs, zs: set<Ptr>, c: Ptr, init: Ptr)
    requires LinksOk(t, zs) && c in t && init in t && c != init && t[init].parent == None && !ChildOf(t, c, c)
    ensures LinksOk(Adopted(t, c, init), zs)
    ensures forall q, p :: ChildOf(Adopted(t, c, init), q, p) <==> if ChildOf(t, q, c) then p == init else ChildOf(t, q, p)
  {
    var t' := Adopted(t, c, init);
    assert forall q :: Kid(t, c, q) <==> q in t[c].children;
    assert forall q :: Corpse(t, c, q) <==> q in t[c].zombies;
    assert forall q, p :: Kid(t', p, q) <==>
      if p == c then false else if p == init then Kid(t, init, q) || Kid(t, c, q) else Kid(t, p, q);
    assert forall q, p :: Corpse(t', p, q) <==>
      if p == c then false else if p == init then Corpse(t, init, q) || Corpse(t, c, q) else Corpse(t, p, q);
  }

  lemma AdoptedOnce(t: Procs, zs: set<Ptr>, c: Ptr, init: Ptr)
    requires LinksOk(t, zs) && OnceOk(t) && c in t && init in t && c != init
    ensures OnceOk(Adopted(t, c, init))
  {
    forall q | q in t[init].children ensures q !in t[c].children {
      assert Kid(t, init, q);
      assert !Kid(t, c, q);
    }
    forall q | q in t[init].zombies ensures q !in t[c].zombies {
      assert Corpse(t, init, q);
      assert !Corpse(t, c, q);
    }
    NoDupConcat(t[init].children, t[c].children);
    NoDupConcat(t[init].zombies, t[c].zombies);
  }

  /** Adoption moves the children of `c` to init and changes no other link. */
  lemma AdoptedTree(t: Procs, zs: set<Ptr>, idle: Ptr, c: Ptr, init: Ptr)
    requires TreeOk(t, zs, idle, init) && c in t && c != idle && c != init
    ensures TreeOk(Adopted(t, c, init), zs, idle, init)
  {
    AdoptedLinks(t, zs, c, init);
    AdoptedOnce(t, zs, c, init);
    hide LinksOk, OnceOk, ChildOf;
    forall q | q in t && (q in t[c].children || q in t[c].zombies) ensures q != init && q != idle {
      assert Kid(t, c, q) || Corpse(t, c, q);
      IsChild(t, zs, c, q);
    }
  }

  lemma IsChild(t: Procs, zs: set<Ptr>, p: Ptr, c: Ptr)
    requires LinksOk(t, zs) && (Kid(t, p, c) || Corpse(t, p, c))
    ensures ChildOf(t, c, p) && c in t && t[c].parent == Some(p)
  {
  }

  /** An exiting process changes lists, and nothing else changes. */
  lemma BuriedTree(t: Procs, zs: set<Ptr>, idle: Ptr, c: Ptr, init: Ptr)
    requires TreeOk(t, zs, idle, init) && c in t && c != idle && c != init && c !in zs
    requires t[c].children == [] && t[c].zombies == []
    ensures t[c].parent.Some? && t[c].parent.value in t && t[c].parent.value != c
    ensures TreeOk(Buried(t, c), zs + {c}, idle, init)
  {
    var p := t[c].parent.value;
    assert ChildOf(t, c, p);
    BuriedLinks(t, zs, c, p);
    WithoutMembers(t[p].children, c);
    hide LinksOk, Kid, Corpse;
    NoDupConcat(t[p].zombies, [c]);
    hide NoDup;
  }

  /** `c` is a zombie child instead of a child of `p`. */
  lemma BuriedLinks(t: Procs, zs: set<Ptr>, c: Ptr, p: Ptr)
    requires LinksOk(t, zs) && OnceOk(t) && c in t && c !in zs && ChildOf(t, c, p) && p in t && p != c
    ensures LinksOk(Buried(t, c), zs + {c}) && c in t[p].children && c !in t[p].zombies
    ensures forall x, q :: ChildOf(Buried(t, c), x, q) <==> ChildOf(t, x, q)
  {
    assert Kid(t, p, c) && !Corpse(t, p, c);
    WithoutMembers(t[p].children, c);
    var t', zs' := Buried(t, c), zs + {c};
    assert forall x, q :: ChildOf(t', x, q) <==> ChildOf(t, x, q);
    forall x, q ensures Kid(t', q, x) <==> Kid(t, q, x) && x != c {
      assert Kid(t, q, c) ==> ChildOf(t, c, q);
      if q == p {
        assert t'[q].children == Without(t[p].children, c);
      }
    }
    assert forall x, q :: Corpse(t', q, x) <==> Corpse(t, q, x) || (q == p && x == c);
  }

  lemma UnlinkedLinks(t: Procs, zs: set<Ptr>, z: Ptr, p: Ptr)
    requires LinksOk(t, zs) && OnceOk(t) && ChildOf(t, z, p) && p in t && p != z && z in zs
    requires t[z].children == [] && t[z].zombies == []
    ensures LinksOk(Unlinked(t, z), zs - {z})
    ensures forall x, q :: ChildOf(Unlinked(t, z), x, q) <==> ChildOf(t, x, q) && x != z
  {
    var t' := Unlinked(t, z);
    WithoutMembers(t[p].zombies, z);
    assert forall x :: !Kid(t, z, x) && !Corpse(t, z, x);
    forall x, q ensures Kid(t', q, x) <==> Kid(t, q, x) {
    }
    forall x, q ensures Corpse(t', q, x) <==> Corpse(t, q, x) && x != z {
      assert Corpse(t, q, z) ==> ChildOf(t, z, q);
      if q == p {
        assert t'[q].zombies == Without(t[p].zombies, z);
      }
    }
  }

  lemma UnlinkedOnce(t: Procs, z: Ptr)
    requires OnceOk(t) && z in t && t[z].parent.Some? && t[z].parent.value in t && t[z].parent.value != z
    ensures OnceOk(Unlinked(t, z))
  {
    WithoutMembers(t[t[z].parent.value].zombies, z);
  }

  /** Reaping removes one zombie from its parent's list, and its record. */
  lemma UnlinkedTree(t: Procs, zs: set<Ptr>, idle: Ptr, z: Ptr, init: Ptr)
    requires TreeOk(t, zs, idle, init) && z in zs
    ensures z in t && t[z].parent.Some? && t[z].parent.value in t && t[z].parent.value != z
    ensures TreeOk(Unlinked(t, z), zs - {z}, idle, init)
  {
    var p := t[z].parent.value;
    assert ChildOf(t, z, p);
    UnlinkedLinks(t, zs, z, p);
    UnlinkedOnce(t, z);
    hide LinksOk, OnceOk, ChildOf;
  }

  /** A new process is added at the end of its parent's children. */
  lemma GrownTree(t: Procs, zs: set<Ptr>, idle: Ptr, init: Ptr, c: Ptr, p: Ptr, pid: nat, birth: nat)
    requires TreeOk(t, zs, idle, init) && c in t && c != idle && c !in zs && p !in t
    requires forall q :: q in t ==> t[q].birth < birth
    ensures TreeOk(Grown(t, c, p, pid, birth), zs, idle, init)
  {
    GrownLinks(t, zs, c, p, pid, birth);
    hide LinksOk, Kid, Corpse;
    NoDupConcat(t[c].children, [p]);
    hide NoDup;
  }

  /** The new process is the one new child, and of `c`. */
  lemma GrownLinks(t: Procs, zs: set<Ptr>, c: Ptr, p: Ptr, pid: nat, birth: nat)
    requires LinksOk(t, zs) && c in t && p !in t && p !in zs
    ensures LinksOk(Grown(t, c, p, pid, birth), zs) && p !in t[c].children
    ensures forall x, q :: ChildOf(Grown(t, c, p, pid, birth), x, q) <==> ChildOf(t, x, q) || (x == p && q == c)
  {
    var t' := Grown(t, c, p, pid, birth);
    assert forall x, q :: ChildOf(t', x, q) <==> ChildOf(t, x, q) || (x == p && q == c);
    assert !Kid(t, c, p);
    assert forall x, q :: Kid(t', q, x) <==> Kid(t, q, x) || (x == p && q == c);
    assert forall x, q :: Corpse(t', q, x) <==> Corpse(t, q, x);
  }

  // ---- every process but idle descends from init ----

  /** `path` leads from `p` up the parent pointers to `top`. */
  ghost predicate Climbs(t: Procs, p: Ptr, path: seq<Ptr>, top: Ptr) {
    && |path| > 0 && path[0] == p && path[|path| - 1] == top
    && (forall i :: 0 <= i < |path| ==> path[i] in t)
    && (forall i :: 0 <= i < |path| - 1 ==> t[path[i]].parent == Some(path[i + 1]))
  }

  lemma {:induction false} DescendsFromInit(t: Procs, zs: set<Ptr>, idle: Ptr, init: Ptr, p: Ptr) returns (path: seq<Ptr>)
    requires TreeOk(t, zs, idle, init) && p in t && p != idle
    ensures Climbs(t, p, path, init)
    decreases t[p].birth
  {
    if p == init {
      path := [p];
    } else {
      var q := t[p].parent.value;
      assert ChildOf(t, p, q);
      assert Kid(t, q, p) || Corpse(t, q, p);
      var up := DescendsFromInit(t, zs, idle, init, q);
      path := [p] + up;
    }
  }

  /** No process is its own ancestor. */
  lemma {:induction false} Acyclic(t: Procs, zs: set<Ptr>, idle: Ptr, init: Ptr, p: Ptr, path: seq<Ptr>, q: Ptr)
    requires TreeOk(t, zs, idle, init) && Climbs(t, p, path, q) && |path| > 1
    ensures t[q].birth < t[p].birth && p != q
    decreases |path|
  {
    assert ChildOf(t, path[0], path[1]);
    if |path| > 2 {
      var rest := path[1..];
      assert forall i :: 0 <= i < |rest| - 1 ==> t[rest[i]].parent == Some(rest[i + 1]) by {
        forall i | 0 <= i < |rest| - 1 ensures t[rest[i]].parent == Some(rest[i + 1]) {
          assert t[path[i + 1]].parent == Some(path[i + 2]);
        }
      }
      Acyclic(t, zs, idle, init, path[1], rest, q);
    }
  }
}
