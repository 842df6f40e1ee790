/** Any sequence of maps in one address space. */
module Sv39Runs {
  import opened Queues
  import opened Bytes
  import opened Sv39
  import opened Sv39Map

  datatype MapOp = MapOp(v: nat, phys: nat, flags: bv32)

  ghost predicate OpsOk(ops: seq<MapOp>) {
    forall i :: 0 <= i < |ops| ==> ops[i].v < VPN_LIMIT
  }

  ghost function Step(s: Space, op: MapOp): (r: (Space, bool))
    requires SpaceOk(s) && op.v < VPN_LIMIT
    ensures SpaceOk(r.0)
  {
    MapUpdatesOne(s, op.v, op.phys, op.flags, op.v);
    MappedPage(s, op.v, op.phys, op.flags)
  }

  /** The space after the maps in `ops`, successful or not. */
  ghost function After(s: Space, ops: seq<MapOp>): Space
    requires SpaceOk(s) && OpsOk(ops)
    decreases |ops|
  {
    if ops == [] then s else After(Step(s, ops[0]).0, ops[1..])
  }

  /** The successful maps of page `w`, in order. */
  ghost function Granted(s: Space, ops: seq<MapOp>, w: nat): seq<MapOp>
    requires SpaceOk(s) && OpsOk(ops)
    decreases |ops|
  {
    if ops == [] then []
    else
      var (s1, ok) := Step(s, ops[0]);
      (if ok && ops[0].v == w then [ops[0]] else []) + Granted(s1, ops[1..], w)
  }

  /** Some map of a page of the same 2 MiB as `w` succeeded. */
  ghost predicate Touched(s: Space, ops: seq<MapOp>, w: nat)
    requires SpaceOk(s) && OpsOk(ops)
    decreases |ops|
  {
    ops != [] &&
    (var (s1, ok) := Step(s, ops[0]);
     (ok && I0(ops[0].v) == I0(w) && I1(ops[0].v) == I1(w)) || Touched(s1, ops[1..], w))
  }

  /** The union of the flags of `gs`, as entry bits. */
  function Union(gs: seq<MapOp>): bv8 {
    if gs == [] then 0 else (PTE_V | Perms(gs[0].flags)) | Union(gs[1..])
  }

  function Replay(e: Pte, gs: seq<MapOp>): Pte
    decreases |gs|
  {
    if gs == [] then e else Replay(InitPte(e, gs[0].phys, gs[0].flags), gs[1..])
  }

  lemma OrAssoc(a: bv8, b: bv8, c: bv8, d: bv8)
    ensures (a | b | c) | d == a | ((b | c) | d)
  {
  }

  lemma {:induction false} ReplayUnion(e: Pte, gs: seq<MapOp>)
    ensures Replay(e, gs).flags == e.flags | Union(gs)
    ensures Replay(e, gs).ppn == if gs == [] then e.ppn else gs[|gs| - 1].phys / PAGE % PPN_LIMIT
    decreases |gs|
  {
    if gs != [] {
      var e1 := InitPte(e, gs[0].phys, gs[0].flags);
      ReplayUnion(e1, gs[1..]);
      OrAssoc(e.flags, PTE_V, Perms(gs[0].flags), Union(gs[1..]));
    } else {
      OrZero(e.flags);
    }
  }

  lemma OrZero(a: bv8)
    ensures a | 0 == a && 0 | a == a
  {
  }

  /** Over any sequence of maps the entry of a page is the replay of the successful maps
      of that page alone. */
  lemma {:induction false} MapsRefine(s: Space, ops: seq<MapOp>, w: nat)
    requires SpaceOk(s) && OpsOk(ops) && w < VPN_LIMIT
    ensures SpaceOk(After(s, ops))
    ensures Entry(After(s, ops), w) == Replay(Entry(s, w), Granted(s, ops, w))
    ensures Walks(After(s, ops), w) <==> Walks(s, w) || Touched(s, ops, w)
    decreases |ops|
  {
    if ops != [] {
      var (s1, ok) := Step(s, ops[0]);
      MapUpdatesOne(s, ops[0].v, ops[0].phys, ops[0].flags, w);
      hide Entry, Walks, TablesOk, FreeOk, MappedPage;
      MapsRefine(s1, ops[1..], w);
      if ok && ops[0].v == w {
        assert Granted(s, ops, w)[1..] == Granted(s1, ops[1..], w);
      } else {
        assert Granted(s, ops, w) == Granted(s1, ops[1..], w);
      }
    }
  }

  /** A space with an empty root table. */
  ghost predicate Fresh(s: Space) {
    && SpaceOk(s) && s.role == map[s.root := Root]
    && s.mem[s.root] == ZeroTable()
  }

  lemma FreshOk(s: Space)
    requires s.role == map[s.root := Root] && PageOk(s.root) && s.root in s.mem && s.mem[s.root] == ZeroTable()
    requires NoDup(s.free) && forall p :: p in s.free ==> PageOk(p) && p != s.root
    ensures Fresh(s)
  {
    assert forall i :: 0 <= i < ENTRIES ==> At(s, s.root, i) == ZERO;
    ZeroInvalid();
  }

  lemma FreshSpace(s: Space, w: nat)
    requires Fresh(s) && w < VPN_LIMIT
    ensures Entry(s, w) == ZERO && !Walks(s, w) && Rooted(s)
  {
    WalkStops(s, w);
    assert At(s, s.root, I0(w)) == ZERO;
    assert Hangs(s, s.root);
  }

  /** From an empty table on: a page's permissions are the union of all flags ever given
      for it, its page number the low 44 bits of the last one given, and it has neither if
      it was never mapped. */
  lemma PermissionsAreUnion(s: Space, ops: seq<MapOp>, w: nat)
    requires Fresh(s) && OpsOk(ops) && w < VPN_LIMIT
    ensures SpaceOk(After(s, ops))
    ensures
      var gs := Granted(s, ops, w);
      Entry(After(s, ops), w) == if gs == [] then ZERO else Pte(Union(gs), gs[|gs| - 1].phys / PAGE % PPN_LIMIT)
  {
    hide Entry, Walks, TablesOk, FreeOk, MappedPage;
    FreshSpace(s, w);
    MapsRefine(s, ops, w);
    ReplayUnion(ZERO, Granted(s, ops, w));
    OrZero(Union(Granted(s, ops, w)));
  }

  /** A page never mapped faults on lookup exactly when no page of its 2 MiB was ever
      mapped; otherwise the lookup succeeds with frame zero. */
  lemma NeverMappedFaults(s: Space, ops: seq<MapOp>, a: nat)
    requires Fresh(s) && OpsOk(ops) && a < VIRT_LIMIT && a / PAGE < VPN_LIMIT && Granted(s, ops, a / PAGE) == []
    ensures SpaceOk(After(s, ops))
    ensures Lookup(After(s, ops), a) == if Touched(s, ops, a / PAGE) then Some(a % PAGE) else None
  {
    hide Entry, Walks, TablesOk, FreeOk, MappedPage, Lookup;
    FreshSpace(s, a / PAGE);
    MapsRefine(s, ops, a / PAGE);
    ZeroInvalid();
    UnmappedLookup(After(s, ops), a);
  }

  /** The input on which it shows: page 1 is mapped into an empty table, page 0 never is, and
      address 0 translates to physical address 0. */
  lemma NeverMappedTranslates(phys: nat, flags: bv32) returns (s: Space, op: MapOp)
    ensures Fresh(s) && OpsOk([op]) && op == MapOp(1, phys, flags) && Step(s, op).1
    ensures Granted(s, [op], 0) == [] && SpaceOk(After(s, [op])) && Lookup(After(s, [op]), 0) == Some(0)
  {
    s, op := Space(4096, map[4096 := ZeroTable()], [8192, 12288], map[4096 := Root]), MapOp(1, phys, flags);
    FreshOk(s);
    hide Entry, Walks, TablesOk, FreeOk, MappedPage, Lookup, Grew;
    var k := MapPages(s, 1, phys, flags);
    assert [op][1..] == [];
    assert I0(1) == I0(0) && I1(1) == I1(0);
    NeverMappedFaults(s, [op], 0);
  }

  /** The frame on which it shows: page 0 is mapped to 2^56, and address 0 translates to 0. */
  lemma FrameTruncated(flags: bv32) returns (s: Space)
    ensures Fresh(s) && Mapped(s, 0, PHYS_LIMIT, flags).1 && TablesOk(Mapped(s, 0, PHYS_LIMIT, flags).0)
    ensures Lookup(Mapped(s, 0, PHYS_LIMIT, flags).0, 0) == Some(0)
  {
    hide Entry, Walks, TablesOk, FreeOk, MappedPage, Lookup, Grew;
    s := Space(4096, map[4096 := ZeroTable()], [8192, 12288], map[4096 := Root]);
    FreshOk(s);
    var k := MapPages(s, 0, PHYS_LIMIT, flags);
    MapThenLookup(s, 0, PHYS_LIMIT, flags, 0);
  }

  /** Every table built by any sequence of maps is a tree, of at most 1 + 2n pages for n
      maps, and no page is lost or used twice. */
  lemma {:induction false} TreeOverRuns(s: Space, ops: seq<MapOp>)
    requires SpaceOk(s) && Rooted(s) && OpsOk(ops)
    ensures SpaceOk(After(s, ops)) && Rooted(After(s, ops))
    ensures |After(s, ops).role| <= |s.role| + 2 * |ops|
    ensures After(s, ops).role.Keys + Elems(After(s, ops).free) == s.role.Keys + Elems(s.free)
    ensures After(s, ops).role.Keys !! Elems(After(s, ops).free)
    decreases |ops|
  {
    hide TablesOk, FreeOk, Rooted, MappedPage, Grew;
    TablesNotFree(s);
    if ops != [] {
      var s1 := Step(s, ops[0]).0;
      MapRooted(s, ops[0].v, ops[0].phys, ops[0].flags);
      var k := MapPages(s, ops[0].v, ops[0].phys, ops[0].flags);
      GrewCount(s, s1, k);
      TreeOverRuns(s1, ops[1..]);
    }
  }

  lemma TablesNotFree(s: Space)
    requires SpaceOk(s)
    ensures s.role.Keys !! Elems(s.free)
  {
    hide TablesOk;
  }

  lemma SplitElems(q: seq<nat>, k: nat)
    requires k <= |q|
    ensures Elems(q) == Elems(q[..k]) + Elems(q[k..])
  {
    assert q == q[..k] + q[k..];
  }

  lemma GrewCount(s: Space, s1: Space, k: nat)
    requires Grew(s, s1, k) && k <= 2
    ensures |s1.role| <= |s.role| + k
    ensures s1.role.Keys + Elems(s1.free) == s.role.Keys + Elems(s.free)
  {
    SetOfSeq(s.free[..k]);
    Cardinality(s.role.Keys, Elems(s.free[..k]));
    assert |s1.role| == |s1.role.Keys| && |s.role| == |s.role.Keys|;
    SplitElems(s.free, k);
    hide Elems;
    assert s1.role.Keys + Elems(s1.free) == s.role.Keys + (Elems(s.free[..k]) + Elems(s.free[k..]));
  }

  lemma {:induction false} SetOfSeq(q: seq<nat>)
    ensures |Elems(q)| <= |q|
  {
    if q != [] {
      SetOfSeq(q[1..]);
      assert Elems(q) == {q[0]} + Elems(q[1..]);
      Cardinality({q[0]}, Elems(q[1..]));
    }
  }

  lemma Cardinality(a: set<nat>, b: set<nat>)
    ensures |a + b| <= |a| + |b|
  {
    assert a + b == a + (b - a);
    assert |a + (b - a)| == |a| + |b - a|;
    assert b == (b - a) + (b * a);
  }
}
