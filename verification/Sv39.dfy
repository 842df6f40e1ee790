/** The page tables of `src/arch/riscv/vm.c`: Sv39, section 4.4 of the RISC-V Privileged
    Architecture, version 20211203. */
module Sv39 {
  import opened Queues
  import opened Bytes

  const ENTRIES: nat := 512
  const VIRT_LIMIT: nat := 0x80_0000_0000
  const VPN_LIMIT: nat := 0x800_0000
  const PPN_LIMIT: nat := 0x1000_0000_0000
  const PHYS_LIMIT: nat := PPN_LIMIT * PAGE

  const PTE_V: bv8 := 0x01
  const PTE_R: bv8 := 0x02
  const PTE_W: bv8 := 0x04
  const PTE_X: bv8 := 0x08
  const PTE_U: bv8 := 0x10

  const VM_READABLE: bv32 := 0x1
  const VM_WRITABLE: bv32 := 0x2
  const VM_EXECUTABLE: bv32 := 0x4
  const VM_USER: bv32 := 0x8

  datatype Pte = Pte(flags: bv8, ppn: nat)

  const ZERO: Pte := Pte(0, 0)

  predicate IsValid(e: Pte) {
    e.flags & PTE_V != 0
  }

  /** A page of physical memory, by what it was last written as. */
  datatype Page = Table(entries: seq<Pte>) | Data(bytes: seq<byte>)

  /** Where a table page sits in the tree. */
  datatype Role = Root | Mid(i: nat) | Leaf(i: nat, j: nat)

  /** One address space over physical memory. `free` is the page allocator's list; `role`
      records the place of each table page of this space and is history. */
  datatype Space = Space(root: nat, mem: map<nat, Page>, free: seq<nat>, role: map<nat, Role>)

  // ---- entries ----

  function Perms(flags: bv32): bv8 {
    (if flags & VM_READABLE != 0 then PTE_R else 0)
    | (if flags & VM_WRITABLE != 0 then PTE_W else 0)
    | (if flags & VM_EXECUTABLE != 0 then PTE_X else 0)
    | (if flags & VM_USER != 0 then PTE_U else 0)
  }

  /** Each right asked for, and no other, is a bit of the entry. */
  lemma PermsExact(flags: bv32)
    ensures Perms(flags) & PTE_R != 0 <==> flags & VM_READABLE != 0
    ensures Perms(flags) & PTE_W != 0 <==> flags & VM_WRITABLE != 0
    ensures Perms(flags) & PTE_X != 0 <==> flags & VM_EXECUTABLE != 0
    ensures Perms(flags) & PTE_U != 0 <==> flags & VM_USER != 0
    ensures Perms(flags) & !(PTE_R | PTE_W | PTE_X | PTE_U) == 0
  {
  }

  /** With the bits of Sv39 and of `mm/vm.h` written out: readable (1) sets R (2), writable (2)
      sets W (4), executable (4) sets X (8), user (8) sets U (16), and V (1) marks validity. */
  lemma BitsOfSv39(e: Pte, page: nat, flags: bv32)
    ensures
      var p := InitPte(e, page, flags);
      && p.flags & 0x01 == 0x01
      && (p.flags & 0x02 != 0 <==> flags & 0x1 != 0 || e.flags & 0x02 != 0)
      && (p.flags & 0x04 != 0 <==> flags & 0x2 != 0 || e.flags & 0x04 != 0)
      && (p.flags & 0x08 != 0 <==> flags & 0x4 != 0 || e.flags & 0x08 != 0)
      && (p.flags & 0x10 != 0 <==> flags & 0x8 != 0 || e.flags & 0x10 != 0)
      && p.flags & 0xE0 == e.flags & 0xE0
      && p.ppn == page / 4096 % 0x1000_0000_0000
    ensures IsValid(e) <==> e.flags & 0x01 != 0
  {
  }

  /** `init_pte` adds flags to those already there and replaces the page number, of which
      the field holds 44 bits. */
  function InitPte(e: Pte, page: nat, flags: bv32): Pte {
    Pte(e.flags | PTE_V | Perms(flags), page / PAGE % PPN_LIMIT)
  }

  function Target(e: Pte): nat {
    e.ppn * PAGE
  }

  // ---- indices ----

  function I0(v: nat): nat {
    v / 0x4_0000
  }

  function I1(v: nat): nat {
    v / ENTRIES % ENTRIES
  }

  function I2(v: nat): nat {
    v % ENTRIES
  }

  /** The three indices of a virtual page number determine it. */
  lemma IndicesInjective(v: nat, w: nat)
    requires I0(v) == I0(w) && I1(v) == I1(w) && I2(v) == I2(w)
    ensures v == w
  {
    Recompose(v);
    Recompose(w);
    hide I0, I1, I2;
  }

  lemma Recompose(v: nat)
    ensures v == I0(v) * 0x4_0000 + I1(v) * ENTRIES + I2(v)
  {
    var q := v / ENTRIES;
    assert v == q * ENTRIES + v % ENTRIES && q == q / ENTRIES * ENTRIES + q % ENTRIES;
    assert v / 0x4_0000 == q / ENTRIES;
  }

  /** The shifts and masks of the code are the indices of the page number. */
  lemma IndicesOfAddress(virt: nat)
    requires virt < VIRT_LIMIT
    ensures virt / 0x4000_0000 == I0(virt / PAGE) < ENTRIES
    ensures virt / 0x20_0000 % ENTRIES == I1(virt / PAGE)
    ensures virt / PAGE % ENTRIES == I2(virt / PAGE)
    ensures virt / PAGE < VPN_LIMIT
  {
  }

  // ---- the tree ----

  ghost predicate IsTable(s: Space, t: nat) {
    t in s.mem && s.mem[t].Table? && |s.mem[t].entries| == ENTRIES
  }

  function At(s: Space, t: nat, i: nat): Pte
    requires IsTable(s, t) && i < ENTRIES
  {
    s.mem[t].entries[i]
  }

  ghost predicate PageOk(p: nat) {
    0 < p < PHYS_LIMIT && p % PAGE == 0
  }

  /** A pointer entry: all bits but V clear, leading to the table page with role `r`. */
  ghost predicate PointsTo(s: Space, e: Pte, r: Role) {
    if IsValid(e) then e.flags == PTE_V && Target(e) in s.role && s.role[Target(e)] == r else e == ZERO
  }

  ghost predicate TablesOk(s: Space) {
    && s.root in s.role && s.role[s.root] == Root
    && (forall t :: t in s.role ==> IsTable(s, t) && PageOk(t))
    && (forall t, i :: t in s.role && s.role[t] == Root && 0 <= i < ENTRIES ==> PointsTo(s, At(s, t, i), Mid(i)))
    && (forall t, j :: t in s.role && s.role[t].Mid? && 0 <= j < ENTRIES ==> PointsTo(s, At(s, t, j), Leaf(s.role[t].i, j)))
    && (forall t, k :: t in s.role && s.role[t].Leaf? && 0 <= k < ENTRIES ==> IsValid(At(s, t, k)) || At(s, t, k) == ZERO)
  }

  /** Free pages are distinct real pages, and none is a table of this space. */
  ghost predicate FreeOk(s: Space) {
    && NoDup(s.free)
    && (forall p :: p in s.free ==> PageOk(p) && p !in s.role)
  }

  ghost predicate SpaceOk(s: Space) {
    TablesOk(s) && FreeOk(s)
  }

  /** The entry that governs virtual page `v`: the leaf entry the walk arrives at, or the
      empty entry if the walk stops before. */
  function Entry(s: Space, v: nat): Pte
    requires TablesOk(s) && v < VPN_LIMIT
  {
    var e0 := At(s, s.root, I0(v));
    if !IsValid(e0) then ZERO
    else
      assert PointsTo(s, e0, Mid(I0(v)));
      var e1 := At(s, Target(e0), I1(v));
      if !IsValid(e1) then ZERO
      else
        assert PointsTo(s, e1, Leaf(I0(v), I1(v)));
        At(s, Target(e1), I2(v))
  }

  /** The two upper levels of the walk for page `v` are present. */
  predicate Walks(s: Space, v: nat)
    requires TablesOk(s) && v < VPN_LIMIT
  {
    var e0 := At(s, s.root, I0(v));
    IsValid(e0) && (assert PointsTo(s, e0, Mid(I0(v))); IsValid(At(s, Target(e0), I1(v))))
  }

  /** `vm_virt_to_phys`; none is the fault. */
  function Lookup(s: Space, virt: nat): Option<nat>
    requires TablesOk(s)
  {
    if virt >= VIRT_LIMIT then None
    else if !Walks(s, virt / PAGE) then None
    else Some(Target(Entry(s, virt / PAGE)) + virt % PAGE)
  }

  // ---- mapping ----

  function ZeroTable(): Page {
    Table(seq(ENTRIES, i => ZERO))
  }

  /** `vm_create_page_table` for the place `r`. */
  function Created(s: Space, r: Role): Space
    requires s.free != []
  {
    s.(mem := s.mem[s.free[0] := ZeroTable()], free := s.free[1..], role := s.role[s.free[0] := r])
  }

  function Written(s: Space, t: nat, i: nat, e: Pte): Space
    requires IsTable(s, t) && i < ENTRIES
  {
    s.(mem := s.mem[t := Table(s.mem[t].entries[i := e])])
  }

  /** One level of `vm_map_page`: if entry `i` of table `t` is missing, link a new table
      there; none if there is no page. */
  function Descended(s: Space, t: nat, i: nat, r: Role): Option<Space>
    requires IsTable(s, t) && i < ENTRIES && t !in s.free
  {
    if IsValid(At(s, t, i)) then Some(s)
    else if s.free == [] then None
    else
      assert t != s.free[0];
      Some(Written(Created(s, r), t, i, InitPte(At(s, t, i), s.free[0], 0)))
  }

  /** The role of the table behind entry `i` of a table with role `r`. */
  ghost predicate Below(r: Role, i: nat, r': Role) {
    (r == Root && r' == Mid(i)) || (r.Mid? && r' == Leaf(r.i, i))
  }

  lemma NewPointer(p: nat)
    requires PageOk(p)
    ensures
      var e := InitPte(ZERO, p, 0);
      IsValid(e) && e.flags == PTE_V && Target(e) == p
  {
    assert Perms(0) == 0;
    assert (0 as bv8) | PTE_V | 0 == PTE_V;
  }

  /** Linking an empty table into a missing entry keeps the tree. */
  lemma LinkTables(s: Space, t: nat, i: nat, r: Role)
    requires SpaceOk(s) && t in s.role && i < ENTRIES && Below(s.role[t], i, r) && s.free != []
    requires !IsValid(At(s, t, i))
    ensures TablesOk(Written(Created(s, r), t, i, InitPte(At(s, t, i), s.free[0], 0)))
  {
    var p := s.free[0];
    assert p in s.free;
    var e := InitPte(At(s, t, i), p, 0);
    var s' := Written(Created(s, r), t, i, e);
    assert At(s, t, i) == ZERO by {
      assert s.role[t] == Root ==> PointsTo(s, At(s, t, i), Mid(i));
      assert s.role[t].Mid? ==> PointsTo(s, At(s, t, i), Leaf(s.role[t].i, i));
    }
    NewPointer(p);
    hide InitPte, Target;
    forall x | x in s'.role ensures IsTable(s', x) && PageOk(x) {
    }
    forall x, k | x in s'.role && 0 <= k < ENTRIES
      ensures At(s', x, k) == if x == p then ZERO else if x == t && k == i then e else At(s, x, k)
    {
    }
  }

  lemma LinkFree(s: Space, t: nat, i: nat, r: Role)
    requires SpaceOk(s) && t in s.role && i < ENTRIES && s.free != []
    ensures FreeOk(Written(Created(s, r), t, i, InitPte(At(s, t, i), s.free[0], 0)))
  {
    hide TablesOk;
    assert IsTable(s, t) by { TableOf(s, t); }
    var rest := s.free[1..];
    assert s.free == [s.free[0]] + rest;
    assert forall p :: p in rest ==> p in s.free && p != s.free[0];
  }

  lemma TableOf(s: Space, t: nat)
    requires TablesOk(s) && t in s.role
    ensures IsTable(s, t) && PageOk(t)
  {
  }

  /** Whatever one level does, the tree stays a tree, no entry in it changes its meaning,
      and the entry is present afterwards. */
  lemma DescendOk(s: Space, t: nat, i: nat, r: Role)
    requires SpaceOk(s) && t in s.role && i < ENTRIES && Below(s.role[t], i, r)
    ensures IsTable(s, t) && t !in s.free
    ensures Descended(s, t, i, r) == None <==> !IsValid(At(s, t, i)) && s.free == []
    ensures Descended(s, t, i, r).Some? ==>
      var s1 := Descended(s, t, i, r).value;
      && SpaceOk(s1) && s1.root == s.root
      && t in s1.role && s1.role[t] == s.role[t]
      && IsTable(s1, t) && IsValid(At(s1, t, i))
      && Target(At(s1, t, i)) in s1.role && s1.role[Target(At(s1, t, i))] == r
  {
    TableOf(s, t);
    if IsValid(At(s, t, i)) {
      assert s.role[t] == Root ==> PointsTo(s, At(s, t, i), Mid(i));
      assert s.role[t].Mid? ==> PointsTo(s, At(s, t, i), Leaf(s.role[t].i, i));
    } else if s.free != [] {
      LinkTables(s, t, i, r);
      LinkFree(s, t, i, r);
      assert s.free[0] in s.free;
      assert At(s, t, i) == ZERO by {
        assert s.role[t] == Root ==> PointsTo(s, At(s, t, i), Mid(i));
        assert s.role[t].Mid? ==> PointsTo(s, At(s, t, i), Leaf(s.role[t].i, i));
      }
      NewPointer(s.free[0]);
    }
  }

  /** The walk's first two stops, when the levels are present. */
  lemma WalkStops(s: Space, v: nat)
    requires TablesOk(s) && v < VPN_LIMIT
    ensures I0(v) < ENTRIES && IsTable(s, s.root)
    ensures
      var e0 := At(s, s.root, I0(v));
      && (!IsValid(e0) ==> e0 == ZERO && !Walks(s, v) && Entry(s, v) == ZERO)
      && (IsValid(e0) ==>
            && Target(e0) in s.role && s.role[Target(e0)] == Mid(I0(v)) && IsTable(s, Target(e0))
            && (var e1 := At(s, Target(e0), I1(v));
                && (!IsValid(e1) ==> e1 == ZERO && !Walks(s, v) && Entry(s, v) == ZERO)
                && (IsValid(e1) ==>
                      && Target(e1) in s.role && s.role[Target(e1)] == Leaf(I0(v), I1(v)) && IsTable(s, Target(e1))
                      && Walks(s, v) && Entry(s, v) == At(s, Target(e1), I2(v)))))
  {
    var e0 := At(s, s.root, I0(v));
    assert PointsTo(s, e0, Mid(I0(v)));
    if IsValid(e0) {
      assert PointsTo(s, At(s, Target(e0), I1(v)), Leaf(I0(v), I1(v)));
    }
  }

  /** What a link writes, table by table. */
  lemma LinkWrites(s: Space, t: nat, i: nat, r: Role, x: nat, k: nat)
    requires SpaceOk(s) && t in s.role && i < ENTRIES && s.free != [] && k < ENTRIES
    requires !IsValid(At(s, t, i)) && Below(s.role[t], i, r)
    ensures s.free[0] !in s.role && PageOk(s.free[0])
    ensures
      var s1 := Written(Created(s, r), t, i, InitPte(At(s, t, i), s.free[0], 0));
      && IsTable(s1, s.free[0]) && At(s1, s.free[0], k) == ZERO
      && (x in s.role ==> IsTable(s1, x) && (x != t || k != i ==> At(s1, x, k) == At(s, x, k)))
      && IsTable(s1, t) && Target(At(s1, t, i)) == s.free[0] && IsValid(At(s1, t, i))
  {
    assert s.free[0] in s.free;
    assert At(s, t, i) == ZERO by {
      assert s.role[t] == Root ==> PointsTo(s, At(s, t, i), Mid(i));
      assert s.role[t].Mid? ==> PointsTo(s, At(s, t, i), Leaf(s.role[t].i, i));
    }
    NewPointer(s.free[0]);
  }

  /** Linking an empty table changes no page's entry; only a new leaf table makes more
      pages walk, those of its own 2 MiB. */
  lemma LinkEntry(s: Space, t: nat, i: nat, r: Role, v: nat)
    requires SpaceOk(s) && t in s.role && i < ENTRIES && Below(s.role[t], i, r) && v < VPN_LIMIT
    requires !IsValid(At(s, t, i)) && s.free != [] && (s.role[t] == Root ==> t == s.root)
    requires s.role[t].Mid? ==> s.role[t].i < ENTRIES && IsValid(At(s, s.root, s.role[t].i)) && Target(At(s, s.root, s.role[t].i)) == t
    ensures
      var s1 := Written(Created(s, r), t, i, InitPte(At(s, t, i), s.free[0], 0));
      && TablesOk(s1)
      && Entry(s1, v) == Entry(s, v)
      && (Walks(s1, v) <==> Walks(s, v) || r == Leaf(I0(v), I1(v)))
  {
    var s1 := Written(Created(s, r), t, i, InitPte(At(s, t, i), s.free[0], 0));
    LinkTables(s, t, i, r);
    WalkStops(s, v);
    WalkStops(s1, v);
    LinkWrites(s, t, i, r, s.root, I0(v));
    if IsValid(At(s, s.root, I0(v))) {
      var t1 := Target(At(s, s.root, I0(v)));
      LinkWrites(s, t, i, r, t1, I1(v));
      if IsValid(At(s, t1, I1(v))) {
        LinkWrites(s, t, i, r, Target(At(s, t1, I1(v))), I2(v));
      } else if t1 == t && I1(v) == i {
        LinkWrites(s, t, i, r, t, I2(v));
      }
    } else if s.root == t && I0(v) == i {
      LinkWrites(s, t, i, r, t, I1(v));
    }
  }
}
