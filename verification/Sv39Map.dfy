/** `vm_map_page` as an update of a finite map from virtual pages to entries. */
module Sv39Map {
  import opened Queues
  import opened Bytes
  import opened Sv39

  /** The rest of `vm_map_page` from the second-level table `t1` on. */
  function MappedBelow(s: Space, t1: nat, v: nat, phys: nat, flags: bv32): (Space, bool)
    requires SpaceOk(s) && v < VPN_LIMIT && t1 in s.role && s.role[t1] == Mid(I0(v))
  {
    DescendOk(s, t1, I1(v), Leaf(I0(v), I1(v)));
    match Descended(s, t1, I1(v), Leaf(I0(v), I1(v)))
    case None => (s, false)
    case Some(s2) =>
      var t2 := Target(At(s2, t1, I1(v)));
      TableOf(s2, t2);
      (Written(s2, t2, I2(v), InitPte(At(s2, t2, I2(v)), phys, flags)), true)
  }

  /** `vm_map_page` for virtual page number `v`; false is -ENOMEM. */
  function MappedPage(s: Space, v: nat, phys: nat, flags: bv32): (Space, bool)
    requires SpaceOk(s) && v < VPN_LIMIT
  {
    DescendOk(s, s.root, I0(v), Mid(I0(v)));
    match Descended(s, s.root, I0(v), Mid(I0(v)))
    case None => (s, false)
    case Some(s1) => MappedBelow(s1, Target(At(s1, s1.root, I0(v))), v, phys, flags)
  }

  /** `vm_map_page`. */
  function Mapped(s: Space, virt: nat, phys: nat, flags: bv32): (Space, bool)
    requires SpaceOk(s) && virt < VIRT_LIMIT
  {
    IndicesOfAddress(virt);
    MappedPage(s, virt / PAGE, phys, flags)
  }

  // ---- the last level ----

  lemma LeafTables(s: Space, t: nat, k: nat, e: Pte)
    requires SpaceOk(s) && t in s.role && s.role[t].Leaf? && k < ENTRIES && IsValid(e)
    ensures SpaceOk(Written(s, t, k, e))
  {
    var s' := Written(s, t, k, e);
    forall x, i | x in s'.role && 0 <= i < ENTRIES
      ensures IsTable(s', x) && At(s', x, i) == if x == t && i == k then e else At(s, x, i)
    {
    }
  }

  /** Writing a leaf entry changes the one page it governs. */
  lemma LeafEntry(s: Space, v: nat, e: Pte, w: nat)
    requires SpaceOk(s) && v < VPN_LIMIT && w < VPN_LIMIT && Walks(s, v) && IsValid(e)
    ensures
      var t := Target(At(s, Target(At(s, s.root, I0(v))), I1(v)));
      && t in s.role && IsTable(s, t) && SpaceOk(Written(s, t, I2(v), e))
      && (Walks(Written(s, t, I2(v), e), w) <==> Walks(s, w))
      && Entry(Written(s, t, I2(v), e), w) == if w == v then e else Entry(s, w)
  {
    WalkStops(s, v);
    var t := Target(At(s, Target(At(s, s.root, I0(v))), I1(v)));
    LeafTables(s, t, I2(v), e);
    var s' := Written(s, t, I2(v), e);
    WalkStops(s, w);
    WalkStops(s', w);
    assert At(s', s.root, I0(w)) == At(s, s.root, I0(w));
    if IsValid(At(s, s.root, I0(w))) {
      var t1 := Target(At(s, s.root, I0(w)));
      assert At(s', t1, I1(w)) == At(s, t1, I1(w));
      if IsValid(At(s, t1, I1(w))) && Target(At(s, t1, I1(w))) == t && I2(w) == I2(v) {
        IndicesInjective(v, w);
      }
    }
  }

  // ---- the two upper levels ----

  /** The first level leaves every entry and every walk as it was. */
  lemma FirstLevel(s: Space, v: nat, w: nat)
    requires SpaceOk(s) && v < VPN_LIMIT && w < VPN_LIMIT
    ensures I0(v) < ENTRIES && IsTable(s, s.root) && s.root !in s.free
    ensures Descended(s, s.root, I0(v), Mid(I0(v))).Some? ==>
      var s1 := Descended(s, s.root, I0(v), Mid(I0(v))).value;
      TablesOk(s1) && Entry(s1, w) == Entry(s, w) && Walks(s1, w) == Walks(s, w)
  {
    DescendOk(s, s.root, I0(v), Mid(I0(v)));
    if !IsValid(At(s, s.root, I0(v))) && s.free != [] {
      LinkEntry(s, s.root, I0(v), Mid(I0(v)), w);
    }
  }

  /** The second level leaves every entry as it was; more pages walk only if it linked a
      table, and then exactly those of the same 2 MiB. */
  lemma SecondLevel(s: Space, v: nat, w: nat)
    requires SpaceOk(s) && v < VPN_LIMIT && w < VPN_LIMIT && IsTable(s, s.root) && I0(v) < ENTRIES
    requires IsValid(At(s, s.root, I0(v)))
    ensures
      var t := Target(At(s, s.root, I0(v)));
      && t in s.role && s.role[t] == Mid(I0(v)) && IsTable(s, t) && t !in s.free
      && (Descended(s, t, I1(v), Leaf(I0(v), I1(v))).Some? ==>
            var s1 := Descended(s, t, I1(v), Leaf(I0(v), I1(v))).value;
            && SpaceOk(s1) && Entry(s1, w) == Entry(s, w)
            && (Walks(s1, w) <==> Walks(s, w) || (I0(v) == I0(w) && I1(v) == I1(w)))
            && s1.root == s.root && At(s1, s1.root, I0(v)) == At(s, s.root, I0(v)))
  {
    WalkStops(s, v);
    var t := Target(At(s, s.root, I0(v)));
    DescendOk(s, t, I1(v), Leaf(I0(v), I1(v)));
    if IsValid(At(s, t, I1(v))) {
      WalkStops(s, w);
    } else if s.free != [] {
      LinkEntry(s, t, I1(v), Leaf(I0(v), I1(v)), w);
      LinkWrites(s, t, I1(v), Leaf(I0(v), I1(v)), s.root, I0(v));
    }
  }

  // ---- the main results ----

  /** Mapping is an update of one entry, whatever else the address space holds: on success
      the page's entry gets the new frame and the flags added to those it had, and no
      other page's entry changes; on failure none does. */
  lemma MapUpdatesOne(s: Space, v: nat, phys: nat, flags: bv32, w: nat)
    requires SpaceOk(s) && v < VPN_LIMIT && w < VPN_LIMIT
    ensures
      var (s', ok) := MappedPage(s, v, phys, flags);
      && SpaceOk(s') && s'.root == s.root
      && Entry(s', w) == (if ok && w == v then InitPte(Entry(s, v), phys, flags) else Entry(s, w))
      && (Walks(s', w) <==> Walks(s, w) || (ok && I0(v) == I0(w) && I1(v) == I1(w)))
  {
    IndexBounds(v);
    hide SpaceOk, TablesOk, FreeOk, InitPte, Entry, Walks, I0, I1, I2;
    OfSpace(s);
    FirstLevel(s, v, w);
    FirstLevel(s, v, v);
    DescendOk(s, s.root, I0(v), Mid(I0(v)));
    if Descended(s, s.root, I0(v), Mid(I0(v))).Some? {
      var s1 := Descended(s, s.root, I0(v), Mid(I0(v))).value;
      OfSpace(s1);
      SecondLevel(s1, v, w);
      SecondLevel(s1, v, v);
      var t1 := Target(At(s1, s1.root, I0(v)));
      DescendOk(s1, t1, I1(v), Leaf(I0(v), I1(v)));
      if Descended(s1, t1, I1(v), Leaf(I0(v), I1(v))).Some? {
        var s2 := Descended(s1, t1, I1(v), Leaf(I0(v), I1(v))).value;
        OfSpace(s2);
        WalkStops(s2, v);
        InitIsValid(Entry(s2, v), phys, flags);
        LeafEntry(s2, v, InitPte(Entry(s2, v), phys, flags), w);
      }
    }
  }

  lemma PageBound(a: nat)
    requires a < VIRT_LIMIT
    ensures a / PAGE < VPN_LIMIT
  {
  }

  lemma IndexBounds(v: nat)
    requires v < VPN_LIMIT
    ensures I0(v) < ENTRIES && I1(v) < ENTRIES && I2(v) < ENTRIES
  {
  }

  lemma OfSpace(s: Space)
    requires SpaceOk(s)
    ensures TablesOk(s) && FreeOk(s) && s.root in s.role && s.role[s.root] == Root
  {
  }

  lemma InitIsValid(e: Pte, phys: nat, flags: bv32)
    ensures IsValid(InitPte(e, phys, flags))
  {
    ValidBit(e.flags, Perms(flags));
  }

  lemma ValidBit(a: bv8, b: bv8)
    ensures (a | 1 | b) & 1 != 0
  {
  }

  /** After a successful map every address of the page translates into one frame, at its own
      offset: the frame given, if and only if that is a physical page, below 2^56. Every
      other mapped page translates as before. */
  lemma MapThenLookup(s: Space, virt: nat, phys: nat, flags: bv32, a: nat)
    requires SpaceOk(s) && virt < VIRT_LIMIT && a < VIRT_LIMIT && Mapped(s, virt, phys, flags).1
    ensures
      var s' := Mapped(s, virt, phys, flags).0;
      && TablesOk(s')
      && (a / PAGE == virt / PAGE ==> Lookup(s', a) == Some(phys / PAGE % PPN_LIMIT * PAGE + a % PAGE))
      && (a / PAGE == virt / PAGE ==> (Lookup(s', a) == Some(phys / PAGE * PAGE + a % PAGE) <==> phys < PHYS_LIMIT))
      && (a / PAGE != virt / PAGE && IsValid(Entry(s, a / PAGE)) ==> Lookup(s', a) == Lookup(s, a) && Lookup(s, a).Some?)
  {
    hide MappedPage, Entry, Walks, I0, I1, I2, SpaceOk, TablesOk, IsValid;
    PageBound(a);
    PageBound(virt);
    OfSpace(s);
    MapUpdatesOne(s, virt / PAGE, phys, flags, a / PAGE);
    OfSpace(Mapped(s, virt, phys, flags).0);
    FrameHeld(phys);
    if IsValid(Entry(s, a / PAGE)) {
      MappedWalks(s, a / PAGE);
    }
  }

  lemma FrameHeld(phys: nat)
    ensures phys / PAGE % PPN_LIMIT == phys / PAGE <==> phys < PHYS_LIMIT
  {
    var p := phys / PAGE;
    assert phys == PAGE * p + phys % PAGE;
    assert phys < PHYS_LIMIT <==> p < PPN_LIMIT;
  }

  lemma MappedWalks(s: Space, v: nat)
    requires TablesOk(s) && v < VPN_LIMIT && IsValid(Entry(s, v))
    ensures Walks(s, v)
  {
    WalkStops(s, v);
  }

  /** Addresses of more than 39 bits fault. */
  lemma HighFaults(s: Space, a: nat)
    requires TablesOk(s) && a >= 0x80_0000_0000
    ensures Lookup(s, a) == None
  {
  }

  /** A map that fails for want of a page changes no translation and no fault. */
  lemma FailureInvisible(s: Space, virt: nat, phys: nat, flags: bv32, a: nat)
    requires SpaceOk(s) && virt < VIRT_LIMIT && !Mapped(s, virt, phys, flags).1
    ensures TablesOk(Mapped(s, virt, phys, flags).0)
    ensures Lookup(Mapped(s, virt, phys, flags).0, a) == Lookup(s, a)
  {
    hide MappedPage, Entry, Walks, I0, I1, I2, SpaceOk, TablesOk;
    PageBound(virt);
    if a < VIRT_LIMIT {
      PageBound(a);
    }
    OfSpace(s);
    MapUpdatesOne(s, virt / PAGE, phys, flags, if a < VIRT_LIMIT then a / PAGE else 0);
    OfSpace(Mapped(s, virt, phys, flags).0);
  }

  /** Lookup does not look at the leaf's valid bit: a page never mapped faults if and only
      if nothing else in its 2 MiB has a leaf table; otherwise it translates to frame zero. */
  lemma UnmappedLookup(s: Space, a: nat)
    requires SpaceOk(s) && a < VIRT_LIMIT && a / PAGE < VPN_LIMIT && !IsValid(Entry(s, a / PAGE))
    ensures Lookup(s, a) == if Walks(s, a / PAGE) then Some(a % PAGE) else None
  {
    WalkStops(s, a / PAGE);
    if Walks(s, a / PAGE) {
      var t := Target(At(s, Target(At(s, s.root, I0(a / PAGE))), I1(a / PAGE)));
      assert At(s, t, I2(a / PAGE)) == ZERO;
    }
  }

  // ---- pages ----

  /** `s'` has taken the first `k` pages of the free list of `s` for tables, and has
      written nothing but tables. */
  ghost predicate Grew(s: Space, s': Space, k: nat) {
    && k <= |s.free| && s'.free == s.free[k..]
    && s'.role.Keys == s.role.Keys + Elems(s.free[..k])
    && (forall p :: p !in s'.role ==> (p in s'.mem <==> p in s.mem) && (p in s.mem ==> s'.mem[p] == s.mem[p]))
  }

  lemma GrewTwice(s: Space, s1: Space, s2: Space, j: nat, k: nat)
    requires Grew(s, s1, j) && Grew(s1, s2, k)
    ensures Grew(s, s2, j + k)
  {
    assert s.free[j..][..k] == s.free[j..j + k] && s.free[j..][k..] == s.free[j + k..];
    assert s.free[..j + k] == s.free[..j] + s.free[j..j + k];
  }

  /** The root has an entry for page `v`. */
  predicate HasTop(s: Space, v: nat)
    requires TablesOk(s) && v < VPN_LIMIT
  {
    IsValid(At(s, s.root, I0(v)))
  }

  /** How many tables a map of page `v` has to make. */
  function Missing(s: Space, v: nat): nat
    requires TablesOk(s) && v < VPN_LIMIT
  {
    if !HasTop(s, v) then 2 else if !Walks(s, v) then 1 else 0
  }

  lemma BelowPages(s: Space, t1: nat, v: nat, phys: nat, flags: bv32) returns (k: nat)
    requires SpaceOk(s) && v < VPN_LIMIT && t1 in s.role && s.role[t1] == Mid(I0(v)) && IsTable(s, t1)
    ensures Grew(s, MappedBelow(s, t1, v, phys, flags).0, k)
    ensures k == if IsValid(At(s, t1, I1(v))) || s.free == [] then 0 else 1
    ensures MappedBelow(s, t1, v, phys, flags).1 <==> IsValid(At(s, t1, I1(v))) || s.free != []
  {
    IndexBounds(v);
    DescendOk(s, t1, I1(v), Leaf(I0(v), I1(v)));
    k := DescendPages(s, t1, I1(v), Leaf(I0(v), I1(v)));
    if Descended(s, t1, I1(v), Leaf(I0(v), I1(v))).Some? {
      var s2 := Descended(s, t1, I1(v), Leaf(I0(v), I1(v))).value;
      var t2 := Target(At(s2, t1, I1(v)));
      TableOf(s2, t2);
      hide SpaceOk, TablesOk, FreeOk, Grew, Written, Descended;
      WriteGrew(s2, t2, I2(v), InitPte(At(s2, t2, I2(v)), phys, flags));
      GrewTwice(s, s2, Written(s2, t2, I2(v), InitPte(At(s2, t2, I2(v)), phys, flags)), k, 0);
    } else {
      SameGrew(s);
    }
  }

  /** The first level, and what it leaves the second to do. */
  lemma FirstPages(s: Space, v: nat) returns (k: nat)
    requires SpaceOk(s) && v < VPN_LIMIT
    ensures I0(v) < ENTRIES && I1(v) < ENTRIES && IsTable(s, s.root) && s.root !in s.free
    ensures k == if IsValid(At(s, s.root, I0(v))) || s.free == [] then 0 else 1
    ensures Descended(s, s.root, I0(v), Mid(I0(v))).Some? <==> IsValid(At(s, s.root, I0(v))) || s.free != []
    ensures Descended(s, s.root, I0(v), Mid(I0(v))).Some? ==>
      var s1 := Descended(s, s.root, I0(v), Mid(I0(v))).value;
      && SpaceOk(s1) && s1.root == s.root && Grew(s, s1, k) && IsTable(s1, s.root)
      && var t1 := Target(At(s1, s.root, I0(v)));
      && t1 in s1.role && s1.role[t1] == Mid(I0(v)) && IsTable(s1, t1)
      && (IsValid(At(s1, t1, I1(v))) <==> Walks(s, v))
  {
    IndexBounds(v);
    WalkStops(s, v);
    DescendOk(s, s.root, I0(v), Mid(I0(v)));
    k := DescendPages(s, s.root, I0(v), Mid(I0(v)));
    if !IsValid(At(s, s.root, I0(v))) && s.free != [] {
      LinkWrites(s, s.root, I0(v), Mid(I0(v)), s.root, I1(v));
      ZeroInvalid();
    }
  }

  lemma ZeroInvalid()
    ensures !IsValid(ZERO)
  {
  }

  /** A map takes the pages its missing levels need, the first ones of the free list, and
      makes them tables; it fails exactly when there are too few, and writes nothing but
      tables. */
  lemma MapPages(s: Space, v: nat, phys: nat, flags: bv32) returns (k: nat)
    requires SpaceOk(s) && v < VPN_LIMIT
    ensures k <= 2 && Grew(s, MappedPage(s, v, phys, flags).0, k)
    ensures k == if Missing(s, v) <= |s.free| then Missing(s, v) else |s.free|
    ensures MappedPage(s, v, phys, flags).1 <==> Missing(s, v) <= |s.free|
  {
    hide SpaceOk, TablesOk, FreeOk, I0, I1, I2, Descended, MappedBelow, Walks;
    OfSpace(s);
    k := FirstPages(s, v);
    MissingCases(s, v);
    if Descended(s, s.root, I0(v), Mid(I0(v))).Some? {
      var s1 := Descended(s, s.root, I0(v), Mid(I0(v))).value;
      var t1 := Target(At(s1, s1.root, I0(v)));
      var k2 := BelowPages(s1, t1, v, phys, flags);
      GrewTwice(s, s1, MappedBelow(s1, t1, v, phys, flags).0, k, k2);
      k := k + k2;
    } else {
      SameGrew(s);
    }
  }

  lemma MissingCases(s: Space, v: nat)
    requires TablesOk(s) && v < VPN_LIMIT
    ensures Walks(s, v) ==> HasTop(s, v)
  {
  }

  /** Below the first level the root is left alone. */
  lemma BelowKeepsRoot(s: Space, t1: nat, v: nat, phys: nat, flags: bv32, i: nat)
    requires SpaceOk(s) && v < VPN_LIMIT && i < ENTRIES && t1 in s.role && s.role[t1] == Mid(I0(v))
    ensures
      var s' := MappedBelow(s, t1, v, phys, flags).0;
      s'.root == s.root && IsTable(s, s.root) && IsTable(s', s.root) && At(s', s.root, i) == At(s, s.root, i)
  {
    IndexBounds(v);
    hide I0, I1, I2, InitPte;
    TableOf(s, t1);
    TableOf(s, s.root);
    DescendOk(s, t1, I1(v), Leaf(I0(v), I1(v)));
    if !IsValid(At(s, t1, I1(v))) && s.free != [] {
      LinkWrites(s, t1, I1(v), Leaf(I0(v), I1(v)), s.root, i);
    }
  }

  /** After a successful map the first level is present where it was, and for the page mapped. */
  lemma MapMids(s: Space, v: nat, phys: nat, flags: bv32, w: nat)
    requires SpaceOk(s) && v < VPN_LIMIT && w < VPN_LIMIT && MappedPage(s, v, phys, flags).1
    ensures
      var s' := MappedPage(s, v, phys, flags).0;
      TablesOk(s') && (HasTop(s', w) <==> HasTop(s, w) || I0(w) == I0(v))
  {
    MapUpdatesOne(s, v, phys, flags, w);
    IndexBounds(v);
    IndexBounds(w);
    hide I0, I1, I2, InitPte, MappedBelow;
    TableOf(s, s.root);
    DescendOk(s, s.root, I0(v), Mid(I0(v)));
    if !IsValid(At(s, s.root, I0(v))) {
      LinkWrites(s, s.root, I0(v), Mid(I0(v)), s.root, I0(w));
    }
    var s1 := Descended(s, s.root, I0(v), Mid(I0(v))).value;
    BelowKeepsRoot(s1, Target(At(s1, s1.root, I0(v))), v, phys, flags, I0(w));
  }

  lemma SameGrew(s: Space)
    ensures Grew(s, s, 0)
  {
  }

  lemma WriteGrew(s: Space, t: nat, i: nat, e: Pte)
    requires IsTable(s, t) && t in s.role && i < ENTRIES
    ensures Grew(s, Written(s, t, i, e), 0)
  {
  }

  lemma DescendPages(s: Space, t: nat, i: nat, r: Role) returns (k: nat)
    requires IsTable(s, t) && i < ENTRIES && t !in s.free && t in s.role
    ensures k == if IsValid(At(s, t, i)) || s.free == [] then 0 else 1
    ensures Descended(s, t, i, r).Some? ==> Grew(s, Descended(s, t, i, r).value, k)
  {
    if IsValid(At(s, t, i)) || s.free == [] {
      k := 0;
    } else {
      k := 1;
      assert s.free[..1] == [s.free[0]];
    }
  }

  // ---- a true tree ----

  /** Every table page is where its role says: hanging from the root by the entries its
      role names. With that, no page hangs from two entries. */
  ghost predicate Hangs(s: Space, t: nat)
    requires TablesOk(s) && t in s.role
  {
    match s.role[t]
    case Root => t == s.root
    case Mid(i) => i < ENTRIES && IsValid(At(s, s.root, i)) && Target(At(s, s.root, i)) == t
    case Leaf(i, j) =>
      i < ENTRIES && j < ENTRIES && IsValid(At(s, s.root, i))
      && (assert PointsTo(s, At(s, s.root, i), Mid(i));
          var t1 := Target(At(s, s.root, i)); IsValid(At(s, t1, j)) && Target(At(s, t1, j)) == t)
  }

  ghost predicate Rooted(s: Space)
    requires TablesOk(s)
  {
    forall t :: t in s.role ==> Hangs(s, t)
  }

  /** Two different pointer entries of the tree point to different table pages, and their
      R, W and X bits are clear, as Sv39 wants of pointers. */
  lemma PointersDistinct(s: Space, t: nat, i: nat, t': nat, i': nat)
    requires TablesOk(s) && Rooted(s) && t in s.role && t' in s.role && !s.role[t].Leaf? && !s.role[t'].Leaf?
    requires i < ENTRIES && i' < ENTRIES && IsValid(At(s, t, i)) && IsValid(At(s, t', i')) && (t, i) != (t', i')
    ensures Target(At(s, t, i)) != Target(At(s, t', i'))
    ensures At(s, t, i).flags == PTE_V
  {
    assert Hangs(s, t) && Hangs(s, t');
    assert s.role[t] == Root ==> PointsTo(s, At(s, t, i), Mid(i));
    assert s.role[t].Mid? ==> PointsTo(s, At(s, t, i), Leaf(s.role[t].i, i));
    assert s.role[t'] == Root ==> PointsTo(s, At(s, t', i'), Mid(i'));
    assert s.role[t'].Mid? ==> PointsTo(s, At(s, t', i'), Leaf(s.role[t'].i, i'));
  }

  lemma LinkRooted(s: Space, t: nat, i: nat, r: Role)
    requires SpaceOk(s) && Rooted(s) && t in s.role && i < ENTRIES && Below(s.role[t], i, r) && s.free != []
    requires !IsValid(At(s, t, i))
    ensures
      var s1 := Written(Created(s, r), t, i, InitPte(At(s, t, i), s.free[0], 0));
      TablesOk(s1) && Rooted(s1)
  {
    var p := s.free[0];
    var s1 := Written(Created(s, r), t, i, InitPte(At(s, t, i), p, 0));
    LinkTables(s, t, i, r);
    LinkWrites(s, t, i, r, t, i);
    assert Hangs(s, t);
    forall x | x in s1.role ensures Hangs(s1, x) {
      if x == p {
        if s.role[t].Mid? {
          LinkWrites(s, t, i, r, s.root, s.role[t].i);
        }
      } else {
        assert Hangs(s, x);
        match s.role[x] {
          case Root =>
          case Mid(a) => LinkWrites(s, t, i, r, s.root, a);
          case Leaf(a, b) =>
            LinkWrites(s, t, i, r, s.root, a);
            assert PointsTo(s, At(s, s.root, a), Mid(a));
            LinkWrites(s, t, i, r, Target(At(s, s.root, a)), b);
        }
      }
    }
  }

  lemma LeafRooted(s: Space, t: nat, k: nat, e: Pte)
    requires SpaceOk(s) && Rooted(s) && t in s.role && s.role[t].Leaf? && k < ENTRIES && IsValid(e)
    ensures SpaceOk(Written(s, t, k, e)) && Rooted(Written(s, t, k, e))
  {
    LeafTables(s, t, k, e);
    var s' := Written(s, t, k, e);
    forall x | x in s'.role ensures Hangs(s', x) {
      assert Hangs(s, x);
      if s.role[x].Leaf? {
        assert PointsTo(s, At(s, s.root, s.role[x].i), Mid(s.role[x].i));
      }
    }
  }

  lemma MapRooted(s: Space, v: nat, phys: nat, flags: bv32)
    requires SpaceOk(s) && Rooted(s) && v < VPN_LIMIT
    ensures SpaceOk(MappedPage(s, v, phys, flags).0) && Rooted(MappedPage(s, v, phys, flags).0)
  {
    IndexBounds(v);
    hide FreeOk, I0, I1, I2, InitPte, Rooted;
    DescendOk(s, s.root, I0(v), Mid(I0(v)));
    if !IsValid(At(s, s.root, I0(v))) && s.free != [] {
      LinkRooted(s, s.root, I0(v), Mid(I0(v)));
    }
    hide TablesOk;
    if Descended(s, s.root, I0(v), Mid(I0(v))).Some? {
      var s1 := Descended(s, s.root, I0(v), Mid(I0(v))).value;
      var t1 := Target(At(s1, s1.root, I0(v)));
      DescendOk(s1, t1, I1(v), Leaf(I0(v), I1(v)));
      if !IsValid(At(s1, t1, I1(v))) && s1.free != [] {
        LinkRooted(s1, t1, I1(v), Leaf(I0(v), I1(v)));
      }
      if Descended(s1, t1, I1(v), Leaf(I0(v), I1(v))).Some? {
        var s2 := Descended(s1, t1, I1(v), Leaf(I0(v), I1(v))).value;
        var t2 := Target(At(s2, t1, I1(v)));
        TableOf(s2, t2);
        InitIsValid(At(s2, t2, I2(v)), phys, flags);
        LeafRooted(s2, t2, I2(v), InitPte(At(s2, t2, I2(v)), phys, flags));
      }
    }
  }

}
