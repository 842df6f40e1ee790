/** `src/arch/riscv/vm.c` in place, on physical memory held page by page. */
module Sv39Object {
  import opened Queues
  import opened Bytes
  import opened PageAlloc
  import opened Sv39
  import opened Sv39Map
  import opened Sv39Runs
  import opened Errno

  class AddressSpace {
    const root: nat
    const pages: PageAllocator
    var mem: map<nat, Page>
    ghost var role: map<nat, Role>

    ghost function View(): Space
      reads this, pages
    {
      Space(root, mem, pages.free, role)
    }

    /** An address space with the page `table`, zeroed, as its root. */
    constructor (memory: map<nat, Page>, table: nat, allocator: PageAllocator)
      requires PageOk(table) && NoDup(allocator.free) && forall p :: p in allocator.free ==> PageOk(p) && p != table
      ensures root == table && pages == allocator && mem == memory[table := ZeroTable()]
      ensures Fresh(View())
    {
      root, pages := table, allocator;
      mem, role := memory[table := ZeroTable()], map[table := Root];
      new;
      FreshOk(View());
    }

    /** `vm_create_page_table`. */
    method CreateTable(ghost r: Role) returns (t: nat)
      requires 0 !in pages.free
      modifies pages`free, this`mem, this`role
      ensures old(pages.free) == [] ==> t == 0 && View() == old(View())
      ensures old(pages.free) != [] ==> t == old(pages.free)[0] && t != 0 && View() == Created(old(View()), r)
    {
      t := pages.Alloc();
      if t == 0 {
        return;
      }
      mem, role := mem[t := ZeroTable()], role[t := r];
    }

    /** `init_pte` on entry `i` of table `t`. */
    method InitEntry(t: nat, i: nat, page: nat, flags: bv32)
      requires IsTable(View(), t) && i < ENTRIES
      modifies this`mem
      ensures View() == Written(old(View()), t, i, InitPte(At(old(View()), t, i), page, flags))
    {
      var e := mem[t].entries[i];
      var bits := e.flags | PTE_V;
      ghost var before := bits;
      if flags & VM_READABLE != 0 {
        bits := bits | PTE_R;
      }
      if flags & VM_WRITABLE != 0 {
        bits := bits | PTE_W;
      }
      if flags & VM_EXECUTABLE != 0 {
        bits := bits | PTE_X;
      }
      if flags & VM_USER != 0 {
        bits := bits | PTE_U;
      }
      OrChain(before, flags);
      mem := mem[t := Table(mem[t].entries[i := Pte(bits, page / PAGE % PPN_LIMIT)])];
    }

    /** One level of the walk of `vm_map_page`: the table behind entry `i`, made if missing. */
    method Descend(t: nat, i: nat, ghost r: Role) returns (next: nat)
      requires SpaceOk(View()) && t in role && i < ENTRIES && Below(role[t], i, r)
      modifies pages`free, this`mem, this`role
      ensures IsTable(old(View()), t) && t !in old(pages.free)
      ensures next == 0 <==> Descended(old(View()), t, i, r) == None
      ensures next == 0 ==> View() == old(View())
      ensures next != 0 ==> Descended(old(View()), t, i, r) == Some(View()) && IsTable(View(), t) && next == Target(At(View(), t, i))
    {
      DescendOk(View(), t, i, r);
      PagesReal(View());
      if !IsValid(At(View(), t, i)) && pages.free != [] {
        LinkWrites(View(), t, i, r, t, i);
      }
      hide SpaceOk, PointsTo;
      next := mem[t].entries[i].ppn * PAGE;
      if mem[t].entries[i].flags & PTE_V == 0 {
        next := CreateTable(r);
        if next == 0 {
          return;
        }
        InitEntry(t, i, next, 0);
      }
    }

    /** `vm_map_page`. */
    method MapPage(virt: nat, phys: nat, flags: bv32) returns (res: int)
      requires SpaceOk(View()) && virt < VIRT_LIMIT
      modifies this, pages`free
      ensures res == 0 || res == ENOMEM
      ensures (View(), res == 0) == Mapped(old(View()), virt, phys, flags)
      ensures SpaceOk(View())
      ensures res == 0 <==> Missing(old(View()), virt / PAGE) <= |old(pages.free)|
    {
      hide SpaceOk, TablesOk, FreeOk, Entry, Walks, Descended, Target, Missing, Grew;
      IndicesOfAddress(virt);
      MapUpdatesOne(View(), virt / PAGE, phys, flags, virt / PAGE);
      ghost var k := MapPages(View(), virt / PAGE, phys, flags);
      ghost var v := virt / PAGE;
      OfSpace(View());
      DescendOk(View(), root, I0(v), Mid(I0(v)));
      var idx0 := virt / 0x4000_0000;
      var table1 := Descend(root, idx0, Mid(I0(v)));
      if table1 == 0 {
        return ENOMEM;
      }
      DescendOk(View(), table1, I1(v), Leaf(I0(v), I1(v)));
      var idx1 := virt / 0x20_0000 % ENTRIES;
      var table2 := Descend(table1, idx1, Leaf(I0(v), I1(v)));
      if table2 == 0 {
        return ENOMEM;
      }
      OfSpace(View());
      TableOf(View(), table2);
      var idx2 := virt / PAGE % ENTRIES;
      InitEntry(table2, idx2, phys, flags);
      return 0;
    }

    /** `vm_virt_to_phys`; none is -EFAULT. */
    method VirtToPhys(virt: nat) returns (phys: Option<nat>)
      requires SpaceOk(View())
      ensures phys == Lookup(View(), virt)
    {
      if virt / VIRT_LIMIT != 0 {
        return None;
      }
      IndicesOfAddress(virt);
      WalkStops(View(), virt / PAGE);
      hide SpaceOk, TablesOk, Entry, Walks;
      var e0 := mem[root].entries[virt / 0x4000_0000];
      if e0.flags & PTE_V == 0 {
        return None;
      }
      var e1 := mem[e0.ppn * PAGE].entries[virt / 0x20_0000 % ENTRIES];
      if e1.flags & PTE_V == 0 {
        return None;
      }
      var e2 := mem[e1.ppn * PAGE].entries[virt / PAGE % ENTRIES];
      return Some(e2.ppn * PAGE + virt % PAGE);
    }
  }

  lemma OrChain(a: bv8, flags: bv32)
    ensures
      var r := if flags & VM_READABLE != 0 then a | PTE_R else a;
      var w := if flags & VM_WRITABLE != 0 then r | PTE_W else r;
      var x := if flags & VM_EXECUTABLE != 0 then w | PTE_X else w;
      (if flags & VM_USER != 0 then x | PTE_U else x) == a | Perms(flags)
  {
  }

  lemma PagesReal(s: Space)
    requires SpaceOk(s)
    ensures 0 !in s.free && 0 !in s.role
  {
    if 0 in s.role { TableOf(s, 0); }
  }
}
