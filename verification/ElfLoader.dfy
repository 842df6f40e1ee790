/** `elf_load` in place, and what a loaded program finds in its memory. */
module ElfLoader {
  import opened Queues
  import opened Bytes
  import opened PageAlloc
  import opened Sv39
  import opened Sv39Map
  import opened Sv39Runs
  import opened Sv39Object
  import opened Elf
  import opened Errno

  // ---- a loaded program reads its image ----

  /** The byte of physical memory at `pa`. */
  function ByteAt(mem: map<nat, Page>, pa: nat): Option<byte> {
    var p := pa / PAGE * PAGE;
    if p in mem && mem[p].Data? && pa % PAGE < |mem[p].bytes| then Some(mem[p].bytes[pa % PAGE]) else None
  }

  /** What the program reads at address `a`; none is a page fault. */
  function Read(s: Space, a: nat): Option<byte>
    requires TablesOk(s)
  {
    if a >= VIRT_LIMIT || !IsValid(Entry(s, a / PAGE)) then None
    else ByteAt(s.mem, Target(Entry(s, a / PAGE)) + a % PAGE)
  }

  /** `ph` is a loadable program header of the file. */
  ghost predicate IsSegment(f: File, i: nat, ph: Phdr) {
    InBounds(f) && i < PhNum(f) && ph == PhdrAt(f, i) && ph.kind == PT_LOAD && SegInBounds(f, ph)
  }

  /** The load of page `k` of a segment is among the loads. */
  lemma {:induction false} LoadPresent(f: File, n: nat, i: nat, ph: Phdr, k: nat) returns (at: nat)
    requires IsSegment(f, i, ph) && i < n <= PhNum(f) && k < Pages(ph)
    ensures at < |LoadsUpTo(f, n)| && LoadsUpTo(f, n)[at] == Load(ph.vaddr / PAGE + k, SegFlags(ph), PageBytes(f, ph, k))
  {
    hide Le, PhOff, PhNum, PageBytes, Pages;
    assert SegInBounds(f, PhdrAt(f, n - 1));
    if i == n - 1 {
      at := |LoadsUpTo(f, n - 1)| + k;
    } else {
      at := LoadPresent(f, n - 1, i, ph, k);
    }
  }

  /** A page that is held reads its bytes at every offset. */
  lemma HoldsReads(s: Space, l: Load, fr: nat, j: nat)
    requires TablesOk(s) && Holds(s, l, fr) && j < PAGE && |l.bytes| == PAGE
    ensures
      var a := PAGE * l.v + j;
      && a < VIRT_LIMIT && a / PAGE == l.v
      && Lookup(s, a).Some? && Read(s, a) == ByteAt(s.mem, Lookup(s, a).value) == Some(l.bytes[j])
  {
    EntryBits(l.flags);
    MappedWalks(s, l.v);
    FrameArith(fr, j);
    hide TablesOk, Entry, Walks;
    var a := PAGE * l.v + j;
    assert a / PAGE == l.v && a % PAGE == j;
  }

  /** Every address of the pages of a loaded segment translates to the byte of the image
      at its distance from the first page's start, with exactly the segment's rights. */
  lemma LoadedReads(s: Space, f: File, frames: seq<nat>, i: nat, ph: Phdr, t: nat, a: nat)
    requires IsSegment(f, i, ph) && Loaded(s, Loads(f), frames) && t < PAGE * Pages(ph) && a == PAGE * (ph.vaddr / PAGE) + t
    ensures a < VIRT_LIMIT && Lookup(s, a).Some?
    ensures Read(s, a) == ByteAt(s.mem, Lookup(s, a).value) == Some(Content(f, ph, t))
    ensures Entry(s, a / PAGE).flags == PTE_V | Perms(SegFlags(ph))
  {
    hide LoadsUpTo, TablesOk, Entry, Lookup, Read, Le, Perms, SegFlags, PhdrAt;
    var k, j := t / PAGE, t % PAGE;
    assert t == PAGE * k + j && k < Pages(ph);
    var at := LoadPresent(f, PhNum(f), i, ph, k);
    var l, fr := Loads(f)[at], frames[at];
    assert Holds(s, l, fr);
    HoldsReads(s, l, fr, j);
    assert PAGE * l.v + j == PAGE * (ph.vaddr / PAGE) + t;
    assert PageBytes(f, ph, k)[j] == Content(f, ph, t);
  }

  lemma FrameArith(fr: nat, j: nat)
    requires fr % PAGE == 0 && j < PAGE
    ensures (fr / PAGE * PAGE + j) / PAGE * PAGE == fr && (fr / PAGE * PAGE + j) % PAGE == j
  {
  }

  lemma EntryBits(flags: bv32)
    ensures (PTE_V | Perms(flags)) & PTE_V != 0
  {
    VBit(Perms(flags));
  }

  lemma VBit(b: bv8)
    ensures (1 | b) & 1 != 0
  {
  }

  /** A loaded page is readable (R, bit 1 of the entry), writable (W, bit 2) and executable (X,
      bit 3) exactly as its segment's flags R (4), W (2) and X (1) say, always a user page (bit
      4), and valid (bit 0). */
  lemma RightsExact(ph: Phdr)
    ensures
      var e := PTE_V | Perms(SegFlags(ph));
      && (e & 0x02 != 0 <==> ph.flags / 4 % 2 == 1)
      && (e & 0x04 != 0 <==> ph.flags / 2 % 2 == 1)
      && (e & 0x08 != 0 <==> ph.flags % 2 == 1)
      && e & 0x10 != 0 && e & 0x01 != 0 && e & 0xE0 == 0
  {
  }

  /** With page-aligned segments the loaded image is the one the gABI asks for: address
      vaddr + k reads byte k of the segment's part of the file, or zero beyond it. */
  lemma AlignedImage(s: Space, f: File, frames: seq<nat>, i: nat, ph: Phdr, k: nat)
    requires IsSegment(f, i, ph) && Loaded(s, Loads(f), frames) && k < ph.memsz && ph.vaddr % PAGE == 0
    ensures Read(s, ph.vaddr + k) == Some(if k < ph.filesz then f[ph.offset + k] else 0)
  {
    hide InBounds, Loaded, LoadsUpTo, Entry, Lookup, Read, ByteAt;
    PagesEnough(ph);
    assert PAGE * (ph.vaddr / PAGE) == ph.vaddr;
    LoadedReads(s, f, frames, i, ph, k, ph.vaddr + k);
  }

  lemma PagesEnough(ph: Phdr)
    ensures ph.memsz <= PAGE * Pages(ph) < ph.memsz + PAGE
  {
  }

  /** A segment is loaded from the start of its first page on, wherever in that page it
      should begin: address vaddr + k reads the byte of the image that lies vaddr mod 4096
      further on, up to the end of the last page loaded. Past it lies one more page, which
      faults, or reads as another segment's if that has a page there. */
  lemma ShiftedRead(s: Space, f: File, frames: seq<nat>, i: nat, ph: Phdr, k: nat)
    requires IsSegment(f, i, ph) && Loaded(s, Loads(f), frames) && k < ph.memsz
    ensures InPages(ph, k) ==> Read(s, ph.vaddr + k) == Some(Content(f, ph, ph.vaddr % PAGE + k))
    ensures !InPages(ph, k) && TailFree(f, ph) ==> Read(s, ph.vaddr + k) == None
    ensures !InPages(ph, k) ==> forall j :: OnTail(f, ph, j) ==>
      Read(s, ph.vaddr + k) == Some(Loads(f)[j].bytes[(ph.vaddr + k) % PAGE])
  {
    hide InBounds, Loaded, LoadsUpTo, Entry, Lookup, ByteAt, Read, TablesOk, SpaceOk, Content;
    LoadedTables(s, f, frames);
    if InPages(ph, k) {
      assert PAGE * (ph.vaddr / PAGE) + ph.vaddr % PAGE == ph.vaddr;
      LoadedReads(s, f, frames, i, ph, ph.vaddr % PAGE + k, ph.vaddr + k);
    } else {
      TailPage(ph, k);
      if TailFree(f, ph) {
        TailFaults(s, f, frames, ph, ph.vaddr + k);
      }
      forall j | OnTail(f, ph, j) ensures Read(s, ph.vaddr + k) == Some(Loads(f)[j].bytes[(ph.vaddr + k) % PAGE]) {
        TailHeld(s, f, frames, ph, j, ph.vaddr + k);
      }
    }
  }

  /** Byte `k` of the segment lies in the pages loaded for it. */
  predicate InPages(ph: Phdr, k: nat) {
    ph.vaddr % PAGE + k < PAGE * Pages(ph)
  }

  /** Load `j` has the page right after the last one of `ph`. */
  ghost predicate OnTail(f: File, ph: Phdr, j: int)
    requires InBounds(f)
  {
    0 <= j < |Loads(f)| && Loads(f)[j].v == ph.vaddr / PAGE + Pages(ph)
  }

  ghost predicate TailFree(f: File, ph: Phdr)
    requires InBounds(f)
  {
    forall j :: !OnTail(f, ph, j)
  }

  lemma TailHeld(s: Space, f: File, frames: seq<nat>, ph: Phdr, j: int, a: nat)
    requires InBounds(f) && Loaded(s, Loads(f), frames) && OnTail(f, ph, j) && a / PAGE == ph.vaddr / PAGE + Pages(ph)
    ensures Read(s, a) == Some(Loads(f)[j].bytes[a % PAGE])
  {
    hide InBounds, LoadsUpTo, Entry, Lookup, ByteAt, Read, TablesOk;
    assert Holds(s, Loads(f)[j], frames[j]);
    HoldsReads(s, Loads(f)[j], frames[j], a % PAGE);
    assert PAGE * (a / PAGE) + a % PAGE == a;
  }

  lemma TailFaults(s: Space, f: File, frames: seq<nat>, ph: Phdr, a: nat)
    requires InBounds(f) && Loaded(s, Loads(f), frames) && TailFree(f, ph) && a / PAGE == ph.vaddr / PAGE + Pages(ph)
    ensures Read(s, a) == None
  {
    hide InBounds, LoadsUpTo, Entry, TablesOk, Pages;
    ZeroInvalid();
    forall j | 0 <= j < |Loads(f)| ensures Loads(f)[j].v != a / PAGE {
      assert !OnTail(f, ph, j);
    }
  }

  lemma TailPage(ph: Phdr, k: nat)
    requires k < ph.memsz && !InPages(ph, k)
    ensures (ph.vaddr + k) / PAGE == ph.vaddr / PAGE + Pages(ph)
  {
    PagesEnough(ph);
  }

  ghost predicate ReadsRight(s: Space, f: File, ph: Phdr, k: nat)
    requires TablesOk(s) && ph.offset + ph.filesz <= |f|
  {
    Read(s, ph.vaddr + k) == Some(Content(f, ph, k))
  }

  /** The file itself supplies byte `k` where the program looks for it: the byte lies as far
      into the image as the segment into its first page, or another segment's page has it. */
  ghost predicate Supplied(f: File, ph: Phdr, k: nat)
    requires InBounds(f) && ph.offset + ph.filesz <= |f|
  {
    if InPages(ph, k) then Content(f, ph, ph.vaddr % PAGE + k) == Content(f, ph, k)
    else exists j :: OnTail(f, ph, j) && Loads(f)[j].bytes[(ph.vaddr + k) % PAGE] == Content(f, ph, k)
  }

  /** So the program finds the image the gABI asks for exactly when the file supplies every
      byte of the segment in that way. */
  lemma ImageExact(s: Space, f: File, frames: seq<nat>, i: nat, ph: Phdr)
    requires IsSegment(f, i, ph) && Loaded(s, Loads(f), frames)
    ensures (forall k :: 0 <= k < ph.memsz ==> ReadsRight(s, f, ph, k))
      <==> (forall k :: 0 <= k < ph.memsz ==> Supplied(f, ph, k))
  {
    hide IsSegment, InBounds, Loaded, LoadsUpTo, Read, Content, Pages, SpaceOk, TablesOk, InPages;
    SegmentFile(f, i, ph);
    LoadedTables(s, f, frames);
    forall k: nat | k < ph.memsz ensures ReadsRight(s, f, ph, k) <==> Supplied(f, ph, k) {
      ShiftedRead(s, f, frames, i, ph, k);
    }
  }

  /** Where no other segment has the page the segment runs on to, that means: the segment,
      shifted by vaddr mod 4096, still ends within its pages and is the same bytes. */
  lemma SuppliedAlone(f: File, i: nat, ph: Phdr)
    requires IsSegment(f, i, ph) && ph.memsz > 0
    requires ph.vaddr % PAGE + ph.memsz > PAGE * Pages(ph) ==> TailFree(f, ph)
    ensures (forall k :: 0 <= k < ph.memsz ==> Supplied(f, ph, k)) <==>
      && ph.vaddr % PAGE + ph.memsz <= PAGE * Pages(ph)
      && forall k :: 0 <= k < ph.memsz ==> SameShifted(f, ph, k)
  {
    hide InBounds, LoadsUpTo, Content, OnTail, PhdrAt;
    if ph.vaddr % PAGE + ph.memsz > PAGE * Pages(ph) {
      assert !Supplied(f, ph, ph.memsz - 1);
    } else {
      assert forall k :: 0 <= k < ph.memsz ==> (Supplied(f, ph, k) <==> SameShifted(f, ph, k));
    }
  }

  ghost predicate SameShifted(f: File, ph: Phdr, k: nat)
    requires ph.offset + ph.filesz <= |f|
  {
    Content(f, ph, ph.vaddr % PAGE + k) == Content(f, ph, k)
  }

  lemma LoadedTables(s: Space, f: File, frames: seq<nat>)
    requires InBounds(f) && Loaded(s, Loads(f), frames)
    ensures TablesOk(s)
  {
  }

  lemma SegmentFile(f: File, i: nat, ph: Phdr)
    requires IsSegment(f, i, ph)
    ensures InBounds(f) && ph.offset + ph.filesz <= |f|
  {
  }

  // ---- the loader ----

  class Loader {
    var space: AddressSpace?
    ghost var frames: seq<nat>

    constructor ()
      ensures space == null && frames == []
    {
      space, frames := null, [];
    }

    /** The rights of a segment, flag by flag. */
    static method Rights(ph: Phdr) returns (flags: bv32)
      ensures flags == SegFlags(ph)
    {
      flags := VM_USER;
      if HasBit(ph.flags, 1) {
        flags := flags | VM_EXECUTABLE;
      }
      if HasBit(ph.flags, 2) {
        flags := flags | VM_WRITABLE;
      }
      if HasBit(ph.flags, 4) {
        flags := flags | VM_READABLE;
      }
    }

    /** The bytes of one page: zeroed, then as much of the file as is left copied in. */
    static method FillPage(f: File, ph: Phdr, k: nat) returns (page: seq<byte>)
      requires ph.offset + ph.filesz <= |f|
      ensures page == PageBytes(f, ph, k)
    {
      var offset := PAGE * k;
      page := seq<byte>(PAGE, j => 0);
      if offset < ph.filesz {
        var n := if ph.filesz - offset < PAGE then ph.filesz - offset else PAGE;
        var src := ph.offset + offset;
        page := f[src..src + n] + page[n..];
      }
      assert forall j :: 0 <= j < PAGE ==> page[j] == Content(f, ph, PAGE * k + j);
    }

    /** Allocate, fill and map one page. */
    method LoadPage(virt: nat, bytes: seq<byte>, flags: bv32, ghost ls: seq<Load>, ghost total: nat, ghost disjoint: bool)
      returns (res: int)
      requires space != null && virt < VIRT_LIMIT && Progress(space.View(), ls, frames, total, disjoint)
      requires disjoint ==> PageDisjoint(ls + [Load(virt / PAGE, flags, bytes)])
      modifies this`frames, space, space.pages`free
      ensures SpaceOk(space.View()) && (res == 0 || res == ENOMEM)
      ensures res == 0 <==> Cost(ls + [Load(virt / PAGE, flags, bytes)]) <= total
      ensures res == 0 ==> Progress(space.View(), ls + [Load(virt / PAGE, flags, bytes)], frames, total, disjoint)
    {
      hide SpaceOk, Progress, MappedPage, PageDisjoint, Cost, Missing;
      ghost var s, l := space.View(), Load(virt / PAGE, flags, bytes);
      ProgressSpace(s, ls, frames, total, disjoint);
      PagesReal(s);
      PageBound(virt);
      ProgressNext(s, ls, frames, total, disjoint, l);
      var page := space.pages.Alloc();
      if page == 0 {
        assert space.View() == s;
        return ENOMEM;
      }
      space.mem := space.mem[page := Data(bytes)];
      assert space.View() == Filled(s, bytes);
      if disjoint {
        frames := frames + [page];
      }
      res := space.MapPage(virt, page, flags);
    }

    /** The loop over the pages of one segment; `done` are the loads before it. */
    method LoadSegment(f: File, ph: Phdr, ghost done: seq<Load>, ghost total: nat, ghost disjoint: bool) returns (res: int)
      requires space != null && ph.kind == PT_LOAD && SegInBounds(f, ph) && Progress(space.View(), done, frames, total, disjoint)
      requires disjoint ==> PageDisjoint(done + SegLoads(f, ph, Pages(ph)))
      modifies this`frames, space, space.pages`free
      ensures SpaceOk(space.View()) && (res == 0 || res == ENOMEM)
      ensures res == 0 <==> Cost(done + SegLoads(f, ph, Pages(ph))) <= total
      ensures res == 0 ==> Progress(space.View(), done + SegLoads(f, ph, Pages(ph)), frames, total, disjoint)
    {
      hide SpaceOk, Progress, PageDisjoint, PageBytes, SegFlags, Cost;
      var flags := Rights(ph);
      var offset := 0;
      ghost var k := 0;
      PagesEnough(ph);
      ProgressSpace(space.View(), done, frames, total, disjoint);
      assert done + SegLoads(f, ph, 0) == done;
      while offset < ph.memsz
        invariant offset == PAGE * k && k <= Pages(ph) && Cost(done + SegLoads(f, ph, k)) <= total
        invariant Progress(space.View(), done + SegLoads(f, ph, k), frames, total, disjoint)
        decreases ph.memsz + PAGE - offset
      {
        NextLoad(f, ph, k, done);
        var bytes := FillPage(f, ph, offset / PAGE);
        res := LoadPage(ph.vaddr + offset, bytes, flags, done + SegLoads(f, ph, k), total, disjoint);
        if res < 0 {
          CostPrefix(done + SegLoads(f, ph, k + 1), done + SegLoads(f, ph, Pages(ph)));
          return;
        }
        offset, k := offset + PAGE, k + 1;
      }
      ProgressSpace(space.View(), done + SegLoads(f, ph, k), frames, total, disjoint);
      return 0;
    }

    /** `elf_load`: the identification is checked, then the header, then every loadable
        segment is brought in. It runs out of memory exactly when the pages are fewer than
        the loads, the root table and a table per region cost. */
    method ElfLoad(f: File, memory: map<nat, Page>, pages: PageAllocator) returns (res: int, entry: nat)
      requires |f| >= EHDR_SIZE && (GoodIdent(f) && GoodCompat(f) ==> InBounds(f))
      requires NoDup(pages.free) && forall p :: p in pages.free ==> PageOk(p)
      modifies this, pages`free
      ensures entry == Le(f, 24, 8)
      ensures res == -13 <==> !GoodIdent(f)
      ensures res == -22 <==> GoodIdent(f) && !GoodCompat(f)
      ensures res == -12 <==> GoodIdent(f) && GoodCompat(f) && |old(pages.free)| < Cost(Loads(f))
      ensures res in {0, -12, -13, -22}
      ensures res == 0 ==> space != null && fresh(space) && SpaceOk(space.View())
      ensures res == 0 && PageDisjoint(Loads(f)) ==> Loaded(space.View(), Loads(f), frames)
    {
      hide Loaded, Progress, SpaceOk, InBounds, Loads, Cost, NoDup, Fresh, GoodIdent, GoodCompat, Le;
      entry := Le(f, 24, 8);
      if !GoodIdent(f) {
        return EACCES, entry;
      }
      if !GoodCompat(f) {
        return EINVAL, entry;
      }
      CostPositive(Loads(f));
      ghost var all := pages.free;
      assert all != [] ==> all[0] in all;
      var table := pages.Alloc();
      if table == 0 {
        return ENOMEM, entry;
      }
      FirstApart(all);
      frames := [];
      space := new AddressSpace(memory, table, pages);
      ProgressFresh(space.View(), PageDisjoint(Loads(f)));
      res := LoadSegments(f, |all|);
    }

    /** The loop over the program headers. */
    method LoadSegments(f: File, ghost total: nat) returns (res: int)
      requires InBounds(f) && space != null
      requires Progress(space.View(), [], frames, total, PageDisjoint(Loads(f)))
      modifies this`frames, space, space.pages`free
      ensures SpaceOk(space.View()) && (res == 0 || res == ENOMEM)
      ensures res == 0 <==> Cost(Loads(f)) <= total
      ensures res == 0 && PageDisjoint(Loads(f)) ==> Loaded(space.View(), Loads(f), frames)
    {
      hide Progress, SpaceOk, Le, PageDisjoint, PhdrAt, Cost;
      ghost var disjoint := PageDisjoint(Loads(f));
      var i := 0;
      ProgressSpace(space.View(), [], frames, total, disjoint);
      while i < PhNum(f)
        invariant i <= PhNum(f) && Cost(LoadsUpTo(f, i)) <= total
        invariant Progress(space.View(), LoadsUpTo(f, i), frames, total, disjoint)
      {
        var ph := PhdrAt(f, i);
        assert SegInBounds(f, ph);
        if ph.kind == PT_LOAD {
          if disjoint {
            DisjointPrefix(f, i + 1);
          }
          res := LoadSegment(f, ph, LoadsUpTo(f, i), total, disjoint);
          if res < 0 {
            LoadsPrefix(f, i + 1, PhNum(f));
            CostPrefix(LoadsUpTo(f, i + 1), Loads(f));
            return;
          }
        } else {
          assert LoadsUpTo(f, i + 1) == LoadsUpTo(f, i);
        }
        i := i + 1;
      }
      ProgressSpace(space.View(), Loads(f), frames, total, disjoint);
      return 0;
    }
  }

  /** What holds between two pages: the loads so far are paid for, and, if no page comes
      twice, all in place. */
  ghost predicate Progress(s: Space, ls: seq<Load>, frames: seq<nat>, total: nat, disjoint: bool) {
    SpaceOk(s) && Paid(s, ls, total) && (disjoint ==> Loaded(s, ls, frames))
  }

  lemma ProgressFresh(s: Space, disjoint: bool)
    requires Fresh(s)
    ensures Progress(s, [], [], |s.free| + 1, disjoint)
  {
    hide Loaded, Paid, TablesOk, FreeOk;
    LoadedFresh(s);
    PaidFresh(s);
  }

  lemma CostPositive(ls: seq<Load>)
    ensures Cost(ls) >= 1
  {
  }

  lemma ProgressSpace(s: Space, ls: seq<Load>, frames: seq<nat>, total: nat, disjoint: bool)
    requires Progress(s, ls, frames, total, disjoint)
    ensures SpaceOk(s) && Cost(ls) <= total && (disjoint ==> Loaded(s, ls, frames))
  {
  }

  lemma ProgressNext(s: Space, ls: seq<Load>, frames: seq<nat>, total: nat, disjoint: bool, l: Load)
    requires Progress(s, ls, frames, total, disjoint) && l.v < VPN_LIMIT && (disjoint ==> PageDisjoint(ls + [l]))
    ensures s.free == [] ==> total < Cost(ls + [l])
    ensures s.free != [] ==> SpaceOk(Filled(s, l.bytes))
    ensures s.free != [] ==>
      var (s', ok) := MappedPage(Filled(s, l.bytes), l.v, s.free[0], l.flags);
      && (ok <==> Cost(ls + [l]) <= total)
      && (ok ==> Progress(s', ls + [l], if disjoint then frames + [s.free[0]] else frames, total, disjoint))
  {
    hide Loaded, Paid, MappedPage, PageDisjoint, Cost, TablesOk, FreeOk;
    PayNext(s, ls, l, total);
    if s.free != [] {
      MapUpdatesOne(Filled(s, l.bytes), l.v, s.free[0], l.flags, l.v);
      if disjoint {
        LoadNext(s, ls, frames, l);
      }
    }
  }

  lemma FirstApart(q: seq<nat>)
    requires NoDup(q) && q != []
    ensures NoDup(q[1..]) && q[0] !in q[1..]
  {
  }

  lemma {:induction false} LoadsPrefix(f: File, n: nat, m: nat)
    requires InBounds(f) && n <= m <= PhNum(f)
    ensures |LoadsUpTo(f, n)| <= |LoadsUpTo(f, m)| && LoadsUpTo(f, m)[..|LoadsUpTo(f, n)|] == LoadsUpTo(f, n)
    decreases m
  {
    hide Le, PhdrAt, Pages, SegInBounds;
    if n < m {
      LoadsPrefix(f, n, m - 1);
    }
  }

  lemma DisjointPrefix(f: File, n: nat)
    requires InBounds(f) && n <= PhNum(f) && PageDisjoint(Loads(f))
    ensures PageDisjoint(LoadsUpTo(f, n))
  {
    LoadsPrefix(f, n, PhNum(f));
    hide LoadsUpTo;
    var a, b := LoadsUpTo(f, n), Loads(f);
    forall i, j | 0 <= i < j < |a| ensures a[i].v != a[j].v {
      assert b[i] == a[i] && b[j] == a[j];
    }
  }

  lemma NextLoad(f: File, ph: Phdr, k: nat, done: seq<Load>)
    requires SegInBounds(f, ph) && ph.kind == PT_LOAD && PAGE * k < ph.memsz && k <= Pages(ph)
    ensures
      var l := Load(ph.vaddr / PAGE + k, SegFlags(ph), PageBytes(f, ph, k));
      && k + 1 <= Pages(ph) && ph.vaddr + PAGE * k < VIRT_LIMIT
      && (ph.vaddr + PAGE * k) / PAGE == l.v && l.v < VPN_LIMIT
      && done + SegLoads(f, ph, k + 1) == done + SegLoads(f, ph, k) + [l]
      && (PageDisjoint(done + SegLoads(f, ph, Pages(ph))) ==> PageDisjoint(done + SegLoads(f, ph, k) + [l]))
  {
    PagesEnough(ph);
    var l := Load(ph.vaddr / PAGE + k, SegFlags(ph), PageBytes(f, ph, k));
    hide PageBytes;
    assert SegLoads(f, ph, k + 1) == SegLoads(f, ph, k) + [l];
    var all, part := done + SegLoads(f, ph, Pages(ph)), done + SegLoads(f, ph, k) + [l];
    assert all[..|part|] == part;
    if PageDisjoint(all) {
      forall i, j | 0 <= i < j < |part| ensures part[i].v != part[j].v {
        assert all[i].v != all[j].v;
      }
    }
  }
}
