/** The program loader of `src/elf.c`, for 64-bit little-endian ELF executables; chapter 5
    (Program Header, Program Loading) of the System V gABI says what it should do. */
module Elf {
  import opened Queues
  import opened Bytes
  import opened Sv39
  import opened Sv39Map
  import opened Sv39Runs

  const PT_LOAD: nat := 1
  const EHDR_SIZE: nat := 64
  const PHDR_SIZE: nat := 56

  type File = seq<byte>

  // ---- headers ----

  predicate GoodIdent(f: File)
    requires |f| >= EHDR_SIZE
  {
    f[0] == 0x7F && f[1] == 0x45 && f[2] == 0x4C && f[3] == 0x46
  }

  /** 64-bit, little-endian, version 1, and an executable. */
  predicate GoodCompat(f: File)
    requires |f| >= EHDR_SIZE
  {
    f[4] == 2 && f[5] == 1 && f[6] == 1 && Le(f, 16, 2) == 2
  }

  function PhOff(f: File): nat
    requires |f| >= EHDR_SIZE
  {
    Le(f, 32, 8)
  }

  function PhNum(f: File): nat
    requires |f| >= EHDR_SIZE
  {
    Le(f, 56, 2)
  }

  datatype Phdr = Phdr(kind: nat, flags: nat, offset: nat, vaddr: nat, filesz: nat, memsz: nat)

  function PhdrAt(f: File, i: nat): Phdr
    requires |f| >= EHDR_SIZE && PhOff(f) + PHDR_SIZE * (i + 1) <= |f|
  {
    var at := PhOff(f) + PHDR_SIZE * i;
    Phdr(Le(f, at, 4), Le(f, at + 4, 4), Le(f, at + 8, 8), Le(f, at + 16, 8), Le(f, at + 32, 8), Le(f, at + 40, 8))
  }

  /** The bytes the loader reads are in the file, and segments end below the limit of
      the virtual address space. */
  ghost predicate InBounds(f: File) {
    && |f| >= EHDR_SIZE
    && PhOff(f) + PHDR_SIZE * PhNum(f) <= |f|
    && forall i :: 0 <= i < PhNum(f) ==> SegInBounds(f, PhdrAt(f, i))
  }

  ghost predicate SegInBounds(f: File, ph: Phdr) {
    ph.kind == PT_LOAD ==> ph.offset + ph.filesz <= |f| && ph.vaddr + PAGE * Pages(ph) <= VIRT_LIMIT
  }

  // ---- what a segment should become ----

  function Pages(ph: Phdr): nat {
    (ph.memsz + PAGE - 1) / PAGE
  }

  function HasBit(flags: nat, bit: nat): bool
    requires bit > 0
  {
    flags / bit % 2 == 1
  }

  /** User access, plus the rights of the segment's X, W and R flags (bits 0, 1 and 2). */
  function SegFlags(ph: Phdr): bv32 {
    VM_USER
    | (if HasBit(ph.flags, 1) then VM_EXECUTABLE else 0)
    | (if HasBit(ph.flags, 2) then VM_WRITABLE else 0)
    | (if HasBit(ph.flags, 4) then VM_READABLE else 0)
  }

  /** Byte `t` of the segment's image: from the file up to its file size, then zero. */
  function Content(f: File, ph: Phdr, t: nat): byte
    requires ph.offset + ph.filesz <= |f|
  {
    if t < ph.filesz then f[ph.offset + t] else 0
  }

  function PageBytes(f: File, ph: Phdr, k: nat): seq<byte>
    requires ph.offset + ph.filesz <= |f|
  {
    seq<byte>(PAGE, j requires 0 <= j < PAGE => Content(f, ph, PAGE * k + j))
  }

  /** One page to load: where, with which rights, with which bytes. */
  datatype Load = Load(v: nat, flags: bv32, bytes: seq<byte>)

  function SegLoads(f: File, ph: Phdr, n: nat): seq<Load>
    requires ph.offset + ph.filesz <= |f|
  {
    seq(n, k requires 0 <= k < n => Load(ph.vaddr / PAGE + k, SegFlags(ph), PageBytes(f, ph, k)))
  }

  /** The pages of the first `n` program headers, in loading order. */
  ghost function LoadsUpTo(f: File, n: nat): (r: seq<Load>)
    requires InBounds(f) && n <= PhNum(f)
    ensures forall i :: 0 <= i < |r| ==> |r[i].bytes| == PAGE
  {
    if n == 0 then []
    else
      var ph := PhdrAt(f, n - 1);
      assert SegInBounds(f, ph);
      LoadsUpTo(f, n - 1) + (if ph.kind == PT_LOAD then SegLoads(f, ph, Pages(ph)) else [])
  }

  ghost function Loads(f: File): seq<Load>
    requires InBounds(f)
  {
    LoadsUpTo(f, PhNum(f))
  }

  /** No two segments share a page. */
  ghost predicate PageDisjoint(ls: seq<Load>) {
    forall i, j :: 0 <= i < j < |ls| ==> ls[i].v != ls[j].v
  }

  // ---- what the loader has achieved ----

  /** Page `l` is mapped to frame `fr`, which holds its bytes and is nobody else's. */
  ghost predicate Holds(s: Space, l: Load, fr: nat)
    requires TablesOk(s)
  {
    && l.v < VPN_LIMIT
    && Entry(s, l.v) == Pte(PTE_V | Perms(l.flags), fr / PAGE)
    && PageOk(fr) && fr !in s.role && fr !in s.free
    && fr in s.mem && s.mem[fr] == Data(l.bytes)
  }

  ghost predicate Loaded(s: Space, ls: seq<Load>, frames: seq<nat>) {
    && SpaceOk(s)
    && |frames| == |ls| && NoDup(frames)
    && (forall i :: 0 <= i < |ls| ==> Holds(s, ls[i], frames[i]))
    && (forall w: nat :: w < VPN_LIMIT && (forall i :: 0 <= i < |ls| ==> ls[i].v != w) ==> Entry(s, w) == ZERO)
  }

  /** A page is allocated and filled. */
  function Filled(s: Space, bytes: seq<byte>): Space
    requires s.free != []
  {
    s.(free := s.free[1..], mem := s.mem[s.free[0] := Data(bytes)])
  }

  lemma FilledOk(s: Space, bytes: seq<byte>)
    requires SpaceOk(s) && s.free != []
    ensures SpaceOk(Filled(s, bytes)) && s.free[0] !in s.role && s.free[0] !in s.free[1..] && PageOk(s.free[0])
  {
    var s1 := Filled(s, bytes);
    assert s.free[0] in s.free;
    assert s.free == [s.free[0]] + s.free[1..];
    forall t | t in s.role ensures s1.mem[t] == s.mem[t] {
      TableOf(s, t);
    }
    forall t, i | t in s.role && 0 <= i < ENTRIES ensures IsTable(s1, t) && At(s1, t, i) == At(s, t, i) {
      TableOf(s, t);
    }
  }

  lemma FilledEntry(s: Space, bytes: seq<byte>, w: nat)
    requires SpaceOk(s) && s.free != [] && w < VPN_LIMIT
    ensures TablesOk(Filled(s, bytes)) && Entry(Filled(s, bytes), w) == Entry(s, w)
    ensures Walks(Filled(s, bytes), w) == Walks(s, w)
    ensures HasTop(Filled(s, bytes), w) == HasTop(s, w)
  {
    FilledOk(s, bytes);
    WalkStops(s, w);
    WalkStops(Filled(s, bytes), w);
  }

  /** The entry of page `w` in an empty or loaded space. */
  lemma LoadedFresh(s: Space)
    requires Fresh(s)
    ensures Loaded(s, [], [])
  {
    forall w: nat | w < VPN_LIMIT ensures Entry(s, w) == ZERO {
      FreshSpace(s, w);
    }
  }

  lemma NewEntry(fr: nat, flags: bv32)
    requires PageOk(fr)
    ensures InitPte(ZERO, fr, flags) == Pte(PTE_V | Perms(flags), fr / PAGE)
  {
    OrZero(PTE_V);
  }

  /** One pass of the inner loop: the next page is loaded and the earlier ones stay. */
  lemma LoadNext(s: Space, ls: seq<Load>, frames: seq<nat>, l: Load)
    requires Loaded(s, ls, frames) && s.free != [] && l.v < VPN_LIMIT && PageDisjoint(ls + [l])
    ensures SpaceOk(Filled(s, l.bytes))
    ensures MappedPage(Filled(s, l.bytes), l.v, s.free[0], l.flags).1 ==>
      Loaded(MappedPage(Filled(s, l.bytes), l.v, s.free[0], l.flags).0, ls + [l], frames + [s.free[0]])
  {
    var fr, s1 := s.free[0], Filled(s, l.bytes);
    FilledOk(s, l.bytes);
    var (s2, ok) := MappedPage(s1, l.v, fr, l.flags);
    MapUpdatesOne(s1, l.v, fr, l.flags, l.v);
    var ls', frames' := ls + [l], frames + [fr];
    forall i | 0 <= i < |ls| ensures ls[i].v != l.v {
      assert ls'[i].v != ls'[|ls|].v;
    }
    if ok {
      assert forall i :: 0 <= i < |frames| ==> frames[i] != fr by { FramesNotFree(s, ls, frames); }
      hide MappedPage;
      forall i | 0 <= i < |ls'| ensures Holds(s2, ls'[i], frames'[i]) {
        if i < |ls| {
          KeepsHolding(s, l, ls[i], frames[i]);
        } else {
          NewHolding(s, l);
        }
      }
      forall w: nat | w < VPN_LIMIT && forall i :: 0 <= i < |ls'| ==> ls'[i].v != w ensures Entry(s2, w) == ZERO {
        assert ls'[|ls|] == l;
        assert forall i :: 0 <= i < |ls| ==> ls'[i] == ls[i];
        MapUpdatesOne(s1, l.v, fr, l.flags, w);
        FilledEntry(s, l.bytes, w);
      }
    }
  }

  lemma FramesNotFree(s: Space, ls: seq<Load>, frames: seq<nat>)
    requires Loaded(s, ls, frames) && s.free != []
    ensures forall i :: 0 <= i < |frames| ==> frames[i] != s.free[0]
  {
    forall i | 0 <= i < |frames| ensures frames[i] != s.free[0] {
      assert Holds(s, ls[i], frames[i]);
      assert s.free[0] in s.free;
    }
  }

  /** A loaded page survives the loading of another one. */
  lemma KeepsHolding(s: Space, l: Load, m: Load, fr: nat)
    requires SpaceOk(s) && s.free != [] && l.v < VPN_LIMIT && Holds(s, m, fr) && m.v != l.v
    ensures SpaceOk(Filled(s, l.bytes))
    ensures
      var s2 := MappedPage(Filled(s, l.bytes), l.v, s.free[0], l.flags).0;
      TablesOk(s2) && Holds(s2, m, fr)
  {
    FilledOk(s, l.bytes);
    var s1 := Filled(s, l.bytes);
    var s2 := MappedPage(s1, l.v, s.free[0], l.flags).0;
    var k := MapPages(s1, l.v, s.free[0], l.flags);
    MapUpdatesOne(s1, l.v, s.free[0], l.flags, m.v);
    FilledEntry(s, l.bytes, m.v);
    hide MappedPage, Entry, TablesOk;
    assert s.free[0] in s.free;
    NotTaken(s1, s2, k, fr);
  }

  /** A page that is neither a table nor free is untouched by a map. */
  lemma NotTaken(s: Space, s': Space, k: nat, p: nat)
    requires Grew(s, s', k) && p !in s.role && p !in s.free
    ensures p !in s'.role && p !in s'.free
    ensures (p in s'.mem <==> p in s.mem) && (p in s.mem ==> s'.mem[p] == s.mem[p])
  {
  }

  lemma NewHolding(s: Space, l: Load)
    requires SpaceOk(s) && s.free != [] && l.v < VPN_LIMIT && Entry(s, l.v) == ZERO
    ensures SpaceOk(Filled(s, l.bytes))
    ensures
      var (s2, ok) := MappedPage(Filled(s, l.bytes), l.v, s.free[0], l.flags);
      TablesOk(s2) && (ok ==> Holds(s2, l, s.free[0]))
  {
    hide MappedPage, Entry, Walks, TablesOk, SpaceOk, Missing, Perms, InitPte, Grew;
    OfSpace(s);
    FilledOk(s, l.bytes);
    var s1 := Filled(s, l.bytes);
    var s2 := MappedPage(s1, l.v, s.free[0], l.flags).0;
    var k := MapPages(s1, l.v, s.free[0], l.flags);
    MapUpdatesOne(s1, l.v, s.free[0], l.flags, l.v);
    OfSpace(s2);
    FilledEntry(s, l.bytes, l.v);
    NewEntry(s.free[0], l.flags);
    NotTaken(s1, s2, k, s.free[0]);
  }

  // ---- what loading costs ----

  /** The 1 GiB and the 2 MiB regions that hold a page of `ls`. */
  ghost function Tops(ls: seq<Load>): set<nat> {
    set l | l in ls :: I0(l.v)
  }

  ghost function Branches(ls: seq<Load>): set<(nat, nat)> {
    set l | l in ls :: (I0(l.v), I1(l.v))
  }

  /** The root table, the pages themselves, and a table for each region. */
  ghost function Cost(ls: seq<Load>): nat {
    1 + |ls| + |Tops(ls)| + |Branches(ls)|
  }

  lemma CostNext(ls: seq<Load>, l: Load)
    ensures Tops(ls + [l]) == Tops(ls) + {I0(l.v)} && Branches(ls + [l]) == Branches(ls) + {(I0(l.v), I1(l.v))}
    ensures Cost(ls + [l]) == Cost(ls) + 1 + (if I0(l.v) in Tops(ls) then 0 else 1) + (if (I0(l.v), I1(l.v)) in Branches(ls) then 0 else 1)
  {
    hide I0, I1;
    assert forall m :: m in ls + [l] <==> m in ls || m == l;
    assert Tops(ls + [l]) == Tops(ls) + {I0(l.v)};
    assert Branches(ls + [l]) == Branches(ls) + {(I0(l.v), I1(l.v))};
    hide Tops, Branches;
    AddOne(Tops(ls), I0(l.v));
    AddOne(Branches(ls), (I0(l.v), I1(l.v)));
  }

  lemma AddOne<T>(a: set<T>, x: T)
    ensures |a + {x}| == |a| + if x in a then 0 else 1
  {
    if x in a {
      assert a + {x} == a;
    }
  }

  lemma {:induction false} CostPrefix(a: seq<Load>, b: seq<Load>)
    requires a <= b
    ensures Cost(a) <= Cost(b)
    decreases |b|
  {
    hide Cost, Tops, Branches;
    if |a| < |b| {
      var n := |b| - 1;
      CostPrefix(a, b[..n]);
      CostNext(b[..n], b[n]);
      assert b[..n] + [b[n]] == b;
    } else {
      assert a == b;
    }
  }

  /** Of `total` pages exactly those that `ls` costs are in use, and the tables there are
      are those of the regions of `ls`. */
  ghost predicate Paid(s: Space, ls: seq<Load>, total: nat)
    requires TablesOk(s)
  {
    && |s.free| + Cost(ls) == total
    && (forall w :: 0 <= w < VPN_LIMIT ==> (HasTop(s, w) <==> I0(w) in Tops(ls)))
    && (forall w :: 0 <= w < VPN_LIMIT ==> (Walks(s, w) <==> (I0(w), I1(w)) in Branches(ls)))
  }

  lemma PaidFresh(s: Space)
    requires Fresh(s)
    ensures Paid(s, [], |s.free| + 1)
  {
    forall w: nat | w < VPN_LIMIT ensures !HasTop(s, w) && !Walks(s, w) {
      FreshSpace(s, w);
      WalkStops(s, w);
    }
  }

  /** Loading one more page succeeds exactly when the pages are enough for it. */
  lemma PayNext(s: Space, ls: seq<Load>, l: Load, total: nat)
    requires SpaceOk(s) && Paid(s, ls, total) && l.v < VPN_LIMIT
    ensures s.free == [] ==> total < Cost(ls + [l])
    ensures s.free != [] ==> SpaceOk(Filled(s, l.bytes))
    ensures s.free != [] ==>
      var (s', ok) := MappedPage(Filled(s, l.bytes), l.v, s.free[0], l.flags);
      (ok <==> Cost(ls + [l]) <= total) && (ok ==> TablesOk(s') && Paid(s', ls + [l], total))
  {
    CostNext(ls, l);
    hide SpaceOk, TablesOk, FreeOk, MappedPage, Entry, Walks, HasTop, I0, I1, Tops, Branches, Cost, Grew;
    OfSpace(s);
    if s.free != [] {
      FilledOk(s, l.bytes);
      FilledEntry(s, l.bytes, l.v);
      var s1 := Filled(s, l.bytes);
      OfSpace(s1);
      var k := MapPages(s1, l.v, s.free[0], l.flags);
      BranchHasTop(ls, l);
      var (s', ok) := MappedPage(s1, l.v, s.free[0], l.flags);
      MapUpdatesOne(s1, l.v, s.free[0], l.flags, l.v);
      OfSpace(s');
      if ok {
        GrewFree(s1, s', k);
        forall w | 0 <= w < VPN_LIMIT
          ensures HasTop(s', w) <==> I0(w) in Tops(ls + [l])
          ensures Walks(s', w) <==> (I0(w), I1(w)) in Branches(ls + [l])
        {
          FilledEntry(s, l.bytes, w);
          MapMids(s1, l.v, s.free[0], l.flags, w);
          MapUpdatesOne(s1, l.v, s.free[0], l.flags, w);
        }
      }
    }
  }

  lemma GrewFree(s: Space, s': Space, k: nat)
    requires Grew(s, s', k)
    ensures |s'.free| == |s.free| - k
  {
  }

  lemma BranchHasTop(ls: seq<Load>, l: Load)
    ensures (I0(l.v), I1(l.v)) in Branches(ls) ==> I0(l.v) in Tops(ls)
  {
    hide I0, I1;
  }
}
