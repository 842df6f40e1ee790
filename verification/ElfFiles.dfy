/** Files of one segment, built field by field, and what a program loaded from them reads. */
module ElfFiles {
  import opened Queues
  import opened Bytes
  import opened Sv39
  import opened Sv39Map
  import opened Sv39Runs
  import opened Elf
  import opened ElfFormat
  import opened ElfLoader

  // ---- loading from an empty space ----

  /** Page 1 as the root table of an empty space, and `n` free pages after it. */
  function EmptySpace(n: nat): Space {
    Space(PAGE, map[PAGE := ZeroTable()], seq(n, i requires 0 <= i < n => PAGE * (i + 2)), map[PAGE := Root])
  }

  lemma EmptyFresh(n: nat)
    requires n < 100
    ensures Fresh(EmptySpace(n))
  {
    FreshOk(EmptySpace(n));
  }

  /** Any loads of different pages can be made in a space with pages enough. */
  lemma {:induction false} LoadsSucceed(ls: seq<Load>, n: nat) returns (s: Space, frames: seq<nat>)
    requires n < 100 && Cost(ls) <= n + 1 && PageDisjoint(ls)
    requires forall i :: 0 <= i < |ls| ==> ls[i].v < VPN_LIMIT
    ensures Progress(s, ls, frames, n + 1, true)
    decreases |ls|
  {
    hide Progress, Cost, PageDisjoint, Fresh;
    if ls == [] {
      s, frames := EmptySpace(n), [];
      EmptyFresh(n);
      ProgressFresh(s, true);
    } else {
      var m := |ls| - 1;
      assert ls == ls[..m] + [ls[m]];
      FewerDisjoint(ls, m);
      CostPrefix(ls[..m], ls);
      var s0, frames0 := LoadsSucceed(ls[..m], n);
      ProgressNext(s0, ls[..m], frames0, n + 1, true, ls[m]);
      s := MappedPage(Filled(s0, ls[m].bytes), ls[m].v, s0.free[0], ls[m].flags).0;
      frames := frames0 + [s0.free[0]];
    }
  }

  lemma FewerDisjoint(ls: seq<Load>, m: nat)
    requires PageDisjoint(ls) && m <= |ls|
    ensures PageDisjoint(ls[..m])
  {
  }

  // ---- one segment ----

  const IDENT: seq<byte> := [0x7F, 0x45, 0x4C, 0x46, 2, 1, 1, 0, 0, 0, 0, 0, 0, 0, 0, 0]

  /** An executable with entry address 0x10000 and one program header right behind the header. */
  const HEADER: FileHdr := FileHdr(IDENT, 2, 243, 1, 0x10000, 64, 0, 0, 64, 56, 1, 0, 0, 0)

  /** The file header, the program header, and the segment's bytes. */
  function OneSegment(h: ProgHdr, body: seq<byte>): File {
    IDENT + Encode(FileFields(HEADER)) + Encode(ProgFields(h)) + body
  }

  ghost predicate Fits64(h: ProgHdr) {
    && h.kind < 0x1_0000_0000 && h.flags < 0x1_0000_0000
    && h.offset < 0x1_0000_0000_0000_0000 && h.vaddr < 0x1_0000_0000_0000_0000 && h.paddr < 0x1_0000_0000_0000_0000
    && h.filesz < 0x1_0000_0000_0000_0000 && h.memsz < 0x1_0000_0000_0000_0000 && h.align < 0x1_0000_0000_0000_0000
  }

  lemma Powers()
    ensures Pow256(2) == 0x1_0000 && Pow256(4) == 0x1_0000_0000 && Pow256(8) == 0x1_0000_0000_0000_0000
  {
    assert Pow256(3) == 0x100_0000 && Pow256(6) == 0x1_0000_0000_0000;
  }

  lemma OneSegmentHeader(h: ProgHdr, body: seq<byte>)
    requires Fits64(h)
    ensures
      var f := OneSegment(h, body);
      && |f| == 120 + |body| && f[120..] == body
      && GoodIdent(f) && GoodCompat(f) && PhNum(f) == 1
      && PhOff(f) + 56 <= |f| && PhdrAt(f, 0) == Phdr(h.kind, h.flags, h.offset, h.vaddr, h.filesz, h.memsz)
  {
    hide Encode, Width, Le, PhOff, PhNum, GoodIdent, GoodCompat, PhdrAt, Pow256;
    Powers();
    FileOffsets(HEADER);
    ProgOffsets(h);
    var f := OneSegment(h, body);
    assert f[..16] == IDENT && f[16..64] == Encode(FileFields(HEADER)) && f[64..120] == Encode(ProgFields(h));
    FileHdrReadsBack(f, HEADER);
    ProgHdrReadsBack(f, 0, h);
  }

  /** The loads of a file with one segment are the pages of that segment. */
  lemma SingleLoads(f: File, ph: Phdr)
    requires |f| >= EHDR_SIZE && PhNum(f) == 1 && PhOff(f) + 56 <= |f| && PhdrAt(f, 0) == ph
    requires ph.kind == PT_LOAD && ph.offset + ph.filesz <= |f| && ph.vaddr + PAGE * Pages(ph) <= VIRT_LIMIT
    ensures InBounds(f) && IsSegment(f, 0, ph) && Loads(f) == SegLoads(f, ph, Pages(ph))
    ensures PageDisjoint(Loads(f)) && forall i :: 0 <= i < |Loads(f)| ==> Loads(f)[i].v < VPN_LIMIT
  {
    hide Le, PhdrAt, PhNum, PhOff, PageBytes, SegFlags, Pages;
    assert SegInBounds(f, ph) && InBounds(f);
    assert LoadsUpTo(f, 0) == [];
    assert Loads(f) == SegLoads(f, ph, Pages(ph));
    PagesBelow(ph);
  }

  /** A file of one segment whose bytes follow the headers, loaded. */
  lemma OneSegmentLoaded(f: File, h: ProgHdr, body: seq<byte>, ph: Phdr) returns (s: Space, frames: seq<nat>)
    requires f == OneSegment(h, body) && Fits64(h) && h.kind == 1 && h.offset == 120 && h.filesz == |body|
    requires ph == Phdr(1, h.flags, 120, h.vaddr, |body|, h.memsz) && Pages(ph) <= 2
    requires ph.vaddr + PAGE * Pages(ph) <= VIRT_LIMIT
    ensures |f| == 120 + |body| && f[120..] == body && GoodIdent(f) && GoodCompat(f)
    ensures InBounds(f) && IsSegment(f, 0, ph) && Loads(f) == SegLoads(f, ph, Pages(ph))
    ensures Loaded(s, Loads(f), frames) && TablesOk(s)
  {
    hide OneSegment, LoadsUpTo, Loaded, GoodIdent, GoodCompat, InBounds, IsSegment, PageBytes, SegFlags, TablesOk, Le, PhdrAt,
      PhNum, PhOff, Pages, Cost;
    OneSegmentHeader(h, body);
    SingleLoads(f, ph);
    TwoLoadsCost(Loads(f));
    s, frames := LoadsSucceed(Loads(f), 10);
    ProgressSpace(s, Loads(f), frames, 11, true);
    LoadedTables(s, f, frames);
  }

  lemma PagesBelow(ph: Phdr)
    requires ph.vaddr + PAGE * Pages(ph) <= VIRT_LIMIT
    ensures ph.vaddr / PAGE + Pages(ph) <= VPN_LIMIT
  {
  }

  lemma TwoLoadsCost(ls: seq<Load>)
    requires |ls| <= 2
    ensures Cost(ls) <= 7
  {
    CostEmpty();
    if |ls| >= 1 {
      CostNext([], ls[0]);
      assert [] + [ls[0]] == ls[..1];
    }
    if |ls| == 2 {
      CostNext(ls[..1], ls[1]);
      assert ls[..1] + [ls[1]] == ls;
    } else {
      assert ls == ls[..|ls|];
    }
  }

  lemma CostEmpty()
    ensures Cost([]) == 1
  {
    assert Tops([]) == {} && Branches([]) == {};
  }

  // ---- a segment longer in memory than in the file ----

  /** Two bytes in the file, two pages in memory: after the two bytes the program reads zeros
      to the end of the second page, and past that it faults. */
  lemma TailReadsZero(f: File, h: ProgHdr, body: seq<byte>) returns (s: Space, frames: seq<nat>)
    requires h == ProgHdr(1, 6, 120, 0x10000, 0, 2, 8192, 4096) && body == [65, 66] && f == OneSegment(h, body)
    ensures |f| >= EHDR_SIZE && GoodIdent(f) && GoodCompat(f) && InBounds(f) && Loaded(s, Loads(f), frames)
    ensures Read(s, 0x10000) == Some(65) && Read(s, 0x10001) == Some(66)
    ensures forall a :: 0x10002 <= a < 0x12000 ==> Read(s, a) == Some(0)
    ensures Read(s, 0x12000) == None
  {
    hide OneSegment, LoadsUpTo, Loaded, Read, GoodIdent, GoodCompat, InBounds, IsSegment, PageBytes, SegFlags, TablesOk;
    var ph := Phdr(1, 6, 120, 0x10000, 2, 8192);
    s, frames := OneSegmentLoaded(f, h, body, ph);
    assert f[120] == f[120..][0] && f[121] == f[120..][1];
    forall a | 0x10000 <= a < 0x12000
      ensures Read(s, a) == Some(if a == 0x10000 then 65 else if a == 0x10001 then 66 else 0)
    {
      AlignedImage(s, f, frames, 0, ph, a - 0x10000);
    }
    assert forall j :: !OnTail(f, ph, j);
    TailFaults(s, f, frames, ph, 0x12000);
  }

  // ---- a segment that does not start with its page ----

  /** Two bytes that should start at the last byte of a page: the program reads zero in place
      of the first and faults in place of the second. */
  lemma ShiftedImageWrong(f: File, h: ProgHdr, body: seq<byte>) returns (s: Space, frames: seq<nat>)
    requires h == ProgHdr(1, 4, 120, 0x10FFF, 0, 2, 2, 4096) && body == [65, 66] && f == OneSegment(h, body)
    ensures |f| >= EHDR_SIZE && GoodIdent(f) && GoodCompat(f) && InBounds(f) && Loaded(s, Loads(f), frames)
    ensures f[120..] == [65, 66] && Read(s, 0x10FFF) == Some(0) && Read(s, 0x11000) == None
  {
    hide OneSegment, LoadsUpTo, Loaded, Read, GoodIdent, GoodCompat, InBounds, IsSegment, PageBytes, SegFlags, TablesOk;
    var ph := Phdr(1, 4, 120, 0x10FFF, 2, 2);
    s, frames := OneSegmentLoaded(f, h, body, ph);
    assert forall j :: !OnTail(f, ph, j);
    ShiftedRead(s, f, frames, 0, ph, 0);
    ShiftedRead(s, f, frames, 0, ph, 1);
  }
}
