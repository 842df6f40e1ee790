/** What the allocator guarantees over every sequence of calls. */
module KallocTheorems {
  import opened Queues
  import opened Bytes
  import opened PageAlloc
  import opened Kalloc

  // ---- the whole heap ----

  /** Every page of the heap is in exactly one hand: on the free list, inside `kmalloc`,
      or with another client; and the block list is in order. */
  ghost predicate HeapOk(h: Heap, base: nat, n: nat) {
    && BlocksOk(h.blocks, h.taken)
    && multiset(h.free + h.taken + h.lent) == multiset(AllPages(base, n))
  }

  datatype Label = Malloc(n: nat) | Free(k: nat) | PageAlloc | PageFree(i: nat)

  /** A request must not wrap the 64-bit size; only allocated blocks and pages held by
      other clients are given back. */
  predicate Enabled(h: Heap, l: Label) {
    match l
    case Malloc(n) => n + HDR < WORD
    case Free(k) => k < |h.blocks| && h.blocks[k].used
    case PageAlloc => true
    case PageFree(i) => i < |h.lent|
  }

  function Next(h: Heap, l: Label): Heap
    requires Enabled(h, l)
  {
    match l
    case Malloc(n) => Kalloc.Malloc(h, n).0
    case Free(k) => h.(blocks := Released(h.blocks, k))
    case PageAlloc => if h.free == [] then h else h.(free := h.free[1..], lent := h.lent + [h.free[0]])
    case PageFree(i) => h.(free := h.free + [h.lent[i]], lent := h.lent[..i] + h.lent[i + 1..])
  }

  lemma MallocBlocks(h: Heap, n: nat)
    requires BlocksOk(h.blocks, h.taken) && n + HDR < WORD
    ensures BlocksOk(Kalloc.Malloc(h, n).0.blocks, Kalloc.Malloc(h, n).0.taken)
  {
    hide Placed, Cover;
    var size := n + HDR;
    var k := FirstFit(h.blocks, size);
    if size <= PAGE {
      if k < |h.blocks| {
        PlacedOk(h.blocks, h.taken, k, n);
      } else if h.free != [] {
        var p := h.free[0];
        var bs := h.blocks + [PageBlock(p)];
        CoverConcat(h.blocks, [PageBlock(p)]);
        CoverConcat(PageBlocks(h.taken), [PageBlock(p)]);
        PageBlocksAppend(h.taken, p);
        forall i | 0 <= i < |bs| - 1 && i != k - 1 ensures !Mergeable(bs[i], bs[i + 1]) {
          assert !Mergeable(h.blocks[i], h.blocks[i + 1]);
        }
        PlacedOk(bs, h.taken + [p], k, n);
      }
    }
  }

  /** Moving the first free page to the end of another hand loses no page. */
  lemma PageMoves(free: seq<nat>, taken: seq<nat>, lent: seq<nat>)
    requires free != []
    ensures multiset(free[1..] + (taken + [free[0]]) + lent) == multiset(free + taken + lent)
    ensures multiset(free[1..] + taken + (lent + [free[0]])) == multiset(free + taken + lent)
  {
    assert free == [free[0]] + free[1..];
  }

  lemma PageReturns(free: seq<nat>, taken: seq<nat>, lent: seq<nat>, i: nat)
    requires i < |lent|
    ensures multiset(free + [lent[i]] + taken + (lent[..i] + lent[i + 1..])) == multiset(free + taken + lent)
  {
    assert lent == lent[..i] + [lent[i]] + lent[i + 1..];
  }

  lemma MallocOk(h: Heap, m: nat, base: nat, n: nat)
    requires HeapOk(h, base, n) && m + HDR < WORD
    ensures HeapOk(Kalloc.Malloc(h, m).0, base, n)
  {
    hide BlocksOk, Placed, AllPages, FirstFit;
    MallocBlocks(h, m);
    if h.free != [] {
      PageMoves(h.free, h.taken, h.lent);
    }
  }

  lemma NextOk(h: Heap, l: Label, base: nat, n: nat)
    requires HeapOk(h, base, n) && Enabled(h, l)
    ensures HeapOk(Next(h, l), base, n)
  {
    hide HeapOk, Released, Kalloc.Malloc;
    match l {
      case Malloc(m) => MallocOk(h, m, base, n);
      case Free(k) => FreedHeapOk(h, k, base, n);
      case PageAlloc => LentOk(h, base, n);
      case PageFree(i) => GivenOk(h, i, base, n);
    }
  }

  lemma FreedHeapOk(h: Heap, k: nat, base: nat, n: nat)
    requires HeapOk(h, base, n) && k < |h.blocks| && h.blocks[k].used
    ensures HeapOk(h.(blocks := Released(h.blocks, k)), base, n)
  {
    hide BlocksOk, Released, AllPages;
    ReleasedOk(h.blocks, h.taken, k);
  }

  lemma LentOk(h: Heap, base: nat, n: nat)
    requires HeapOk(h, base, n)
    ensures HeapOk(if h.free == [] then h else h.(free := h.free[1..], lent := h.lent + [h.free[0]]), base, n)
  {
    hide BlocksOk, AllPages;
    if h.free != [] {
      PageMoves(h.free, h.taken, h.lent);
    }
  }

  lemma GivenOk(h: Heap, i: nat, base: nat, n: nat)
    requires HeapOk(h, base, n) && i < |h.lent|
    ensures HeapOk(h.(free := h.free + [h.lent[i]], lent := h.lent[..i] + h.lent[i + 1..]), base, n)
  {
    hide BlocksOk, AllPages;
    PageReturns(h.free, h.taken, h.lent, i);
  }

  ghost predicate Leads(h: Heap, ls: seq<Label>, h': Heap)
    decreases |ls|
  {
    if ls == [] then h' == h else Enabled(h, ls[0]) && Leads(Next(h, ls[0]), ls[1..], h')
  }

  /** After any sequence of calls from boot the heap is in order. */
  lemma {:induction false} HeapOverRuns(h: Heap, ls: seq<Label>, h': Heap, base: nat, n: nat)
    requires HeapOk(h, base, n) && Leads(h, ls, h')
    ensures HeapOk(h', base, n)
    decreases |ls|
  {
    if ls != [] {
      NextOk(h, ls[0], base, n);
      hide HeapOk;
      HeapOverRuns(Next(h, ls[0]), ls[1..], h', base, n);
    }
  }

  lemma BootHeap(base: nat, n: nat)
    ensures HeapOk(Heap([], AllPages(base, n), [], []), base, n)
  {
    assert AllPages(base, n) + [] + [] == AllPages(base, n);
  }

  // ---- no overlap ----

  lemma {:induction false} NoDupCount(q: seq<nat>, x: nat)
    requires NoDup(q)
    ensures multiset(q)[x] <= 1
  {
    if q != [] {
      assert q == [q[0]] + q[1..];
      NoDupCount(q[1..], x);
      if q[0] == x {
        assert x !in q[1..];
      }
    }
  }

  lemma {:induction false} CountNoDup(q: seq<nat>)
    requires forall x :: multiset(q)[x] <= 1
    ensures NoDup(q)
  {
    if q != [] {
      assert q == [q[0]] + q[1..];
      forall x ensures multiset(q[1..])[x] <= 1 {
        assert multiset(q)[x] <= 1;
      }
      CountNoDup(q[1..]);
      assert q[0] !in q[1..] by {
        assert multiset(q)[q[0]] == 1 + multiset(q[1..])[q[0]];
      }
    }
  }

  lemma AllPagesDistinct(base: nat, n: nat)
    ensures NoDup(AllPages(base, n))
  {
  }

  /** No page is twice in the kernel's hands, and all are pages of the heap. */
  lemma EachPageOnce(h: Heap, base: nat, n: nat)
    requires HeapOk(h, base, n)
    ensures NoDup(h.free + h.taken + h.lent)
    ensures forall p :: p in h.free + h.taken + h.lent <==> p in AllPages(base, n)
  {
    hide BlocksOk;
    AllPagesDistinct(base, n);
    var q := h.free + h.taken + h.lent;
    forall x ensures multiset(q)[x] <= 1 {
      if x >= 0 { NoDupCount(AllPages(base, n), x); }
    }
    CountNoDup(q);
    forall p ensures p in q <==> p in AllPages(base, n) {
      assert p in multiset(q) <==> p in multiset(AllPages(base, n));
    }
  }

  ghost predicate Aligned(ps: seq<nat>, base: nat) {
    forall i :: 0 <= i < |ps| ==> ps[i] >= base && (ps[i] - base) % PAGE == 0
  }

  lemma {:induction false} PageOfByte(ps: seq<nat>, a: nat)
    requires a in Cover(PageBlocks(ps))
    ensures exists i :: 0 <= i < |ps| && ps[i] <= a < ps[i] + PAGE
  {
    var bs := PageBlocks(ps);
    assert bs[1..] == PageBlocks(ps[1..]);
    if a in Cover(bs[1..]) {
      PageOfByte(ps[1..], a);
      var i :| 0 <= i < |ps[1..]| && ps[1..][i] <= a < ps[1..][i] + PAGE;
      assert ps[i + 1] == ps[1..][i];
    } else {
      assert a in Range(ps[0], PAGE);
      assert ps[0] <= a < ps[0] + PAGE;
    }
  }

  lemma OtherPage(ps: seq<nat>, base: nat, a: nat)
    requires ps != [] && NoDup(ps) && Aligned(ps, base) && ps[0] <= a < ps[0] + PAGE
    ensures a !in Cover(PageBlocks(ps[1..]))
  {
    if a in Cover(PageBlocks(ps[1..])) {
      PageOfByte(ps[1..], a);
      var i :| 0 <= i < |ps[1..]| && ps[1..][i] <= a < ps[1..][i] + PAGE;
      FarApart(base, ps[0], ps[i + 1]);
    }
  }

  lemma {:induction false} PagesCoverOnce(ps: seq<nat>, base: nat)
    requires NoDup(ps) && Aligned(ps, base)
    ensures NoDup(Cover(PageBlocks(ps)))
  {
    if ps != [] {
      var bs, rest := PageBlocks(ps), Cover(PageBlocks(ps[1..]));
      assert bs[1..] == PageBlocks(ps[1..]);
      PagesCoverOnce(ps[1..], base);
      forall a | a in Range(ps[0], PAGE) ensures a !in rest {
        OtherPage(ps, base, a);
      }
      NoDupConcat(Range(ps[0], PAGE), rest);
    }
  }

  lemma FarApart(base: nat, p: nat, q: nat)
    requires p >= base && q >= base && (p - base) % PAGE == 0 && (q - base) % PAGE == 0 && p != q
    ensures p + PAGE <= q || q + PAGE <= p
  {
    var i, j := (p - base) / PAGE, (q - base) / PAGE;
    assert p == base + PAGE * i && q == base + PAGE * j;
  }

  lemma TakenOnce(h: Heap, base: nat, n: nat)
    requires HeapOk(h, base, n)
    ensures NoDup(Cover(h.blocks))
  {
    EachPageOnce(h, base, n);
    NoDupParts(h.free + h.taken, h.lent);
    NoDupParts(h.free, h.taken);
    forall i | 0 <= i < |h.taken| ensures h.taken[i] >= base && (h.taken[i] - base) % PAGE == 0 {
      assert h.taken[i] in h.free + h.taken + h.lent;
      var j :| 0 <= j < n && h.taken[i] == AllPages(base, n)[j];
      assert h.taken[i] - base == PAGE * j;
    }
    PagesCoverOnce(h.taken, base);
  }

  lemma {:induction false} BlockInCover(bs: seq<Block>, i: nat, a: nat)
    requires i < |bs| && bs[i].addr <= a < End(bs[i])
    ensures a in Cover(bs)
  {
    if i == 0 {
      assert Range(bs[0].addr, bs[0].size)[a - bs[0].addr] == a;
    } else {
      BlockInCover(bs[1..], i - 1, a);
    }
  }

  lemma {:induction false} CoverApart(bs: seq<Block>, i: nat, j: nat, a: nat)
    requires NoDup(Cover(bs)) && i < j < |bs| && bs[i].addr <= a < End(bs[i])
    ensures !(bs[j].addr <= a < End(bs[j]))
  {
    NoDupParts(Range(bs[0].addr, bs[0].size), Cover(bs[1..]));
    if i == 0 {
      assert Range(bs[0].addr, bs[0].size)[a - bs[0].addr] == a;
      if bs[j].addr <= a < End(bs[j]) {
        BlockInCover(bs[1..], j - 1, a);
      }
    } else {
      CoverApart(bs[1..], i - 1, j - 1, a);
    }
  }

  /** Blocks never overlap, so no payload meets another block's header or payload. */
  lemma BlocksDisjoint(h: Heap, base: nat, n: nat, i: nat, j: nat)
    requires HeapOk(h, base, n) && i < j < |h.blocks|
    ensures End(h.blocks[i]) <= h.blocks[j].addr || End(h.blocks[j]) <= h.blocks[i].addr
  {
    TakenOnce(h, base, n);
    var b, c := h.blocks[i], h.blocks[j];
    assert c.size >= HDR && b.size >= HDR;
    if End(b) > c.addr && End(c) > b.addr {
      CoverApart(h.blocks, i, j, if b.addr > c.addr then b.addr else c.addr);
    }
  }

  /** The payload asked for lies behind its own header and inside its own block, and meets
      no byte of any other block, header or payload. */
  lemma PayloadApart(h: Heap, base: nat, n: nat, i: nat, j: nat, a: nat)
    requires HeapOk(h, base, n) && i < |h.blocks| && j < |h.blocks| && i != j && h.blocks[i].used
    requires h.blocks[i].addr + HDR <= a < h.blocks[i].addr + HDR + h.blocks[i].req
    ensures h.blocks[i].addr + HDR <= a < End(h.blocks[i])
    ensures !(h.blocks[j].addr <= a < End(h.blocks[j]))
  {
    assert h.blocks[i].size >= h.blocks[i].req + HDR;
    hide HeapOk;
    if i < j {
      BlocksDisjoint(h, base, n, i, j);
    } else {
      BlocksDisjoint(h, base, n, j, i);
    }
  }

  // ---- freeing everything ----

  ghost predicate AllFree(bs: seq<Block>) {
    forall i :: 0 <= i < |bs| ==> !bs[i].used && bs[i].req == 0 && bs[i].size > 0
  }

  /** One block for each maximal run of pages taken one after the other at adjacent addresses. */
  function MaximalRuns(ps: seq<nat>): seq<Block> {
    if ps == [] then []
    else
      var rest := MaximalRuns(ps[1..]);
      if rest != [] && ps[0] + PAGE == rest[0].addr then [PageBlock(ps[0]).(size := PAGE + rest[0].size)] + rest[1..]
      else [PageBlock(ps[0])] + rest
  }

  lemma NoRuns()
    ensures AllFree([]) && Coalesced([])
  {
  }

  lemma RunsCoalesced(ps: seq<nat>, rest: seq<Block>, r: seq<Block>)
    requires ps != [] && rest == MaximalRuns(ps[1..]) && r == MaximalRuns(ps) && Coalesced(rest) && AllFree(rest)
    ensures Coalesced(r) && AllFree(r)
  {
    forall i | 0 <= i < |r| - 1 ensures !Mergeable(r[i], r[i + 1]) {
      if rest != [] && ps[0] + PAGE == rest[0].addr {
        assert !Mergeable(rest[i], rest[i + 1]);
      } else if i > 0 {
        assert !Mergeable(rest[i - 1], rest[i - 1 + 1]);
      }
    }
  }

  lemma {:induction false} RunsCover(ps: seq<nat>)
    ensures AllFree(MaximalRuns(ps)) && Coalesced(MaximalRuns(ps))
    ensures Cover(MaximalRuns(ps)) == Cover(PageBlocks(ps))
  {
    hide Coalesced, AllFree, Range;
    if ps == [] {
      NoRuns();
    } else {
      var rest, r := MaximalRuns(ps[1..]), MaximalRuns(ps);
      RunsCover(ps[1..]);
      assert PageBlocks(ps)[1..] == PageBlocks(ps[1..]);
      if rest != [] && ps[0] + PAGE == rest[0].addr {
        RangeSplit(ps[0], PAGE, rest[0].size);
        assert r[1..] == rest[1..];
        assert Cover(rest) == Range(rest[0].addr, rest[0].size) + Cover(rest[1..]);
        assert Cover(r) == Range(ps[0], PAGE) + Cover(rest);
      } else {
        assert r[1..] == rest;
      }
      RunsCoalesced(ps, rest, r);
    }
  }

  lemma FirstCovered(bs: seq<Block>)
    requires bs != [] && bs[0].size > 0
    ensures Cover(bs) != [] && Cover(bs)[0] == bs[0].addr
  {
    assert Range(bs[0].addr, bs[0].size)[0] == bs[0].addr;
  }

  lemma SecondFollows(a: seq<Block>)
    requires a != [] && AllFree(a) && |Cover(a)| > a[0].size && Cover(a)[a[0].size] == End(a[0])
    ensures |a| > 1 && Mergeable(a[0], a[1])
  {
    assert a[1..] != [];
    FirstCovered(a[1..]);
  }

  /** The first block of a coalesced free list runs as far as the bytes are consecutive. */
  lemma NotShorter(a: seq<Block>, b: seq<Block>)
    requires a != [] && b != [] && AllFree(a) && AllFree(b) && Coalesced(a) && Cover(a) == Cover(b)
    ensures a[0].size >= b[0].size
  {
    FirstCovered(a);
    FirstCovered(b);
    if a[0].size < b[0].size {
      assert Cover(b)[a[0].size] == b[0].addr + a[0].size;
      SecondFollows(a);
    }
  }

  /** Two coalesced free lists that cover the same bytes in the same order are the same list. */
  lemma {:induction false} CoalescedUnique(a: seq<Block>, b: seq<Block>)
    requires AllFree(a) && AllFree(b) && Coalesced(a) && Coalesced(b) && Cover(a) == Cover(b)
    ensures a == b
  {
    if a == [] || b == [] {
      if a != [] { FirstCovered(a); }
      if b != [] { FirstCovered(b); }
    } else {
      FirstCovered(a);
      FirstCovered(b);
      NotShorter(a, b);
      NotShorter(b, a);
      var n := a[0].size;
      assert Cover(a)[n..] == Cover(a[1..]) && Cover(b)[n..] == Cover(b[1..]);
      assert Coalesced(a[1..]) by {
        forall i | 0 <= i < |a[1..]| - 1 ensures !Mergeable(a[1..][i], a[1..][i + 1]) {
          assert !Mergeable(a[i + 1], a[(i + 1) + 1]);
        }
      }
      assert Coalesced(b[1..]) by {
        forall i | 0 <= i < |b[1..]| - 1 ensures !Mergeable(b[1..][i], b[1..][i + 1]) {
          assert !Mergeable(b[i + 1], b[(i + 1) + 1]);
        }
      }
      CoalescedUnique(a[1..], b[1..]);
      assert a == [a[0]] + a[1..] && b == [b[0]] + b[1..];
    }
  }

  /** Once everything is freed the list is one block per maximal run of adjacent pages. */
  lemma AllFreedIsRuns(h: Heap, base: nat, n: nat)
    requires HeapOk(h, base, n) && forall i :: 0 <= i < |h.blocks| ==> !h.blocks[i].used
    ensures h.blocks == MaximalRuns(h.taken)
  {
    RunsCover(h.taken);
    hide Cover, PageBlocks, MaximalRuns;
    CoalescedUnique(h.blocks, MaximalRuns(h.taken));
  }

  // ---- allocation ----

  /** `kmalloc` fails exactly when the block would exceed a page, or no free block fits
      and no page is free; otherwise it takes the first fit in list order, and the block
      it returns has room for the request. */
  lemma MallocExact(h: Heap, n: nat)
    requires n + HDR < WORD
    ensures
      var (h', r) := Kalloc.Malloc(h, n);
      var k := FirstFit(h.blocks, n + HDR);
      && (r == None <==> n + HDR > PAGE || (h.free == [] && forall i :: 0 <= i < |h.blocks| ==> !Fits(h.blocks[i], n + HDR)))
      && (r == None ==> h' == h)
      && (r.Some? ==>
            && k < |h'.blocks| && h'.blocks[k].used && h'.blocks[k].req == n
            && h'.blocks[k].size >= n + HDR && r.value == h'.blocks[k].addr + HDR)
  {
    hide Placed;
    var k := FirstFit(h.blocks, n + HDR);
    if k < |h.blocks| {
      PlacedAt(h.blocks, k, n + HDR, n);
    } else if h.free != [] && n + HDR <= PAGE {
      PlacedAt(h.blocks + [PageBlock(h.free[0])], k, n + HDR, n);
    }
  }

  lemma PlacedAt(bs: seq<Block>, k: nat, size: nat, req: nat)
    requires k < |bs| && size <= bs[k].size
    ensures
      var r := Placed(bs, k, size, req);
      && k < |r| && r[k].used && r[k].req == req && r[k].addr == bs[k].addr
      && size <= r[k].size <= bs[k].size
  {
  }

  lemma {:induction false} SizeWithinCover(bs: seq<Block>, i: nat)
    requires i < |bs|
    ensures bs[i].size <= |Cover(bs)|
  {
    if i > 0 {
      SizeWithinCover(bs[1..], i - 1);
    }
  }

  lemma {:induction false} PagesCoverLength(ps: seq<nat>)
    ensures |Cover(PageBlocks(ps))| == PAGE * |ps|
  {
    if ps != [] {
      assert PageBlocks(ps)[1..] == PageBlocks(ps[1..]);
      PagesCoverLength(ps[1..]);
    }
  }

  lemma SizeBounded(h: Heap, base: nat, pages: nat, i: nat)
    requires HeapOk(h, base, pages) && i < |h.blocks|
    ensures h.blocks[i].size <= PAGE * pages
  {
    SizeWithinCover(h.blocks, i);
    PagesCoverLength(h.taken);
    assert |h.free + h.taken + h.lent| == |multiset(h.free + h.taken + h.lent)| == |AllPages(base, pages)|;
  }

  /** In a heap smaller than the address space, the block granted has room for the
      request if and only if the request does not wrap the 64-bit size. */
  lemma RoomUnlessWrapped(h: Heap, base: nat, pages: nat, n: nat)
    requires HeapOk(h, base, pages) && PAGE * pages < WORD - HDR && n < WORD && Kalloc.Malloc(h, n).1.Some?
    ensures
      var h' := Kalloc.Malloc(h, n).0;
      var k := FirstFit(h.blocks, (n + HDR) % WORD);
      k < |h'.blocks| && h'.blocks[k].used && (h'.blocks[k].size >= n + HDR <==> n + HDR < WORD)
  {
    hide HeapOk, Placed;
    var size := (n + HDR) % WORD;
    var k := FirstFit(h.blocks, size);
    if k < |h.blocks| {
      SizeBounded(h, base, pages, k);
      PlacedAt(h.blocks, k, size, n);
    } else {
      PlacedAt(h.blocks + [PageBlock(h.free[0])], k, size, n);
    }
    if n + HDR >= WORD {
      assert size == n + HDR - WORD;
    } else {
      assert size == n + HDR;
    }
  }

  /** The input on which it shows: a request of 2^64 - 32 bytes to a heap of one page gets a
      block of no bytes, at the address of the free block that follows it in the list. */
  lemma WrappedRequest(base: nat) returns (h: Heap)
    ensures HeapOk(h, base, 1) && Kalloc.Malloc(h, WORD - HDR).1 == Some(base + HDR)
    ensures Kalloc.Malloc(h, WORD - HDR).0.blocks == [Block(base, 0, true, WORD - HDR), Block(base, PAGE, false, 0)]
  {
    hide HeapOk;
    h := Heap([], AllPages(base, 1), [], []);
    BootHeap(base, 1);
    assert Placed([PageBlock(base)], 0, 0, WORD - HDR)
        == [Block(base, 0, true, WORD - HDR), Block(base, PAGE, false, 0)];
  }

  // ---- freeing what was just allocated ----

  /** The list extended by one free page, merged into the tail if that is free and adjacent. */
  function Extended(bs: seq<Block>, page: nat): seq<Block> {
    if bs != [] && Mergeable(bs[|bs| - 1], PageBlock(page)) then Merged(bs + [PageBlock(page)], |bs| - 1)
    else bs + [PageBlock(page)]
  }

  lemma MergedAt(a: seq<Block>, x: Block, y: Block, c: seq<Block>)
    ensures Merged(a + [x, y] + c, |a|) == a + [x.(size := x.size + y.size)] + c
  {
    var bs := a + [x, y] + c;
    assert bs[..|a|] == a && bs[|a| + 2..] == c;
  }

  lemma Join(a: seq<Block>, x: Block, y: Block, c: seq<Block>)
    ensures (a + [x]) + [y] + c == a + [x, y] + c
  {
  }

  /** A freed block and its remainder flow into a free neighbour on the left. */
  lemma ReleaseLeft(l: seq<Block>, p: Block, f: Block, r: Block, c: seq<Block>)
    requires Mergeable(f, r) && Mergeable(p, f)
    ensures
      var freed := (l + [p]) + [f, r] + c;
      TryMerge(Merged(freed, |l|), |l|) == Merged((l + [p]) + [f.(size := f.size + r.size)] + c, |l|)
  {
    var b := f.(size := f.size + r.size);
    var pf := p.(size := p.size + f.size);
    hide Merged;
    Regroup(l, p, f, r, c);
    MergedAt(l, p, f, [r] + c);
    Regroup(l, pf, r, r, c);
    MergedAt(l, pf, r, c);
    Join(l, p, b, c);
    MergedAt(l, p, b, c);
    assert TryMerge(l + [pf, r] + c, |l|) == Merged(l + [pf, r] + c, |l|) by {
      assert (l + [pf, r] + c)[|l|] == pf && (l + [pf, r] + c)[|l| + 1] == r;
    }
  }

  lemma Regroup(l: seq<Block>, p: Block, f: Block, r: Block, c: seq<Block>)
    ensures (l + [p]) + [f, r] + c == l + [p, f] + ([r] + c)
    ensures l + [p] + ([r] + c) == l + [p, r] + c
  {
  }

  /** The remainder of a split flows back into the freed block, and both into a free
      neighbour on the left. */
  lemma ReleaseSplit(a: seq<Block>, f: Block, r: Block, c: seq<Block>)
    requires Mergeable(f, r)
    ensures
      var b := f.(size := f.size + r.size);
      var freed := a + [f, r] + c;
      (if a != [] && Mergeable(a[|a| - 1], f) then TryMerge(Merged(freed, |a| - 1), |a| - 1) else TryMerge(freed, |a|))
      == (if a != [] && Mergeable(a[|a| - 1], b) then Merged(a + [b] + c, |a| - 1) else a + [b] + c)
  {
    hide Merged;
    if a != [] && Mergeable(a[|a| - 1], f) {
      assert a == a[..|a| - 1] + [a[|a| - 1]];
      hide TryMerge;
      ReleaseLeft(a[..|a| - 1], a[|a| - 1], f, r, c);
    } else {
      MergedAt(a, f, r, c);
      var freed := a + [f, r] + c;
      assert freed[|a|] == f && freed[|a| + 1] == r;
    }
  }

  /** The same without a remainder. */
  lemma ReleaseWhole(bs: seq<Block>, k: nat)
    requires k < |bs| && !bs[k].used && (k + 1 < |bs| ==> !Mergeable(bs[k], bs[k + 1]))
    ensures
      (if k > 0 && Mergeable(bs[k - 1], bs[k]) then TryMerge(Merged(bs, k - 1), k - 1) else TryMerge(bs, k))
      == (if k > 0 && Mergeable(bs[k - 1], bs[k]) then Merged(bs, k - 1) else bs)
  {
    if k > 0 && Mergeable(bs[k - 1], bs[k]) {
      var m := Merged(bs, k - 1);
      assert m[k - 1] == bs[k - 1].(size := bs[k - 1].size + bs[k].size);
      if k < |m| {
        assert m[k] == bs[k + 1];
      }
    }
  }

  /** Freeing the block just placed gives back the list it was placed in, up to the merge
      with a free neighbour on the left. */
  lemma ReleasePlaced(bs: seq<Block>, k: nat, size: nat, req: nat)
    requires k < |bs| && Fits(bs[k], size) && bs[k].req == 0
    requires k + 1 < |bs| ==> !Mergeable(bs[k], bs[k + 1])
    ensures
      var placed := Placed(bs, k, size, req);
      && k < |placed| && placed[k].used && placed[k].addr == bs[k].addr
      && Released(placed, k) == if k > 0 && Mergeable(bs[k - 1], bs[k]) then Merged(bs, k - 1) else bs
  {
    var placed, b := Placed(bs, k, size, req), bs[k];
    if b.size - size > HDR {
      ReleaseParted(bs, k, size, req);
    } else {
      assert placed[k := placed[k].(used := false, req := 0)] == bs;
      ReleaseWhole(bs, k);
    }
  }

  lemma ReleaseParted(bs: seq<Block>, k: nat, size: nat, req: nat)
    requires k < |bs| && Fits(bs[k], size) && bs[k].req == 0 && bs[k].size - size > HDR
    ensures
      var placed := Placed(bs, k, size, req);
      && k < |placed| && placed[k].used && placed[k].addr == bs[k].addr
      && Released(placed, k) == if k > 0 && Mergeable(bs[k - 1], bs[k]) then Merged(bs, k - 1) else bs
  {
    hide Merged, TryMerge, Released;
    var a, b, c := bs[..k], bs[k], bs[k + 1..];
    var f, r := Block(b.addr, size, false, 0), Block(b.addr + size, b.size - size, false, 0);
    assert bs == a + [b] + c && f.(size := f.size + r.size) == b;
    PartsFreed(a, Block(b.addr, size, true, req), r, c);
    ReleaseSplit(a, f, r, c);
  }

  /** `kfree` of the block in the middle. */
  lemma PartsFreed(a: seq<Block>, u: Block, r: Block, c: seq<Block>)
    ensures
      var f, placed := u.(used := false, req := 0), a + [u, r] + c;
      && placed[|a|] == u
      && Released(placed, |a|) ==
        if a != [] && Mergeable(a[|a| - 1], f) then TryMerge(Merged(a + [f, r] + c, |a| - 1), |a| - 1)
        else TryMerge(a + [f, r] + c, |a|)
  {
    hide Merged, TryMerge, Mergeable;
    var f, placed := u.(used := false, req := 0), a + [u, r] + c;
    assert placed[|a| := f] == a + [f, r] + c;
    assert a != [] ==> (a + [f, r] + c)[|a| - 1] == a[|a| - 1];
  }

  /** `kfree(kmalloc(n))` restores the exact block list when a block fitted, and otherwise
      leaves the old list extended by the one new page, free. */
  lemma FreeUndoesMalloc(h: Heap, base: nat, pages: nat, n: nat)
    requires HeapOk(h, base, pages) && n + HDR < WORD && Kalloc.Malloc(h, n).1.Some?
    ensures
      var h' := Kalloc.Malloc(h, n).0;
      var k := FirstFit(h.blocks, n + HDR);
      && k < |h'.blocks| && h'.blocks[k].used && Kalloc.Malloc(h, n).1 == Some(h'.blocks[k].addr + HDR)
      && Released(h'.blocks, k) == if k < |h.blocks| then h.blocks else Extended(h.blocks, h.free[0])
  {
    hide Tiles, Released, Placed, Merged;
    var k := FirstFit(h.blocks, n + HDR);
    if k < |h.blocks| {
      assert k > 0 ==> !Mergeable(h.blocks[k - 1], h.blocks[k - 1 + 1]);
      ReleasePlaced(h.blocks, k, n + HDR, n);
    } else {
      ReleasePlaced(h.blocks + [PageBlock(h.free[0])], k, n + HDR, n);
    }
  }

  // ---- live blocks ----

  /** The allocated blocks, in list order. */
  function Live(bs: seq<Block>): seq<Block> {
    if bs == [] then [] else (if bs[0].used then [bs[0]] else []) + Live(bs[1..])
  }

  lemma {:induction false} LiveConcat(a: seq<Block>, b: seq<Block>)
    ensures Live(a + b) == Live(a) + Live(b)
  {
    if a == [] {
      assert a + b == b;
    } else {
      assert (a + b)[1..] == a[1..] + b;
      LiveConcat(a[1..], b);
    }
  }

  lemma LiveOne(b: Block)
    ensures Live([b]) == if b.used then [b] else []
  {
  }

  lemma LiveThree(a: seq<Block>, x: seq<Block>, b: seq<Block>)
    ensures Live(a + x + b) == Live(a) + Live(x) + Live(b)
  {
    LiveConcat(a + x, b);
    LiveConcat(a, x);
  }

  lemma LiveTwo(x: Block, y: Block)
    ensures Live([x, y]) == Live([x]) + Live([y])
  {
    assert [x, y] == [x] + [y];
    LiveConcat([x], [y]);
  }

  /** `after` is `a`, an allocated block made of `fit` for `n` bytes, and `b`; what `fit` has beyond
      n + 32 bytes is cut off as a free block if it is longer than 32 bytes. That block is the
      only one allocated now and not in `before`. */
  ghost predicate Grants(before: seq<Block>, after: seq<Block>, a: seq<Block>, fit: Block, b: seq<Block>, n: nat) {
    var got := Block(fit.addr, if fit.size - (n + 32) > 32 then n + 32 else fit.size, true, n);
    && after ==
      a + (if fit.size - (n + 32) > 32 then [got, Block(fit.addr + n + 32, fit.size - (n + 32), false, 0)] else [got]) + b
    && Live(before) == Live(a) + Live(b) && Live(after) == Live(a) + [got] + Live(b)
  }

  /** The block a request of `n` bytes gets: the first free one of at least n + 32 bytes, or a
      new page. No other block changes, moves or appears. */
  lemma MallocGrants(h: Heap, n: nat)
    requires n + 32 <= 4096 && Kalloc.Malloc(h, n).1.Some?
    ensures
      var (h', r) := Kalloc.Malloc(h, n);
      var k := FirstFit(h.blocks, n + 32);
      if k < |h.blocks| then
        r == Some(h.blocks[k].addr + 32) && Grants(h.blocks, h'.blocks, h.blocks[..k], h.blocks[k], h.blocks[k + 1..], n)
      else
        r == Some(h.free[0] + 32) && Grants(h.blocks, h'.blocks, h.blocks, Block(h.free[0], 4096, false, 0), [], n)
  {
    hide Live, Placed, Grants;
    var k := FirstFit(h.blocks, n + 32);
    if k < |h.blocks| {
      assert h.blocks == h.blocks[..k] + [h.blocks[k]] + h.blocks[k + 1..];
      PlacedGrants(h.blocks, h.blocks[..k], h.blocks[k], h.blocks[k + 1..], n);
    } else {
      var fit := PageBlock(h.free[0]);
      assert h.blocks + [fit] == h.blocks + [fit] + [];
      PageGrants(h.blocks, fit, n);
    }
  }

  lemma PlacedGrants(bs: seq<Block>, a: seq<Block>, fit: Block, b: seq<Block>, n: nat)
    requires Fits(fit, n + 32) && bs == a + [fit] + b
    ensures bs[|a|] == fit && Grants(bs, Placed(bs, |a|, n + 32, n), a, fit, b, n)
  {
    hide Live;
    var got := Block(fit.addr, if fit.size - (n + 32) > 32 then n + 32 else fit.size, true, n);
    var rest := Block(fit.addr + n + 32, fit.size - (n + 32), false, 0);
    assert bs[..|a|] == a && bs[|a| + 1..] == b && bs[|a| := got] == a + [got] + b;
    LiveOne(fit);
    LiveOne(got);
    LiveOne(rest);
    LiveTwo(got, rest);
    LiveThree(a, [fit], b);
    LiveThree(a, [got], b);
    LiveThree(a, [got, rest], b);
    assert Live(a) + [] + Live(b) == Live(a) + Live(b);
  }

  lemma PageGrants(bs: seq<Block>, fit: Block, n: nat)
    requires Fits(fit, n + 32)
    ensures (bs + [fit] + [])[|bs|] == fit && Grants(bs, Placed(bs + [fit] + [], |bs|, n + 32, n), bs, fit, [], n)
  {
    hide Live, Placed;
    PlacedGrants(bs + [fit] + [], bs, fit, [], n);
    LiveConcat(bs, []);
    assert bs + [] == bs;
  }

  lemma MergedLive(bs: seq<Block>, i: nat)
    requires i + 1 < |bs| && !bs[i].used && !bs[i + 1].used
    ensures Live(Merged(bs, i)) == Live(bs)
  {
    hide Live;
    var x, y := bs[i], bs[i + 1];
    var m := x.(size := x.size + y.size);
    assert bs == bs[..i] + [x, y] + bs[i + 2..];
    LiveThree(bs[..i], [x, y], bs[i + 2..]);
    LiveThree(bs[..i], [m], bs[i + 2..]);
    LiveTwo(x, y);
    LiveOne(x);
    LiveOne(y);
    LiveOne(m);
  }

  /** A release takes that block out of the allocated ones, and no other. */
  lemma ReleaseFrees(bs: seq<Block>, k: nat)
    requires k < |bs| && bs[k].used
    ensures Live(bs) == Live(bs[..k]) + [bs[k]] + Live(bs[k + 1..])
    ensures Live(Released(bs, k)) == Live(bs[..k]) + Live(bs[k + 1..])
  {
    hide Live, Merged;
    var f := bs[k].(used := false, req := 0);
    var bs1 := bs[k := f];
    assert bs == bs[..k] + [bs[k]] + bs[k + 1..] && bs1 == bs[..k] + [f] + bs[k + 1..];
    LiveThree(bs[..k], [bs[k]], bs[k + 1..]);
    LiveThree(bs[..k], [f], bs[k + 1..]);
    LiveOne(bs[k]);
    LiveOne(f);
    assert Live(bs[..k]) + [] + Live(bs[k + 1..]) == Live(bs[..k]) + Live(bs[k + 1..]);
    if k > 0 && Mergeable(bs1[k - 1], bs1[k]) {
      MergedLive(bs1, k - 1);
      TryMergeLive(Merged(bs1, k - 1), k - 1);
    } else {
      TryMergeLive(bs1, k);
    }
  }

  lemma TryMergeLive(bs: seq<Block>, i: nat)
    ensures Live(TryMerge(bs, i)) == Live(bs)
  {
    hide Live;
    if i + 1 < |bs| && Mergeable(bs[i], bs[i + 1]) {
      MergedLive(bs, i);
    }
  }
}
