/** The tiered allocator: `src/mm/kalloc.c` on top of `src/mm/page_alloc.c`. */
module Kalloc {
  import opened Queues
  import opened Bytes

  const HDR: nat := 32
  const WORD: nat := 0x1_0000_0000_0000_0000

  /** A block header and the bytes it governs, the header included. `req` is the size
      that was asked for; it is history, no code reads it. */
  datatype Block = Block(addr: nat, size: nat, used: bool, req: nat)

  function End(b: Block): nat {
    b.addr + b.size
  }

  // ---- the byte addresses a list of blocks covers, in list order ----

  function Range(a: nat, n: nat): seq<nat> {
    seq(n, i requires 0 <= i < n => a + i)
  }

  function Cover(bs: seq<Block>): seq<nat> {
    if bs == [] then [] else Range(bs[0].addr, bs[0].size) + Cover(bs[1..])
  }

  function PageBlock(p: nat): Block {
    Block(p, PAGE, false, 0)
  }

  function PageBlocks(ps: seq<nat>): seq<Block> {
    seq(|ps|, i requires 0 <= i < |ps| => PageBlock(ps[i]))
  }

  /** The blocks, in list order, cover exactly the pages taken, in the order taken. */
  ghost predicate Tiles(bs: seq<Block>, ps: seq<nat>) {
    Cover(bs) == Cover(PageBlocks(ps))
  }

  /** Two list neighbours that could be one block. */
  predicate Mergeable(a: Block, b: Block) {
    !a.used && !b.used && End(a) == b.addr
  }

  ghost predicate Coalesced(bs: seq<Block>) {
    forall i :: 0 <= i < |bs| - 1 ==> !Mergeable(bs[i], bs[i + 1])
  }

  /** Every block has room for its header, and a used one for what was asked. */
  ghost predicate Sized(bs: seq<Block>) {
    forall i :: 0 <= i < |bs| ==> bs[i].size >= HDR && (if bs[i].used then bs[i].size >= bs[i].req + HDR else bs[i].req == 0)
  }

  ghost predicate BlocksOk(bs: seq<Block>, ps: seq<nat>) {
    Tiles(bs, ps) && Coalesced(bs) && Sized(bs)
  }

  // ---- kmalloc ----

  predicate Fits(b: Block, size: nat) {
    !b.used && b.size >= size
  }

  /** The first free block, in list order, that is large enough; the list's length if none is. */
  function FirstFit(bs: seq<Block>, size: nat): (k: nat)
    ensures k <= |bs|
    ensures forall i :: 0 <= i < k ==> !Fits(bs[i], size)
    ensures k < |bs| ==> Fits(bs[k], size)
  {
    if bs == [] || Fits(bs[0], size) then 0
    else
      var k := FirstFit(bs[1..], size);
      assert forall i :: 0 <= i < 1 + k ==> !Fits(bs[i], size) by {
        forall i | 0 <= i < 1 + k ensures !Fits(bs[i], size) {
          if i > 0 { assert bs[i] == bs[1..][i - 1]; }
        }
      }
      1 + k
  }

  /** Blocks `x` and `y` in the place of block `k`. */
  function Parted(bs: seq<Block>, k: nat, x: Block, y: Block): seq<Block>
    requires k < |bs|
  {
    bs[..k] + [x, y] + bs[k + 1..]
  }

  /** Allocate `size` bytes of block `k`; what is left over becomes a free block if it is
      more than a header. */
  function Placed(bs: seq<Block>, k: nat, size: nat, req: nat): seq<Block>
    requires k < |bs| && size <= bs[k].size
  {
    var b := bs[k];
    if b.size - size > HDR
    then Parted(bs, k, Block(b.addr, size, true, req), Block(b.addr + size, b.size - size, false, 0))
    else bs[k := Block(b.addr, b.size, true, req)]
  }

  /** `free` is the page allocator's list, `taken` the pages handed to `kmalloc` so far,
      `lent` the pages handed to its other clients. The last two are history. */
  datatype Heap = Heap(blocks: seq<Block>, free: seq<nat>, taken: seq<nat>, lent: seq<nat>)

  /** `kmalloc`: the result is the address behind the header. */
  function Malloc(h: Heap, n: nat): (Heap, Option<nat>) {
    var size := (n + HDR) % WORD;
    if size > PAGE then (h, None)
    else
      var k := FirstFit(h.blocks, size);
      if k < |h.blocks| then (h.(blocks := Placed(h.blocks, k, size, n)), Some(h.blocks[k].addr + HDR))
      else if h.free == [] then (h, None)
      else
        var bs := h.blocks + [PageBlock(h.free[0])];
        (h.(blocks := Placed(bs, k, size, n), free := h.free[1..], taken := h.taken + [h.free[0]]), Some(h.free[0] + HDR))
  }

  // ---- kfree ----

  /** Block `i` swallows its successor. */
  function Merged(bs: seq<Block>, i: nat): (r: seq<Block>)
    requires i + 1 < |bs|
    ensures |r| == |bs| - 1 && r[i] == bs[i].(size := bs[i].size + bs[i + 1].size)
  {
    bs[..i] + [bs[i].(size := bs[i].size + bs[i + 1].size)] + bs[i + 2..]
  }

  /** Merge block `i` with its successor if the two are free and adjacent. */
  function TryMerge(bs: seq<Block>, i: nat): seq<Block> {
    if i + 1 < |bs| && Mergeable(bs[i], bs[i + 1]) then Merged(bs, i) else bs
  }

  /** `kfree` of block `k`: mark it free, then merge it into its predecessor and merge the
      result with its successor, where they are free and adjacent. */
  function Released(bs: seq<Block>, k: nat): seq<Block>
    requires k < |bs|
  {
    var bs1 := bs[k := bs[k].(used := false, req := 0)];
    if k > 0 && Mergeable(bs1[k - 1], bs1[k]) then TryMerge(Merged(bs1, k - 1), k - 1) else TryMerge(bs1, k)
  }

  // ---- cover lemmas ----

  lemma {:induction false} CoverConcat(a: seq<Block>, b: seq<Block>)
    ensures Cover(a + b) == Cover(a) + Cover(b)
  {
    if a == [] {
      assert a + b == b;
    } else {
      assert (a + b)[1..] == a[1..] + b;
      CoverConcat(a[1..], b);
    }
  }

  lemma CoverOne(b: Block)
    ensures Cover([b]) == Range(b.addr, b.size)
  {
  }

  lemma RangeSplit(a: nat, m: nat, n: nat)
    ensures Range(a, m + n) == Range(a, m) + Range(a + m, n)
  {
  }

  /** Replacing a stretch of a list by one that covers the same bytes changes no byte. */
  lemma CoverReplace(a: seq<Block>, x: seq<Block>, y: seq<Block>, b: seq<Block>)
    requires Cover(x) == Cover(y)
    ensures Cover(a + x + b) == Cover(a + y + b)
  {
    CoverConcat(a + x, b);
    CoverConcat(a, x);
    CoverConcat(a + y, b);
    CoverConcat(a, y);
  }

  lemma CoverTwo(b: Block, c: Block)
    ensures Cover([b, c]) == Range(b.addr, b.size) + Range(c.addr, c.size)
  {
    assert [b, c] == [b] + [c];
    CoverConcat([b], [c]);
    CoverOne(b);
    CoverOne(c);
  }

  lemma SplitCover(bs: seq<Block>, k: nat, x: Block, y: Block)
    requires k < |bs| && x.addr == bs[k].addr && y.addr == End(x) && x.size + y.size == bs[k].size
    ensures Cover(Parted(bs, k, x, y)) == Cover(bs)
  {
    hide Cover, Range;
    assert bs == bs[..k] + [bs[k]] + bs[k + 1..];
    CoverOne(bs[k]);
    CoverTwo(x, y);
    RangeSplit(x.addr, x.size, y.size);
    CoverReplace(bs[..k], [x, y], [bs[k]], bs[k + 1..]);
  }

  lemma PlacedCover(bs: seq<Block>, k: nat, size: nat, req: nat)
    requires k < |bs| && size <= bs[k].size
    ensures Cover(Placed(bs, k, size, req)) == Cover(bs)
  {
    hide Cover, Range, Parted;
    var b := bs[k];
    if b.size - size > HDR {
      SplitCover(bs, k, Block(b.addr, size, true, req), Block(b.addr + size, b.size - size, false, 0));
    } else {
      RetagCover(bs, k, Block(b.addr, b.size, true, req));
    }
  }

  lemma RetagCover(bs: seq<Block>, k: nat, x: Block)
    requires k < |bs| && x.addr == bs[k].addr && x.size == bs[k].size
    ensures Cover(bs[k := x]) == Cover(bs)
  {
    hide Cover, Range;
    assert bs == bs[..k] + [bs[k]] + bs[k + 1..];
    assert bs[k := x] == bs[..k] + [x] + bs[k + 1..];
    CoverOne(x);
    CoverOne(bs[k]);
    CoverReplace(bs[..k], [x], [bs[k]], bs[k + 1..]);
  }

  lemma MergedCover(bs: seq<Block>, i: nat)
    requires i + 1 < |bs| && End(bs[i]) == bs[i + 1].addr
    ensures Cover(Merged(bs, i)) == Cover(bs)
  {
    hide Cover, Range;
    var b, c := bs[i], bs[i + 1];
    var m := b.(size := b.size + c.size);
    assert bs == bs[..i] + [b, c] + bs[i + 2..];
    CoverOne(m);
    CoverTwo(b, c);
    RangeSplit(b.addr, b.size, c.size);
    CoverReplace(bs[..i], [m], [b, c], bs[i + 2..]);
  }

  lemma PageBlocksAppend(ps: seq<nat>, p: nat)
    ensures PageBlocks(ps + [p]) == PageBlocks(ps) + [PageBlock(p)]
  {
  }

  // ---- kmalloc and kfree keep the list tiled, coalesced and sized ----

  lemma PlacedSized(bs: seq<Block>, k: nat, n: nat)
    requires Sized(bs) && k < |bs| && Fits(bs[k], n + HDR)
    ensures Sized(Placed(bs, k, n + HDR, n))
  {
    var r := Placed(bs, k, n + HDR, n);
    if bs[k].size - (n + HDR) > HDR {
      assert forall i :: 0 <= i < k ==> r[i] == bs[i];
      assert forall i :: k + 1 < i < |r| ==> r[i] == bs[i - 1];
    }
  }

  lemma PlacedCoalesced(bs: seq<Block>, k: nat, size: nat, n: nat)
    requires k < |bs| && Fits(bs[k], size)
    requires forall i :: 0 <= i < |bs| - 1 && i != k - 1 ==> !Mergeable(bs[i], bs[i + 1])
    ensures Coalesced(Placed(bs, k, size, n))
  {
    var r := Placed(bs, k, size, n);
    forall i | 0 <= i < |r| - 1 ensures !Mergeable(r[i], r[i + 1]) {
      if bs[k].size - size > HDR {
        if i < k {
          assert r[i] == bs[i] && (i + 1 < k ==> r[i + 1] == bs[i + 1]);
          assert r[k].used;
        } else if i == k {
          assert r[k].used;
        } else if i == k + 1 {
          assert r[i + 1] == bs[k + 1] && End(r[i]) == End(bs[k]) && !r[i].used;
          assert !Mergeable(bs[k], bs[k + 1]);
        } else {
          assert r[i] == bs[i - 1] && r[i + 1] == bs[i];
          assert !Mergeable(bs[i - 1], bs[(i - 1) + 1]);
        }
      }
    }
  }

  lemma PlacedOk(bs: seq<Block>, ps: seq<nat>, k: nat, n: nat)
    requires Tiles(bs, ps) && Sized(bs) && k < |bs| && Fits(bs[k], n + HDR)
    requires forall i :: 0 <= i < |bs| - 1 && i != k - 1 ==> !Mergeable(bs[i], bs[i + 1])
    ensures BlocksOk(Placed(bs, k, n + HDR, n), ps)
  {
    hide Cover, Sized, Coalesced, Placed;
    PlacedCover(bs, k, n + HDR, n);
    PlacedSized(bs, k, n);
    PlacedCoalesced(bs, k, n + HDR, n);
  }

  lemma MergedSized(bs: seq<Block>, i: nat)
    requires Sized(bs) && i + 1 < |bs| && !bs[i].used
    ensures Sized(Merged(bs, i))
  {
    var r := Merged(bs, i);
    forall j | 0 <= j < |r| ensures r[j] == if j < i then bs[j] else if j == i then r[i] else bs[j + 1] {
    }
  }

  /** A list coalesced everywhere but after block `i` is coalesced once that pair is tried. */
  lemma TryMergeOk(bs: seq<Block>, ps: seq<nat>, i: nat)
    requires Tiles(bs, ps) && Sized(bs) && i < |bs| && !bs[i].used
    requires forall j :: 0 <= j < |bs| - 1 && j != i ==> !Mergeable(bs[j], bs[j + 1])
    requires i + 2 < |bs| ==> !Mergeable(bs[i + 1], bs[i + 2])
    ensures BlocksOk(TryMerge(bs, i), ps)
  {
    if i + 1 < |bs| && Mergeable(bs[i], bs[i + 1]) {
      MergedCover(bs, i);
      MergedSized(bs, i);
      hide Tiles, Cover, Sized;
      var r := Merged(bs, i);
      forall j | 0 <= j < |r| - 1 ensures !Mergeable(r[j], r[j + 1]) {
        if j < i {
          assert !Mergeable(bs[j], bs[j + 1]);
        } else if j > i {
          assert r[j] == bs[j + 1] && r[j + 1] == bs[j + 2];
          assert !Mergeable(bs[j + 1], bs[j + 2]);
        } else {
          assert r[j + 1] == bs[i + 2];
        }
      }
    }
  }

  lemma FreedOk(bs: seq<Block>, ps: seq<nat>, k: nat)
    requires BlocksOk(bs, ps) && k < |bs|
    ensures
      var bs1 := bs[k := bs[k].(used := false, req := 0)];
      && Tiles(bs1, ps) && Sized(bs1)
      && forall j :: 0 <= j < |bs1| - 1 && j != k - 1 && j != k ==> !Mergeable(bs1[j], bs1[j + 1])
  {
    var bs1 := bs[k := bs[k].(used := false, req := 0)];
    RetagCover(bs, k, bs1[k]);
    hide Cover;
    forall j | 0 <= j < |bs1| - 1 && j != k - 1 && j != k ensures !Mergeable(bs1[j], bs1[j + 1]) {
      assert !Mergeable(bs[j], bs[j + 1]);
    }
  }

  lemma ReleasedOk(bs: seq<Block>, ps: seq<nat>, k: nat)
    requires BlocksOk(bs, ps) && k < |bs| && bs[k].used
    ensures BlocksOk(Released(bs, k), ps)
  {
    hide BlocksOk, Cover, Sized;
    FreedOk(bs, ps, k);
    var bs1 := bs[k := bs[k].(used := false, req := 0)];
    if k > 0 && Mergeable(bs1[k - 1], bs1[k]) {
      MergedCover(bs1, k - 1);
      MergedSized(bs1, k - 1);
      MergePrev(bs1, k);
      TryMergeOk(Merged(bs1, k - 1), ps, k - 1);
    } else {
      TryMergeOk(bs1, ps, k);
    }
  }

  lemma MergePrev(bs: seq<Block>, k: nat)
    requires 0 < k < |bs| && Mergeable(bs[k - 1], bs[k])
    requires forall j :: 0 <= j < |bs| - 1 && j != k - 1 && j != k ==> !Mergeable(bs[j], bs[j + 1])
    ensures
      var r := Merged(bs, k - 1);
      forall j :: 0 <= j < |r| - 1 && j != k - 1 ==> !Mergeable(r[j], r[j + 1])
  {
    var r := Merged(bs, k - 1);
    forall j | 0 <= j < |r| - 1 && j != k - 1 ensures !Mergeable(r[j], r[j + 1]) {
      if j < k - 1 {
        assert r[j] == bs[j];
        assert !Mergeable(bs[j], bs[j + 1]);
      } else {
        assert r[j] == bs[j + 1] && r[j + 1] == bs[j + 2];
        assert !Mergeable(bs[j + 1], bs[j + 2]);
      }
    }
  }
}
