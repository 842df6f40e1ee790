/** `src/mm/kalloc.c` in place. */
module KallocObject {
  import opened Bytes
  import opened PageAlloc
  import opened Kalloc

  class KernelHeap {
    const pages: PageAllocator
    var blocks: seq<Block>
    ghost var taken: seq<nat>
    ghost var lent: seq<nat>

    ghost function View(): Heap
      reads this, pages
    {
      Heap(blocks, pages.free, taken, lent)
    }

    constructor (pageAllocator: PageAllocator)
      ensures pages == pageAllocator && blocks == [] && taken == [] && lent == []
    {
      pages, blocks, taken, lent := pageAllocator, [], [], [];
    }

    /** `kmalloc`; zero is the null pointer. */
    method Malloc(n: nat) returns (ptr: nat)
      requires n < WORD && 0 !in pages.free
      modifies this, pages`free
      ensures View() == Kalloc.Malloc(old(View()), n).0
      ensures ptr == match Kalloc.Malloc(old(View()), n).1 case None => 0 case Some(p) => p
    {
      hide Placed;
      var size := (n + HDR) % WORD;
      if size > PAGE {
        return 0;
      }
      var k := 0;
      while k < |blocks|
        invariant k <= |blocks| && View() == old(View())
        invariant forall i :: 0 <= i < k ==> !Fits(blocks[i], size)
      {
        if !blocks[k].used && blocks[k].size >= size {
          break;
        }
        k := k + 1;
      }
      FirstFitUnique(blocks, size, k);
      if k == |blocks| {
        var page := pages.Alloc();
        if page == 0 {
          return 0;
        }
        blocks, taken := blocks + [Block(page, PAGE, false, 0)], taken + [page];
      }
      ptr := blocks[k].addr + HDR;
      Split(k, size, n);
    }

    /** The allocation of block `k`, and the split of what it does not need. */
    method Split(k: nat, size: nat, req: nat)
      requires k < |blocks| && size <= blocks[k].size
      modifies this`blocks
      ensures blocks == Placed(old(blocks), k, size, req)
    {
      var b := blocks[k];
      blocks := blocks[k := b.(used := true, req := req)];
      if b.size - size > HDR {
        var rem := Block(b.addr + size, b.size - size, false, 0);
        blocks := blocks[..k + 1] + [rem] + blocks[k + 1..];
        blocks := blocks[k := blocks[k].(size := size)];
        assert blocks == old(blocks)[..k] + [Block(b.addr, size, true, req), rem] + old(blocks)[k + 1..];
      }
    }

    /** `kfree`; `k` is the list position of the header in front of `ptr`. */
    method Free(ptr: nat, k: nat)
      requires ptr != 0 ==> k < |blocks| && blocks[k].used && ptr == blocks[k].addr + HDR
      modifies this`blocks
      ensures blocks == if ptr == 0 then old(blocks) else Released(old(blocks), k)
    {
      hide Merged;
      if ptr == 0 {
        return;
      }
      var curr := k;
      blocks := blocks[curr := blocks[curr].(used := false, req := 0)];
      if curr != 0 {
        var prev := blocks[curr - 1];
        if !prev.used && prev.addr + prev.size == blocks[curr].addr {
          Absorb(curr - 1);
          curr := curr - 1;
        }
      }
      if curr != |blocks| - 1 {
        var next := blocks[curr + 1];
        if !next.used && blocks[curr].addr + blocks[curr].size == next.addr {
          Absorb(curr);
        }
      }
    }

    /** Block `i` grows over its successor, which leaves the list. */
    method Absorb(i: nat)
      requires i + 1 < |blocks|
      modifies this`blocks
      ensures blocks == Merged(old(blocks), i)
    {
      var next := blocks[i + 1];
      blocks := blocks[i := blocks[i].(size := blocks[i].size + next.size)];
      blocks := blocks[..i + 1] + blocks[i + 2..];
    }
  }

  lemma FirstFitUnique(bs: seq<Block>, size: nat, k: nat)
    requires k <= |bs| && (forall i :: 0 <= i < k ==> !Fits(bs[i], size)) && (k < |bs| ==> Fits(bs[k], size))
    ensures FirstFit(bs, size) == k
  {
  }
}
