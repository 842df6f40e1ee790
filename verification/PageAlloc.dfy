/** The page allocator of `src/mm/page_alloc.c`, in place. */
module PageAlloc {
  import opened Bytes

  const KHEAP_SIZE: nat := 0x80_0000

  /** The free list built at initialisation: every page from `base` up. */
  function AllPages(base: nat, n: nat): seq<nat> {
    seq(n, i requires 0 <= i < n => base + PAGE * i)
  }

  class PageAllocator {
    var free: seq<nat>

    /** The module's initialisation: push every page from the heap's start. */
    constructor (heapStart: nat)
      ensures free == AllPages(heapStart, KHEAP_SIZE / PAGE)
      ensures |free| == 2048 && forall i :: 0 <= i < 2048 ==> free[i] == heapStart + 4096 * i
    {
      free := [];
      new;
      var node, i := heapStart, 0;
      while node < heapStart + KHEAP_SIZE
        invariant i <= KHEAP_SIZE / PAGE && node == heapStart + PAGE * i
        invariant free == AllPages(heapStart, i)
        decreases heapStart + KHEAP_SIZE - node
      {
        free := free + [node];
        node, i := node + PAGE, i + 1;
        assert free == AllPages(heapStart, i);
      }
    }

    /** `page_alloc`; zero is the null pointer. */
    method Alloc() returns (page: nat)
      modifies this`free
      ensures if old(free) == [] then page == 0 && free == [] else page == old(free)[0] && free == old(free)[1..]
    {
      if free == [] {
        return 0;
      }
      page := free[0];
      free := free[1..];
    }

    method Free(page: nat)
      modifies this`free
      ensures free == if page == 0 then old(free) else old(free) + [page]
    {
      if page == 0 {
        return;
      }
      free := free + [page];
    }
  }
}
