/** What the invariant of the buddy allocator means for its clients. */
module BuddyRuns {
  import opened Common
  import opened Bits
  import opened BuddyLayout
  import opened BuddyHeap
  import opened BuddySizes
  import opened BuddySteps
  import opened BuddyAllocator
  import opened Words

  const HEAP_START: nat := 0xF0_0000
  const HEAP_END: nat := 0x200_0000

  /**
   The blocks of every reachable state: they tile the initial block, no two
   free buddies of equal size remain, and a block is free exactly when it is
   in the list of its own order and in no other.
   */
  lemma ReachableShape(h: Buddy)
    requires h.Valid()
    ensures Tiled(h.heap.layout, h.heap.K) && Merged(h.heap.layout, h.heap.K)
    ensures Listed(h.heap.layout, h.heap.chains, -1)
    ensures Threaded(h.mem, h.freeLists, h.heap.chains)
    ensures HeadersMatch(h.mem, h.heap.layout)
  {
    assert Inspect(0) && Intact(h.heap);
  }

  /**
   The memInfo counters in every reachable state: free bytes, allocated bytes
   and the headers of the live blocks account for the whole heap, and the free
   bytes are those of the free blocks plus the part past the initial block.
   */
  lemma CountersBalance(h: Buddy)
    requires h.Valid()
    ensures h.freeSize + h.allocatedSize + HEADER_SIZE * |h.heap.live| == h.totalSize
    ensures h.freeSize == Weight(Free(h.heap.layout)) + (h.totalSize - Pow2(h.heap.K))
    ensures h.freeSize >= 0
  {
    assert Count(0);
    HeapFacts(h.heap);
    LivePlusFree(h.heap.layout, h.heap.K);
  }

  /** Live blocks never share a byte, and they lie inside the initial block. */
  lemma LiveBlocksDisjoint(h: Buddy, p: nat, q: nat)
    requires h.Valid() && p in h.heap.live && q in h.heap.live && p != q
    ensures p + Pow2(h.heap.live[p]) <= q || q + Pow2(h.heap.live[q]) <= p
    ensures p + Pow2(h.heap.live[p]) <= Pow2(h.heap.K) <= h.totalSize
    ensures Pow2(h.heap.live[p]) >= MIN_BLOCK_SIZE && Aligned(p, h.heap.live[p])
  {
    LiveInHeap(h.heap, p);
    LiveInHeap(h.heap, q);
    InHeap(h.heap, p);
    HeapFacts(h.heap);
    TheyAreApart(h.heap.layout, p, q);
    SmallestBlock(h.heap.live[p]);
  }

  lemma SmallestBlock(level: nat)
    requires level >= MIN_LEVEL
    ensures Pow2(level) >= MIN_BLOCK_SIZE
  {
    Pow2Mono(MIN_LEVEL, level);
    assert Pow2(MIN_LEVEL) == 64;
  }

  /** A heap with nothing in use is the heap as it was set up. */
  lemma EmptyHeapIsInitial(h: Buddy)
    requires h.Valid() && h.heap.live == map[]
    ensures h.heap.layout == map[0 := Block(h.heap.K, true)]
  {
    HeapFacts(h.heap);
    forall o | o in h.heap.layout ensures h.heap.layout[o].free {
      assert o in Live(h.heap.layout) <==> !h.heap.layout[o].free;
    }
    AllFreeIsInitial(h.heap.layout, h.heap.K);
  }

  /** The blocks of a heap are determined by the blocks in use, whatever the history. */
  lemma HistoryDoesNotMatter(g: Heap, h: Heap)
    requires g.out == h.out == -1 && g.K == h.K && g.live == h.live
    ensures g.layout == h.layout
  {
    HeapFacts(g);
    HeapFacts(h);
    LiveDeterminesLayout(g.layout, h.layout, g.K);
  }

  /** The heap the kernel sets up has memory past its initial block, so free does read a header there. */
  lemma RealHeapHasTail(K: nat)
    requires Pow2(K) <= HEAP_END - HEAP_START < Pow2(K + 1)
    ensures K == 24 && Pow2(K) < HEAP_END - HEAP_START
  {
    TimesPow2(0, 1, 9);
    TimesPow2(9, 0x200, 9);
    assert Pow2(24) == 64 * Pow2(18);
    if K < 24 {
      Pow2Mono(K + 1, 24);
    } else if K > 24 {
      Pow2Mono(25, K);
    }
  }

  /** Freeing every live block, in any order, gives back the single initial block. */
  method FreeAll(h: Buddy, order: seq<nat>)
    requires h.Valid() && !h.heap.tailFree
    requires h.heap.live.Keys == Elements(order) && Distinct(order)
    modifies h
    ensures h.Valid() && h.heap.layout == map[0 := Block(h.heap.K, true)]
    ensures h.freeSize == h.totalSize && h.allocatedSize == 0
  {
    if order == [] {
      EmptyHeapIsInitial(h);
      EmptyCounters(h);
    } else {
      assert order[0] in Elements(order);
      InUse(h, order[0]);
      var ok := h.Free(At(order[0] + HEADER_SIZE));
      FreeAll(h, order[1..]);
    }
  }

  lemma InUse(h: Buddy, o: nat)
    requires h.Valid() && o in h.heap.live
    ensures o < h.totalSize
  {
    LiveInHeap(h.heap, o);
    InHeap(h.heap, o);
  }

  lemma EmptyCounters(h: Buddy)
    requires h.Valid() && h.heap.live == map[]
    ensures h.freeSize == h.totalSize && h.allocatedSize == 0
  {
    assert Count(0);
  }

  /** Freeing what a malloc returned restores exactly the blocks there were before it. */
  method MallocThenFree(h: Buddy, size: nat) returns (ptr: Link, ok: bool)
    requires h.Valid() && Wanted(size) < TWO_64
    modifies h
    ensures !ok <==> ptr != Null && old(h.heap.tailFree) && old(h.heap.live) == map[]
    ensures ok ==> h.Valid() && h.heap.layout == old(h.heap.layout)
  {
    ptr := h.Malloc(size);
    ok := true;
    if ptr != Null {
      ghost var o := ptr.off - HEADER_SIZE;
      assert h.heap.live - {o} == old(h.heap.live);
      assert h.heap.live.Keys == old(h.heap.live).Keys + {o};
      InUse(h, o);
      ok := h.Free(ptr);
      if ok {
        HistoryDoesNotMatter(h.heap, old(h.heap));
      }
    }
  }
}
