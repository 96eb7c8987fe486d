/** The buddy allocator: init_memory_manager, malloc and free over one contiguous heap. */
module BuddyAllocator {
  import opened Bits
  import opened BuddyLayout
  import opened BuddyHeap
  import opened BuddySizes
  import opened BuddySteps
  import opened Words

  const MIN_BLOCK_SIZE: nat := 64
  const HEADER_SIZE: nat := 24            // sizeof(block_t)
  const HEAP_LIMIT: nat := 0x2000_0000    // 2^(MAX_ORDER + 1)

  /** The number of bytes malloc rounds up to a power of two. */
  function Wanted(size: nat): nat {
    if size + HEADER_SIZE < MIN_BLOCK_SIZE then MIN_BLOCK_SIZE else size + HEADER_SIZE
  }

  /** get_buddy, on offsets. */
  function GetBuddy(offset: nat, size: nat): int
    requires size >= 1
  {
    if And(offset, size * 2 - 1) == 0 then offset + size else offset - size
  }

  lemma GetBuddyIsBuddyOf(o: nat, k: nat)
    ensures GetBuddy(o, Pow2(k)) == BuddyOf(o, k)
  {
    MaskTestsAlignment(o, k + 1);
  }

  /** The size of the initial block: the largest doubling of 64 that fits. */
  method InitialBlock(total: nat) returns (size: nat, ghost K: nat)
    requires MIN_BLOCK_SIZE <= total
    ensures size == Pow2(K) <= total < Pow2(K + 1) && K >= MIN_LEVEL
    ensures size <= total < 2 * size
  {
    size, K := MIN_BLOCK_SIZE, MIN_LEVEL;
    assert Pow2(MIN_LEVEL) == 64;
    while size * 2 <= total
      invariant size == Pow2(K) <= total && K >= MIN_LEVEL
      decreases total - size
    {
      size := size * 2;
      K := K + 1;
    }
  }

  /** The order of a block of a given level, through the shifting loop. */
  method OrderOf(size: nat, ghost level: nat) returns (order: nat)
    requires size == Pow2(level) && level >= 1
    ensures order == level - 1
  {
    order := GetOrder(size);
    OrderOfLevel(order, level);
  }

  /** The order of what RoundUp returns. */
  method OrderFor(required: nat, ghost wanted: nat, ghost want: nat) returns (order: nat)
    requires wanted <= MAX_POWER ==> required == Pow2(want) && want >= 1
    requires wanted > MAX_POWER ==> required == 0
    ensures wanted <= MAX_POWER ==> order == want - 1
    ensures wanted > MAX_POWER ==> order >= MAX_ORDER
  {
    order := GetOrder(required);
    if wanted <= MAX_POWER {
      assert Pow2(want) == 2 * Pow2(want - 1);
      OrderOfLevel(order, want);
    } else {
      HugeOrder(order);
    }
  }

  /** No block is as large as a request beyond the largest power of two. */
  lemma HugeRequest(h: Heap, wanted: nat)
    requires wanted > MAX_POWER
    ensures forall o :: o in h.layout && h.layout[o].free ==> Size(h.layout[o]) < wanted
  {
    MaxPower();
    forall o | o in h.layout ensures Size(h.layout[o]) < wanted {
      InHeap(h, o);
      Pow2Mono(h.layout[o].level, 63);
    }
  }

  lemma LevelFits(k: nat, total: nat)
    requires Pow2(k) <= total < HEAP_LIMIT
    ensures k <= MAX_ORDER
  {
    TimesPow2(0, 1, 9);
    TimesPow2(9, 0x200, 9);
    TimesPow2(18, 0x4_0000, 9);
    Pow2Mono(29, if k > MAX_ORDER then k else 29);
  }

  lemma WantedLevel(wanted: nat, want: nat)
    requires wanted >= MIN_BLOCK_SIZE && IsLeastPow2(Pow2(want), wanted, want)
    ensures want >= MIN_LEVEL
  {
    assert Pow2(MIN_LEVEL) == 64;
    if want < MIN_LEVEL {
      Pow2Mono(want, MIN_LEVEL);
    }
  }

  lemma NoBlock(h: Heap, wanted: nat, want: nat)
    requires h.out == -1 && |h.lists| == MAX_ORDER
    requires want >= 1 && IsLeastPow2(Pow2(want), wanted, want)
    requires forall k | want - 1 <= k < MAX_ORDER :: h.lists[k] == Null
    ensures forall o :: o in h.layout && h.layout[o].free ==> Size(h.layout[o]) < wanted
  {
    forall o | o in h.layout && h.layout[o].free ensures Size(h.layout[o]) < wanted {
      FreeIsListed(h, o);
      TooSmall(h.layout[o].level, wanted, want);
    }
  }

  /** With every list from the wanted order up to `current` empty, no free block that is large enough is below that level. */
  lemma NoSmallerFits(h: Heap, wanted: nat, want: nat, current: nat)
    requires h.out == -1 && |h.lists| == MAX_ORDER
    requires want >= 1 && IsLeastPow2(Pow2(want), wanted, want)
    requires want - 1 <= current < MAX_ORDER && forall k | want - 1 <= k < current :: h.lists[k] == Null
    ensures forall q | q in h.layout && h.layout[q].free && Size(h.layout[q]) >= wanted :: Pow2(current + 1) <= Size(h.layout[q])
  {
    forall q | q in h.layout && h.layout[q].free && Size(h.layout[q]) >= wanted ensures Pow2(current + 1) <= Size(h.layout[q]) {
      var level := h.layout[q].level;
      FreeIsListed(h, q);
      if level < want {
        TooSmall(level, wanted, want);
      } else {
        Pow2Mono(current + 1, level);
      }
    }
  }

  lemma TooSmall(level: nat, wanted: nat, want: nat)
    requires IsLeastPow2(Pow2(want), wanted, want) && level < want
    ensures Pow2(level) < wanted
  {
    Pow2Mono(level, want - 1);
  }

  lemma BigEnough(level: nat, wanted: nat, want: nat)
    requires level >= want && IsLeastPow2(Pow2(want), wanted, want)
    ensures Pow2(level) >= wanted
  {
    Pow2Mono(want, level);
  }

  /** Always true; kept apart from Inspect so that counting does not open the heap. */
  ghost predicate Count(i: int) { true }

  /** What memInfo says. */
  ghost predicate Accounts(total: nat, free: int, used: int, live: map<nat, nat>) {
    forall i {:trigger Count(i)} :: Count(i) ==>
      free == total - Weight(live) && used == Weight(live) - HEADER_SIZE * |live|
  }

  lemma AccountsAdd(total: nat, free: int, used: int, live: map<nat, nat>, o: nat, level: nat)
    requires Accounts(total, free, used, live) && o !in live
    ensures Accounts(total, free - Pow2(level), used + (Pow2(level) - HEADER_SIZE), live[o := level])
  {
    assert Count(0);
    WeightAdd(live, o, level);
  }

  lemma AccountsRemove(total: nat, free: int, used: int, live: map<nat, nat>, o: nat)
    requires Accounts(total, free, used, live) && o in live
    ensures Accounts(total, free + Pow2(live[o]), used - (Pow2(live[o]) - HEADER_SIZE), live - {o})
  {
    assert Count(0);
    WeightRemove(live, o);
    assert |live - {o}| == |live| - 1 by {
      assert (live - {o}).Keys == live.Keys - {o};
    }
  }

  lemma NothingAccounted(total: nat)
    ensures Accounts(total, total, 0, map[])
  {
  }

  datatype MergeResult = Stop | Grown(block: nat) | Crash

  class Buddy {
    const totalSize: nat
    var mem: seq<Header>         // the heap, as the headers one would read at each offset
    var freeLists: seq<Link>
    var freeSize: int            // memInfo
    var allocatedSize: int

    ghost var heap: Heap

    /** The fields hold what the abstract heap says. */
    ghost predicate Holds()
      reads this
    {
      && mem == heap.mem && freeLists == heap.lists
      && |mem| == totalSize && |freeLists| == MAX_ORDER
      && Accounts(totalSize, freeSize, allocatedSize, heap.live)
    }

    ghost predicate Valid()
      reads this
    {
      Holds() && heap.out == -1
    }

    /** Block o, of the given level, is in hand. */
    ghost predicate InHand(o: nat, level: nat)
      reads this
    {
      Holds() && heap.out == o && o in heap.layout && heap.layout[o].level == level
    }

    /** memory is what the machine holds before the heap is set up. */
    constructor (totalSize: nat, memory: seq<Header>)
      requires MIN_BLOCK_SIZE <= totalSize < HEAP_LIMIT
      requires |memory| == totalSize
      ensures Valid() && this.totalSize == totalSize
      ensures Pow2(heap.K) <= totalSize < Pow2(heap.K + 1)
      ensures heap.layout == map[0 := Block(heap.K, true)]
      ensures heap.tailFree <==> TailLooksFree(memory, heap.K)
    {
      var size, k := InitialBlock(totalSize);
      LevelFits(k, totalSize);
      var order := OrderOf(size, k);
      var empty := seq(MAX_ORDER, _ => Null);
      this.totalSize := totalSize;
      this.mem := memory[0 := Header(size, true, Null)];
      this.freeLists := empty[order := At(0)];
      this.freeSize := totalSize;
      this.allocatedSize := 0;
      this.heap := Initial(memory, k);
      NothingAccounted(totalSize);
    }

    /** A client writes anywhere inside the payload of a block it holds. */
    method Scribble(o: nat, at: nat, x: Header)
      requires Valid() && o in heap.live
      requires o + HEADER_SIZE <= at < o + Pow2(heap.live[o])
      modifies `mem, `heap
      ensures Valid() && heap.layout == old(heap.layout) && heap.live == old(heap.live)
      ensures heap.K == old(heap.K) && heap.tailFree == old(heap.tailFree)
    {
      LiveInHeap(heap, o);
      heap := ScribbleStep(heap, o, at, x);
      mem := mem[at := x];
    }

    /** Returns the first byte after the header, or Null. */
    method Malloc(size: nat) returns (ptr: Link)
      requires Valid()
      requires Wanted(size) < TWO_64
      modifies this
      ensures Valid() && heap.K == old(heap.K) && heap.tailFree == old(heap.tailFree)
      ensures ptr == Null <==>
                forall o :: o in old(heap.layout) && old(heap.layout)[o].free ==> Size(old(heap.layout)[o]) < Wanted(size)
      ensures ptr == Null ==> heap == old(heap)
      ensures ptr != Null ==> ptr.off >= HEADER_SIZE && var o := ptr.off - HEADER_SIZE;
                && o !in old(heap.live) && o in heap.live
                && At(o) in old(freeLists) && o in old(heap.layout) && old(heap.layout)[o].free && Size(old(heap.layout)[o]) >= Wanted(size)
                && (forall q | q in old(heap.layout) && old(heap.layout)[q].free && Size(old(heap.layout)[q]) >= Wanted(size) ::
                      Size(old(heap.layout)[o]) <= Size(old(heap.layout)[q]))
                && IsLeastPow2(Pow2(heap.live[o]), Wanted(size), heap.live[o])
                && heap.live == old(heap.live)[o := heap.live[o]]
    {
      var required, want := RoundUp(Wanted(size));
      if Wanted(size) <= MAX_POWER {
        WantedLevel(Wanted(size), want);
      }
      var order := OrderFor(required, Wanted(size), want);
      var current, block := TakeFirst(order);
      if block == Null {
        if Wanted(size) <= MAX_POWER {
          NoBlock(heap, Wanted(size), want);
        } else {
          HugeRequest(heap, Wanted(size));
        }
        return Null;
      }
      BigEnough(current + 1, Wanted(size), want);
      NoSmallerFits(old(heap), Wanted(size), want, current);
      Carve(block.off, current, order);
      ptr := At(block.off + HEADER_SIZE);
    }

    /** The first loop of malloc: the head of the first non-empty list from `order` up. */
    method TakeFirst(order: nat) returns (current: nat, block: Link)
      requires Valid()
      modifies `freeLists, `heap
      ensures heap.live == old(heap.live) && heap.K == old(heap.K) && heap.tailFree == old(heap.tailFree)
      ensures block == Null ==> Valid() && heap == old(heap)
      ensures block == Null ==> forall k | order <= k < MAX_ORDER :: heap.lists[k] == Null
      ensures block != Null ==> order <= current < MAX_ORDER && InHand(block.off, current + 1)
      ensures block != Null ==> block.off in old(heap.layout) && old(heap.layout)[block.off] == Block(current + 1, true)
      ensures block != Null ==> block == old(freeLists)[current] && forall k | order <= k < current :: old(heap.lists)[k] == Null
    {
      current, block := order, Null;
      while current < MAX_ORDER && block == Null
        invariant order <= current
        invariant block == Null ==> Valid() && heap == old(heap) && freeLists == old(freeLists)
        invariant block == Null ==> forall k | order <= k < current && k < MAX_ORDER :: freeLists[k] == Null
        invariant block != Null ==> current < MAX_ORDER && InHand(block.off, current + 1)
        invariant block != Null ==> block.off in old(heap.layout) && old(heap.layout)[block.off] == Block(current + 1, true)
        invariant block != Null ==> block == old(freeLists)[current]
        invariant forall k | order <= k < current && k < MAX_ORDER :: old(freeLists)[k] == Null
        invariant heap.live == old(heap.live) && heap.K == old(heap.K) && heap.tailFree == old(heap.tailFree)
        decreases MAX_ORDER - current, block == Null
      {
        if freeLists[current] != Null {
          block := freeLists[current];
          heap := PopStep(heap, current);
          freeLists := freeLists[current := mem[block.off].next];
        } else {
          current := current + 1;
        }
      }
    }

    /** The second half of malloc: halve block o until it belongs to list `order`, and give it out. */
    method Carve(o: nat, from: nat, order: nat)
      requires InHand(o, from + 1) && order <= from < MAX_ORDER && order + 1 >= MIN_LEVEL
      modifies this
      ensures Valid() && heap.K == old(heap.K) && heap.tailFree == old(heap.tailFree)
      ensures o !in old(heap.live) && heap.live == old(heap.live)[o := order + 1]
    {
      var current := from;
      while current > order
        invariant order <= current < MAX_ORDER
        invariant InHand(o, current + 1)
        invariant heap.live == old(heap.live) && heap.K == old(heap.K) && heap.tailFree == old(heap.tailFree)
      {
        current := current - 1;
        InHeap(heap, o);
        var newSize := mem[o].size / 2;
        var buddy := o + newSize;
        heap := SplitStep(heap, o, current, buddy);
        mem := mem[buddy := Header(newSize, true, freeLists[current])];
        freeLists := freeLists[current := At(buddy)];
        mem := mem[o := mem[o].(size := newSize)];
      }
      GiveOut(o, order + 1);
    }

    /** The last lines of malloc. */
    method GiveOut(o: nat, ghost level: nat)
      requires InHand(o, level)
      modifies `mem, `freeSize, `allocatedSize, `heap
      ensures Valid() && heap.K == old(heap.K) && heap.tailFree == old(heap.tailFree)
      ensures o !in old(heap.live) && heap.live == old(heap.live)[o := level]
    {
      InHeap(heap, o);
      AccountsAdd(totalSize, freeSize, allocatedSize, heap.live, o, level);
      heap := TakeStep(heap, o);
      mem := mem[o := mem[o].(isFree := false)];
      freeSize := freeSize - mem[o].size;
      allocatedSize := allocatedSize + (mem[o].size - HEADER_SIZE);
    }

    /**
     Gives back a pointer malloc returned.  ok is false when the code would
     read through a NULL link, which happens exactly when the last block in
     use is freed and the memory past the initial block reads as a free block
     of its size.  The block that holds it afterwards is the head of its list.
     */
    method Free(ptr: Link) returns (ok: bool)
      requires Valid()
      requires ptr != Null && 0 <= ptr.off - HEADER_SIZE < totalSize ==> ptr.off - HEADER_SIZE in heap.live
      modifies this
      ensures heap.K == old(heap.K) && heap.tailFree == old(heap.tailFree)
      ensures ptr == Null || ptr.off < HEADER_SIZE || ptr.off - HEADER_SIZE >= totalSize ==>
                ok && Valid() && heap == old(heap)
      ensures ptr != Null && 0 <= ptr.off - HEADER_SIZE < totalSize ==>
                var o := ptr.off - HEADER_SIZE;
                && (!ok <==> heap.tailFree && old(heap.live).Keys == {o})
                && (ok ==> Valid() && heap.live == old(heap.live) - {o})
                && (ok ==> exists b {:trigger b in heap.layout} :: b in heap.layout && Covers(heap.layout, b, o) && At(b) in freeLists)
    {
      if ptr == Null {
        return true;
      }
      var o := ptr.off - HEADER_SIZE;
      if o < 0 || o >= totalSize {
        return true;
      }
      ghost var rest := heap.live - {o};
      LiveInHeap(heap, o);
      ghost var level := heap.live[o];
      GiveBack(o);
      var merged, block, top := Merge(o, level);
      if !merged {
        return false;
      }
      if rest == map[] {
        NothingInUse(heap, block);
      }
      Release(block, top);
      assert Covers(heap.layout, block, o);
      ok := true;
    }

    /** The merging loop of free; ok is false when it meets NULL. */
    method Merge(o: nat, ghost level: nat) returns (ok: bool, block: nat, ghost top: nat)
      requires InHand(o, level)
      modifies `mem, `freeLists, `heap
      ensures heap.live == old(heap.live) && heap.K == old(heap.K) && heap.tailFree == old(heap.tailFree)
      ensures ok ==> InHand(block, top) && block <= o < block + Pow2(top)
      ensures ok ==> (top < heap.K ==> !BuddyFree(heap.layout, block)) && (top == heap.K ==> !heap.tailFree)
      ensures !ok ==> heap.tailFree && heap.live == map[]
    {
      block, top := o, level;
      while true
        invariant InHand(block, top) && heap.live == old(heap.live)
        invariant block <= o < block + Pow2(top)
        invariant heap.K == old(heap.K) && heap.tailFree == old(heap.tailFree)
        decreases heap.K - top
      {
        InHeap(heap, block);
        var r := MergeOnce(block, top);
        match r {
          case Stop => return true, block, top;
          case Crash => return false, block, top;
          case Grown(next) =>
            block, top := next, top + 1;
            InHeap(heap, block);
        }
      }
    }

    /** The first lines of free: block o is free again, though not yet listed. */
    method GiveBack(o: nat)
      requires Valid() && o in heap.live
      modifies `mem, `freeSize, `allocatedSize, `heap
      ensures InHand(o, old(heap.live)[o]) && heap.live == old(heap.live) - {o}
      ensures heap.K == old(heap.K) && heap.tailFree == old(heap.tailFree)
    {
      LiveInHeap(heap, o);
      InHeap(heap, o);
      AccountsRemove(totalSize, freeSize, allocatedSize, heap.live, o);
      heap := GiveBackStep(heap, o);
      mem := mem[o := mem[o].(isFree := true)];
      freeSize := freeSize + mem[o].size;
      allocatedSize := allocatedSize - (mem[o].size - HEADER_SIZE);
    }

    /** The last lines of free: the merged block becomes the head of its list. */
    method Release(block: nat, ghost level: nat)
      requires InHand(block, level) && (level < heap.K ==> !BuddyFree(heap.layout, block))
      modifies `mem, `freeLists, `heap
      ensures Valid() && heap.live == old(heap.live) && heap.layout == old(heap.layout) && At(block) in freeLists
      ensures heap.K == old(heap.K) && heap.tailFree == old(heap.tailFree)
    {
      InHeap(heap, block);
      var order := OrderOf(mem[block].size, level);
      heap := PushStep(heap, block, order);
      mem := mem[block := mem[block].(next := freeLists[order])];
      freeLists := freeLists[order := At(block)];
      assert freeLists[order] == At(block);
    }

    /** One round of the merging loop: the test, the unlinking, the doubling. */
    method MergeOnce(block: nat, ghost level: nat) returns (r: MergeResult)
      requires InHand(block, level)
      modifies `mem, `freeLists, `heap
      ensures heap.live == old(heap.live) && heap.K == old(heap.K) && heap.tailFree == old(heap.tailFree)
      ensures r.Stop? ==> InHand(block, level)
      ensures r.Stop? ==> (level < heap.K ==> !BuddyFree(heap.layout, block)) && (level == heap.K ==> !heap.tailFree)
      ensures r.Grown? ==> InHand(r.block, level + 1) && r.block <= block && block + Pow2(level) <= r.block + Pow2(level + 1)
      ensures r.Crash? ==> heap.tailFree && heap.live == map[]
    {
      InHeap(heap, block);
      var size := mem[block].size;
      var b := GetBuddy(block, size);
      GetBuddyIsBuddyOf(block, level);
      if level < heap.K {
        BuddyHeader(heap, block);
      } else {
        TopBuddy(heap, block);
      }
      if b >= totalSize || b < 0 || !mem[b].isFree || mem[b].size != size {
        return Stop;
      }
      var order := OrderOf(size, level);
      var found, cell, j := FindLink(b, order);
      if !found {
        return Crash;
      }
      r := Absorb(block, level, b, cell, j);
    }

    /** Unlinks the buddy and doubles the block. */
    method Absorb(block: nat, ghost level: nat, b: nat, cell: Cell, ghost j: nat) returns (r: MergeResult)
      requires InHand(block, level) && 1 <= level < heap.K && level <= |heap.chains| && BuddyOf(block, level) == b < totalSize
      requires j < |heap.chains[level - 1]| && heap.chains[level - 1][j] == b && cell == CellOf(heap.chains, level - 1, j)
      modifies `mem, `freeLists, `heap
      ensures heap.live == old(heap.live) && heap.K == old(heap.K) && heap.tailFree == old(heap.tailFree)
      ensures r.Grown? && InHand(r.block, level + 1) && r.block <= block && block + Pow2(level) <= r.block + Pow2(level + 1)
    {
      var low := if b < block then b else block;
      var target := mem[b].next;
      ghost var h := AbsorbStep(heap, block, b, cell, j, low, if b < block then block else b);
      var mem' := WriteMem(mem, cell, target);
      freeLists := WriteLists(freeLists, cell, target);
      mem := mem'[low := mem'[low].(size := mem'[low].size * 2)];
      heap := h;
      r := Grown(low);
    }

    /** Walks a list for the link to block b; not found means the walk read through NULL. */
    method FindLink(b: nat, order: nat) returns (found: bool, cell: Cell, ghost j: nat)
      requires Holds() && order < MAX_ORDER && order < |heap.chains|
      ensures found <==> b in heap.chains[order]
      ensures found ==> j < |heap.chains[order]| && heap.chains[order][j] == b && cell == CellOf(heap.chains, order, j)
    {
      cell, j := Head(order), 0;
      CellAt(heap, order, j);
      while Deref(mem, freeLists, cell) != At(b)
        invariant j <= |heap.chains[order]| && cell == CellOf(heap.chains, order, j)
        invariant j > 0 ==> heap.chains[order][j - 1] < |mem|
        invariant Deref(mem, freeLists, cell) == LinkAt(heap.chains[order], j)
        invariant b !in heap.chains[order][..j]
        decreases |heap.chains[order]| - j
      {
        var link := Deref(mem, freeLists, cell);
        if link == Null {
          return false, cell, j;
        }
        cell, j := Next(link.off), j + 1;
        CellAt(heap, order, j);
      }
      found := true;
    }
  }
}
