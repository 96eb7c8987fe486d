/**
 The first-fit allocator over its memory: a header at the start of every
 block, the free ones linked from `freeList`.
 */
module FreeListAllocator {
  import opened FreeListHeap

  datatype Node = Node(size: int, next: int)

  function HeadOf(c: seq<int>): int {
    if c == [] then NULL else c[0]
  }

  function NextOf(c: seq<int>, i: nat): int {
    if i + 1 < |c| then c[i + 1] else NULL
  }

  predicate Linked(mem: map<int, Node>, c: seq<int>, i: int) {
    0 <= i < |c| ==> c[i] in mem && mem[c[i]].next == NextOf(c, i)
  }

  predicate Sized(mem: map<int, Node>, L: map<int, Cell>, p: int) {
    p in L ==> p in mem && mem[p].size == L[p].size
  }

  /** The links spell the list. */
  ghost predicate Chain(mem: map<int, Node>, c: seq<int>) {
    forall i {:trigger Linked(mem, c, i)} :: Linked(mem, c, i)
  }

  ghost predicate Headers(mem: map<int, Node>, L: map<int, Cell>) {
    forall p {:trigger Sized(mem, L, p)} :: Sized(mem, L, p)
  }

  ghost predicate Rep(mem: map<int, Node>, head: int, h: Heap) {
    && Headers(mem, h.cells) && Chain(mem, h.list) && head == HeadOf(h.list)
  }

  /** mem with what follows list position k - 1 (or the head of the list) set to q. */
  function Link(mem: map<int, Node>, c: seq<int>, k: nat, q: int): map<int, Node>
    requires k <= |c| && (k > 0 ==> c[k - 1] in mem)
  {
    if k == 0 then mem else mem[c[k - 1] := mem[c[k - 1]].(next := q)]
  }

  lemma RepTakeWhole(mem: map<int, Node>, head: int, h: Heap, n: int, k: nat, need: int)
    requires Inv(h, n) && Rep(mem, head, h) && Listed(h) && k < |h.list|
    requires h.cells[h.list[k]].size <= need + BLOCK_SIZE
    ensures (k > 0 ==> h.list[k - 1] in mem) && var q := NextOf(h.list, k);
            Rep(Link(mem, h.list, k, q), if k == 0 then q else head, Take(h, k, need))
  {
    assert Linked(mem, h.list, k - 1);
    var t := Take(h, k, need);
    var m := Link(mem, h.list, k, NextOf(h.list, k));
    forall i ensures Linked(m, t.list, i) {
      var j := if i < k then i else i + 1;
      assert Linked(mem, h.list, j);
    }
    forall p ensures Sized(m, t.cells, p) {
      assert Sized(mem, h.cells, p);
    }
  }

  lemma RepTakePart(mem: map<int, Node>, head: int, h: Heap, n: int, k: nat, need: int)
    requires Inv(h, n) && Rep(mem, head, h) && Listed(h) && k < |h.list|
    requires 0 < need && h.cells[h.list[k]].size > need + BLOCK_SIZE
    ensures (k > 0 ==> h.list[k - 1] in mem) &&
            var p := h.list[k]; var q := p + need;
            var m := mem[q := Node(h.cells[p].size - need, NextOf(h.list, k))][p := Node(need, q)];
            Rep(Link(m, h.list, k, q), if k == 0 then q else head, Take(h, k, need))
  {
    var p := h.list[k];
    var q := p + need;
    var m := mem[q := Node(h.cells[p].size - need, NextOf(h.list, k))][p := Node(need, q)];
    var t := Take(h, k, need);
    SplitTiles(h.cells, n, p, need);
    assert Linked(mem, h.list, k - 1);
    var m1 := Link(m, h.list, k, q);
    forall i ensures Linked(m1, t.list, i) {
      assert Linked(mem, h.list, i);
    }
    forall a ensures Sized(m1, t.cells, a) {
      assert Sized(mem, h.cells, a);
    }
  }

  lemma RepPush(mem: map<int, Node>, head: int, h: Heap, n: int, p: int)
    requires Inv(h, n) && Rep(mem, head, h) && IsLive(h, p)
    ensures p in mem && Rep(mem[p := mem[p].(next := head)], p, Push(h, p))
  {
    assert Sized(mem, h.cells, p);
    var m := mem[p := mem[p].(next := head)];
    var t := Push(h, p);
    ListIsFree(h, n);
    forall i ensures Linked(m, t.list, i) {
      assert Linked(mem, h.list, i - 1);
    }
    forall a ensures Sized(m, t.cells, a) {
      assert Sized(mem, h.cells, a);
    }
  }

  lemma RepMerge(mem: map<int, Node>, head: int, h: Heap, n: int, i: nat)
    requires Inv(h, n) && Rep(mem, head, h) && Listed(h) && i + 1 < |h.list| && Touches(h, i)
    ensures var p, q := h.list[i], h.list[i + 1];
            && p in mem && q in mem
            && Rep(mem[p := Node(mem[p].size + mem[q].size, mem[q].next)], head, Merged(h, i))
  {
    var p, q := h.list[i], h.list[i + 1];
    assert Linked(mem, h.list, i) && Linked(mem, h.list, i + 1);
    assert Sized(mem, h.cells, p) && Sized(mem, h.cells, q);
    var m := mem[p := Node(mem[p].size + mem[q].size, mem[q].next)];
    var t := Merged(h, i);
    forall j ensures Linked(m, t.list, j) {
      var k := if j <= i then j else j + 1;
      assert Linked(mem, h.list, k);
    }
    forall a ensures Sized(m, t.cells, a) {
      assert Sized(mem, h.cells, a);
    }
  }

  /** Memory inside the payload of a live block is its owner's. */
  lemma RepScribble(mem: map<int, Node>, head: int, h: Heap, n: int, p: int, x: int, v: Node)
    requires Inv(h, n) && Rep(mem, head, h) && IsLive(h, p) && p < x < p + h.cells[p].size
    ensures Rep(mem[x := v], head, h)
  {
    assert Apart(h.cells, p, x);
    ListIsFree(h, n);
    var m := mem[x := v];
    forall i ensures Linked(m, h.list, i) {
      assert Linked(mem, h.list, i);
    }
    forall a ensures Sized(m, h.cells, a) {
      assert Sized(mem, h.cells, a);
    }
  }

  /** Where the traversal stands: at list position k, after `previous`. */
  ghost predicate At(h: Heap, k: nat, previous: int, current: int) {
    && k <= |h.list|
    && current == (if k < |h.list| then h.list[k] else NULL)
    && previous == (if k > 0 then h.list[k - 1] else NULL)
  }

  lemma NotNull(h: Heap, n: int)
    requires Inv(h, n)
    ensures Listed(h)
    ensures forall i {:trigger h.list[i]} | 0 <= i < |h.list| :: IsFree(h.cells, h.list[i]) && h.list[i] != NULL
  {
    ListIsFree(h, n);
    forall i | 0 <= i < |h.list| ensures h.list[i] != NULL {
      assert Placed(h.cells, h.list[i], n);
    }
  }

  class FreeList {
    const totalSize: int
    var mem: map<int, Node>
    var freeList: int
    ghost var heap: Heap

    /** The bytes that are in blocks: the last header's worth never is. */
    function Managed(): int {
      totalSize - BLOCK_SIZE
    }

    ghost predicate Valid()
      reads this
    {
      Inv(heap, Managed()) && Rep(mem, freeList, heap)
    }

    /** init_memory_manager */
    constructor (total: int)
      requires total > BLOCK_SIZE
      ensures Valid() && totalSize == total && Starts(heap, Managed())
    {
      totalSize := total;
      mem := map[0 := Node(total - BLOCK_SIZE, NULL)];
      freeList := 0;
      heap := Heap(map[0 := Cell(total - BLOCK_SIZE, true)], [0]);
    }

    /** The owner of the live block p writes into it. */
    method Scribble(p: int, x: int, v: Node)
      requires Valid() && IsLive(heap, p) && p < x < p + heap.cells[p].size
      modifies this`mem
      ensures Valid()
    {
      RepScribble(mem, freeList, heap, Managed(), p, x, v);
      mem := mem[x := v];
    }

    /** The block in hand is cut if the rest is big enough for a block, and leaves the list. */
    method HandOut(previous: int, current: int, need: int, ghost k: nat)
      requires Valid() && Listed(heap) && At(heap, k, previous, current) && current != NULL && need > 0
      modifies this
      ensures Valid() && heap == Take(old(heap), k, need)
    {
      ghost var h := heap;
      NotNull(h, Managed());
      assert Sized(mem, h.cells, current) && Linked(mem, h.list, k);
      if mem[current].size > need + BLOCK_SIZE {
        RepTakePart(mem, freeList, h, Managed(), k, need);
        TakePartKeepsInv(h, Managed(), k, need);
        var newBlock := current + need;
        mem := mem[newBlock := Node(mem[current].size - need, mem[current].next)][current := Node(need, newBlock)];
      } else {
        RepTakeWhole(mem, freeList, h, Managed(), k, need);
        TakeWholeKeepsInv(h, Managed(), k, need);
      }
      if previous == NULL {
        freeList := mem[current].next;
      } else {
        mem := mem[previous := mem[previous].(next := mem[current].next)];
      }
      heap := Take(h, k, need);
    }

    method Malloc(bytes: nat) returns (ptr: int)
      requires Valid()
      modifies this
      ensures Valid() && (heap, ptr) == AfterMalloc(old(heap), Managed(), bytes)
    {
      NotNull(heap, Managed());
      if bytes == 0 {
        return NULL;
      }
      var need := bytes + BLOCK_SIZE;
      var previous, current := NULL, freeList;
      ghost var k := 0;
      while current != NULL
        invariant At(heap, k, previous, current) && heap == old(heap) && Valid()
        invariant FirstFit(heap, need, k) == FirstFit(heap, need, 0)
        decreases |heap.list| - k
      {
        assert Sized(mem, heap.cells, current) && Linked(mem, heap.list, k);
        if mem[current].size >= need {
          HandOut(previous, current, need, k);
          return current + BLOCK_SIZE;
        }
        previous := current;
        current := mem[current].next;
        k := k + 1;
      }
      return NULL;
    }

    /** The next block in the list, which starts where current ends, becomes part of it. */
    method Absorb(current: int, ghost i: nat)
      requires Valid() && Listed(heap) && i + 1 < |heap.list| && current == heap.list[i] && Touches(heap, i)
      modifies this
      ensures Valid() && Listed(old(heap)) && heap == Merged(old(heap), i) && freeList == old(freeList)
    {
      ghost var h := heap;
      RepMerge(mem, freeList, h, Managed(), i);
      MergeKeepsInv(h, Managed(), i);
      assert Linked(mem, h.list, i);
      var next := mem[current].next;
      mem := mem[current := Node(mem[current].size + mem[next].size, mem[next].next)];
      heap := Merged(h, i);
    }

    /** coalesce_free_blocks */
    method CoalesceFreeBlocks()
      requires Valid() && Listed(heap)
      modifies this
      ensures Valid() && Listed(old(heap)) && heap == Coalesce(old(heap), 0)
    {
      var current := freeList;
      ghost var i := 0;
      NotNull(heap, Managed());
      assert Linked(mem, heap.list, 0);
      while current != NULL && mem[current].next != NULL
        invariant Valid() && Listed(heap)
        invariant Here(current, i)
        invariant Coalesce(heap, i) == Coalesce(old(heap), 0)
        decreases |heap.list| - i
      {
        NotNull(heap, Managed());
        assert Sized(mem, heap.cells, current);
        if current + mem[current].size == mem[current].next {
          Absorb(current, i);
        } else {
          current := mem[current].next;
          i := i + 1;
        }
        NotNull(heap, Managed());
        assert Linked(mem, heap.list, i);
      }
      NotNull(heap, Managed());
      assert i + 1 >= |heap.list|;
    }

    ghost predicate Here(current: int, i: nat)
      reads this
    {
      && i <= |heap.list|
      && current == (if i < |heap.list| then heap.list[i] else NULL)
      && (current != NULL ==> i < |heap.list| && current in mem && mem[current].next == NextOf(heap.list, i))
    }

    /** free */
    method Free(ptr: int)
      requires Valid() && (ptr != NULL ==> IsLive(heap, ptr - BLOCK_SIZE))
      modifies this
      ensures Valid()
      ensures heap == if ptr == NULL then old(heap) else AfterFree(old(heap), Managed(), ptr - BLOCK_SIZE)
    {
      if ptr == NULL {
        return;
      }
      var p := ptr - BLOCK_SIZE;
      assert Sized(mem, heap.cells, p) && Placed(heap.cells, p, Managed());
      if mem[p].size == 0 || mem[p].size > totalSize {
        return;
      }
      RepPush(mem, freeList, heap, Managed(), p);
      PushKeepsInv(heap, Managed(), p);
      mem := mem[p := mem[p].(next := freeList)];
      freeList := p;
      heap := Push(heap, p);
      ListIsFree(heap, Managed());
      CoalesceFreeBlocks();
    }
  }
}
