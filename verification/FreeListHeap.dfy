/**
 The heap of the first-fit allocator as a value: which blocks there are, which
 of them are free, and the order of the free list.
 */
module FreeListHeap {

  const BLOCK_SIZE: int := 16
  const NULL: int := -1

  datatype Cell = Cell(size: int, free: bool)

  /** cells: the blocks by offset.  list: the free ones, in list order. */
  datatype Heap = Heap(cells: map<int, Cell>, list: seq<int>)

  predicate Apart(L: map<int, Cell>, p: int, q: int) {
    p in L && q in L && p < q ==> p + L[p].size <= q
  }

  predicate Placed(L: map<int, Cell>, p: int, n: int) {
    p in L ==>
      && 0 <= p && 0 < L[p].size && p + L[p].size <= n
      && (p + L[p].size == n || p + L[p].size in L)
  }

  /** The blocks tile [0, n): each starts where another ends, and none reaches into the next. */
  ghost predicate Tiles(L: map<int, Cell>, n: int) {
    && 0 in L
    && (forall p {:trigger Placed(L, p, n)} :: Placed(L, p, n))
    && (forall p, q {:trigger Apart(L, p, q)} :: Apart(L, p, q))
  }

  predicate IsFree(L: map<int, Cell>, p: int) {
    p in L && L[p].free
  }

  ghost predicate NoRepeats(c: seq<int>) {
    forall i, j {:trigger c[i], c[j]} | 0 <= i < j < |c| :: c[i] != c[j]
  }

  /** The list holds exactly the free blocks, each once. */
  ghost predicate Lists(L: map<int, Cell>, c: seq<int>) {
    && NoRepeats(c)
    && forall p {:trigger p in c} {:trigger IsFree(L, p)} :: p in c <==> IsFree(L, p)
  }

  ghost predicate Inv(h: Heap, n: int) {
    Tiles(h.cells, n) && Lists(h.cells, h.list)
  }

  // ---- every byte is in one block ----

  predicate Holds(L: map<int, Cell>, p: int, x: int) {
    p in L && p <= x < p + L[p].size
  }

  lemma {:induction false} FindBlock(L: map<int, Cell>, n: int, p: int, x: int) returns (q: int)
    requires Tiles(L, n) && p in L && p <= x < n
    ensures Holds(L, q, x)
    decreases n - p
  {
    assert Placed(L, p, n);
    if x < p + L[p].size {
      q := p;
    } else {
      q := FindBlock(L, n, p + L[p].size, x);
    }
  }

  lemma EveryByteInOneBlock(L: map<int, Cell>, n: int, x: int) returns (q: int)
    requires Tiles(L, n) && 0 <= x < n
    ensures Holds(L, q, x)
    ensures forall p | Holds(L, p, x) :: p == q
  {
    q := FindBlock(L, n, 0, x);
    forall p | Holds(L, p, x) ensures p == q {
      assert Apart(L, p, q) && Apart(L, q, p);
    }
  }

  // ---- the operations ----

  predicate Listed(h: Heap) {
    forall i {:trigger h.list[i]} | 0 <= i < |h.list| :: h.list[i] in h.cells
  }

  lemma ListIsFree(h: Heap, n: int)
    requires Inv(h, n)
    ensures Listed(h)
    ensures forall i {:trigger h.list[i]} | 0 <= i < |h.list| :: IsFree(h.cells, h.list[i])
  {
    forall i | 0 <= i < |h.list| ensures IsFree(h.cells, h.list[i]) {
      assert h.list[i] in h.list;
    }
  }

  function Remove(c: seq<int>, i: nat): seq<int>
    requires i < |c|
  {
    c[..i] + c[i + 1..]
  }

  /** The first list position from i on whose block has at least n bytes. */
  function FirstFit(h: Heap, n: int, i: nat): (k: nat)
    requires i <= |h.list| && Listed(h)
    ensures i <= k <= |h.list|
    ensures forall j | i <= j < k :: h.cells[h.list[j]].size < n
    ensures k < |h.list| ==> h.cells[h.list[k]].size >= n
    decreases |h.list| - i
  {
    if i < |h.list| && h.cells[h.list[i]].size < n then FirstFit(h, n, i + 1) else i
  }

  /** The block at list position k is handed out, header included n bytes of it if the rest makes a block. */
  function Take(h: Heap, k: nat, n: int): Heap
    requires k < |h.list| && h.list[k] in h.cells
  {
    var p := h.list[k];
    var size := h.cells[p].size;
    if size > n + BLOCK_SIZE then
      Heap(h.cells[p := Cell(n, false)][p + n := Cell(size - n, true)], h.list[k := p + n])
    else
      Heap(h.cells[p := Cell(size, false)], Remove(h.list, k))
  }

  /** The block q, which follows p, becomes part of p. */
  function Merge(L: map<int, Cell>, p: int, q: int): map<int, Cell>
    requires p in L && q in L
  {
    (L - {q})[p := Cell(L[p].size + L[q].size, L[p].free)]
  }

  /** The list positions i and i + 1 become one block. */
  function Merged(h: Heap, i: nat): Heap
    requires Listed(h) && i + 1 < |h.list|
  {
    Heap(Merge(h.cells, h.list[i], h.list[i + 1]), Remove(h.list, i + 1))
  }

  /** The block at list position i ends where the next one in the list begins. */
  predicate Touches(h: Heap, i: nat)
    requires Listed(h) && i + 1 < |h.list|
  {
    h.list[i] + h.cells[h.list[i]].size == h.list[i + 1]
  }

  /** coalesce_free_blocks from list position i on. */
  function Coalesce(h: Heap, i: nat): Heap
    requires Listed(h) && NoRepeats(h.list)
    decreases |h.list| - i
  {
    if i + 1 >= |h.list| then h
    else if Touches(h, i) then MergeListed(h, i); Coalesce(Merged(h, i), i)
    else Coalesce(h, i + 1)
  }

  lemma MergeListed(h: Heap, i: nat)
    requires Listed(h) && NoRepeats(h.list) && i + 1 < |h.list|
    ensures Listed(Merged(h, i)) && NoRepeats(Merged(h, i).list)
  {
  }

  /** What free does to a live block before it coalesces. */
  function Push(h: Heap, p: int): Heap
    requires p in h.cells
  {
    Heap(h.cells[p := h.cells[p].(free := true)], [p] + h.list)
  }

  lemma RemoveElements(c: seq<int>, i: nat)
    requires NoRepeats(c) && i < |c|
    ensures NoRepeats(Remove(c, i))
    ensures forall p :: p in Remove(c, i) <==> p in c && p != c[i]
  {
    var d := Remove(c, i);
    forall p | p in c && p != c[i] ensures p in d {
      var j :| 0 <= j < |c| && c[j] == p;
      assert d[if j < i then j else j - 1] == p;
    }
    forall p | p in d ensures p in c && p != c[i] {
      var j :| 0 <= j < |d| && d[j] == p;
      assert c[if j < i then j else j + 1] == p;
    }
  }

  // ---- malloc keeps the heap whole ----

  lemma TakeWholeKeepsInv(h: Heap, n: int, k: nat, need: int)
    requires Inv(h, n) && k < |h.list| && h.list[k] in h.cells
    requires h.cells[h.list[k]].size <= need + BLOCK_SIZE
    ensures Inv(Take(h, k, need), n)
  {
    var t := Take(h, k, need);
    var p := h.list[k];
    RemoveElements(h.list, k);
    forall q ensures Placed(t.cells, q, n) {
      assert Placed(h.cells, q, n);
    }
    forall a, b ensures Apart(t.cells, a, b) {
      assert Apart(h.cells, a, b);
    }
  }

  lemma SplitTiles(L: map<int, Cell>, n: int, p: int, need: int)
    requires Tiles(L, n) && p in L && 0 < need < L[p].size
    ensures p + need !in L
    ensures Tiles(L[p := Cell(need, false)][p + need := Cell(L[p].size - need, true)], n)
  {
    var M := L[p := Cell(need, false)][p + need := Cell(L[p].size - need, true)];
    assert Placed(L, p, n) && Apart(L, p, p + need);
    forall q ensures Placed(M, q, n) {
      assert Placed(L, q, n);
    }
    forall a, b ensures Apart(M, a, b) {
      assert Apart(L, a, b) && Apart(L, p, b) && Apart(L, a, p) && Apart(L, p, a);
    }
  }

  lemma TakePartKeepsInv(h: Heap, n: int, k: nat, need: int)
    requires Inv(h, n) && k < |h.list| && h.list[k] in h.cells
    requires 0 < need && h.cells[h.list[k]].size > need + BLOCK_SIZE
    ensures Inv(Take(h, k, need), n)
  {
    var t := Take(h, k, need);
    var p := h.list[k];
    SplitTiles(h.cells, n, p, need);
    ReplaceElements(h.list, k, p + need);
    assert !IsFree(h.cells, p + need);
    assert IsFree(h.cells, p) by { ListIsFree(h, n); }
    forall q ensures q in t.list <==> IsFree(t.cells, q) {
      assert IsFree(t.cells, q) <==> q == p + need || (IsFree(h.cells, q) && q != p);
    }
  }

  lemma ReplaceElements(c: seq<int>, k: nat, x: int)
    requires NoRepeats(c) && k < |c| && x !in c
    ensures NoRepeats(c[k := x])
    ensures forall p :: p in c[k := x] <==> p == x || (p in c && p != c[k])
  {
    var d := c[k := x];
    assert d[k] == x;
    forall p | p in c && p != c[k] ensures p in d {
      var j :| 0 <= j < |c| && c[j] == p;
      assert d[j] == p;
    }
  }

  // ---- free keeps the heap whole ----

  lemma PushKeepsInv(h: Heap, n: int, p: int)
    requires Inv(h, n) && p in h.cells && !h.cells[p].free
    ensures Inv(Push(h, p), n)
  {
    var t := Push(h, p);
    assert !IsFree(h.cells, p);
    forall q ensures Placed(t.cells, q, n) {
      assert Placed(h.cells, q, n);
    }
    forall a, b ensures Apart(t.cells, a, b) {
      assert Apart(h.cells, a, b);
    }
    forall q ensures q in t.list <==> IsFree(t.cells, q) {
      assert IsFree(t.cells, q) <==> q == p || IsFree(h.cells, q);
    }
  }

  lemma MergeTiles(L: map<int, Cell>, n: int, p: int, q: int)
    requires Tiles(L, n) && p in L && q in L && p + L[p].size == q
    ensures Tiles(Merge(L, p, q), n)
  {
    var M := Merge(L, p, q);
    assert Placed(L, p, n) && Placed(L, q, n);
    forall a ensures Placed(M, a, n) {
      assert Placed(L, a, n) && Apart(L, a, p) && Apart(L, p, a);
    }
    forall a, b ensures Apart(M, a, b) {
      assert Apart(L, a, b) && Apart(L, q, b);
    }
  }

  lemma MergeKeepsInv(h: Heap, n: int, i: nat)
    requires Inv(h, n) && Listed(h) && i + 1 < |h.list| && Touches(h, i)
    ensures Inv(Merged(h, i), n)
  {
    var p, q := h.list[i], h.list[i + 1];
    var M := Merge(h.cells, p, q);
    ListIsFree(h, n);
    MergeTiles(h.cells, n, p, q);
    RemoveElements(h.list, i + 1);
    assert Placed(h.cells, p, n);
    forall a ensures IsFree(M, a) <==> IsFree(h.cells, a) && a != q {
    }
  }

  ghost predicate FreeByte(L: map<int, Cell>, x: int) {
    exists p :: Holds(L, p, x) && IsFree(L, p)
  }

  lemma BytesOfMerge(L: map<int, Cell>, n: int, p: int, q: int, x: int)
    requires Tiles(L, n) && IsFree(L, p) && IsFree(L, q) && p + L[p].size == q
    ensures FreeByte(Merge(L, p, q), x) <==> FreeByte(L, x)
  {
    var M := Merge(L, p, q);
    assert Placed(L, p, n) && Placed(L, q, n);
    if FreeByte(L, x) {
      var r :| Holds(L, r, x) && IsFree(L, r);
      var r' := if r == q then p else r;
      assert Holds(M, r', x) && IsFree(M, r');
    }
    if FreeByte(M, x) {
      var r :| Holds(M, r, x) && IsFree(M, r);
      var r' := if r == p && x >= q then q else r;
      assert Holds(L, r', x) && IsFree(L, r');
    }
  }

  /** The block at list position j does not end where the one after it in the list begins. */
  predicate SplitAt(h: Heap, j: int) {
    0 <= j && j + 1 < |h.list| && h.list[j] in h.cells ==> h.list[j] + h.cells[h.list[j]].size != h.list[j + 1]
  }

  ghost predicate Separate(h: Heap, i: int) {
    forall j {:trigger SplitAt(h, j)} | j < i :: SplitAt(h, j)
  }

  lemma MergeKeepsSeparate(h: Heap, i: nat)
    requires NoRepeats(h.list) && Separate(h, i) && Listed(h) && i + 1 < |h.list|
    ensures Separate(Merged(h, i), i)
  {
    forall j | j < i ensures SplitAt(Merged(h, i), j) {
      assert SplitAt(h, j);
    }
  }

  /** Coalescing keeps the tiling and the list. */
  lemma {:induction false} CoalesceKeepsTiles(h: Heap, n: int, i: nat)
    requires Inv(h, n) && Listed(h)
    ensures Inv(Coalesce(h, i), n)
    decreases |h.list| - i
  {
    if i + 1 < |h.list| {
      if Touches(h, i) {
        MergeListed(h, i);
        MergeKeepsInv(h, n, i);
        CoalesceKeepsTiles(Merged(h, i), n, i);
      } else {
        CoalesceKeepsTiles(h, n, i + 1);
      }
    }
  }

  lemma {:induction false} CoalesceSeparates(h: Heap, i: nat)
    requires Listed(h) && NoRepeats(h.list) && Separate(h, i)
    ensures Separate(Coalesce(h, i), |Coalesce(h, i).list|)
    decreases |h.list| - i
  {
    if i + 1 < |h.list| {
      if Touches(h, i) {
        MergeListed(h, i);
        MergeKeepsSeparate(h, i);
        CoalesceSeparates(Merged(h, i), i);
      } else {
        CoalesceSeparates(h, i + 1);
      }
    }
  }

  /** Coalescing keeps the tiling and the list, and leaves no two list neighbours that touch. */
  lemma CoalesceKeepsInv(h: Heap, n: int)
    requires Inv(h, n) && Listed(h)
    ensures Inv(Coalesce(h, 0), n) && Separate(Coalesce(h, 0), |Coalesce(h, 0).list|)
  {
    CoalesceKeepsTiles(h, n, 0);
    CoalesceSeparates(h, 0);
  }

  lemma MergeKeepsBytes(h: Heap, n: int, i: nat, x: int)
    requires Inv(h, n) && Listed(h) && i + 1 < |h.list| && Touches(h, i)
    ensures FreeByte(Merged(h, i).cells, x) <==> FreeByte(h.cells, x)
  {
    ListIsFree(h, n);
    BytesOfMerge(h.cells, n, h.list[i], h.list[i + 1], x);
  }

  /** It neither loses nor gains a free byte. */
  lemma {:induction false} CoalesceKeepsBytes(h: Heap, n: int, i: nat, x: int)
    requires Inv(h, n) && Listed(h)
    ensures FreeByte(Coalesce(h, i).cells, x) <==> FreeByte(h.cells, x)
    decreases |h.list| - i
  {
    if i + 1 < |h.list| {
      if Touches(h, i) {
        MergeListed(h, i);
        MergeKeepsInv(h, n, i);
        MergeKeepsBytes(h, n, i, x);
        CoalesceKeepsBytes(Merged(h, i), n, i, x);
      } else {
        CoalesceKeepsBytes(h, n, i + 1, x);
      }
    }
  }

  /** l is the same live block in both heaps, or a live block of neither. */
  predicate SameLive(h: Heap, t: Heap, l: int) {
    && (l in h.cells && !h.cells[l].free <==> l in t.cells && !t.cells[l].free)
    && (l in h.cells && !h.cells[l].free && l in t.cells ==> t.cells[l] == h.cells[l])
  }

  lemma MergeKeepsLive(h: Heap, n: int, i: nat, l: int)
    requires Inv(h, n) && Listed(h) && i + 1 < |h.list|
    ensures SameLive(h, Merged(h, i), l)
  {
    ListIsFree(h, n);
  }

  /** It leaves every live block as it is. */
  lemma {:induction false} CoalesceKeepsLive(h: Heap, n: int, i: nat, l: int)
    requires Inv(h, n) && Listed(h)
    ensures SameLive(h, Coalesce(h, i), l)
    decreases |h.list| - i
  {
    if i + 1 < |h.list| {
      if Touches(h, i) {
        MergeListed(h, i);
        MergeKeepsInv(h, n, i);
        MergeKeepsLive(h, n, i, l);
        CoalesceKeepsLive(Merged(h, i), n, i, l);
      } else {
        CoalesceKeepsLive(h, n, i + 1, l);
      }
    }
  }

  // ---- malloc and free ----

  ghost function AfterMalloc(h: Heap, n: int, bytes: nat): (r: (Heap, int))
    requires Inv(h, n)
  {
    ListIsFree(h, n);
    var k := FirstFit(h, bytes + BLOCK_SIZE, 0);
    if bytes == 0 || k == |h.list| then (h, NULL)
    else (Take(h, k, bytes + BLOCK_SIZE), h.list[k] + BLOCK_SIZE)
  }

  predicate IsLive(h: Heap, p: int) {
    p in h.cells && !h.cells[p].free
  }

  ghost function AfterFree(h: Heap, n: int, p: int): Heap
    requires Inv(h, n) && IsLive(h, p)
  {
    PushKeepsInv(h, n, p);
    ListIsFree(Push(h, p), n);
    Coalesce(Push(h, p), 0)
  }

  lemma MallocKeepsInv(h: Heap, n: int, bytes: nat)
    requires Inv(h, n)
    ensures Inv(AfterMalloc(h, n, bytes).0, n)
  {
    ListIsFree(h, n);
    var need := bytes + BLOCK_SIZE;
    var k := FirstFit(h, need, 0);
    if bytes != 0 && k < |h.list| {
      if h.cells[h.list[k]].size > need + BLOCK_SIZE {
        TakePartKeepsInv(h, n, k, need);
      } else {
        TakeWholeKeepsInv(h, n, k, need);
      }
    }
  }

  /** malloc returns NULL exactly when nothing is asked for or no free block is big enough. */
  lemma MallocRefuses(h: Heap, n: int, bytes: nat)
    requires Inv(h, n)
    ensures AfterMalloc(h, n, bytes).1 == NULL <==>
              bytes == 0 || forall p | IsFree(h.cells, p) :: h.cells[p].size < bytes + BLOCK_SIZE
  {
    ListIsFree(h, n);
    var need := bytes + BLOCK_SIZE;
    var k := FirstFit(h, need, 0);
    if k == |h.list| {
      forall p | IsFree(h.cells, p) ensures h.cells[p].size < need {
        assert p in h.list;
        var j :| 0 <= j < |h.list| && h.list[j] == p;
      }
    } else {
      assert IsFree(h.cells, h.list[k]) && Placed(h.cells, h.list[k], n);
    }
  }

  /** What it does return is a live block, made of bytes that were free, and no other block changes hands. */
  lemma MallocGives(h: Heap, n: int, bytes: nat, l: int, x: int)
    requires Inv(h, n) && AfterMalloc(h, n, bytes).1 != NULL
    ensures var t, p := AfterMalloc(h, n, bytes).0, AfterMalloc(h, n, bytes).1 - BLOCK_SIZE;
            && IsLive(t, p) && !IsLive(h, p)
            && bytes + BLOCK_SIZE <= t.cells[p].size <= bytes + 2 * BLOCK_SIZE
            && (l != p ==> SameLive(h, t, l))
            && (FreeByte(h.cells, x) <==> FreeByte(t.cells, x) || Holds(t.cells, p, x))
  {
    ListIsFree(h, n);
    var need := bytes + BLOCK_SIZE;
    var k := FirstFit(h, need, 0);
    var p := h.list[k];
    var size := h.cells[p].size;
    assert Placed(h.cells, p, n) && IsFree(h.cells, p);
    if size > need + BLOCK_SIZE {
      SplitTiles(h.cells, n, p, need);
    }
    TakeBytes(h, n, k, need, x);
  }

  /**
   It is the front of the first block of the list that is large enough; what
   is left over becomes a block, in the same place of the list, exactly when it
   is larger than a header.
   */
  lemma MallocIsFirstFit(h: Heap, n: int, bytes: nat) returns (k: nat)
    requires Inv(h, n) && AfterMalloc(h, n, bytes).1 != NULL
    ensures var t, p := AfterMalloc(h, n, bytes).0, AfterMalloc(h, n, bytes).1 - BLOCK_SIZE;
            && Listed(h) && p in t.cells
            && k < |h.list| && h.list[k] == p && h.cells[p].size >= bytes + BLOCK_SIZE
            && (forall j | 0 <= j < k :: h.cells[h.list[j]].size < bytes + BLOCK_SIZE)
            && var rest := h.cells[p].size - (bytes + BLOCK_SIZE);
               && (rest <= BLOCK_SIZE ==> t.cells[p].size == h.cells[p].size && t.list == h.list[..k] + h.list[k + 1..])
               && (rest > BLOCK_SIZE ==>
                     && t.cells[p].size == bytes + BLOCK_SIZE
                     && t.list == h.list[..k] + [p + bytes + BLOCK_SIZE] + h.list[k + 1..])
  {
    ListIsFree(h, n);
    k := FirstFit(h, bytes + BLOCK_SIZE, 0);
    assert Placed(h.cells, h.list[k], n);
  }

  lemma TakeBytes(h: Heap, n: int, k: nat, need: int, x: int)
    requires Inv(h, n) && k < |h.list| && IsFree(h.cells, h.list[k]) && 0 < need <= h.cells[h.list[k]].size
    ensures var t, p := Take(h, k, need), h.list[k];
            FreeByte(h.cells, x) <==> FreeByte(t.cells, x) || Holds(t.cells, p, x)
  {
    var t, p := Take(h, k, need), h.list[k];
    var L, M := h.cells, t.cells;
    assert Placed(L, p, n);
    var split := L[p].size > need + BLOCK_SIZE;
    if split {
      SplitTiles(L, n, p, need);
    }
    if FreeByte(L, x) && !Holds(M, p, x) {
      var q :| Holds(L, q, x) && IsFree(L, q);
      var q' := if q == p then p + need else q;
      assert Holds(M, q', x) && IsFree(M, q');
    }
    if FreeByte(M, x) {
      var q :| Holds(M, q, x) && IsFree(M, q);
      var q' := if split && q == p + need then p else q;
      assert Holds(L, q', x) && IsFree(L, q');
    }
    if Holds(M, p, x) {
      assert Holds(L, p, x);
    }
  }

  lemma FreeKeepsInv(h: Heap, n: int, p: int)
    requires Inv(h, n) && IsLive(h, p)
    ensures Inv(AfterFree(h, n, p), n)
    ensures Separate(AfterFree(h, n, p), |AfterFree(h, n, p).list|)
  {
    PushKeepsInv(h, n, p);
    ListIsFree(Push(h, p), n);
    CoalesceKeepsInv(Push(h, p), n);
  }

  /** free makes exactly the bytes of its block free, and no other block changes hands. */
  lemma FreeGivesBack(h: Heap, n: int, p: int, l: int, x: int)
    requires Inv(h, n) && IsLive(h, p)
    ensures var t := AfterFree(h, n, p);
            && !IsLive(t, p)
            && (l != p ==> SameLive(h, t, l))
            && (FreeByte(t.cells, x) <==> FreeByte(h.cells, x) || Holds(h.cells, p, x))
  {
    var u := Push(h, p);
    PushKeepsInv(h, n, p);
    ListIsFree(u, n);
    CoalesceKeepsLive(u, n, 0, p);
    CoalesceKeepsLive(u, n, 0, l);
    CoalesceKeepsBytes(u, n, 0, x);
    PushBytes(h, p, x);
  }

  lemma PushBytes(h: Heap, p: int, x: int)
    requires IsLive(h, p)
    ensures FreeByte(Push(h, p).cells, x) <==> FreeByte(h.cells, x) || Holds(h.cells, p, x)
  {
    var L, M := h.cells, Push(h, p).cells;
    if FreeByte(L, x) {
      var q :| Holds(L, q, x) && IsFree(L, q);
      assert Holds(M, q, x) && IsFree(M, q);
    }
    if Holds(L, p, x) {
      assert Holds(M, p, x) && IsFree(M, p);
    }
    if FreeByte(M, x) {
      var q :| Holds(M, q, x) && IsFree(M, q);
      assert Holds(L, q, x) && (q == p || IsFree(L, q));
    }
  }

  // ---- any sequence of calls ----

  datatype Call = Malloc(bytes: nat) | Free(p: int)      // Free names the block, not the pointer into it

  predicate CanCall(h: Heap, call: Call) {
    call.Free? ==> IsLive(h, call.p)
  }

  ghost function After(h: Heap, n: int, call: Call): (t: Heap)
    requires Inv(h, n) && CanCall(h, call)
    ensures Inv(t, n)
  {
    match call
    case Malloc(bytes) => MallocKeepsInv(h, n, bytes); AfterMalloc(h, n, bytes).0
    case Free(p) => FreeKeepsInv(h, n, p); AfterFree(h, n, p)
  }

  ghost predicate Reaches(h: Heap, n: int, calls: seq<Call>, t: Heap)
    requires Inv(h, n)
    decreases |calls|
  {
    if calls == [] then t == h
    else CanCall(h, calls[0]) && Reaches(After(h, n, calls[0]), n, calls[1..], t)
  }

  ghost predicate Starts(h: Heap, n: int) {
    h.list == [0] && h.cells.Keys == {0} && h.cells[0] == Cell(n, true) && n > 0
  }

  lemma StartInv(h: Heap, n: int)
    requires Starts(h, n)
    ensures Inv(h, n)
  {
  }

  lemma {:induction false} ReachableInv(h: Heap, n: int, calls: seq<Call>, t: Heap)
    requires Inv(h, n) && Reaches(h, n, calls, t)
    ensures Inv(t, n)
    decreases |calls|
  {
    if calls != [] {
      ReachableInv(After(h, n, calls[0]), n, calls[1..], t);
    }
  }

  /** After any run every byte belongs to one block, and the list holds every free block once. */
  lemma HeapStaysWhole(h: Heap, n: int, calls: seq<Call>, t: Heap, x: int) returns (q: int)
    requires Starts(h, n) && Inv(h, n) && Reaches(h, n, calls, t)
    ensures NoRepeats(t.list) && forall p :: p in t.list <==> IsFree(t.cells, p)
    ensures 0 <= x < n ==> Holds(t.cells, q, x) && forall p | Holds(t.cells, p, x) :: p == q
  {
    ReachableInv(h, n, calls, t);
    q := 0;
    if 0 <= x < n {
      q := EveryByteInOneBlock(t.cells, n, x);
    }
    forall p ensures p in t.list <==> IsFree(t.cells, p) {
    }
  }

  // ---- a run that leaves pieces ----

  lemma ReachesFirst(h: Heap, n: int, call: Call, calls: seq<Call>, t: Heap)
    requires Inv(h, n) && CanCall(h, call) && Reaches(After(h, n, call), n, calls, t)
    ensures Reaches(h, n, [call] + calls, t)
  {
    assert ([call] + calls)[1..] == calls;
  }

  /** A request of 100 bytes from a heap with one free block. */
  lemma SmallRequest(h: Heap, n: int, p: int)
    requires Inv(h, n) && h.list == [p] && p in h.cells && h.cells[p].size > 132
    ensures After(h, n, Malloc(100)) ==
              Heap(h.cells[p := Cell(116, false)][p + 116 := Cell(h.cells[p].size - 116, true)], [p + 116])
  {
    ListIsFree(h, n);
    assert h.list[0] == p;
    assert [p][0 := p + 116] == [p + 116];
  }

  /** The block just below the only free one is pushed before it, and they are not merged. */
  lemma FreeFar(h: Heap, n: int)
    requires Inv(h, n) && h.list == [232] && 0 in h.cells && h.cells[0] == Cell(116, false)
    ensures After(h, n, Free(0)) == Heap(h.cells[0 := Cell(116, true)], [0, 232])
  {
    PushKeepsInv(h, n, 0);
    var u := Push(h, 0);
    assert u.list == [0, 232];
    ListIsFree(u, n);
    assert !Touches(u, 0);
    assert Coalesce(u, 1) == u && Coalesce(u, 0) == u;
  }

  lemma FreeBetween(h: Heap, n: int)
    requires Inv(h, n) && h.list == [0, 232] && 0 in h.cells && h.cells[0] == Cell(116, true)
    requires 116 in h.cells && h.cells[116] == Cell(116, false)
    ensures After(h, n, Free(116)) == Heap(h.cells[116 := Cell(116, true)], [116, 0, 232])
  {
    PushKeepsInv(h, n, 116);
    var u := Push(h, 116);
    assert u.list == [116, 0, 232];
    ListIsFree(u, n);
    assert !Touches(u, 0) && !Touches(u, 1);
    assert Coalesce(u, 2) == u && Coalesce(u, 1) == u && Coalesce(u, 0) == u;
  }

  /**
   Only neighbours in the list are merged, and the list is not kept in address
   order: after two requests of 100 bytes, freeing both, lower one first,
   leaves three free blocks that touch.
   */
  lemma FreeingAllCanLeavePieces(h: Heap, n: int) returns (calls: seq<Call>, t: Heap)
    requires Starts(h, n) && Inv(h, n) && n > 400
    ensures Reaches(h, n, calls, t)
    ensures t.list == [116, 0, 232] && forall p :: !IsLive(t, p)
  {
    var a := After(h, n, Malloc(100));
    SmallRequest(h, n, 0);
    var b := After(a, n, Malloc(100));
    SmallRequest(a, n, 116);
    var c := After(b, n, Free(0));
    FreeFar(b, n);
    t := After(c, n, Free(116));
    FreeBetween(c, n);
    assert Reaches(t, n, [], t);
    ReachesFirst(c, n, Free(116), [], t);
    ReachesFirst(b, n, Free(0), [Free(116)] + [], t);
    ReachesFirst(a, n, Malloc(100), [Free(0)] + ([Free(116)] + []), t);
    ReachesFirst(h, n, Malloc(100), [Malloc(100)] + ([Free(0)] + ([Free(116)] + [])), t);
    calls := [Malloc(100)] + ([Malloc(100)] + ([Free(0)] + ([Free(116)] + [])));
  }
}
