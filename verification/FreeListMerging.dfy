/**
 When the first-fit allocator does put free neighbours together again.  Its
 free only merges blocks that are neighbours in the list, and puts the freed
 block at the head of the list.
 */
module FreeListMerging {
  import opened FreeListHeap

  /** Free block p ends where free block q starts. */
  predicate Meets(L: map<int, Cell>, p: int, q: int) {
    IsFree(L, p) && IsFree(L, q) && p + L[p].size == q
  }

  /** No free block ends where another one starts. */
  ghost predicate AllMerged(L: map<int, Cell>) {
    forall p, q {:trigger Meets(L, p, q)} :: !Meets(L, p, q)
  }

  /** A free block ends where block p starts. */
  ghost predicate FreeBelow(L: map<int, Cell>, p: int) {
    exists x :: IsFree(L, x) && x + L[x].size == p
  }

  /**
   What a caller can look up before it frees block p: no free block lies just
   below it, and one just above it, if any, is the head of the list.
   */
  ghost predicate Guard(h: Heap, p: int)
    requires p in h.cells
  {
    && !FreeBelow(h.cells, p)
    && var q := p + h.cells[p].size; (IsFree(h.cells, q) ==> h.list != [] && h.list[0] == q)
  }

  // ---- coalescing after a free ----

  /** Where nothing touches its successor in the list, coalescing changes nothing. */
  lemma {:induction false} CoalesceNothing(h: Heap, i: nat)
    requires Listed(h) && NoRepeats(h.list)
    requires forall j {:trigger Touches(h, j)} | i <= j && j + 1 < |h.list| :: !Touches(h, j)
    ensures Coalesce(h, i) == h
    decreases |h.list| - i
  {
    if i + 1 < |h.list| {
      assert !Touches(h, i);
      CoalesceNothing(h, i + 1);
    }
  }

  /** Behind the freed block the list is the old one, and none of its blocks meet. */
  lemma RestApart(h: Heap, n: int, p: int, j: nat)
    requires Inv(h, n) && IsLive(h, p) && AllMerged(h.cells) && 1 <= j && j + 1 < |h.list| + 1
    ensures Listed(Push(h, p)) && !Touches(Push(h, p), j)
  {
    PushKeepsInv(h, n, p);
    ListIsFree(h, n);
    ListIsFree(Push(h, p), n);
    assert !Meets(h.cells, h.list[j - 1], h.list[j]);
    assert Push(h, p).list[j] == h.list[j - 1] && Push(h, p).list[j + 1] == h.list[j];
  }

  lemma FreeWithoutMerge(h: Heap, n: int, p: int)
    requires Inv(h, n) && IsLive(h, p) && AllMerged(h.cells)
    requires h.list == [] || h.list[0] != p + h.cells[p].size
    ensures AfterFree(h, n, p) == Push(h, p)
  {
    var u := Push(h, p);
    PushKeepsInv(h, n, p);
    ListIsFree(u, n);
    forall j {:trigger Touches(u, j)} | 0 <= j && j + 1 < |u.list| ensures !Touches(u, j) {
      if j > 0 {
        RestApart(h, n, p, j);
      }
    }
    CoalesceNothing(u, 0);
  }

  /** The head of the list lies just above the freed block: the two are joined, and that is all. */
  lemma FreeWithMerge(h: Heap, n: int, p: int)
    requires Inv(h, n) && IsLive(h, p) && AllMerged(h.cells)
    requires h.list != [] && h.list[0] == p + h.cells[p].size
    ensures var u := Push(h, p); Listed(u) && AfterFree(h, n, p) == Merged(u, 0)
  {
    var u := Push(h, p);
    PushKeepsInv(h, n, p);
    ListIsFree(u, n);
    assert Touches(u, 0);
    MergeListed(u, 0);
    var m := Merged(u, 0);
    MergedList(h, p);
    forall j {:trigger Touches(m, j)} | 0 <= j && j + 1 < |m.list| ensures !Touches(m, j) {
      ListIsFree(h, n);
      assert !Meets(h.cells, h.list[j], h.list[j + 1]);
      assert m.list[j + 1] == h.list[j + 1];
    }
    CoalesceNothing(m, 0);
  }

  lemma MergedList(h: Heap, p: int)
    requires p in h.cells && h.list != [] && Listed(Push(h, p))
    ensures Merged(Push(h, p), 0).list == [p] + h.list[1..]
  {
  }

  // ---- when free merges fully ----

  lemma PushedMerged(h: Heap, p: int)
    requires IsLive(h, p) && AllMerged(h.cells) && h.cells[p].size > 0
    ensures AllMerged(Push(h, p).cells) <==> !FreeBelow(h.cells, p) && !IsFree(h.cells, p + h.cells[p].size)
  {
    var L, M, q := h.cells, Push(h, p).cells, p + h.cells[p].size;
    if FreeBelow(L, p) {
      var x :| IsFree(L, x) && x + L[x].size == p;
      assert Meets(M, x, p);
    }
    if IsFree(L, q) {
      assert Meets(M, p, q);
    }
    if !FreeBelow(L, p) && !IsFree(L, q) {
      forall a, b ensures !Meets(M, a, b) {
        assert !Meets(L, a, b);
      }
    }
  }

  lemma JoinedMerged(h: Heap, n: int, p: int, q: int)
    requires Inv(h, n) && IsLive(h, p) && AllMerged(h.cells) && q == p + h.cells[p].size && IsFree(h.cells, q)
    ensures AllMerged(Merge(Push(h, p).cells, p, q)) <==> !FreeBelow(h.cells, p)
  {
    var L, M := h.cells, Merge(Push(h, p).cells, p, q);
    assert Placed(L, p, n) && Placed(L, q, n);
    if FreeBelow(L, p) {
      var x :| IsFree(L, x) && x + L[x].size == p;
      assert Placed(L, x, n);
      assert Meets(M, x, p);
    } else {
      forall a, b ensures !Meets(M, a, b) {
        assert !Meets(L, a, b) && !Meets(L, q, b);
      }
    }
  }

  /**
   From a heap whose free neighbours are all merged, free leaves such a heap
   again exactly when the guard holds.
   */
  lemma FreeMergesExactlyWhen(h: Heap, n: int, p: int)
    requires Inv(h, n) && IsLive(h, p) && AllMerged(h.cells)
    ensures AllMerged(AfterFree(h, n, p).cells) <==> Guard(h, p)
  {
    var q := p + h.cells[p].size;
    assert Placed(h.cells, p, n);
    if h.list != [] && h.list[0] == q {
      ListIsFree(h, n);
      FreeWithMerge(h, n, p);
      JoinedMerged(h, n, p, q);
    } else {
      FreeWithoutMerge(h, n, p);
      PushedMerged(h, p);
    }
  }

  // ---- malloc ----

  lemma MallocKeepsMerged(h: Heap, n: int, bytes: nat)
    requires Inv(h, n) && AllMerged(h.cells)
    ensures AllMerged(AfterMalloc(h, n, bytes).0.cells)
  {
    ListIsFree(h, n);
    var need := bytes + BLOCK_SIZE;
    var k := FirstFit(h, need, 0);
    if bytes != 0 && k < |h.list| {
      TakeKeepsMerged(h, n, k, need);
    }
  }

  lemma TakeKeepsMerged(h: Heap, n: int, k: nat, need: int)
    requires Inv(h, n) && AllMerged(h.cells) && Listed(h) && k < |h.list| && 0 < need <= h.cells[h.list[k]].size
    ensures AllMerged(Take(h, k, need).cells)
  {
    var L, M, p := h.cells, Take(h, k, need).cells, h.list[k];
    ListIsFree(h, n);
    if L[p].size > need + BLOCK_SIZE {
      SplitTiles(L, n, p, need);
    }
    forall a, b ensures !Meets(M, a, b) {
      assert !Meets(L, a, b) && !Meets(L, p, b);
      assert Apart(L, a, p) && Apart(L, p, a) && Placed(L, a, n) && Placed(L, b, n) && Placed(L, p, n);
    }
  }

  // ---- whole runs ----

  /** Every free in the run meets the guard. */
  ghost predicate Careful(h: Heap, n: int, calls: seq<Call>)
    requires Inv(h, n)
    decreases |calls|
  {
    calls != [] && CanCall(h, calls[0]) ==>
      && (calls[0].Free? ==> Guard(h, calls[0].p))
      && Careful(After(h, n, calls[0]), n, calls[1..])
  }

  /** Every state of the run has its free neighbours merged. */
  ghost predicate StaysMerged(h: Heap, n: int, calls: seq<Call>)
    requires Inv(h, n)
    decreases |calls|
  {
    && AllMerged(h.cells)
    && (calls != [] && CanCall(h, calls[0]) ==> StaysMerged(After(h, n, calls[0]), n, calls[1..]))
  }

  /** Along a run the heap stays merged exactly as long as every free meets the guard. */
  lemma {:induction false} MergedExactlyWhenCareful(h: Heap, n: int, calls: seq<Call>)
    requires Inv(h, n) && AllMerged(h.cells)
    ensures StaysMerged(h, n, calls) <==> Careful(h, n, calls)
    decreases |calls|
  {
    if calls != [] && CanCall(h, calls[0]) {
      var t := After(h, n, calls[0]);
      match calls[0] {
        case Malloc(bytes) => MallocKeepsMerged(h, n, bytes);
        case Free(p) => FreeMergesExactlyWhen(h, n, p);
      }
      if AllMerged(t.cells) {
        MergedExactlyWhenCareful(t, n, calls[1..]);
      }
    }
  }

  lemma {:induction false} EndOfMergedRun(h: Heap, n: int, calls: seq<Call>, t: Heap)
    requires Inv(h, n) && Reaches(h, n, calls, t) && StaysMerged(h, n, calls)
    ensures AllMerged(t.cells)
    decreases |calls|
  {
    if calls != [] {
      EndOfMergedRun(After(h, n, calls[0]), n, calls[1..], t);
    }
  }

  /** A merged heap with nothing in use is one block. */
  lemma MergedAndUnused(h: Heap, n: int)
    requires Inv(h, n) && AllMerged(h.cells) && forall p :: !IsLive(h, p)
    ensures h.cells == map[0 := Cell(n, true)]
  {
    var L := h.cells;
    assert Placed(L, 0, n) && !IsLive(h, 0);
    var q := L[0].size;
    assert !Meets(L, 0, q) && !IsLive(h, q);
    forall p | p in L ensures p == 0 {
      assert Apart(L, 0, p) && Placed(L, p, n);
    }
  }

  /**
   After a run from the start whose frees all meet the guard no two free
   blocks meet, and if nothing is in use the heap is the one block it was.
   */
  lemma CarefulRunsMerge(h: Heap, n: int, calls: seq<Call>, t: Heap)
    requires Starts(h, n) && Inv(h, n) && Reaches(h, n, calls, t) && Careful(h, n, calls)
    ensures AllMerged(t.cells)
    ensures (forall p :: !IsLive(t, p)) ==> t.cells == h.cells
  {
    forall p, q ensures !Meets(h.cells, p, q) {
    }
    MergedExactlyWhenCareful(h, n, calls);
    EndOfMergedRun(h, n, calls, t);
    ReachableInv(h, n, calls, t);
    if forall p :: !IsLive(t, p) {
      MergedAndUnused(t, n);
      assert h.cells == map[0 := Cell(n, true)];
    }
  }
}
