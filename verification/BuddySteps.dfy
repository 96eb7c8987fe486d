/**
 The allocator's state as one value, and the steps malloc and free make on it.
 `Heap` is the type of states whose representation is in order.
 */
module BuddySteps {
  import opened Bits
  import opened BuddyLayout
  import opened BuddyHeap

  /**
   The heap as it stands between two steps: memory, list heads, and what they
   stand for.  `out` is the block in hand (kept off the lists), or -1.
   */
  datatype HeapState = HeapState(
    mem: seq<Header>,
    lists: seq<Link>,
    layout: Layout,
    chains: seq<seq<nat>>,
    K: nat,
    out: int,
    live: map<nat, nat>,
    tailFree: bool
  )

  /** The header just past the initial block reads as a free block of its size. */
  ghost predicate TailLooksFree(mem: seq<Header>, K: nat) {
    Pow2(K) < |mem| && mem[Pow2(K)].isFree && mem[Pow2(K)].size == Pow2(K)
  }

  ghost predicate Intact(h: HeapState) {
    && Rep(h.mem, h.lists, h.layout, h.chains, h.K, h.out)
    && MergedBut(h.layout, h.K, h.out)
    && h.live == Live(h.layout)
    && (h.tailFree <==> TailLooksFree(h.mem, h.K))
  }

  /**
   Always true.  It is only there to be mentioned: where it is not, the
   verifier carries Good along without looking inside.
   */
  ghost predicate Inspect(i: int) { true }

  ghost predicate Good(h: HeapState) {
    forall i {:trigger Inspect(i)} :: Inspect(i) ==> Intact(h)
  }

  /** The state right after init_memory_manager. */
  ghost function Initial(memory: seq<Header>, K: nat): (h: HeapState)
    requires MIN_LEVEL <= K <= MAX_ORDER && Pow2(K) <= |memory|
    ensures Good(h)
  {
    var L: Layout := map[0 := Block(K, true)];
    var noChains: seq<seq<nat>> := seq(MAX_ORDER, _ => []);
    InitialTiled(K);
    HeapState(memory[0 := Header(Pow2(K), true, Null)], seq(MAX_ORDER, _ => Null)[K - 1 := At(0)], L,
              noChains[K - 1 := [0]], K, -1, map[], TailLooksFree(memory, K))
  }

  type Heap = h: HeapState | Good(h)
    ghost witness Initial(seq(64, _ => Header(0, false, Null)), 6)

  lemma InitialTiled(K: nat)
    requires K >= MIN_LEVEL
    ensures Tiled(map[0 := Block(K, true)], K)
    ensures Merged(map[0 := Block(K, true)], K)
  {
    var L: Layout := map[0 := Block(K, true)];
    ZeroAligned(K);
    forall x: nat | x < Pow2(K) ensures Held(L, x) {
      assert Covers(L, 0, x);
    }
  }

  lemma HeapFacts(h: Heap)
    ensures MIN_LEVEL <= h.K <= MAX_ORDER && Pow2(h.K) <= |h.mem|
    ensures Tiled(h.layout, h.K) && MergedBut(h.layout, h.K, h.out)
    ensures h.live == Live(h.layout)
  {
    assert Inspect(0) && Intact(h);
  }

  lemma InHeap(h: Heap, o: nat)
    requires o in h.layout
    ensures MIN_LEVEL <= h.layout[o].level <= h.K <= MAX_ORDER
    ensures o + Size(h.layout[o]) <= Pow2(h.K) <= |h.mem|
    ensures Aligned(o, h.layout[o].level)
    ensures h.mem[o].size == Size(h.layout[o]) && h.mem[o].isFree == h.layout[o].free
    ensures o in h.live <==> !h.layout[o].free
    ensures o in h.live ==> h.live[o] == h.layout[o].level
    ensures o == h.out ==> h.layout[o].free
  {
    assert Inspect(0) && Intact(h);
    InBounds(h.layout, h.K, o);
  }

  lemma LiveInHeap(h: Heap, o: nat)
    requires o in h.live
    ensures o in h.layout && !h.layout[o].free && h.layout[o].level == h.live[o]
  {
    assert Inspect(0) && Intact(h);
  }

  // ---- the steps of malloc ----

  lemma PopStep(h: Heap, k: nat) returns (r: Heap)
    requires h.out == -1 && k < MAX_ORDER && k < |h.lists| && h.lists[k] != Null
    ensures h.lists[k].off < |h.mem|
    ensures r.mem == h.mem && r.lists == h.lists[k := h.mem[h.lists[k].off].next]
    ensures r.layout == h.layout && r.K == h.K && r.live == h.live && r.tailFree == h.tailFree
    ensures r.out == h.lists[k].off && r.out in r.layout && r.layout[r.out] == Block(k + 1, true)
  {
    assert Inspect(0) && Intact(h);
    RepPop(h.mem, h.lists, h.layout, h.chains, h.K, k);
    var o := h.lists[k].off;
    r := h.(lists := h.lists[k := h.mem[o].next], chains := h.chains[k := Without(h.chains[k], 0)], out := o);
  }

  lemma SplitStep(h: Heap, o: nat, k: nat, b: nat) returns (r: Heap)
    requires h.out == o && o in h.layout && h.layout[o].level == k + 2 && k + 1 >= MIN_LEVEL
    requires b == o + Pow2(k + 1)
    ensures k < MAX_ORDER && k < |h.lists| && o < |h.mem| && b < |h.mem|
    ensures r.mem == h.mem[b := Header(Pow2(k + 1), true, h.lists[k])][o := h.mem[o].(size := Pow2(k + 1))]
    ensures r.lists == h.lists[k := At(b)]
    ensures r.K == h.K && r.live == h.live && r.tailFree == h.tailFree
    ensures r.out == o && o in r.layout && r.layout[o].level == k + 1
  {
    assert Inspect(0) && Intact(h);
    InBounds(h.layout, h.K, o);
    RepSplit(h.mem, h.lists, h.layout, h.chains, h.K, o, k);
    SplitMerged(h.layout, h.K, o);
    SplitLive(h.layout, o);
    r := SplitResult(h, o, k, b);
  }

  lemma SplitResult(h: HeapState, o: nat, k: nat, b: nat) returns (r: Heap)
    requires h.out == o && o in h.layout && h.layout[o].level > 0
    requires k < |h.lists| && k < |h.chains| && o < |h.mem| && b < |h.mem| && o < Pow2(h.K) && b < Pow2(h.K)
    requires h.live == Live(h.layout) == Live(Split(h.layout, o)) && (h.tailFree <==> TailLooksFree(h.mem, h.K))
    requires Rep(h.mem[b := Header(Pow2(k + 1), true, h.lists[k])][o := h.mem[o].(size := Pow2(k + 1))],
                 h.lists[k := At(b)], Split(h.layout, o), h.chains[k := [b] + h.chains[k]], h.K, o)
    requires MergedBut(Split(h.layout, o), h.K, o)
    ensures r == h.(mem := h.mem[b := Header(Pow2(k + 1), true, h.lists[k])][o := h.mem[o].(size := Pow2(k + 1))],
                    lists := h.lists[k := At(b)], layout := Split(h.layout, o), chains := h.chains[k := [b] + h.chains[k]])
  {
    r := h.(mem := h.mem[b := Header(Pow2(k + 1), true, h.lists[k])][o := h.mem[o].(size := Pow2(k + 1))],
            lists := h.lists[k := At(b)], layout := Split(h.layout, o), chains := h.chains[k := [b] + h.chains[k]]);
  }

  lemma TakeStep(h: Heap, o: nat) returns (r: Heap)
    requires h.out == o && o in h.layout
    ensures o < |h.mem|
    ensures r.mem == h.mem[o := h.mem[o].(isFree := false)] && r.lists == h.lists
    ensures r.layout == h.layout[o := Block(h.layout[o].level, false)]
    ensures r.K == h.K && r.tailFree == h.tailFree && r.out == -1
    ensures o !in h.live && r.live == h.live[o := h.layout[o].level]
  {
    assert Inspect(0) && Intact(h);
    InBounds(h.layout, h.K, o);
    RepTake(h.mem, h.lists, h.layout, h.chains, h.K, o);
    TakenMerged(h.layout, h.K, o);
    r := h.(mem := h.mem[o := h.mem[o].(isFree := false)], layout := h.layout[o := Block(h.layout[o].level, false)],
            live := h.live[o := h.layout[o].level], out := -1);
  }

  lemma TakenMerged(L: Layout, K: nat, o: nat)
    requires Tiled(L, K) && o in L && MergedBut(L, K, o)
    ensures Merged(L[o := Block(L[o].level, false)], K)
    ensures L[o].free ==> Live(L[o := Block(L[o].level, false)]) == Live(L)[o := L[o].level]
  {
    var R := L[o := Block(L[o].level, false)];
    forall p | p in R && R[p].level < K ensures !BuddyFree(R, p) {
      assert p != o && BuddyOf(p, L[p].level) != o ==> !BuddyFree(L, p);
    }
  }

  /** A client writes inside the payload of a block it holds. */
  lemma ScribbleStep(h: Heap, o: nat, at: nat, x: Header) returns (r: Heap)
    requires o in h.layout && o < at < o + Size(h.layout[o])
    ensures at < |h.mem|
    ensures r == h.(mem := h.mem[at := x])
  {
    assert Inspect(0) && Intact(h);
    InBounds(h.layout, h.K, o);
    PayloadIsNotAStart(h.layout, o, at);
    var mem := h.mem[at := x];
    forall i | 0 <= i < MAX_ORDER ensures Chain(mem, h.lists[i], h.chains[i]) {
      ChainFrame(h.mem, mem, h.lists[i], h.chains[i]);
    }
    r := h.(mem := mem);
  }

  lemma PayloadIsNotAStart(L: Layout, o: nat, at: nat)
    requires Disjoint(L) && o in L && o < at < o + Size(L[o])
    ensures at !in L
  {
    if at in L {
      TheyAreApart(L, o, at);
    }
  }

  // ---- the steps of free ----

  lemma GiveBackStep(h: Heap, o: nat) returns (r: Heap)
    requires h.out == -1 && o in h.layout && !h.layout[o].free
    ensures o < |h.mem|
    ensures r.mem == h.mem[o := h.mem[o].(isFree := true)] && r.lists == h.lists
    ensures r.layout == h.layout[o := Block(h.layout[o].level, true)]
    ensures r.K == h.K && r.tailFree == h.tailFree && r.out == o && r.live == h.live - {o}
  {
    assert Inspect(0) && Intact(h);
    InBounds(h.layout, h.K, o);
    RepGiveBack(h.mem, h.lists, h.layout, h.chains, h.K, o);
    GivenBackMerged(h.layout, h.K, o);
    r := h.(mem := h.mem[o := h.mem[o].(isFree := true)], layout := h.layout[o := Block(h.layout[o].level, true)],
            live := h.live - {o}, out := o);
  }

  lemma GivenBackMerged(L: Layout, K: nat, o: nat)
    requires Tiled(L, K) && o in L && Merged(L, K)
    ensures MergedBut(L[o := Block(L[o].level, true)], K, o)
    ensures Live(L[o := Block(L[o].level, true)]) == Live(L) - {o}
  {
    var R := L[o := Block(L[o].level, true)];
    forall p | p in R && p != o && R[p].level < K && BuddyOf(p, R[p].level) != o ensures !BuddyFree(R, p) {
      InBounds(L, K, p);
      BuddyPlace(p, L[p].level, K);
      assert !BuddyFree(L, p);
    }
  }

  /** What the header read at the buddy address of the block in hand says. */
  lemma BuddyHeader(h: Heap, o: nat)
    requires h.out == o && o in h.layout && h.layout[o].level < h.K
    ensures var k := h.layout[o].level;
            && 1 <= k <= MAX_ORDER == |h.chains|
            && 0 <= BuddyOf(o, k) < |h.mem|
            && (h.mem[BuddyOf(o, k)].isFree && h.mem[BuddyOf(o, k)].size == Pow2(k) <==> BuddyFree(h.layout, o))
            && (BuddyFree(h.layout, o) ==> BuddyOf(o, k) in h.chains[k - 1])
  {
    assert Inspect(0) && Intact(h);
    var L, k := h.layout, h.layout[o].level;
    BuddyIsStart(L, h.K, o);
    InBounds(L, h.K, o);
    BuddyPlace(o, k, h.K);
    var b: nat := BuddyOf(o, k);
    if h.mem[b].size == Pow2(k) {
      Pow2Injective(L[b].level, k);
    }
    assert b in h.chains[k - 1] <==> b in L && L[b].free && L[b].level == k && b != o;
  }

  /** The whole heap as one block: its buddy address is the first byte past it. */
  lemma TopBuddy(h: Heap, o: nat)
    requires h.out == o && o in h.layout && h.layout[o].level == h.K
    ensures 1 <= h.K <= MAX_ORDER == |h.chains|
    ensures o == 0 && BuddyOf(o, h.K) == Pow2(h.K) <= |h.mem|
    ensures h.live == map[]
    ensures h.tailFree <==> TailLooksFree(h.mem, h.K)
    ensures Pow2(h.K) !in h.chains[h.K - 1]
  {
    assert Inspect(0) && Intact(h);
    var L, K := h.layout, h.K;
    InBounds(L, K, o);
    ZeroAligned(K + 1);
    forall p | p in L ensures p == 0 {
      InBounds(L, K, p);
      TheyAreApart(L, o, p);
    }
    assert Pow2(K) in h.chains[K - 1] ==> Pow2(K) in L;
  }

  /** The link cell a `block_t **` points to: a list head or some block's next field. */
  datatype Cell = Head(order: nat) | Next(block: nat)

  /** Reading and writing through a `block_t **`. */
  function Deref(mem: seq<Header>, lists: seq<Link>, cell: Cell): Link
    requires cell.Head? ==> cell.order < |lists|
    requires cell.Next? ==> cell.block < |mem|
  {
    match cell
    case Head(order) => lists[order]
    case Next(block) => mem[block].next
  }

  ghost function CellOf(chains: seq<seq<nat>>, order: nat, j: nat): Cell
    requires order < |chains| && j <= |chains[order]|
  {
    if j == 0 then Head(order) else Next(chains[order][j - 1])
  }

  lemma CellLeadsTo(mem: seq<Header>, lists: seq<Link>, chains: seq<seq<nat>>, order: nat, j: nat)
    requires Threaded(mem, lists, chains) && order < MAX_ORDER && j <= |chains[order]|
    ensures j > 0 ==> chains[order][j - 1] < |mem|
    ensures Deref(mem, lists, CellOf(chains, order, j)) == LinkAt(chains[order], j)
  {
    assert Chain(mem, lists[order], chains[order]);
    if j > 0 {
      assert mem[chains[order][j - 1]].next == LinkAt(chains[order], j);
    }
  }

  lemma Rewritten(mem: seq<Header>, lists: seq<Link>, L: Layout, chains: seq<seq<nat>>, out: int, order: nat, j: nat, target: Link,
                  mem': seq<Header>, lists': seq<Link>)
    requires Threaded(mem, lists, chains) && Listed(L, chains, out) && order < MAX_ORDER
    requires j < |chains[order]| && chains[order][j] < |mem| && target == mem[chains[order][j]].next
    requires j > 0 ==> chains[order][j - 1] < |mem|
    requires mem' == if j == 0 then mem else
               mem[chains[order][j - 1] := mem[chains[order][j - 1]].(next := target)]
    requires lists' == if j == 0 then lists[order := target] else lists
    ensures Unlinked(mem, mem', lists, lists', chains, order, j)
  {
    assert Chain(mem, lists[order], chains[order]);
    if j > 0 {
      var q := chains[order][j - 1];
      assert q in chains[order];
      forall i: nat | i < MAX_ORDER && i != order ensures q !in chains[i] {
        assert q in chains[i] <==> q in L && L[q].free && L[q].level == i + 1 && q != out;
      }
    }
  }

  /** The two rewritten places after `*cell = target`. */
  function WriteMem(mem: seq<Header>, cell: Cell, target: Link): seq<Header>
    requires cell.Next? ==> cell.block < |mem|
  {
    if cell.Next? then mem[cell.block := mem[cell.block].(next := target)] else mem
  }

  function WriteLists(lists: seq<Link>, cell: Cell, target: Link): seq<Link>
    requires cell.Head? ==> cell.order < |lists|
  {
    if cell.Head? then lists[cell.order := target] else lists
  }

  lemma CellAt(h: Heap, order: nat, j: nat)
    requires order < MAX_ORDER && order < |h.chains| && j <= |h.chains[order]|
    ensures order < |h.lists|
    ensures j > 0 ==> h.chains[order][j - 1] < |h.mem|
    ensures Deref(h.mem, h.lists, CellOf(h.chains, order, j)) == LinkAt(h.chains[order], j)
  {
    assert Inspect(0) && Intact(h);
    CellLeadsTo(h.mem, h.lists, h.chains, order, j);
  }

  lemma AbsorbStep(h: Heap, o: nat, b: nat, cell: Cell, j: nat, low: nat, high: nat) returns (r: Heap)
    requires h.out == o && o in h.layout && h.layout[o].level < h.K && BuddyOf(o, h.layout[o].level) == b < |h.mem|
    requires var k := h.layout[o].level;
             1 <= k <= |h.chains| && j < |h.chains[k - 1]| && h.chains[k - 1][j] == b && cell == CellOf(h.chains, k - 1, j)
    requires low == (if b < o then b else o) && high == (if b < o then o else b)
    ensures cell.Head? ==> cell.order < |h.lists|
    ensures cell.Next? ==> cell.block < |h.mem|
    ensures low < |h.mem|
    ensures var mem' := WriteMem(h.mem, cell, h.mem[b].next);
            r.mem == mem'[low := mem'[low].(size := 2 * mem'[low].size)]
    ensures r.lists == WriteLists(h.lists, cell, h.mem[b].next)
    ensures r.K == h.K && r.live == h.live && r.tailFree == h.tailFree
    ensures r.out == low && low in r.layout && r.layout[low].level == h.layout[o].level + 1
  {
    assert Inspect(0) && Intact(h);
    AbsorbUnlinks(h, o, b, cell, j);
    AbsorbRep(h, o, b, cell, j, low, high);
    r := AbsorbResult(h, o, b, cell, j, low, high, WriteMem(h.mem, cell, h.mem[b].next),
                      WriteLists(h.lists, cell, h.mem[b].next));
  }

  /** Block b, at position j of its list, can be unlinked through `cell`. */
  ghost predicate Absorbs(h: HeapState, o: nat, b: nat, cell: Cell, j: nat) {
    && Rep(h.mem, h.lists, h.layout, h.chains, h.K, h.out)
    && h.out == o && o in h.layout && h.layout[o].level < h.K && BuddyOf(o, h.layout[o].level) == b < |h.mem|
    && var k := h.layout[o].level;
       1 <= k <= |h.chains| && j < |h.chains[k - 1]| && h.chains[k - 1][j] == b && cell == CellOf(h.chains, k - 1, j)
  }

  lemma AbsorbUnlinks(h: HeapState, o: nat, b: nat, cell: Cell, j: nat)
    requires Absorbs(h, o, b, cell, j)
    ensures cell.Head? ==> cell.order < |h.lists|
    ensures cell.Next? ==> cell.block < |h.mem| && cell.block in h.layout
    ensures b in h.layout && h.layout[b].free && h.layout[b].level == h.layout[o].level
    ensures Unlinked(h.mem, WriteMem(h.mem, cell, h.mem[b].next), h.lists, WriteLists(h.lists, cell, h.mem[b].next),
                     h.chains, h.layout[o].level - 1, j)
  {
    var k := h.layout[o].level;
    CellLeadsTo(h.mem, h.lists, h.chains, k - 1, j);
    Rewritten(h.mem, h.lists, h.layout, h.chains, o, k - 1, j, h.mem[b].next,
              WriteMem(h.mem, cell, h.mem[b].next), WriteLists(h.lists, cell, h.mem[b].next));
    assert b in h.chains[k - 1];
    assert j > 0 ==> h.chains[k - 1][j - 1] in h.chains[k - 1];
  }

  lemma AbsorbRep(h: HeapState, o: nat, b: nat, cell: Cell, j: nat, low: nat, high: nat)
    requires Absorbs(h, o, b, cell, j)
    requires low == (if b < o then b else o) && high == (if b < o then o else b)
    requires cell.Head? ==> cell.order < |h.lists|
    requires cell.Next? ==> cell.block < |h.mem|
    requires Unlinked(h.mem, WriteMem(h.mem, cell, h.mem[b].next), h.lists, WriteLists(h.lists, cell, h.mem[b].next),
                      h.chains, h.layout[o].level - 1, j)
    ensures low < |h.mem| && low in h.layout && high in h.layout && low != high
    ensures var mem', lists' := WriteMem(h.mem, cell, h.mem[b].next), WriteLists(h.lists, cell, h.mem[b].next);
            var k := h.layout[o].level;
            Rep(mem'[low := mem'[low].(size := 2 * mem'[low].size)], lists', Join(h.layout, low, high),
                h.chains[k - 1 := Without(h.chains[k - 1], j)], h.K, low)
  {
    RepMerge(h.mem, WriteMem(h.mem, cell, h.mem[b].next), h.lists, WriteLists(h.lists, cell, h.mem[b].next),
             h.layout, h.chains, h.K, o, b, h.layout[o].level - 1, j, low, high);
  }

  lemma AbsorbResult(h: HeapState, o: nat, b: nat, cell: Cell, j: nat, low: nat, high: nat,
                     mem': seq<Header>, lists': seq<Link>) returns (r: Heap)
    requires h.out == o && o in h.layout && b in h.layout && Tiled(h.layout, h.K) && MergedBut(h.layout, h.K, o)
    requires 1 <= h.layout[o].level < h.K && h.layout[o].level <= |h.chains| && j < |h.chains[h.layout[o].level - 1]|
    requires BuddyOf(o, h.layout[o].level) == b && h.layout[b].level == h.layout[o].level
    requires h.layout[o].free && h.layout[b].free
    requires low == (if b < o then b else o) && high == (if b < o then o else b)
    requires cell.Next? ==> cell.block < |h.mem| && cell.block in h.layout
    requires b < |h.mem| && low < |h.mem| == |mem'| && Pow2(h.K) <= |h.mem|
    requires mem' == WriteMem(h.mem, cell, h.mem[b].next)
    requires h.live == Live(h.layout) && (h.tailFree <==> TailLooksFree(h.mem, h.K))
    requires low in h.layout && high in h.layout && low != high
    requires Rep(mem'[low := mem'[low].(size := 2 * mem'[low].size)], lists', Join(h.layout, low, high),
                 h.chains[h.layout[o].level - 1 := Without(h.chains[h.layout[o].level - 1], j)], h.K, low)
    ensures r == h.(mem := mem'[low := mem'[low].(size := 2 * mem'[low].size)], lists := lists',
                    layout := Join(h.layout, low, high), out := low,
                    chains := h.chains[h.layout[o].level - 1 := Without(h.chains[h.layout[o].level - 1], j)])
    ensures low in r.layout && r.layout[low].level == h.layout[o].level + 1
  {
    InBounds(h.layout, h.K, o);
    BuddyPlace(o, h.layout[o].level, h.K);
    JoinMerged(h.layout, h.K, low, high, o);
    JoinLive(h.layout, low, high);
    TailUntouched(h.mem, h.K, cell, h.mem[b].next, low);
    r := h.(mem := mem'[low := mem'[low].(size := 2 * mem'[low].size)], lists := lists',
            layout := Join(h.layout, low, high), out := low,
            chains := h.chains[h.layout[o].level - 1 := Without(h.chains[h.layout[o].level - 1], j)]);
  }

  lemma TailUntouched(mem: seq<Header>, K: nat, cell: Cell, target: Link, low: nat)
    requires cell.Next? ==> cell.block < |mem|
    requires low < Pow2(K) <= |mem|
    ensures var mem' := WriteMem(mem, cell, target);
            TailLooksFree(mem'[low := mem'[low].(size := 2 * mem'[low].size)], K) <==> TailLooksFree(mem, K)
  {
  }

  lemma PushStep(h: Heap, o: nat, k: nat) returns (r: Heap)
    requires h.out == o && o in h.layout && h.layout[o].level == k + 1
    requires k + 1 < h.K ==> !BuddyFree(h.layout, o)
    ensures k < |h.lists| && o < |h.mem|
    ensures r.mem == h.mem[o := h.mem[o].(next := h.lists[k])] && r.lists == h.lists[k := At(o)]
    ensures r.layout == h.layout && r.K == h.K && r.live == h.live && r.tailFree == h.tailFree && r.out == -1
  {
    assert Inspect(0) && Intact(h);
    InBounds(h.layout, h.K, o);
    RepPush(h.mem, h.lists, h.layout, h.chains, h.K, o, k);
    MergedAgain(h.layout, h.K, o);
    r := h.(mem := h.mem[o := h.mem[o].(next := h.lists[k])], lists := h.lists[k := At(o)],
            chains := h.chains[k := [o] + h.chains[k]], out := -1);
  }

  /** With nothing in use and nothing left to merge, the block in hand is the whole heap. */
  lemma NothingInUse(h: Heap, o: nat)
    requires h.out == o && o in h.layout && h.live == map[]
    requires h.layout[o].level < h.K ==> !BuddyFree(h.layout, o)
    ensures h.layout[o].level == h.K
  {
    assert Inspect(0) && Intact(h);
    InBounds(h.layout, h.K, o);
    MergedAgain(h.layout, h.K, o);
    forall p | p in h.layout ensures h.layout[p].free {
      assert p in Live(h.layout) <==> !h.layout[p].free;
    }
    AllFreeIsInitial(h.layout, h.K);
  }

  /** The list of a free block's order is not empty. */
  lemma FreeIsListed(h: Heap, o: nat)
    requires h.out == -1 && |h.lists| == MAX_ORDER
    requires o in h.layout && h.layout[o].free
    ensures 1 <= h.layout[o].level <= MAX_ORDER && h.lists[h.layout[o].level - 1] != Null
  {
    assert Inspect(0) && Intact(h);
    InBounds(h.layout, h.K, o);
    var k := h.layout[o].level - 1;
    if h.lists[k] == Null {
      EmptyList(h.mem, h.lists, h.layout, h.chains, h.K, k, o);
    }
  }
}
