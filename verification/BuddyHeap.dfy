/**
 How the buddy allocator represents its blocks: headers in memory, threaded
 into one singly linked free list per order.  Every lemma here is about one
 update the code makes, stated on plain values.
 */
module BuddyHeap {
  import opened Bits
  import opened BuddyLayout

  const MAX_ORDER: nat := 28

  datatype Link = Null | At(off: nat)

  /** What a header read at some offset of the heap would give. */
  datatype Header = Header(size: nat, isFree: bool, next: Link)

  // ---- linked lists ----

  ghost function LinkAt(c: seq<nat>, i: nat): Link {
    if i < |c| then At(c[i]) else Null
  }

  /** Following `next` from `head` visits exactly the offsets of c, once each. */
  ghost predicate Chain(mem: seq<Header>, head: Link, c: seq<nat>) {
    && head == LinkAt(c, 0)
    && (forall i | 0 <= i < |c| :: c[i] < |mem|)
    && (forall i {:trigger mem[c[i]]} | 0 <= i < |c| :: mem[c[i]].next == LinkAt(c, i + 1))
    && (forall i, j | 0 <= i < j < |c| :: c[i] != c[j])
  }

  lemma ChainFrame(mem: seq<Header>, mem': seq<Header>, head: Link, c: seq<nat>)
    requires Chain(mem, head, c) && |mem'| == |mem|
    requires forall o :: o in c && o < |mem| ==> mem'[o].next == mem[o].next
    ensures Chain(mem', head, c)
  {
    forall i | 0 <= i < |c| ensures mem'[c[i]].next == LinkAt(c, i + 1) {
      assert c[i] in c;
    }
  }

  function Without(c: seq<nat>, j: nat): seq<nat>
    requires j < |c|
  {
    c[..j] + c[j + 1..]
  }

  /** Writing over the link that leads to c[j] removes c[j] from the list. */
  lemma ChainUnlink(mem: seq<Header>, mem': seq<Header>, head: Link, head': Link, c: seq<nat>, j: nat)
    requires Chain(mem, head, c) && j < |c| && |mem'| == |mem|
    requires head' == if j == 0 then mem[c[0]].next else head
    requires forall i | 0 <= i < |c| && i != j :: mem'[c[i]].next == if i + 1 == j then mem[c[j]].next else mem[c[i]].next
    ensures Chain(mem', head', Without(c, j))
  {
    var d := Without(c, j);
    forall i | 0 <= i < |d| ensures d[i] < |mem'| && mem'[d[i]].next == LinkAt(d, i + 1) {
      if i < j {
        assert d[i] == c[i];
      } else {
        assert d[i] == c[i + 1];
      }
    }
  }

  // ---- the whole representation ----

  ghost predicate HeadersMatch(mem: seq<Header>, L: Layout) {
    forall o :: o in L ==> o < |mem| && mem[o].size == Size(L[o]) && mem[o].isFree == L[o].free
  }

  /**
   A block is in the list of its own order, and in no other, exactly when it
   is free; only block `out` is kept off the lists.
   */
  ghost predicate Listed(L: Layout, chains: seq<seq<nat>>, out: int) {
    && |chains| == MAX_ORDER
    && forall k: nat, o: nat {:trigger o in chains[k]} | k < MAX_ORDER ::
         o in chains[k] <==> o in L && L[o].free && L[o].level == k + 1 && o != out
  }

  ghost predicate Threaded(mem: seq<Header>, lists: seq<Link>, chains: seq<seq<nat>>) {
    && |lists| == |chains| == MAX_ORDER
    && forall k | 0 <= k < MAX_ORDER :: Chain(mem, lists[k], chains[k])
  }

  ghost predicate Rep(mem: seq<Header>, lists: seq<Link>, L: Layout, chains: seq<seq<nat>>, K: nat, out: int) {
    && MIN_LEVEL <= K <= MAX_ORDER
    && Pow2(K) <= |mem|
    && Tiled(L, K)
    && HeadersMatch(mem, L)
    && Listed(L, chains, out)
    && Threaded(mem, lists, chains)
    && (0 <= out ==> out in L && L[out].free)
  }

  lemma InBounds(L: Layout, K: nat, o: nat)
    requires Tiled(L, K) && o in L
    ensures MIN_LEVEL <= L[o].level <= K && o + Size(L[o]) <= Pow2(K)
    ensures Aligned(o, L[o].level)
  {
    assert WellPlaced(o, L[o], K);
  }

  // ---- pushing, popping ----

  /** Block o becomes the head of list k; the next links of listed blocks did not change. */
  lemma PushThreaded(mem: seq<Header>, mem': seq<Header>, lists: seq<Link>, chains: seq<seq<nat>>, k: nat, o: nat)
    requires Threaded(mem, lists, chains) && k < MAX_ORDER && o < |mem| == |mem'|
    requires forall i | 0 <= i < MAX_ORDER :: o !in chains[i]
    requires mem'[o].next == lists[k]
    requires forall i, p | 0 <= i < MAX_ORDER && p in chains[i] && p < |mem| :: mem'[p].next == mem[p].next
    ensures Threaded(mem', lists[k := At(o)], chains[k := [o] + chains[k]])
  {
    var lists' := lists[k := At(o)];
    var chains' := chains[k := [o] + chains[k]];
    forall i | 0 <= i < MAX_ORDER ensures Chain(mem', lists'[i], chains'[i]) {
      ChainFrame(mem, mem', lists[i], chains[i]);
      if i == k {
        var c := chains'[k];
        forall j | 0 <= j < |c| ensures c[j] < |mem'| && mem'[c[j]].next == LinkAt(c, j + 1) {
          if j > 0 {
            assert c[j] == chains[k][j - 1];
          }
        }
      }
    }
  }

  /**
   The one link that led to c[j] now leads to what c[j] led to; no other link
   of a listed block changed.
   */
  ghost predicate Unlinked(mem: seq<Header>, mem': seq<Header>, lists: seq<Link>, lists': seq<Link>,
                           chains: seq<seq<nat>>, k: nat, j: nat)
    requires |lists| == |chains| == MAX_ORDER && k < MAX_ORDER && j < |chains[k]| && chains[k][j] < |mem| == |mem'|
  {
    var c := chains[k];
    var target := mem[c[j]].next;
    && lists' == (if j == 0 then lists[k := target] else lists)
    && (forall i, p | 0 <= i < MAX_ORDER && p in chains[i] && p < |mem| ::
          mem'[p].next == if i == k && j > 0 && p == c[j - 1] then target else mem[p].next)
  }

  lemma UnlinkThreaded(mem: seq<Header>, mem': seq<Header>, lists: seq<Link>, lists': seq<Link>,
                       chains: seq<seq<nat>>, k: nat, j: nat)
    requires Threaded(mem, lists, chains) && k < MAX_ORDER && |mem| == |mem'|
    requires j < |chains[k]| && chains[k][j] < |mem|
    requires Unlinked(mem, mem', lists, lists', chains, k, j)
    ensures Threaded(mem', lists', chains[k := Without(chains[k], j)])
  {
    var chains' := chains[k := Without(chains[k], j)];
    forall i | 0 <= i < MAX_ORDER ensures Chain(mem', lists'[i], chains'[i]) {
      if i == k {
        UnlinkChain(mem, mem', lists, lists', chains, k, j);
      } else {
        ChainFrame(mem, mem', lists[i], chains[i]);
      }
    }
  }

  lemma UnlinkChain(mem: seq<Header>, mem': seq<Header>, lists: seq<Link>, lists': seq<Link>,
                    chains: seq<seq<nat>>, k: nat, j: nat)
    requires |lists| == |chains| == MAX_ORDER && k < MAX_ORDER && |mem| == |mem'|
    requires Chain(mem, lists[k], chains[k])
    requires j < |chains[k]| && chains[k][j] < |mem|
    requires Unlinked(mem, mem', lists, lists', chains, k, j)
    ensures Chain(mem', lists'[k], Without(chains[k], j))
  {
    var c := chains[k];
    forall i | 0 <= i < |c| && i != j
      ensures mem'[c[i]].next == if i + 1 == j then mem[c[j]].next else mem[c[i]].next
    {
      assert c[i] in chains[k];
    }
    ChainUnlink(mem, mem', lists[k], lists'[k], c, j);
  }

  lemma NoDuplicates(c: seq<nat>, j: nat, p: nat)
    requires j < |c| && forall i, k | 0 <= i < k < |c| :: c[i] != c[k]
    ensures p in Without(c, j) <==> p in c && p != c[j]
  {
    var d := Without(c, j);
    if p in d {
      var i :| 0 <= i < |d| && d[i] == p;
      assert p == if i < j then c[i] else c[i + 1];
    }
    if p in c && p != c[j] {
      var i :| 0 <= i < |c| && c[i] == p;
      assert p == if i < j then d[i] else d[i - 1];
    }
  }

  lemma RepPush(mem: seq<Header>, lists: seq<Link>, L: Layout, chains: seq<seq<nat>>, K: nat, o: nat, k: nat)
    requires Rep(mem, lists, L, chains, K, o) && o in L && L[o].level == k + 1
    ensures k < MAX_ORDER && o < |mem|
    ensures Rep(mem[o := mem[o].(next := lists[k])], lists[k := At(o)], L,
                chains[k := [o] + chains[k]], K, -1)
  {
    InBounds(L, K, o);
    PushThreaded(mem, mem[o := mem[o].(next := lists[k])], lists, chains, k, o);
  }

  lemma RepPop(mem: seq<Header>, lists: seq<Link>, L: Layout, chains: seq<seq<nat>>, K: nat, k: nat)
    requires Rep(mem, lists, L, chains, K, -1) && k < MAX_ORDER && lists[k] != Null
    ensures chains[k] != [] && lists[k] == At(chains[k][0])
    ensures var o := chains[k][0];
            o in L && L[o].free && L[o].level == k + 1 && o < |mem|
            && Rep(mem, lists[k := mem[o].next], L, chains[k := Without(chains[k], 0)], K, o)
  {
    assert Chain(mem, lists[k], chains[k]);
    var o := chains[k][0];
    assert o in chains[k];
    UnlinkThreaded(mem, mem, lists, lists[k := mem[o].next], chains, k, 0);
    PopListed(L, chains, k);
  }

  lemma PopListed(L: Layout, chains: seq<seq<nat>>, k: nat)
    requires Listed(L, chains, -1) && k < MAX_ORDER && chains[k] != []
    requires forall i, j | 0 <= i < j < |chains[k]| :: chains[k][i] != chains[k][j]
    ensures Listed(L, chains[k := Without(chains[k], 0)], chains[k][0])
  {
    var o := chains[k][0];
    assert o in chains[k];
    var chains' := chains[k := Without(chains[k], 0)];
    forall i: nat, p: nat | i < MAX_ORDER
      ensures p in chains'[i] <==> p in L && L[p].free && L[p].level == i + 1 && p != o
    {
      assert p in chains[i] <==> p in L && L[p].free && L[p].level == i + 1;
      if i == k {
        NoDuplicates(chains[k], 0, p);
      }
    }
  }

  /** An empty list means no free block of its size. */
  lemma EmptyList(mem: seq<Header>, lists: seq<Link>, L: Layout, chains: seq<seq<nat>>, K: nat, k: nat, o: nat)
    requires Rep(mem, lists, L, chains, K, -1) && k < MAX_ORDER && lists[k] == Null
    requires o in L && L[o].free
    ensures L[o].level != k + 1
  {
    assert Chain(mem, lists[k], chains[k]);
    assert o !in chains[k];
  }

  // ---- splitting the block in hand ----

  lemma RepSplit(mem: seq<Header>, lists: seq<Link>, L: Layout, chains: seq<seq<nat>>, K: nat, o: nat, k: nat)
    requires Rep(mem, lists, L, chains, K, o) && o in L && L[o].level == k + 2
    requires k + 1 >= MIN_LEVEL
    ensures var b := o + Pow2(k + 1);
            b < |mem| && b < Pow2(K) && k < MAX_ORDER && o < |mem| && b != o && b !in L
            && Rep(mem[b := Header(Pow2(k + 1), true, lists[k])][o := mem[o].(size := Pow2(k + 1))],
                   lists[k := At(b)], Split(L, o), chains[k := [b] + chains[k]], K, o)
  {
    InBounds(L, K, o);
    var b := o + Pow2(k + 1);
    var R := Split(L, o);
    SplitTiled(L, K, o);
    InBounds(R, K, b);
    var mem' := mem[b := Header(Pow2(k + 1), true, lists[k])][o := mem[o].(size := Pow2(k + 1))];
    SplitThreaded(mem, mem', lists, L, chains, o, b, k);
  }

  lemma SplitThreaded(mem: seq<Header>, mem': seq<Header>, lists: seq<Link>, L: Layout, chains: seq<seq<nat>>, o: nat, b: nat, k: nat)
    requires Threaded(mem, lists, chains) && Listed(L, chains, o) && b !in L
    requires o < |mem| && b < |mem| && o != b && k < MAX_ORDER
    requires mem' == mem[b := Header(Pow2(k + 1), true, lists[k])][o := mem[o].(size := Pow2(k + 1))]
    ensures Threaded(mem', lists[k := At(b)], chains[k := [b] + chains[k]])
  {
    PushThreaded(mem, mem', lists, chains, k, b);
  }

  /** The block in hand is given away: it is marked as used. */
  lemma RepTake(mem: seq<Header>, lists: seq<Link>, L: Layout, chains: seq<seq<nat>>, K: nat, o: nat)
    requires Rep(mem, lists, L, chains, K, o) && o in L
    ensures o < |mem|
    ensures Rep(mem[o := mem[o].(isFree := false)], lists, L[o := Block(L[o].level, false)], chains, K, -1)
  {
    InBounds(L, K, o);
    var mem' := mem[o := mem[o].(isFree := false)];
    var R := L[o := Block(L[o].level, false)];
    MarkTiled(L, K, o, false);
    forall i | 0 <= i < MAX_ORDER ensures Chain(mem', lists[i], chains[i]) {
      ChainFrame(mem, mem', lists[i], chains[i]);
    }
  }

  /** A live block is given back: it is marked as free, but not yet listed. */
  lemma RepGiveBack(mem: seq<Header>, lists: seq<Link>, L: Layout, chains: seq<seq<nat>>, K: nat, o: nat)
    requires Rep(mem, lists, L, chains, K, -1) && o in L && !L[o].free
    ensures o < |mem|
    ensures Rep(mem[o := mem[o].(isFree := true)], lists, L[o := Block(L[o].level, true)], chains, K, o)
  {
    InBounds(L, K, o);
    var mem' := mem[o := mem[o].(isFree := true)];
    var R := L[o := Block(L[o].level, true)];
    MarkTiled(L, K, o, true);
    forall i | 0 <= i < MAX_ORDER ensures Chain(mem', lists[i], chains[i]) {
      ChainFrame(mem, mem', lists[i], chains[i]);
    }
  }

  lemma MarkTiled(L: Layout, K: nat, o: nat, free: bool)
    requires Tiled(L, K) && o in L
    ensures Tiled(L[o := Block(L[o].level, free)], K)
  {
    var R := L[o := Block(L[o].level, free)];
    forall p | p in R ensures WellPlaced(p, R[p], K) {
      assert WellPlaced(p, L[p], K);
    }
    forall p, q | p in R && q in R ensures Apart(R, p, q) {
      assert Apart(L, p, q);
    }
    forall x: nat | x < Pow2(K) ensures Held(R, x) {
      assert Held(L, x);
      var p :| p in L && Covers(L, p, x);
      assert Covers(R, p, x);
    }
  }

  // ---- merging ----

  /**
   Block o in hand and its listed buddy b = chains[k][j] become one block in
   hand, at the lower of the two offsets.  mem' is memory after the unlinking.
   */
  lemma RepMerge(mem: seq<Header>, mem': seq<Header>, lists: seq<Link>, lists': seq<Link>, L: Layout,
                 chains: seq<seq<nat>>, K: nat, o: nat, b: nat, k: nat, j: nat, low: nat, high: nat)
    requires Rep(mem, lists, L, chains, K, o) && o in L && L[o].level == k + 1 < K
    requires BuddyOf(o, k + 1) == b && k < MAX_ORDER && j < |chains[k]| && chains[k][j] == b
    requires b < |mem| == |mem'|
    requires low == (if b < o then b else o) && high == (if b < o then o else b)
    requires Unlinked(mem, mem', lists, lists', chains, k, j)
    requires forall p | 0 <= p < |mem| :: mem'[p].size == mem[p].size && mem'[p].isFree == mem[p].isFree
    ensures low < |mem'| && low in L && high in L && low != high
    ensures Rep(mem'[low := mem'[low].(size := 2 * mem'[low].size)], lists', Join(L, low, high),
                chains[k := Without(chains[k], j)], K, low)
  {
    assert b in chains[k];
    MergeTiled(L, K, o, b, low, high);
    assert Chain(mem, lists[k], chains[k]);
    var mem2 := mem'[low := mem'[low].(size := 2 * mem'[low].size)];
    MergeThreaded(mem, mem', mem2, lists, lists', chains, k, j);
    MergeListed(L, chains, o, b, k, j, low, high);
    MergeHeaders(mem, mem2, L, low, high);
  }

  lemma MergeTiled(L: Layout, K: nat, o: nat, b: nat, low: nat, high: nat)
    requires Tiled(L, K) && o in L && b in L && L[b].level == L[o].level < K
    requires BuddyOf(o, L[o].level) == b
    requires low == (if b < o then b else o) && high == (if b < o then o else b)
    ensures low != high && high < Pow2(K) && Tiled(Join(L, low, high), K)
  {
    InBounds(L, K, o);
    InBounds(L, K, b);
    BuddyPlace(o, L[o].level, K);
    JoinTiled(L, K, low, high);
  }

  lemma MergeThreaded(mem: seq<Header>, mem': seq<Header>, mem2: seq<Header>, lists: seq<Link>, lists': seq<Link>,
                      chains: seq<seq<nat>>, k: nat, j: nat)
    requires Threaded(mem, lists, chains) && k < MAX_ORDER && |mem| == |mem'| == |mem2|
    requires j < |chains[k]| && chains[k][j] < |mem|
    requires Unlinked(mem, mem', lists, lists', chains, k, j)
    requires forall p | 0 <= p < |mem| :: mem2[p].next == mem'[p].next
    ensures Threaded(mem2, lists', chains[k := Without(chains[k], j)])
  {
    UnlinkThreaded(mem, mem', lists, lists', chains, k, j);
    var chains' := chains[k := Without(chains[k], j)];
    forall i | 0 <= i < MAX_ORDER ensures Chain(mem2, lists'[i], chains'[i]) {
      ChainFrame(mem', mem2, lists'[i], chains'[i]);
    }
  }

  lemma MergeListed(L: Layout, chains: seq<seq<nat>>, o: nat, b: nat, k: nat, j: nat, low: nat, high: nat)
    requires Listed(L, chains, o) && o in L && b in L && L[o].level == L[b].level == k + 1 && k < MAX_ORDER
    requires j < |chains[k]| && chains[k][j] == b && o != b
    requires forall i, j | 0 <= i < j < |chains[k]| :: chains[k][i] != chains[k][j]
    requires low == (if b < o then b else o) && high == (if b < o then o else b)
    ensures Listed(Join(L, low, high), chains[k := Without(chains[k], j)], low)
  {
    var R := Join(L, low, high);
    var chains' := chains[k := Without(chains[k], j)];
    forall i: nat, p: nat | i < MAX_ORDER
      ensures p in chains'[i] <==> p in R && R[p].free && R[p].level == i + 1 && p != low
    {
      assert p in chains[i] <==> p in L && L[p].free && L[p].level == i + 1 && p != o;
      if i == k {
        NoDuplicates(chains[k], j, p);
      }
    }
  }

  lemma MergeHeaders(mem: seq<Header>, mem2: seq<Header>, L: Layout, low: nat, high: nat)
    requires HeadersMatch(mem, L) && |mem2| == |mem|
    requires low in L && high in L && low != high && L[low].free
    requires forall p | 0 <= p < |mem| :: mem2[p].isFree == mem[p].isFree
    requires forall p | 0 <= p < |mem| :: mem2[p].size == if p == low then 2 * mem[p].size else mem[p].size
    ensures HeadersMatch(mem2, Join(L, low, high))
  {
  }
}
