/**
 What the buddy allocator's heap means: which blocks exist, at which offset,
 of which size, and which of them are free.  A block of level k has
 Pow2(k) bytes, header included.
 */
module BuddyLayout {
  import opened Bits

  const MIN_LEVEL: nat := 6      // MIN_BLOCK_SIZE is 64

  datatype Block = Block(level: nat, free: bool)

  /** The blocks of the heap, by offset from its start. */
  type Layout = map<nat, Block>

  function Size(b: Block): (s: nat)
    ensures s >= 1
  {
    Pow2(b.level)
  }

  /** The offset get_buddy computes for a block of level k at o. */
  function BuddyOf(o: nat, k: nat): int {
    if Aligned(o, k + 1) then o + Pow2(k) else o - Pow2(k)
  }

  ghost predicate Covers(L: Layout, o: nat, x: nat)
    requires o in L
  {
    o <= x < o + Size(L[o])
  }

  ghost predicate WellPlaced(o: nat, b: Block, K: nat) {
    && MIN_LEVEL <= b.level <= K
    && Aligned(o, b.level)
    && o + Size(b) <= Pow2(K)
  }

  ghost predicate Apart(L: Layout, p: nat, q: nat)
    requires p in L && q in L
  {
    p < q ==> p + Size(L[p]) <= q
  }

  ghost predicate Disjoint(L: Layout) {
    forall p, q {:trigger Apart(L, p, q)} :: p in L && q in L ==> Apart(L, p, q)
  }

  lemma TheyAreApart(L: Layout, p: nat, q: nat)
    requires Disjoint(L) && p in L && q in L
    ensures p < q ==> p + Size(L[p]) <= q
    ensures q < p ==> q + Size(L[q]) <= p
  {
    assert Apart(L, p, q) && Apart(L, q, p);
  }

  ghost predicate Held(L: Layout, x: nat) {
    exists o :: o in L && Covers(L, o, x)
  }

  ghost predicate Covered(L: Layout, K: nat) {
    forall x: nat | x < Pow2(K) :: Held(L, x)
  }

  /**
   The blocks exactly tile [0, Pow2(K)); each has a power-of-two size of at
   least 64 and sits at a multiple of its size.
   */
  ghost predicate Tiled(L: Layout, K: nat) {
    && (forall o {:trigger WellPlaced(o, L[o], K)} :: o in L ==> WellPlaced(o, L[o], K))
    && Disjoint(L)
    && Covered(L, K)
  }

  ghost predicate FreePair(L: Layout, p: nat, q: int) {
    p in L && 0 <= q && q in L && L[p].free && L[q].free && L[p].level == L[q].level
  }

  /** Block p and its buddy are both free and of the same size. */
  ghost predicate BuddyFree(L: Layout, p: nat)
    requires p in L
  {
    FreePair(L, p, BuddyOf(p, L[p].level))
  }

  /** No two free buddies of equal size, except that block `out` is not looked at. */
  ghost predicate MergedBut(L: Layout, K: nat, out: int) {
    forall p {:trigger BuddyFree(L, p)} :: p in L && p != out && L[p].level < K && BuddyOf(p, L[p].level) != out ==>
      !BuddyFree(L, p)
  }

  ghost predicate Merged(L: Layout, K: nat) {
    MergedBut(L, K, -1)
  }

  /** The blocks in use, with their levels. */
  ghost function Live(L: Layout): map<nat, nat> {
    map o | o in L && !L[o].free :: L[o].level
  }

  ghost predicate AllFree(L: Layout) {
    forall o :: o in L ==> L[o].free
  }

  // ---- buddies ----

  /** Where the buddy of an aligned block smaller than the heap lies. */
  lemma BuddyPlace(o: nat, k: nat, K: nat)
    requires k < K && Aligned(o, k) && o + Pow2(k) <= Pow2(K)
    ensures 0 <= BuddyOf(o, k) && BuddyOf(o, k) + Pow2(k) <= Pow2(K)
    ensures Aligned(BuddyOf(o, k), k)
    ensures BuddyOf(BuddyOf(o, k), k) == o
    ensures BuddyOf(o, k) == o + Pow2(k) || BuddyOf(o, k) == o - Pow2(k)
    ensures var low := if BuddyOf(o, k) < o then BuddyOf(o, k) else o;
            Aligned(low, k + 1) && low + Pow2(k + 1) <= Pow2(K)
  {
    HalfCell(o, k);
    Pow2Aligned(k, k);
    AlignedSum(o, Pow2(k), k);
    if Aligned(o, k + 1) {
      Pow2Aligned(k + 1, K);
      CellInside(0, K, o, k + 1, o) by { ZeroAligned(K); }
    } else {
      AlignedDown(o - Pow2(k), k, k + 1);
    }
  }

  /**
   The address get_buddy computes is always the start of a block, and that
   block is no larger: reading a header there is sound.
   */
  lemma BuddyIsStart(L: Layout, K: nat, o: nat)
    requires Tiled(L, K) && o in L && L[o].level < K
    ensures 0 <= BuddyOf(o, L[o].level) < Pow2(K)
    ensures BuddyOf(o, L[o].level) in L
    ensures L[BuddyOf(o, L[o].level)].level <= L[o].level
  {
    var k := L[o].level;
    assert WellPlaced(o, L[o], K);
    BuddyPlace(o, k, K);
    var b: nat := BuddyOf(o, k);
    assert Held(L, b);
    var p :| p in L && Covers(L, p, b);
    assert WellPlaced(p, L[p], K);
    TheyAreApart(L, o, p);
    StartOfCover(o, k, p, L[p].level, b);
    assert p <= b < p + Size(L[p]);
  }

  /**
   If a block of level t at p holds the buddy b of a disjoint block of level k
   at o, then it starts at b and is no larger.
   */
  lemma StartOfCover(o: nat, k: nat, p: nat, t: nat, b: nat)
    requires Aligned(p, t) && p <= b < p + Pow2(t)
    requires Aligned(b, k) && (b == o + Pow2(k) || b + Pow2(k) == o)
    requires Aligned(if b < o then b else o, k + 1)
    requires p == o ==> t == k
    requires p < o ==> p + Pow2(t) <= o
    requires o < p ==> o + Pow2(k) <= p
    ensures p == b && t <= k
  {
    if t <= k {
      AlignedDown(b, t, k);
      AlignedClose(p, b, t);
    } else {
      // the block would hold the whole cell of o and b, and so overlap o
      CellInside(p, t, if b < o then b else o, k + 1, b);
      assert false;
    }
  }

  /** A block that holds one address of an aligned smaller cell holds all of it. */
  lemma CellInside(p: nat, t: nat, c: nat, k: nat, x: nat)
    requires k <= t && Aligned(p, t) && Aligned(c, k)
    requires p <= x < p + Pow2(t) && c <= x < c + Pow2(k)
    ensures p <= c && c + Pow2(k) <= p + Pow2(t)
  {
    AlignedDown(p, k, t);
    Pow2Aligned(k, t);
    AlignedSum(p, Pow2(t), k);
    if c < p {
      AlignedClose(c, p, k);
    }
    if p + Pow2(t) < c + Pow2(k) {
      AlignedClose(c, p + Pow2(t), k);
    }
  }

  // ---- splitting and merging ----

  /** Block o of level k + 1 becomes two halves of level k, both free. */
  function Split(L: Layout, o: nat): Layout
    requires o in L && L[o].level > 0
  {
    var k := L[o].level - 1;
    L[o := Block(k, true)][o + Pow2(k) := Block(k, true)]
  }

  /** Free buddies of level k, the lower one at o, become one block. */
  function Join(L: Layout, o: nat, b: nat): Layout
    requires o in L
  {
    (L - {b})[o := Block(L[o].level + 1, true)]
  }

  lemma SplitTiled(L: Layout, K: nat, o: nat)
    requires Tiled(L, K) && o in L && L[o].level > MIN_LEVEL
    ensures Tiled(Split(L, o), K)
    ensures o + Pow2(L[o].level - 1) !in L
  {
    assert WellPlaced(o, L[o], K);
    SplitPlaced(L, K, o);
    SplitDisjoint(L, o);
    forall x: nat | x < Pow2(K) ensures Held(Split(L, o), x) {
      SplitHeld(L, o, x);
    }
  }

  lemma SplitPlaced(L: Layout, K: nat, o: nat)
    requires forall p {:trigger WellPlaced(p, L[p], K)} :: p in L ==> WellPlaced(p, L[p], K)
    requires o in L && L[o].level > MIN_LEVEL
    ensures forall p {:trigger WellPlaced(p, Split(L, o)[p], K)} :: p in Split(L, o) ==> WellPlaced(p, Split(L, o)[p], K)
  {
    var k := L[o].level - 1;
    assert WellPlaced(o, L[o], K);
    AlignedDown(o, k, k + 1);
    Pow2Aligned(k, k);
    AlignedSum(o, Pow2(k), k);
    assert WellPlaced(o, Block(k, true), K) && WellPlaced(o + Pow2(k), Block(k, true), K);
  }

  lemma SplitDisjoint(L: Layout, o: nat)
    requires Disjoint(L) && o in L && L[o].level > 0
    ensures Disjoint(Split(L, o))
    ensures o + Pow2(L[o].level - 1) !in L
  {
    var k := L[o].level - 1;
    var b := o + Pow2(k);
    assert Pow2(k + 1) == 2 * Pow2(k);
    assert Size(L[o]) == 2 * Pow2(k);
    var R := Split(L, o);
    if b in L {
      TheyAreApart(L, o, b);
    }
    forall p, q | p in R && q in R ensures Apart(R, p, q) {
      TheyAreApart(L, if p == b then o else p, if q == b then o else q);
    }
  }

  lemma SplitHeld(L: Layout, o: nat, x: nat)
    requires o in L && L[o].level > 0 && Disjoint(L)
    requires Held(L, x)
    ensures Held(Split(L, o), x)
  {
    var R := Split(L, o);
    var k := L[o].level - 1;
    SplitDisjoint(L, o);
    var p :| p in L && Covers(L, p, x);
    if p != o {
      assert Covers(R, p, x);
    } else if x < o + Pow2(k) {
      assert Covers(R, o, x);
    } else {
      assert Covers(R, o + Pow2(k), x);
    }
  }

  lemma SplitMerged(L: Layout, K: nat, o: nat)
    requires Tiled(L, K) && o in L && L[o].level > MIN_LEVEL
    requires MergedBut(L, K, o)
    ensures MergedBut(Split(L, o), K, o)
  {
    var k := L[o].level - 1;
    var R := Split(L, o);
    assert WellPlaced(o, L[o], K);
    AlignedDown(o, k, k + 1);
    BuddyPlace(o, k, K);
    assert BuddyOf(o, k) == o + Pow2(k);
    forall p | p in R && p != o && R[p].level < K && BuddyOf(p, R[p].level) != o
      ensures !BuddyFree(R, p)
    {
      assert p != o + Pow2(k);
      var q := BuddyOf(p, R[p].level);
      assert WellPlaced(p, L[p], K);
      BuddyPlace(p, R[p].level, K);
      assert q != o + Pow2(k) ==> !BuddyFree(L, p);
    }
  }

  lemma SplitLive(L: Layout, o: nat)
    requires o in L && L[o].level > 0 && L[o].free
    requires o + Pow2(L[o].level - 1) !in L
    ensures Live(Split(L, o)) == Live(L)
  {
  }

  lemma JoinTiled(L: Layout, K: nat, o: nat, b: nat)
    requires Tiled(L, K) && o in L && b in L && L[o].level == L[b].level < K
    requires b == o + Size(L[o]) && Aligned(o, L[o].level + 1)
    ensures Tiled(Join(L, o, b), K)
  {
    var k := L[o].level;
    var R := Join(L, o, b);
    assert WellPlaced(o, L[o], K) && WellPlaced(b, L[b], K);
    assert WellPlaced(o, Block(k + 1, true), K);
    JoinDisjoint(L, o, b);
    forall x: nat | x < Pow2(K) ensures Held(R, x) {
      JoinHeld(L, o, b, x);
    }
  }

  lemma JoinDisjoint(L: Layout, o: nat, b: nat)
    requires Disjoint(L) && o in L && b in L && L[o].level == L[b].level
    requires b == o + Size(L[o])
    ensures Disjoint(Join(L, o, b))
  {
    var R := Join(L, o, b);
    assert Size(R[o]) == Size(L[o]) + Size(L[b]);
    forall p, q | p in R && q in R ensures Apart(R, p, q) {
      TheyAreApart(L, p, q);
      TheyAreApart(L, b, q);
    }
  }

  lemma JoinHeld(L: Layout, o: nat, b: nat, x: nat)
    requires Disjoint(L) && o in L && b in L && L[o].level == L[b].level
    requires b == o + Size(L[o])
    requires Held(L, x)
    ensures Held(Join(L, o, b), x)
  {
    var R := Join(L, o, b);
    assert Size(R[o]) == Size(L[o]) + Size(L[b]);
    var p :| p in L && Covers(L, p, x);
    if p != b && p != o {
      assert Covers(R, p, x);
    } else {
      assert Covers(R, o, x);
    }
  }

  lemma JoinMerged(L: Layout, K: nat, o: nat, b: nat, out: nat)
    requires Tiled(L, K) && o in L && b in L && L[o].level == L[b].level < K
    requires b == o + Size(L[o]) && BuddyOf(o, L[o].level) == b
    requires out == o || out == b
    requires MergedBut(L, K, out)
    ensures MergedBut(Join(L, o, b), K, o)
  {
    var k := L[o].level;
    var R := Join(L, o, b);
    assert WellPlaced(o, L[o], K);
    BuddyPlace(o, k, K);
    forall p | p in R && p != o && R[p].level < K && BuddyOf(p, R[p].level) != o
      ensures !BuddyFree(R, p)
    {
      assert p in L && WellPlaced(p, L[p], K);
      var q := BuddyOf(p, R[p].level);
      assert q != b ==> !BuddyFree(L, p);
    }
  }

  lemma JoinLive(L: Layout, o: nat, b: nat)
    requires o in L && b in L && o != b && L[o].free && L[b].free
    ensures Live(Join(L, o, b)) == Live(L)
  {
  }

  /** Once nothing can be merged with block o, no exception is left. */
  lemma MergedAgain(L: Layout, K: nat, o: nat)
    requires Tiled(L, K) && o in L && MergedBut(L, K, o)
    requires L[o].free && L[o].level < K ==> !BuddyFree(L, o)
    ensures Merged(L, K)
  {
    forall p | p in L && p != -1 && L[p].level < K && BuddyOf(p, L[p].level) != -1
      ensures !BuddyFree(L, p)
    {
      var k := L[p].level;
      assert WellPlaced(p, L[p], K);
      BuddyPlace(p, k, K);
      if BuddyOf(p, k) == o {
        assert FreePair(L, p, o) ==> FreePair(L, o, p);
      }
    }
  }

  // ---- consequences ----

  ghost predicate StartsIn(L: Layout, o: nat, c: nat, k: nat) {
    o in L && c <= o < c + Pow2(k)
  }

  /**
   In a merged layout an aligned cell without live blocks is one block, or
   part of one: it cannot be cut into smaller free blocks.
   */
  lemma {:induction false} FreeCellIsWhole(L: Layout, K: nat, c: nat, k: nat, o: nat)
    requires Tiled(L, K) && Merged(L, K)
    requires k <= K && Aligned(c, k) && c + Pow2(k) <= Pow2(K)
    requires StartsIn(L, o, c, k)
    requires forall p :: StartsIn(L, p, c, k) ==> L[p].free
    ensures L[o].level >= k
    decreases if o in L then L[o].level else 0
  {
    var j := L[o].level;
    if j < k {
      assert WellPlaced(o, L[o], K);
      BuddyIsStart(L, K, o);
      BuddyPlace(o, j, K);
      var b: nat := BuddyOf(o, j);
      var low := if b < o then b else o;
      CellInside(c, k, low, j + 1, o);
      assert StartsIn(L, b, c, k);
      assert !BuddyFree(L, o);
      FreeCellIsWhole(L, K, c, k, b);
    }
  }

  /** With nothing in use, the heap is the single initial block again. */
  lemma AllFreeIsInitial(L: Layout, K: nat)
    requires Tiled(L, K) && Merged(L, K) && AllFree(L)
    ensures L == map[0 := Block(K, true)]
  {
    ZeroAligned(K);
    forall o | o in L ensures o == 0 && L[o] == Block(K, true) {
      assert WellPlaced(o, L[o], K);
      assert StartsIn(L, o, 0, K);
      FreeCellIsWhole(L, K, 0, K, o);
    }
    assert Held(L, 0);
  }

  lemma LiveDeterminesFree(L: Layout, M: Layout, K: nat, o: nat)
    requires Tiled(L, K) && Merged(L, K) && Tiled(M, K) && Merged(M, K)
    requires Live(L) == Live(M)
    requires o in L && L[o].free
    ensures o in M && M[o] == L[o]
  {
    var k := L[o].level;
    assert WellPlaced(o, L[o], K);
    assert Held(M, o);
    var p :| p in M && Covers(M, p, o);
    assert WellPlaced(p, M[p], K);
    var t := M[p].level;
    LiveElsewhere(L, M, o, p);
    if t <= k {
      AlignedDown(o, t, k);
      AlignedClose(p, o, t);
      // the cell of o holds no live block of M, so p fills it
      forall q | StartsIn(M, q, o, k) ensures M[q].free {
        LiveElsewhere(M, L, q, o);
      }
      FreeCellIsWhole(M, K, o, k, p);
    } else {
      forall q | StartsIn(L, q, p, t) ensures L[q].free {
        LiveElsewhere(L, M, q, p);
      }
      FreeCellIsWhole(L, K, p, t, o);
      assert false;
    }
  }

  /** A block of M under a free block q of L, or over it, is free as well. */
  lemma LiveElsewhere(L: Layout, M: Layout, o: nat, p: nat)
    requires Disjoint(L) && Disjoint(M) && Live(L) == Live(M)
    requires o in L && p in M && Covers(M, p, o)
    ensures L[o].free <==> M[p].free
  {
    if !M[p].free {
      assert p in Live(M) && p in Live(L);
      assert p in L && L[p].level == M[p].level;
      TheyAreApart(L, p, o);
    }
    if !L[o].free {
      assert o in Live(L) && o in Live(M);
      assert o in M && M[o].level == L[o].level;
      TheyAreApart(M, p, o);
    }
  }

  /**
   History independence: which blocks exist and which are free is a function
   of the blocks in use alone.  In particular, freeing what a malloc returned
   undoes its splits exactly.
   */
  lemma LiveDeterminesLayout(L: Layout, M: Layout, K: nat)
    requires Tiled(L, K) && Merged(L, K) && Tiled(M, K) && Merged(M, K)
    requires Live(L) == Live(M)
    ensures L == M
  {
    forall o | o in L ensures o in M && M[o] == L[o] {
      if L[o].free {
        LiveDeterminesFree(L, M, K, o);
      } else {
        assert o in Live(L) && o in Live(M);
        assert M[o].level == Live(M)[o];
      }
    }
    forall o | o in M ensures o in L {
      if M[o].free {
        LiveDeterminesFree(M, L, K, o);
      } else {
        assert o in Live(M) && o in Live(L);
      }
    }
  }

  // ---- how many bytes ----

  /** Bytes in a set of blocks given by their levels. */
  ghost function Weight(m: map<nat, nat>): nat {
    if m == map[] then 0 else
      var o :| o in m;
      Pow2(m[o]) + Weight(m - {o})
  }

  lemma {:induction false} WeightRemove(m: map<nat, nat>, o: nat)
    requires o in m
    ensures Weight(m) == Pow2(m[o]) + Weight(m - {o})
    decreases |m|
  {
    var p :| p in m && Weight(m) == Pow2(m[p]) + Weight(m - {p});
    if p != o {
      WeightRemove(m - {p}, o);
      WeightRemove(m - {o}, p);
      assert m - {p} - {o} == m - {o} - {p};
    }
  }

  lemma WeightAdd(m: map<nat, nat>, o: nat, level: nat)
    requires o !in m
    ensures Weight(m[o := level]) == Pow2(level) + Weight(m)
    ensures |m[o := level]| == |m| + 1
  {
    WeightRemove(m[o := level], o);
    assert m[o := level] - {o} == m;
  }

  ghost function Levels(L: Layout): map<nat, nat> {
    map o | o in L :: L[o].level
  }

  ghost function Free(L: Layout): map<nat, nat> {
    map o | o in L && L[o].free :: L[o].level
  }

  ghost function Below(L: Layout, x: nat): Layout {
    map o | o in L && o < x :: L[o]
  }

  lemma BelowStep(L: Layout, p: nat, x: nat)
    requires Disjoint(L) && p in L && p + Size(L[p]) == x
    ensures Levels(Below(L, x)) == Levels(Below(L, p))[p := L[p].level]
    ensures p !in Levels(Below(L, p))
  {
    forall o: nat | o in L && o != p
      ensures o < x <==> o < p
    {
      TheyAreApart(L, o, p);
    }
  }

  /** The blocks below a block boundary fill everything below it. */
  lemma {:induction false} PrefixWeight(L: Layout, K: nat, x: nat)
    requires Tiled(L, K) && x <= Pow2(K)
    requires x < Pow2(K) ==> x in L
    ensures Weight(Levels(Below(L, x))) == x
    decreases x
  {
    if x == 0 {
      assert Levels(Below(L, x)) == map[];
    } else {
      var p := BlockBefore(L, K, x);
      PrefixWeight(L, K, p);
      BelowStep(L, p, x);
      WeightAdd(Levels(Below(L, p)), p, L[p].level);
    }
  }

  lemma BlockBefore(L: Layout, K: nat, x: nat) returns (p: nat)
    requires Tiled(L, K) && 0 < x <= Pow2(K)
    requires x < Pow2(K) ==> x in L
    ensures p in L && p < x && p + Size(L[p]) == x
  {
    assert Held(L, x - 1);
    p :| p in L && Covers(L, p, x - 1);
    assert WellPlaced(p, L[p], K);
    if x < Pow2(K) {
      TheyAreApart(L, p, x);
    }
  }

  lemma MapsRemove(L: Layout, o: nat)
    requires o in L
    ensures Levels(L) - {o} == Levels(L - {o})
    ensures Live(L) - {o} == Live(L - {o})
    ensures Free(L) - {o} == Free(L - {o})
    ensures L[o].free ==> Live(L - {o}) == Live(L)
    ensures !L[o].free ==> Free(L - {o}) == Free(L)
  {
  }

  lemma {:induction false} WeightSplit(L: Layout)
    ensures Weight(Levels(L)) == Weight(Live(L)) + Weight(Free(L))
    decreases |L|
  {
    if L == map[] {
      assert Levels(L) == map[] && Live(L) == map[] && Free(L) == map[];
    } else {
      var o :| o in L;
      var R := L - {o};
      WeightSplit(R);
      MapsRemove(L, o);
      WeightRemove(Levels(L), o);
      if L[o].free {
        WeightRemove(Free(L), o);
      } else {
        WeightRemove(Live(L), o);
      }
    }
  }

  /** Conservation: the bytes in live blocks and in free blocks add up to the initial block. */
  lemma LivePlusFree(L: Layout, K: nat)
    requires Tiled(L, K)
    ensures Weight(Live(L)) + Weight(Free(L)) == Pow2(K)
  {
    PrefixWeight(L, K, Pow2(K));
    forall o | o in L ensures o < Pow2(K) {
      assert WellPlaced(o, L[o], K);
    }
    assert Below(L, Pow2(K)) == L;
    WeightSplit(L);
  }
}
