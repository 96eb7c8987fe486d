/** The two helpers that turn a request into a power of two and a power of two into a list index. */
module BuddySizes {
  import opened Bits
  import opened Words

  const WORD_BITS: nat := 64
  const MAX_POWER: nat := 0x8000_0000_0000_0000   // the largest power of two in a word

  lemma MaxPower()
    ensures MAX_POWER == Pow2(63)
  {
    TimesPow2(0, 1, 9);
    TimesPow2(9, 0x200, 9);
    TimesPow2(18, 0x4_0000, 9);
    TimesPow2(27, 0x800_0000, 9);
    TimesPow2(36, 0x10_0000_0000, 9);
    TimesPow2(45, 0x2000_0000_0000, 9);
    TimesPow2(54, 0x40_0000_0000_0000, 9);
  }

  lemma TimesPow2(n: nat, v: nat, m: nat)
    requires Pow2(n) == v && m == 9
    ensures Pow2(n + m) == 512 * v
  {
    Pow2Add(n, 9);
  }

  ghost predicate IsLeastPow2(r: nat, size: nat, h: nat) {
    && r == Pow2(h)
    && size <= r
    && (h > 0 ==> Pow2(h - 1) < size)
  }

  function Smear(x: nat, n: nat): nat {
    Or(x, Shr(x, n))
  }

  /** x smeared by n, 2n, 4n, ... as long as the distance is less than a word. */
  function SmearFrom(x: nat, n: nat): nat
    requires n > 0
    decreases WORD_BITS - n, x
  {
    if n >= WORD_BITS then x else SmearFrom(Smear(x, n), 2 * n)
  }

  /** next_power_of_2 on 64-bit words, for sizes whose answer fits in a word. */
  function NextPowerOf2(size: nat): nat
    requires 1 <= size <= MAX_POWER
  {
    SmearFrom(size - 1, 1) + 1
  }

  /** The m bits from position h down are ones, and no higher bit is. */
  ghost predicate TopOnes(x: nat, h: nat, m: nat) {
    forall i: nat :: (i > h ==> !Bit(x, i)) && (i <= h && i + m > h ==> Bit(x, i))
  }

  lemma {:induction false} SmearDoubles(x: nat, h: nat, m: nat)
    requires TopOnes(x, h, m)
    ensures TopOnes(Smear(x, m), h, 2 * m)
  {
    forall i: nat
      ensures i > h ==> !Bit(Smear(x, m), i)
      ensures i <= h && i + 2 * m > h ==> Bit(Smear(x, m), i)
    {
      OrBit(x, Shr(x, m), i);
      ShrBit(x, m, i);
      assert i > h ==> !Bit(x, i + m);
      assert i <= h && i + 2 * m > h && i + m <= h ==> Bit(x, i + m);
    }
  }

  lemma {:induction false} SmearFromOnes(x: nat, h: nat, n: nat)
    requires n > 0 && TopOnes(x, h, n)
    ensures TopOnes(SmearFrom(x, n), h, WORD_BITS)
    decreases WORD_BITS - n
  {
    if n >= WORD_BITS {
      forall i: nat
        ensures i > h ==> !Bit(x, i)
        ensures i <= h && i + WORD_BITS > h ==> Bit(x, i)
      {
      }
    } else {
      SmearDoubles(x, h, n);
      SmearFromOnes(Smear(x, n), h, 2 * n);
    }
  }

  lemma HighBitOnes(x: nat)
    requires x > 0
    ensures TopOnes(x, HighBit(x), 1)
  {
    var h := HighBit(x);
    forall i: nat
      ensures i > h ==> !Bit(x, i)
      ensures i <= h && i + 1 > h ==> Bit(x, i)
    {
      if i > h {
        NoBitAbove(x, h + 1, i);
      }
    }
  }

  lemma SmearedValue(x: nat)
    requires x > 0 && HighBit(x) < WORD_BITS
    ensures SmearFrom(x, 1) == Pow2(HighBit(x) + 1) - 1
  {
    HighBitOnes(x);
    SmearFromOnes(x, HighBit(x), 1);
    AllOnes(SmearFrom(x, 1), HighBit(x) + 1);
  }

  lemma WordBits(x: nat)
    requires 0 < x < MAX_POWER
    ensures HighBit(x) < 63
  {
    MaxPower();
  }

  /** The bit smearing computes the least power of two that is at least the size. */
  lemma {:induction false} NextPowerOf2Least(size: nat) returns (h: nat)
    requires 1 <= size <= MAX_POWER
    ensures h < WORD_BITS && IsLeastPow2(NextPowerOf2(size), size, h)
  {
    if size == 1 {
      ZeroSmears(1);
      h := 0;
    } else {
      h := HighBit(size - 1) + 1;
      WordBits(size - 1);
      SmearedValue(size - 1);
    }
  }

  lemma {:induction false} ZeroSmears(n: nat)
    requires n > 0
    ensures SmearFrom(0, n) == 0
    decreases WORD_BITS - n
  {
    if n < WORD_BITS {
      ShrZero(n);
      ZeroSmears(2 * n);
    }
  }

  lemma ShrZero(n: nat)
    ensures Smear(0, n) == 0
  {
    if n > 0 {
      ShrZero(n - 1);
    }
  }

  lemma SixSteps(a: nat, b: nat, c: nat, d: nat, e: nat, f: nat, g: nat)
    requires b == Smear(a, 1) && c == Smear(b, 2) && d == Smear(c, 4)
    requires e == Smear(d, 8) && f == Smear(e, 16) && g == Smear(f, 32)
    ensures SmearFrom(a, 1) == g
  {
    assert SmearFrom(g, 64) == g;
    assert SmearFrom(f, 32) == g;
    assert SmearFrom(e, 16) == g;
    assert SmearFrom(d, 8) == g;
    assert SmearFrom(c, 4) == g;
    assert SmearFrom(b, 2) == g;
  }

  /** The six statements between the two that take and add one. */
  method SmearInPlace(x: nat) returns (r: nat)
    ensures r == SmearFrom(x, 1)
  {
    r := x;
    ghost var a := r;
    r := Or(r, Shr(r, 1));
    ghost var b := r;
    r := Or(r, Shr(r, 2));
    ghost var c := r;
    r := Or(r, Shr(r, 4));
    ghost var d := r;
    r := Or(r, Shr(r, 8));
    ghost var e := r;
    r := Or(r, Shr(r, 16));
    ghost var f := r;
    r := Or(r, Shr(r, 32));
    SixSteps(a, b, c, d, e, f, r);
  }

  /** For a size beyond the largest power of two all 64 bits get set. */
  lemma HugeSmears(x: nat)
    requires MAX_POWER <= x < TWO_64
    ensures SmearFrom(x, 1) == TWO_64 - 1
  {
    MaxPower();
    assert Pow2(64) == 2 * Pow2(63);
    var h := HighBit(x);
    if h < 63 {
      Pow2Mono(h + 1, 63);
    } else if h > 63 {
      Pow2Mono(64, h);
    }
    SmearedValue(x);
  }

  /** next_power_of_2, which updates one variable; beyond the largest power of two the word wraps to 0. */
  method RoundUp(size: nat) returns (r: nat, ghost h: nat)
    requires 1 <= size < TWO_64
    ensures size <= MAX_POWER ==> IsLeastPow2(r, size, h) && r >= size
    ensures size > MAX_POWER ==> r == 0
  {
    r := SmearInPlace(size - 1);
    h := 0;
    if size > MAX_POWER {
      HugeSmears(size - 1);
    } else {
      h := NextPowerOf2Least(size);
      NoWrap(h, size);
    }
    r := if r == TWO_64 - 1 then 0 else r + 1;
  }

  lemma NoWrap(h: nat, size: nat)
    requires 1 <= size <= MAX_POWER && h < WORD_BITS && IsLeastPow2(NextPowerOf2(size), size, h)
    ensures SmearFrom(size - 1, 1) + 1 == NextPowerOf2(size) <= MAX_POWER
  {
    MaxPower();
    Pow2Mono(h, 63);
  }

  /** size - 1 on 64-bit words. */
  function OneLess(size: nat): nat {
    if size == 0 then TWO_64 - 1 else size - 1
  }

  /** get_order counts how often size - 1 can be halved before it is 0 or 1. */
  method GetOrder(size: nat) returns (order: nat)
    ensures OneLess(size) > 0 ==> Pow2(order) <= OneLess(size) < Pow2(order + 1)
    ensures OneLess(size) == 0 ==> order == 0
  {
    order := 0;
    var x := OneLess(size);
    var s: nat := x / 2;
    while s != 0
      invariant x > 0 ==> HighBit(x) == order + (if s == 0 then 0 else HighBit(s) + 1)
      invariant x == 0 ==> order == 0 && s == 0
    {
      order := order + 1;
      s := s / 2;
    }
  }

  /** The order of a request that has wrapped to 0 is past every list. */
  lemma HugeOrder(order: nat)
    requires Pow2(order) <= TWO_64 - 1 < Pow2(order + 1)
    ensures order >= 63
  {
    MaxPower();
    if order < 63 {
      Pow2Mono(order + 1, 63);
    }
  }

  /** A block of Pow2(level) bytes belongs to the list with index level - 1. */
  lemma OrderOfLevel(order: nat, level: nat)
    requires level >= 1 && Pow2(order) <= Pow2(level) - 1 < Pow2(order + 1)
    ensures order == level - 1
  {
    if order >= level {
      Pow2Mono(level, order);
    } else if order + 1 < level {
      Pow2Mono(order + 1, level);
    }
  }
}
