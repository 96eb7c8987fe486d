/**
 Powers of two, and the bit operations the kernel applies to sizes and
 offsets, defined on natural numbers.
 */
module Bits {

  function Pow2(n: nat): (r: nat)
    ensures r >= 1
  {
    if n == 0 then 1 else 2 * Pow2(n - 1)
  }

  lemma Pow2Mono(m: nat, n: nat)
    requires m <= n
    ensures Pow2(m) <= Pow2(n)
    ensures m < n ==> 2 * Pow2(m) <= Pow2(n)
  {
    if m < n {
      Pow2Mono(m, n - 1);
    }
  }

  lemma Pow2Injective(m: nat, n: nat)
    requires Pow2(m) == Pow2(n)
    ensures m == n
  {
    if m < n {
      Pow2Mono(m, n);
    } else if n < m {
      Pow2Mono(n, m);
    }
  }

  lemma Pow2Add(m: nat, n: nat)
    ensures Pow2(m + n) == Pow2(m) * Pow2(n)
  {
    if m > 0 {
      Pow2Add(m - 1, n);
      assert Pow2(m + n) == 2 * Pow2(m - 1 + n);
    }
  }

  // ---- alignment ----

  /** a is a multiple of Pow2(k). */
  predicate Aligned(a: nat, k: nat)
    decreases k
  {
    k == 0 || (a % 2 == 0 && Aligned(a / 2, k - 1))
  }

  lemma {:induction false} AlignedSum(a: nat, b: nat, k: nat)
    requires Aligned(a, k) && Aligned(b, k)
    ensures Aligned(a + b, k)
    decreases k
  {
    if k > 0 {
      AlignedSum(a / 2, b / 2, k - 1);
      assert (a + b) / 2 == a / 2 + b / 2;
    }
  }

  lemma {:induction false} AlignedDifference(a: nat, b: nat, k: nat)
    requires Aligned(a, k) && Aligned(b, k) && b <= a
    ensures Aligned(a - b, k)
    decreases k
  {
    if k > 0 {
      AlignedDifference(a / 2, b / 2, k - 1);
      assert (a - b) / 2 == a / 2 - b / 2;
    }
  }

  lemma {:induction false} AlignedDown(a: nat, m: nat, n: nat)
    requires m <= n && Aligned(a, n)
    ensures Aligned(a, m)
    decreases m
  {
    if m > 0 {
      AlignedDown(a / 2, m - 1, n - 1);
    }
  }

  lemma {:induction false} Pow2Aligned(m: nat, n: nat)
    requires m <= n
    ensures Aligned(Pow2(n), m)
    decreases m
  {
    if m > 0 {
      Pow2Aligned(m - 1, n - 1);
    }
  }

  lemma {:induction false} ZeroAligned(k: nat)
    ensures Aligned(0, k)
  {
    if k > 0 {
      ZeroAligned(k - 1);
    }
  }

  /** Two multiples of Pow2(k) less than Pow2(k) apart are equal. */
  lemma {:induction false} AlignedClose(a: nat, b: nat, k: nat)
    requires Aligned(a, k) && Aligned(b, k)
    requires a <= b < a + Pow2(k)
    ensures a == b
    decreases k
  {
    if k > 0 {
      AlignedClose(a / 2, b / 2, k - 1);
    }
  }

  /** Of a and a + Pow2(k), as of a and a - Pow2(k), exactly one is a multiple of Pow2(k + 1). */
  lemma {:induction false} HalfCell(a: nat, k: nat)
    requires Aligned(a, k)
    ensures Aligned(a, k + 1) <==> !Aligned(a + Pow2(k), k + 1)
    ensures !Aligned(a, k + 1) ==> a >= Pow2(k) && Aligned(a - Pow2(k), k + 1)
    decreases k
  {
    if k > 0 {
      HalfCell(a / 2, k - 1);
      assert (a + Pow2(k)) / 2 == a / 2 + Pow2(k - 1);
      if a >= Pow2(k) {
        assert (a - Pow2(k)) / 2 == a / 2 - Pow2(k - 1);
      }
    }
  }

  // ---- bitwise operators ----

  function And(a: nat, b: nat): nat
    decreases a
  {
    if a == 0 || b == 0 then 0
    else 2 * And(a / 2, b / 2) + (if a % 2 == 1 && b % 2 == 1 then 1 else 0)
  }

  function Or(a: nat, b: nat): nat
    decreases a
  {
    if a == 0 then b
    else if b == 0 then a
    else 2 * Or(a / 2, b / 2) + (if a % 2 == 1 || b % 2 == 1 then 1 else 0)
  }

  /** a >> n */
  function Shr(a: nat, n: nat): nat
    decreases n, a
  {
    if n == 0 then a else Shr(a / 2, n - 1)
  }

  predicate Bit(a: nat, i: nat)
    decreases i
  {
    if i == 0 then a % 2 == 1 else Bit(a / 2, i - 1)
  }

  /** Testing the low k bits against a mask tests for a multiple of Pow2(k). */
  lemma {:induction false} MaskTestsAlignment(a: nat, k: nat)
    ensures And(a, Pow2(k) - 1) == 0 <==> Aligned(a, k)
  {
    if a == 0 {
      ZeroAligned(k);
    } else if k > 0 {
      MaskTestsAlignment(a / 2, k - 1);
      assert (Pow2(k) - 1) / 2 == Pow2(k - 1) - 1;
    }
  }

  lemma OrStep(a: nat, b: nat)
    ensures Or(a, b) / 2 == Or(a / 2, b / 2)
    ensures Or(a, b) % 2 == 1 <==> a % 2 == 1 || b % 2 == 1
  {
    if a == 0 || b == 0 {
    } else {
      var x := Or(a / 2, b / 2);
      assert Or(a, b) == 2 * x + (if a % 2 == 1 || b % 2 == 1 then 1 else 0);
    }
  }

  lemma {:induction false} OrBit(a: nat, b: nat, i: nat)
    ensures Bit(Or(a, b), i) <==> Bit(a, i) || Bit(b, i)
    decreases i
  {
    OrStep(a, b);
    if i > 0 {
      OrBit(a / 2, b / 2, i - 1);
    }
  }

  lemma ZeroBit(i: nat)
    ensures !Bit(0, i)
  {
    if i > 0 {
      ZeroBit(i - 1);
    }
  }

  lemma {:induction false} ShrBit(a: nat, n: nat, i: nat)
    ensures Bit(Shr(a, n), i) <==> Bit(a, i + n)
    decreases n
  {
    if n > 0 {
      ShrBit(a / 2, n - 1, i);
    }
  }

  /** The position of the highest one bit of a positive number. */
  function HighBit(a: nat): (h: nat)
    requires a > 0
    ensures Pow2(h) <= a < Pow2(h + 1)
    ensures Bit(a, h)
  {
    if a == 1 then 0 else HighBit(a / 2) + 1
  }

  lemma {:induction false} NoBitAbove(a: nat, h: nat, i: nat)
    requires a < Pow2(h) && h <= i
    ensures !Bit(a, i)
    decreases h
  {
    if h == 0 {
      ZeroBit(i);
    } else {
      NoBitAbove(a / 2, h - 1, i - 1);
    }
  }

  lemma SomeBit(a: nat)
    ensures a > 0 ==> exists i: nat :: Bit(a, i)
  {
    if a > 0 {
      assert Bit(a, HighBit(a));
    }
  }

  lemma {:induction false} AllOnes(a: nat, h: nat)
    requires forall i: nat :: Bit(a, i) <==> i < h
    ensures a == Pow2(h) - 1
    decreases h
  {
    if h == 0 {
      SomeBit(a);
    } else {
      forall i: nat
        ensures Bit(a / 2, i) <==> i < h - 1
      {
        assert Bit(a, i + 1) == Bit(a / 2, i);
      }
      AllOnes(a / 2, h - 1);
      assert Bit(a, 0);
    }
  }
}
