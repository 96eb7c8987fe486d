/** Machine integers: the ranges of 32- and 64-bit words, and how values wrap. */
module Words {

  const TWO_31: int := 0x8000_0000
  const TWO_32: int := 0x1_0000_0000
  const TWO_63: int := 0x8000_0000_0000_0000
  const TWO_64: int := 0x1_0000_0000_0000_0000

  /** An unsigned 64-bit word. */
  type Word = x: int | 0 <= x < TWO_64

  /** Unsigned subtraction and addition. */
  function Minus(x: Word, y: Word): (r: Word)
    ensures r == (x - y) % TWO_64
  {
    if x >= y then x - y else x - y + TWO_64
  }

  function Plus(x: Word, y: Word): (r: Word)
    ensures r == (x + y) % TWO_64
  {
    if x + y < TWO_64 then x + y else x + y - TWO_64
  }

  /** The int with the same low 32 bits. */
  function Int32(x: int): int {
    var r := x % TWO_32;
    if r < TWO_31 then r else r - TWO_32
  }

  /** The int64_t with the same low 64 bits. */
  function Int64(x: int): int {
    if -TWO_63 <= x < TWO_63 then x else Wrapped(x)
  }

  function Wrapped(x: int): int {
    var r := x % TWO_64;
    if r < TWO_63 then r else r - TWO_64
  }

  /** The uint64_t with the same low 64 bits. */
  function UInt64(x: int): int {
    x % TWO_64
  }

  // ---- wrapping and arithmetic ----

  /** Adding remainders is adding, up to the modulus. */
  lemma ModSum(a: int, b: int)
    ensures (a % TWO_64 + b % TWO_64) % TWO_64 == (a + b) % TWO_64
  {
    var x, y := a / TWO_64, b / TWO_64;
    var r := a % TWO_64 + b % TWO_64;
    assert a + b == (x + y) * TWO_64 + r;
    ModShift(r, x + y);
  }

  lemma {:induction false} ModShift(r: int, k: int)
    ensures (k * TWO_64 + r) % TWO_64 == r % TWO_64
    decreases if k < 0 then -k else k
  {
    if k > 0 {
      ModShift(r, k - 1);
    } else if k < 0 {
      ModShift(r, k + 1);
    }
  }

  lemma Int64IsCongruent(t: int)
    ensures Int64(t) % TWO_64 == t % TWO_64
  {
  }

  lemma Int64OfMod(t: int)
    ensures Int64(t % TWO_64) == Int64(t)
  {
  }

  /** Whole turns of 2^64 do not matter. */
  lemma Int64Turns(x: int, m: int)
    ensures Int64(x + m * TWO_64) == Int64(x)
  {
    ModShift(x, m);
    Int64OfMod(x);
    Int64OfMod(x + m * TWO_64);
  }

  /** Wrapping a factor early does not matter. */
  lemma Int64Times(x: int, k: int, d: int)
    ensures Int64(Int64(x) * k + d) == Int64(x * k + d)
  {
    Int64IsCongruent(x);
    var y := Int64(x);
    var m := y / TWO_64 - x / TWO_64;
    assert y == x + m * TWO_64;
    assert (x + m * TWO_64) * k == x * k + (m * TWO_64) * k;
    assert (m * TWO_64) * k == (m * k) * TWO_64;
    Int64Turns(x * k + d, m * k);
  }
}
