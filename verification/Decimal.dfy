/**
 itoa and satoi.  Strings are arrays of character codes ended by a NUL; an int
 has 32 bits, and negating the least one gives it back.
 */
module Decimal {
  import opened Words

  const INT_MIN: int := -0x8000_0000
  const INT_MAX: int := 0x7FFF_FFFF

  const NUL: int := 0
  const MINUS: int := 45
  const ZERO: int := 48
  const NINE: int := 57
  const LOWER_A: int := 97

  /** Division of unsigned numbers, by repeated subtraction. */
  function DivBy(n: nat, base: nat): (q: nat)
    requires base >= 2
    ensures q <= n && (n > 0 ==> q < n)
  {
    if n < base then 0 else 1 + DivBy(n - base, base)
  }

  function ModBy(n: nat, base: nat): (r: nat)
    requires base >= 2
    ensures r < base
  {
    if n < base then n else ModBy(n - base, base)
  }

  lemma OneLess(q: nat, base: nat)
    requires q > 0
    ensures q * base == (q - 1) * base + base && (q - 1) * base >= 0
  {
  }

  lemma {:induction false} DivModUnique(n: nat, base: nat, q: nat, r: nat)
    requires base >= 2 && r < base && n == q * base + r
    ensures DivBy(n, base) == q && ModBy(n, base) == r
    decreases q
  {
    if q == 0 {
      assert q * base == 0;
    } else {
      OneLess(q, base);
      DivModUnique(n - base, base, q - 1, r);
    }
  }

  /** They are the machine's quotient and remainder. */
  lemma DivModIsDivision(n: nat, base: nat)
    requires base >= 2
    ensures DivBy(n, base) == n / base && ModBy(n, base) == n % base
  {
    DivModUnique(n, base, n / base, n % base);
  }

  lemma {:induction false} DivModSum(n: nat, base: nat)
    requires base >= 2
    ensures n == DivBy(n, base) * base + ModBy(n, base)
    decreases n
  {
    if n < base {
      assert DivBy(n, base) * base == 0;
    } else {
      DivModSum(n - base, base);
      OneLess(DivBy(n, base), base);
    }
  }

  lemma DivModTen(n: nat)
    ensures n == 10 * DivBy(n, 10) + ModBy(n, 10)
  {
    DivModSum(n, 10);
  }

  /** Division and remainder as C has them: the quotient is cut toward zero. */
  function Quot(n: int, base: nat): int
    requires base >= 2
  {
    if n >= 0 then DivBy(n, base) else 0 - DivBy(-n, base)
  }

  function Rem(n: int, base: nat): int
    requires base >= 2
  {
    if n >= 0 then ModBy(n, base) else 0 - ModBy(-n, base)
  }

  function Abs(n: int): nat {
    if n < 0 then -n else n
  }

  function Negate32(n: int): int {
    if n == INT_MIN then n else -n
  }

  // ---- what itoa writes ----

  function Digit(rem: int): int {
    if rem > 9 then rem - 10 + LOWER_A else rem + ZERO
  }

  /** The digits of n, the last one first. */
  function Digits(n: int, base: nat): (s: seq<int>)
    requires base >= 2
    ensures n != 0 ==> |s| > 0
    decreases Abs(n)
  {
    if n == 0 then [] else [Digit(Rem(n, base))] + Digits(Quot(n, base), base)
  }

  function Reversed(s: seq<int>): (r: seq<int>)
    ensures |r| == |s| && forall k {:trigger r[k]} | 0 <= k < |s| :: r[k] == s[|s| - 1 - k]
    decreases |s|
  {
    if s == [] then [] else Reversed(s[1..]) + [s[0]]
  }

  /** What stands in the buffer before it is turned around. */
  function Backwards(n: int, base: nat): seq<int>
    requires base >= 2
  {
    if n < 0 && base == 10 then Digits(Negate32(n), base) + [MINUS] else Digits(n, base)
  }

  /** The text of n. */
  function Text(n: int, base: nat): seq<int>
    requires base >= 2
  {
    if n == 0 then [ZERO] else Reversed(Backwards(n, base))
  }

  // ---- what satoi reads ----

  predicate IsDigit(c: int) {
    ZERO <= c <= NINE
  }

  ghost predicate AllDigits(s: seq<int>) {
    forall k {:trigger s[k]} | 0 <= k < |s| :: IsDigit(s[k])
  }

  /** res after the digits of s. */
  function Value(s: seq<int>): int
    decreases |s|
  {
    if s == [] then 0 else Int64(Value(s[..|s| - 1]) * 10 + s[|s| - 1] - ZERO)
  }

  ghost function Parsed(s: seq<int>): int {
    if s != [] && s[0] == MINUS then
      if AllDigits(s[1..]) then Int64(Value(s[1..]) * -1) else 0
    else if AllDigits(s) then Value(s) else 0
  }

  // ---- what any text means ----

  function Pow10(k: nat): nat {
    if k == 0 then 1 else 10 * Pow10(k - 1)
  }

  /** The number a row of digits stands for, whatever its length. */
  function Positional(s: seq<int>): int
    decreases |s|
  {
    if s == [] then 0 else (s[0] - ZERO) * Pow10(|s| - 1) + Positional(s[1..])
  }

  lemma {:induction false} PositionalLast(s: seq<int>)
    requires s != []
    ensures Positional(s) == Positional(s[..|s| - 1]) * 10 + s[|s| - 1] - ZERO
    decreases |s|
  {
    var t := s[1..];
    if |s| == 1 {
      assert Positional(t) == 0 && s[..0] == [] && Pow10(0) == 1;
    } else {
      PositionalLast(t);
      var u := s[..|s| - 1];
      assert u[1..] == t[..|t| - 1];
      TenTimes(s[0] - ZERO, Pow10(|s| - 2), Pow10(|s| - 1));
    }
  }

  lemma TenTimes(d: int, a: int, b: int)
    requires b == 10 * a
    ensures d * b == (d * a) * 10
  {
  }

  lemma {:induction false} ValueIsPositional(s: seq<int>)
    ensures Value(s) == Int64(Positional(s))
    decreases |s|
  {
    if s != [] {
      ValueIsPositional(s[..|s| - 1]);
      PositionalLast(s);
      Int64Times(Positional(s[..|s| - 1]), 10, s[|s| - 1] - ZERO);
    }
  }

  /**
   satoi of any text: with anything but digits behind the sign it is 0, and
   otherwise the number the text stands for, to 64 bits.
   */
  lemma ParsesNumerals(s: seq<int>)
    ensures var negative := s != [] && s[0] == MINUS;
            var digits := if negative then s[1..] else s;
            && (forall k | 0 <= k < |digits| && (digits[k] < ZERO || digits[k] > NINE) :: Parsed(s) == 0)
            && ((forall k | 0 <= k < |digits| :: ZERO <= digits[k] <= NINE) ==>
                  Parsed(s) == Int64(if negative then -Positional(digits) else Positional(digits)))
  {
    var negative := s != [] && s[0] == MINUS;
    var digits := if negative then s[1..] else s;
    ValueIsPositional(digits);
    Int64Times(Positional(digits), -1, 0);
  }

  // ---- the round trip ----

  /** The text of n is the text of its tenth and one more digit. */
  lemma LastDigit(n: int)
    requires n > 0
    ensures Reversed(Digits(n, 10)) == Reversed(Digits(DivBy(n, 10), 10)) + [ModBy(n, 10) + ZERO]
  {
    LastDigitInBase(n, 10);
  }

  lemma {:induction false} DigitsAreDigits(n: int)
    requires n >= 0
    ensures AllDigits(Reversed(Digits(n, 10)))
    decreases n
  {
    if n > 0 {
      LastDigit(n);
      DigitsAreDigits(DivBy(n, 10));
    }
  }

  lemma {:induction false} DigitsParse(n: int)
    requires 0 <= n <= INT_MAX
    ensures Value(Reversed(Digits(n, 10))) == n
    decreases n
  {
    if n > 0 {
      LastDigit(n);
      DivModTen(n);
      DigitsParse(DivBy(n, 10));
    }
  }

  /** The digits of a negative number: the first one of the text is below '0'. */
  lemma {:induction false} NegativeDigit(n: int)
    requires n < 0
    ensures var d := Digits(n, 10); d[|d| - 1] < ZERO
    decreases -n
  {
    if Quot(n, 10) != 0 {
      NegativeDigit(Quot(n, 10));
    }
  }

  lemma TextOfNegative(n: int)
    requires n < 0
    ensures Text(n, 10) == [MINUS] + Reversed(Digits(Negate32(n), 10))
  {
    var d := Digits(Negate32(n), 10);
    var b := d + [MINUS];
    var r, t := Reversed(b), [MINUS] + Reversed(d);
    assert forall k | 0 <= k < |b| :: r[k] == t[k];
  }

  lemma ZeroText()
    ensures Parsed(Text(0, 10)) == 0
  {
    var t := Text(0, 10);
    assert |t| == 1 && t[0] == ZERO && t[..0] == [];
    assert Value(t) == Int64(Value(t[..0]) * 10 + t[0] - ZERO);
  }

  lemma PositiveText(n: int)
    requires 0 < n <= INT_MAX
    ensures Parsed(Text(n, 10)) == n
  {
    DigitsParse(n);
    DigitsAreDigits(n);
    assert IsDigit(Text(n, 10)[0]);
  }

  lemma NegativeText(n: int)
    requires INT_MIN < n < 0
    ensures Parsed(Text(n, 10)) == n
  {
    var m := Negate32(n);
    TextOfNegative(n);
    DigitsParse(m);
    DigitsAreDigits(m);
  }

  /** The least int has no opposite: its digits come out as other characters, and satoi gives 0. */
  lemma LeastText()
    ensures Parsed(Text(INT_MIN, 10)) == 0
  {
    TextOfNegative(INT_MIN);
    NegativeDigit(INT_MIN);
    var r := Text(INT_MIN, 10)[1..];
    assert r == Reversed(Digits(INT_MIN, 10));
    assert !IsDigit(r[0]);
  }

  /** Reading back what was written gives the number again, for every int but the least. */
  lemma RoundTrip(n: int)
    requires INT_MIN <= n <= INT_MAX
    ensures Parsed(Text(n, 10)) == n <==> n != INT_MIN
  {
    if n == 0 {
      ZeroText();
    } else if n > 0 {
      PositiveText(n);
    } else if n == INT_MIN {
      LeastText();
    } else {
      NegativeText(n);
    }
  }

  // ---- other bases ----

  /** What a digit is worth; a stands for ten. */
  function Worth(c: int): int {
    if c <= NINE then c - ZERO else c - LOWER_A + 10
  }

  /** The number digits stand for in some base. */
  function InBase(s: seq<int>, base: nat): int
    decreases |s|
  {
    if s == [] then 0 else InBase(s[..|s| - 1], base) * base + Worth(s[|s| - 1])
  }

  lemma LastDigitInBase(n: nat, base: nat)
    requires n > 0 && base >= 2
    ensures Reversed(Digits(n, base)) == Reversed(Digits(DivBy(n, base), base)) + [Digit(ModBy(n, base))]
  {
    var d := Digits(n, base);
    assert d[0] == Digit(ModBy(n, base)) && d[1..] == Digits(DivBy(n, base), base);
  }

  lemma InBaseStep(s: seq<int>, n: nat, q: nat, r: nat, base: nat)
    requires InBase(s, base) == q && n == q * base + r
    ensures InBase(s + [Digit(r)], base) == n
  {
    assert (s + [Digit(r)])[..|s|] == s;
  }

  /** In every base the digits of a number, turned around, stand for it. */
  lemma {:induction false} DigitsInBase(n: nat, base: nat)
    requires base >= 2
    ensures InBase(Reversed(Digits(n, base)), base) == n
    decreases n
  {
    if n > 0 {
      var q := DivBy(n, base);
      DivModSum(n, base);
      LastDigitInBase(n, base);
      DigitsInBase(q, base);
      InBaseStep(Reversed(Digits(q, base)), n, q, ModBy(n, base), base);
    }
  }

  /** And each of them is worth less than the base. */
  lemma {:induction false} DigitsBelowBase(n: nat, base: nat, k: nat)
    requires base >= 2 && k < |Digits(n, base)|
    ensures 0 <= Worth(Digits(n, base)[k]) < base
    decreases k
  {
    if k > 0 {
      DigitsBelowBase(DivBy(n, base), base, k - 1);
    }
  }

  /** Without its sign, a negative number has the same digits counted down from 0: characters that are no digits. */
  lemma {:induction false} DigitsOfNegative(n: nat, base: nat, k: nat)
    requires base >= 2
    ensures |Digits(0 - n, base)| == |Digits(n, base)|
    ensures k < |Digits(n, base)| ==> Digits(0 - n, base)[k] == ZERO - Worth(Digits(n, base)[k])
    decreases n
  {
    if n > 0 {
      var q: int := DivBy(n, base);
      DigitsOfNegative(q, base, if k > 0 then k - 1 else 0);
      assert Digits(n, base) == [Digit(ModBy(n, base))] + Digits(q, base);
      assert Digits(0 - n, base) == [Digit(0 - ModBy(n, base))] + Digits(0 - q, base);
    }
  }

  // ---- the text as a C string ----

  /** No character ends the text early. */
  ghost predicate NoNul(s: seq<int>) {
    forall k {:trigger s[k]} | 0 <= k < |s| :: s[k] != NUL
  }

  lemma {:induction false} DigitsHaveNoNul(n: int)
    ensures NoNul(Digits(n, 10))
    decreases Abs(n)
  {
    if n != 0 {
      DigitsHaveNoNul(Quot(n, 10));
    }
  }

  lemma TurnedHasNoNul(s: seq<int>)
    requires NoNul(s)
    ensures NoNul(Reversed(s))
  {
  }

  lemma TextHasNoNul(n: int)
    ensures NoNul(Text(n, 10))
  {
    DigitsHaveNoNul(n);
    DigitsHaveNoNul(Negate32(n));
    TurnedHasNoNul(Backwards(n, 10));
  }

  lemma {:induction false} DigitsFit(n: int, k: nat)
    requires Abs(n) < Pow10(k)
    ensures |Digits(n, 10)| <= k
    decreases k
  {
    if n != 0 && k > 0 {
      DivModTen(Abs(n));
      DigitsFit(Quot(n, 10), k - 1);
    }
  }

  /** A sign and ten digits are enough. */
  lemma TextFits(n: int)
    requires INT_MIN <= n <= INT_MAX
    ensures |Text(n, 10)| <= 11
  {
    assert Pow10(5) == 10_0000;
    assert Pow10(10) == 100_0000_0000;
    DigitsFit(n, 10);
    DigitsFit(Negate32(n), 10);
  }

  // ---- the code ----

  /** The first loop of itoa, from position i of str on. */
  method PutDigits(n: int, str: array<int>, base: nat) returns (i: nat)
    requires base >= 2 && |Digits(n, base)| <= str.Length
    modifies str
    ensures i == |Digits(n, base)| && str[..i] == Digits(n, base)
  {
    var num := n;
    i := 0;
    while num != 0
      invariant i <= str.Length && str[..i] + Digits(num, base) == Digits(n, base)
      decreases Abs(num)
    {
      var rem := Rem(num, base);
      ghost var rest := Digits(num, base);
      ghost var front := str[..i];
      assert rest == [Digit(rem)] + Digits(Quot(num, base), base);
      str[i] := if rem > 9 then rem - 10 + LOWER_A else rem + ZERO;
      i := i + 1;
      assert str[..i] == front + [Digit(rem)];
      num := Quot(num, base);
    }
  }

  /** The last loop of itoa: the first n characters are turned around. */
  method TurnAround(str: array<int>, n: nat)
    requires n <= str.Length
    modifies str
    ensures str[..n] == Reversed(old(str[..n]))
    ensures forall k | n <= k < str.Length :: str[k] == old(str[k])
  {
    var start, end := 0, n - 1;
    while start < end
      invariant 0 <= start <= n && end == n - 1 - start && start <= end + 1
      invariant forall k {:trigger str[k]} | 0 <= k < start || end < k < n :: str[k] == old(str[n - 1 - k])
      invariant forall k {:trigger str[k]} | start <= k <= end || n <= k < str.Length :: str[k] == old(str[k])
    {
      str[start], str[end] := str[end], str[start];
      start := start + 1;
      end := end - 1;
    }
    ghost var was := old(str[..n]);
    ghost var r := Reversed(was);
    forall k | 0 <= k < n ensures str[k] == r[k] {
    }
  }

  /** The digits and the sign, as they stand before the turn. */
  method PutBackwards(num: int, str: array<int>, base: nat) returns (i: nat)
    requires base >= 2 && |Backwards(num, base)| <= str.Length
    modifies str
    ensures i == |Backwards(num, base)| && str[..i] == Backwards(num, base)
  {
    var isNegative := num < 0 && base == 10;
    i := PutDigits(if isNegative then Negate32(num) else num, str, base);
    if isNegative {
      str[i] := MINUS;
      i := i + 1;
    }
  }

  /** itoa, into a buffer with room for the text and its NUL. */
  method Itoa(num: int, str: array<int>, base: nat)
    requires INT_MIN <= num <= INT_MAX && base >= 2
    requires |Text(num, base)| < str.Length
    modifies str
    ensures str[..|Text(num, base)|] == Text(num, base) && str[|Text(num, base)|] == NUL
  {
    if num == 0 {
      str[0], str[1] := ZERO, NUL;
      return;
    }
    var i := PutBackwards(num, str, base);
    str[i] := NUL;
    TurnAround(str, i);
  }

  /** satoi of a string that ends at position n. */
  method Satoi(str: array?<int>, ghost n: nat) returns (res: int)
    requires str != null ==> n < str.Length && str[n] == NUL && forall k | 0 <= k < n :: str[k] != NUL
    ensures res == if str == null then 0 else Parsed(str[..n])
  {
    if str == null {
      return 0;
    }
    var i, sign := 0, 1;
    res := 0;
    if str[i] == MINUS {
      i := 1;
      sign := -1;
    }
    ghost var first := i;
    while str[i] != NUL
      invariant first <= i <= n
      invariant AllDigits(str[first..i]) && res == Value(str[first..i])
      decreases n - i
    {
      if str[i] < ZERO || str[i] > NINE {
        assert !IsDigit(str[first..n][i - first]);
        return 0;
      }
      ghost var s := str[first..i + 1];
      assert s[..|s| - 1] == str[first..i];
      res := Int64(res * 10 + str[i] - ZERO);
      i := i + 1;
    }
    assert i == n;
    res := Int64(res * sign);
  }

  /** A number printed into a buffer of 20 characters, as the callers have it, and read back. */
  method PrintAndParse(n: int) returns (r: int)
    requires INT_MIN <= n <= INT_MAX
    ensures r == n <==> n != INT_MIN
  {
    var buffer := new int[20];
    TextFits(n);
    Itoa(n, buffer, 10);
    ghost var text := Text(n, 10);
    TextHasNoNul(n);
    assert forall k {:trigger buffer[k]} | 0 <= k < |text| :: buffer[k] == text[k];
    r := Satoi(buffer, |text|);
    RoundTrip(n);
  }
}
