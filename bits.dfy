// Bitwise operations on non-negative arbitrary-precision integers: `<<`,
// `>>`, `|` and `&`. The generator applies `<<` and `|` to BigInt values.
// Its one `&` (src/snow-flake-id.js:95) is a JavaScript Number operation on
// 32-bit two's-complement integers, and `BitAnd` agrees with it there because
// both operands, sequence + 1 <= 4096 and 4095, are non-negative and below 2^31.

module Bits {

  /** 2 to the power n. */
  function Pow2(n: nat): (r: nat)
    ensures r >= 1
  {
    if n == 0 then 1 else 2 * Pow2(n - 1)
  }

  /** `x << n` on a non-negative BigInt: append n zero bits, one at a time. */
  function ShiftLeft(x: nat, n: nat): (r: nat)
  {
    if n == 0 then x else 2 * ShiftLeft(x, n - 1)
  }

  /** `x >> n` on a non-negative BigInt: drop the n low bits, one at a time. */
  function ShiftRight(x: nat, n: nat): (r: nat)
  {
    if n == 0 then x else ShiftRight(x / 2, n - 1)
  }

  /** Bitwise OR, bit by bit from the least significant end. It is at least
      each operand and at most their sum. */
  function BitOr(a: nat, b: nat): (r: nat)
    ensures a <= r && b <= r && r <= a + b
    decreases a + b
  {
    if a == 0 && b == 0 then 0
    else 2 * BitOr(a / 2, b / 2) + (if a % 2 == 1 || b % 2 == 1 then 1 else 0)
  }

  /** Bitwise AND, bit by bit from the least significant end. */
  function BitAnd(a: nat, b: nat): (r: nat)
    decreases a + b
  {
    if a == 0 && b == 0 then 0
    else 2 * BitAnd(a / 2, b / 2) + (if a % 2 == 1 && b % 2 == 1 then 1 else 0)
  }

  /** A positive multiple of d is at least d. */
  lemma {:induction false} MulAtLeast(d: nat, n: nat)
    requires n >= 1
    ensures d * n >= d
  {
    if n > 1 {
      MulAtLeast(d, n - 1);
      assert d * n == d * (n - 1) + d;
    }
  }

  /** The divisor, quotient and remainder of a division determine each other. */
  lemma DivModUnique(x: int, d: int, q: int, r: int)
    requires d > 0 && 0 <= r < d && x == d * q + r
    ensures x / d == q && x % d == r
  {
    var q', r' := x / d, x % d;
    assert x == d * q' + r' && 0 <= r' < d;
    if q > q' {
      assert d * q == d * q' + d * (q - q');
      MulAtLeast(d, q - q');
    } else if q < q' {
      assert d * q' == d * q + d * (q' - q);
      MulAtLeast(d, q' - q);
    }
  }

  lemma {:induction false} OrZero(a: nat)
    ensures BitOr(a, 0) == a
  {
    if a != 0 {
      OrZero(a / 2);
    }
  }

  lemma {:induction false} AndZero(a: nat)
    ensures BitAnd(a, 0) == 0
  {
    if a != 0 {
      AndZero(a / 2);
    }
  }

  /** A left shift by k bits multiplies by 2^k. */
  lemma {:induction false} ShiftLeftIsMul(x: nat, k: nat)
    ensures ShiftLeft(x, k) == x * Pow2(k)
  {
    if k > 0 {
      var p := Pow2(k - 1);
      ShiftLeftIsMul(x, k - 1);
      assert x * (p + p) == x * p + x * p;
    }
  }

  /** Two left shifts in a row are one shift by the sum. */
  lemma {:induction false} ShiftLeftAdd(x: nat, a: nat, b: nat)
    ensures ShiftLeft(ShiftLeft(x, a), b) == ShiftLeft(x, a + b)
  {
    if b > 0 {
      ShiftLeftAdd(x, a, b - 1);
    }
  }

  /** OR-ing a value below 2^k into a value shifted left by k bits adds it:
      the two operands have no set bit in common. */
  lemma {:induction false} OrBelowShift(hi: nat, k: nat, lo: nat)
    requires lo < Pow2(k)
    ensures BitOr(ShiftLeft(hi, k), lo) == ShiftLeft(hi, k) + lo
  {
    var a := ShiftLeft(hi, k);
    if k == 0 {
      OrZero(hi);
    } else if a != 0 || lo != 0 {
      assert a / 2 == ShiftLeft(hi, k - 1) && a % 2 == 0;
      OrBelowShift(hi, k - 1, lo / 2);
    }
  }

  /** Doubling both operands doubles their OR. */
  lemma OrDouble(u: nat, v: nat)
    ensures BitOr(2 * u, 2 * v) == 2 * BitOr(u, v)
  {
  }

  /** OR commutes with a common left shift. */
  lemma {:induction false} OrShift(a: nat, b: nat, k: nat)
    ensures BitOr(ShiftLeft(a, k), ShiftLeft(b, k)) == ShiftLeft(BitOr(a, b), k)
  {
    if k > 0 {
      OrDouble(ShiftLeft(a, k - 1), ShiftLeft(b, k - 1));
      OrShift(a, b, k - 1);
    }
  }

  /** Halving first, then dividing by p, is dividing by 2p; the remainder
      modulo 2p is made of the remainder modulo p of the half and the low bit. */
  lemma DivDouble(x: nat, p: nat)
    requires p >= 1
    ensures x / (2 * p) == (x / 2) / p
    ensures x % (2 * p) == 2 * ((x / 2) % p) + x % 2
  {
    var h := x / 2;
    assert x == (2 * p) * (h / p) + (2 * (h % p) + x % 2) by {
      assert x == 2 * h + x % 2;
      assert h == p * (h / p) + h % p;
      assert (2 * p) * (h / p) == 2 * (p * (h / p));
    }
    DivModUnique(x, 2 * p, h / p, 2 * (h % p) + x % 2);
  }

  /** A right shift by k bits divides by 2^k. */
  lemma {:induction false} ShiftRightIsDiv(x: nat, k: nat)
    ensures ShiftRight(x, k) == x / Pow2(k)
  {
    if k > 0 {
      ShiftRightIsDiv(x / 2, k - 1);
      DivDouble(x, Pow2(k - 1));
    }
  }

  /** AND with the mask 2^k - 1 keeps exactly the k low bits. */
  lemma {:induction false} AndLowMask(x: nat, k: nat)
    ensures BitAnd(x, Pow2(k) - 1) == x % Pow2(k)
  {
    if k == 0 {
      AndZero(x);
    } else {
      var p := Pow2(k - 1);
      var m := 2 * p - 1;
      assert m / 2 == p - 1 && m % 2 == 1;
      AndLowMask(x / 2, k - 1);
      assert BitAnd(x, m) == 2 * ((x / 2) % p) + x % 2;
      DivDouble(x, p);
    }
  }
}
