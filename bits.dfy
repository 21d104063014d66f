/** Fixed-width unsigned integers of the AVR target and the bitwise operators the
    firmware applies to them, stated over mathematical integers. */
module Bits {

  /** 2^32: the modulus of `uint32_t` arithmetic (millis() timestamps, totals). */
  const Modulus32: int := 0x1_0000_0000

  /** `uint32_t` */
  type U32 = x: int | 0 <= x < 0x1_0000_0000

  /** `uint8_t` / Arduino `byte` */
  type Byte = x: int | 0 <= x < 0x100

  /** `a + b` on `uint32_t`: wraps around. */
  function Add32(a: U32, b: U32): U32 {
    (a + b) % Modulus32
  }

  /** `a - b` on `uint32_t`: wraps around (Dafny's % never yields a negative value). */
  function Sub32(a: U32, b: U32): U32 {
    (a - b) % Modulus32
  }

  /** Wrap-tolerant subtraction undoes wrapping addition: the elapsed time between two
      timestamps is recovered even when the counter has wrapped in between. */
  lemma SubAfterAdd32(a: U32, d: U32)
    ensures Sub32(Add32(a, d), a) == d
  {
    if a + d >= Modulus32 {
      assert Add32(a, d) == a + d - Modulus32;
    }
  }

  function Pow2(k: nat): (p: nat)
    ensures p >= 1
  {
    if k == 0 then 1 else 2 * Pow2(k - 1)
  }

  /** `a & b` on naturals, bit by bit from the least significant end. */
  function And(a: nat, b: nat): nat
    decreases a
  {
    if a == 0 || b == 0 then 0
    else 2 * And(a / 2, b / 2) + (if a % 2 == 1 && b % 2 == 1 then 1 else 0)
  }

  /** `a | b` on naturals, bit by bit from the least significant end. */
  function Or(a: nat, b: nat): nat
    decreases a + b
  {
    if a == 0 then b
    else if b == 0 then a
    else 2 * Or(a / 2, b / 2) + (if a % 2 == 1 || b % 2 == 1 then 1 else 0)
  }

  /** Bit k of x is set. */
  predicate BitSet(x: nat, k: nat)
  {
    (x / Pow2(k)) % 2 == 1
  }

  /** `x & (2^k - 1)` keeps the low k bits. */
  lemma {:induction false} AndLowMask(x: nat, k: nat)
    ensures And(x, Pow2(k) - 1) == x % Pow2(k)
  {
    if k == 0 {
    } else if x == 0 {
    } else {
      AndLowMask(x / 2, k - 1);
      ModPow2Step(x, Pow2(k - 1));
    }
  }

  /** The low-bit masks the firmware uses, as residues. */
  lemma AndLowMaskConst(x: nat, mask: nat)
    requires mask == 0x1 || mask == 0x3 || mask == 0x7 || mask == 0xf ||
             mask == 0x1f || mask == 0x3f || mask == 0x7f || mask == 0xff
    ensures And(x, mask) == x % (mask + 1)
  {
    if mask == 0x1 {
      AndLowMask(x, 1);
    } else if mask == 0x3 {
      AndLowMask(x, 2);
    } else if mask == 0x7 {
      AndLowMask(x, 3);
    } else if mask == 0xf {
      AndLowMask(x, 4);
    } else if mask == 0x1f {
      AndLowMask(x, 5);
    } else if mask == 0x3f {
      AndLowMask(x, 6);
    } else if mask == 0x7f {
      AndLowMask(x, 7);
    } else {
      AndLowMask(x, 8);
    }
  }

  /** Splitting off the lowest bit of a residue modulo an even number. */
  lemma ModPow2Step(x: nat, p: nat)
    requires p >= 1
    ensures x % (2 * p) == 2 * ((x / 2) % p) + x % 2
  {
    var q, b := x / 2, x % 2;
    var s, r := q / p, q % p;
    assert q == p * s + r;
    assert x == (2 * p) * s + (2 * r + b);
    assert 0 <= 2 * r + b < 2 * p;
    DivModUnique(x, 2 * p, s, 2 * r + b);
  }

  lemma DivModUnique(x: int, d: int, q: int, r: int)
    requires d > 0 && 0 <= r < d && x == d * q + r
    ensures x % d == r && x / d == q
  {
    var q0, r0 := x / d, x % d;
    assert d * (q - q0) == r0 - r;
    if q > q0 {
      MulAtLeast(d, q - q0);
    } else if q < q0 {
      MulAtLeast(d, q0 - q);
    }
  }

  lemma MulAtLeast(d: int, n: int)
    requires d > 0 && n >= 1
    ensures d * n >= d
  {
  }

  /** `(x & (h << 4)) >> 4` is the high nibble of x masked by h. */
  lemma AndHighNibble(x: nat, h: nat)
    ensures And(x, h * 16) / 16 == And(x / 16, h)
  {
    var a1 := And(x / 2, h * 8);
    var a2 := And(x / 4, h * 4);
    var a3 := And(x / 8, h * 2);
    var a4 := And(x / 16, h);
    AndDouble(x, h * 16, h * 8);
    AndDouble(x / 2, h * 8, h * 4);
    AndDouble(x / 4, h * 4, h * 2);
    AndDouble(x / 8, h * 2, h);
    assert x / 2 / 2 == x / 4 && x / 4 / 2 == x / 8 && x / 8 / 2 == x / 16;
  }

  /** A mask with a clear low bit clears the low bit of the result. */
  lemma AndDouble(x: nat, b: nat, m: nat)
    requires b == 2 * m
    ensures And(x, b) == 2 * And(x / 2, m)
  {
    if x != 0 && m != 0 {
      assert b / 2 == m && b % 2 == 0;
      assert And(x, b) == 2 * And(x / 2, b / 2) + 0;
    }
  }

  lemma ZeroDiv(x: nat, d: nat)
    requires x == 0 && d > 0
    ensures x / d == 0
  {
  }

  lemma DivDiv(x: nat, a: nat, b: nat)
    requires a > 0 && b > 0
    ensures x / a / b == x / (a * b)
  {
    var q := x / a / b;
    var r := (x / a) % b;
    var r0 := x % a;
    assert x / a == b * q + r;
    assert x == a * (x / a) + r0;
    assert x == (a * b) * q + (a * r + r0);
    assert a * r + r0 < a * b by {
      assert a * r <= a * (b - 1);
    }
    DivModUnique(x, a * b, q, a * r + r0);
  }

  /** Testing one bit with a single-bit mask. */
  lemma {:induction false} AndSingleBit(x: nat, k: nat)
    ensures (And(x, Pow2(k)) != 0) == BitSet(x, k)
  {
    if k == 0 {
    } else {
      AndSingleBit(x / 2, k - 1);
      DivDiv(x, 2, Pow2(k - 1));
      if x == 0 {
        ZeroDiv(x, Pow2(k));
      }
    }
  }

  /** A mask result never exceeds either operand. */
  lemma {:induction false} AndBound(a: nat, b: nat)
    ensures And(a, b) <= a && And(a, b) <= b
  {
    if a != 0 && b != 0 {
      AndBound(a / 2, b / 2);
    }
  }

  /** Setting a bit above every bit of x adds its value. */
  lemma {:induction false} OrHighBit(x: nat, k: nat)
    requires x < Pow2(k)
    ensures Or(x, Pow2(k)) == x + Pow2(k)
  {
    if k > 0 && x != 0 {
      OrHighBit(x / 2, k - 1);
    }
  }

  /** Two nibbles packed with `(hi << 4) | lo`. */
  lemma OrNibbles(hi: nat, lo: nat)
    requires lo < 16
    ensures Or(hi * 16, lo) == hi * 16 + lo
  {
    OrDisjoint(hi, lo, 4);
  }

  lemma {:induction false} OrDisjoint(hi: nat, lo: nat, k: nat)
    requires lo < Pow2(k)
    ensures Or(hi * Pow2(k), lo) == hi * Pow2(k) + lo
  {
    if k > 0 && hi != 0 && lo != 0 {
      var p := Pow2(k - 1);
      assert hi * Pow2(k) == 2 * (hi * p);
      OrDisjoint(hi, lo / 2, k - 1);
    }
  }
}
