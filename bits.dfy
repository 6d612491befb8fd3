/**
 * The 32-bit integer semantics of JavaScript's bitwise operators
 * (`<<`, `>>>`, `&`, `|`, `~`), written over unbounded naturals.
 * A 32-bit pattern is the natural number it denotes; the bitwise
 * operators work bit by bit, least significant bit first.
 */
module Bits {

  const TWO31: nat := 0x8000_0000
  const TWO32: nat := 0x1_0000_0000

  function Pow2(k: nat): (r: nat)
    ensures r >= 1
  {
    if k == 0 then 1 else 2 * Pow2(k - 1)
  }

  /** JavaScript's ToUint32: the low 32 bits of an integer, read unsigned (`v >>> 0`). */
  function ToUint32(v: int): (r: nat)
    ensures r < TWO32
  {
    v % TWO32
  }

  /** JavaScript's ToInt32: the low 32 bits of an integer, read in two's complement. */
  function ToInt32(v: int): (r: int)
    ensures -(TWO31 as int) <= r < TWO31
    ensures ToUint32(r) == ToUint32(v)
  {
    var m := v % TWO32;
    if m < TWO31 then m else m - TWO32
  }

  /** `v << k` for a shift count k below 32. */
  function ShiftLeft(v: int, k: nat): int
    requires k < 32
  {
    ToInt32(ToInt32(v) * Pow2(k))
  }

  /** `v >>> k` for a shift count k below 32: the unsigned value halved k times. */
  function ShiftRightUnsigned(v: int, k: nat): nat
    requires k < 32
  {
    Halve(ToUint32(v), k)
  }

  /** x with its k lowest bits shifted out. */
  function Halve(x: nat, k: nat): nat
  {
    if k == 0 then x else Halve(x / 2, k - 1)
  }

  /** Shifting out k bits divides by 2^k. */
  lemma {:induction false} HalveIsDivision(x: nat, k: nat)
    ensures Halve(x, k) == x / Pow2(k)
  {
    if k > 0 {
      HalveIsDivision(x / 2, k - 1);
      ModDouble(x, Pow2(k - 1));
    }
  }

  /**
   * `v << k` is multiplication by 2^k modulo 2^32, read back as a signed
   * 32-bit value.
   */
  lemma ShiftLeftIsProduct(v: int, k: nat)
    requires k < 32
    ensures -(TWO31 as int) <= ShiftLeft(v, k) < TWO31
    ensures ToUint32(ShiftLeft(v, k)) == ToUint32(v * Pow2(k))
  {
    var a, p := ToInt32(v), Pow2(k);
    var d := v / TWO32 - a / TWO32;
    assert v - a == TWO32 * d;
    assert v * p == a * p + TWO32 * (d * p);
    ModAddMultiple(a * p, d * p);
  }

  /** Adding a multiple of 2^32 leaves the low 32 bits unchanged. */
  lemma ModAddMultiple(x: int, c: int)
    ensures (x + TWO32 * c) % TWO32 == x % TWO32
  {
    DivModUnique(x + TWO32 * c, TWO32, x / TWO32 + c, x % TWO32);
  }

  /** `v >>> k` is the unsigned reading of v divided by 2^k, a (32-k)-bit value. */
  lemma ShiftRightIsQuotient(v: int, k: nat)
    requires k < 32
    ensures ShiftRightUnsigned(v, k) == ToUint32(v) / Pow2(k)
    ensures ShiftRightUnsigned(v, k) < Pow2(32 - k)
  {
    var x := ToUint32(v);
    HalveIsDivision(x, k);
    assert x < Pow2(k) * Pow2(32 - k) by {
      Pow2Add(k, 32 - k);
      Pow2Of32();
    }
    QuotientBelow(x, Pow2(k), Pow2(32 - k));
  }

  /** Below p·q, the quotient by p is below q. */
  lemma QuotientBelow(x: nat, p: nat, q: nat)
    requires p > 0 && x < p * q
    ensures x / p < q
  {
    if x / p >= q {
      MulMonotone(p, q, x / p);
      assert false;
    }
  }

  /** Bitwise and of the low w bits of a and b. */
  function BitAnd(a: nat, b: nat, w: nat): nat
  {
    if w == 0 then 0
    else 2 * BitAnd(a / 2, b / 2, w - 1) + (if a % 2 == 1 && b % 2 == 1 then 1 else 0)
  }

  /** Bitwise or of the low w bits of a and b. */
  function BitOr(a: nat, b: nat, w: nat): nat
  {
    if w == 0 then 0
    else 2 * BitOr(a / 2, b / 2, w - 1) + (if a % 2 == 1 || b % 2 == 1 then 1 else 0)
  }

  /** Bitwise complement of the low w bits of a. */
  function BitNot(a: nat, w: nat): nat
  {
    if w == 0 then 0
    else 2 * BitNot(a / 2, w - 1) + (1 - a % 2)
  }

  /** `a & b` is a w-bit value no larger than either operand. */
  lemma {:induction false} BitAndBound(a: nat, b: nat, w: nat)
    ensures BitAnd(a, b, w) <= a && BitAnd(a, b, w) <= b
    ensures BitAnd(a, b, w) < Pow2(w)
  {
    if w > 0 {
      BitAndBound(a / 2, b / 2, w - 1);
    }
  }

  /** `a | b` is a w-bit value no smaller than the w-bit operand a. */
  lemma {:induction false} BitOrBound(a: nat, b: nat, w: nat)
    ensures BitOr(a, b, w) < Pow2(w)
    ensures a < Pow2(w) ==> a <= BitOr(a, b, w)
  {
    if w > 0 {
      BitOrBound(a / 2, b / 2, w - 1);
    }
  }

  /** `~a` is a w-bit value. */
  lemma {:induction false} BitNotBound(a: nat, w: nat)
    ensures BitNot(a, w) < Pow2(w)
  {
    if w > 0 {
      BitNotBound(a / 2, w - 1);
    }
  }

  lemma Pow2Of32()
    ensures Pow2(32) == TWO32
    ensures Pow2(24) == 0x100_0000 && Pow2(16) == 0x1_0000 && Pow2(8) == 0x100
  {
    assert Pow2(8) == 0x100;
    Pow2Add(8, 8);
    Pow2Add(16, 8);
    Pow2Add(16, 16);
  }

  lemma {:induction false} Pow2Monotone(i: nat, j: nat)
    requires i <= j
    ensures Pow2(i) <= Pow2(j)
  {
    if i < j {
      Pow2Monotone(i, j - 1);
    }
  }

  lemma {:induction false} Pow2Add(i: nat, j: nat)
    ensures Pow2(i + j) == Pow2(i) * Pow2(j)
  {
    if j > 0 {
      Pow2Add(i, j - 1);
      assert Pow2(i + j) == 2 * Pow2(i + j - 1);
    }
  }

  /** x % d and x / d are determined by any decomposition x == d * q + r with 0 <= r < d. */
  lemma DivModUnique(x: int, d: int, q: int, r: int)
    requires d > 0 && 0 <= r < d && x == d * q + r
    ensures x / d == q && x % d == r
  {
    var q', r' := x / d, x % d;
    var k := q - q';
    assert d * k == r' - r;
    if k > 0 {
      MulAtLeast(d, k);
    }
  }

  lemma {:induction false} MulAtLeast(d: nat, k: nat)
    requires k >= 1
    ensures d * k >= d
  {
    if k > 1 {
      MulAtLeast(d, k - 1);
    }
  }

  lemma {:induction false} MulMonotone(d: nat, a: nat, b: nat)
    requires a <= b
    ensures d * a <= d * b
  {
    if a < b {
      MulMonotone(d, a, b - 1);
    }
  }

  /** Division and residue by 2m in terms of the lowest bit and x / 2 divided by m. */
  lemma ModDouble(x: nat, m: nat)
    requires m > 0
    ensures x % (2 * m) == x % 2 + 2 * ((x / 2) % m)
    ensures x / (2 * m) == (x / 2) / m
  {
    var q, r := (x / 2) / m, (x / 2) % m;
    assert x / 2 == m * q + r;
    assert x == (2 * m) * q + (2 * r + x % 2);
    DivModUnique(x, 2 * m, q, 2 * r + x % 2);
  }

  /** The complement of a w-bit value a is 2^w - 1 - a. */
  lemma {:induction false} BitNotValue(a: nat, w: nat)
    requires a < Pow2(w)
    ensures BitNot(a, w) == Pow2(w) - 1 - a
  {
    if w > 0 {
      BitNotValue(a / 2, w - 1);
    }
  }

  /** Masking with k low one-bits keeps the residue modulo 2^k. */
  lemma {:induction false} BitAndLowOnes(x: nat, k: nat, w: nat)
    requires k <= w
    ensures BitAnd(x, Pow2(k) - 1, w) == x % Pow2(k)
  {
    if w == 0 {
    } else if k == 0 {
      BitAndZero(x, w);
    } else {
      BitAndLowOnes(x / 2, k - 1, w - 1);
      BitAndLowOnesStep(x, k, w);
    }
  }

  /** One bit of the induction: the lowest bit of x passes the odd mask, the rest is masked one bit shorter. */
  lemma BitAndLowOnesStep(x: nat, k: nat, w: nat)
    requires 0 < k <= w
    requires BitAnd(x / 2, Pow2(k - 1) - 1, w - 1) == (x / 2) % Pow2(k - 1)
    ensures BitAnd(x, Pow2(k) - 1, w) == x % Pow2(k)
  {
    var m := Pow2(k - 1);
    assert Pow2(k) == 2 * m;
    var ones := Pow2(k) - 1;
    assert ones / 2 == m - 1 && ones % 2 == 1 by {
      assert ones == 2 * (m - 1) + 1;
    }
    BitAndOdd(x, ones, w);
    ModDouble(x, m);
  }

  /** Against an odd mask the lowest bit of x passes through. */
  lemma BitAndOdd(x: nat, b: nat, w: nat)
    requires w > 0 && b % 2 == 1
    ensures BitAnd(x, b, w) == 2 * BitAnd(x / 2, b / 2, w - 1) + x % 2
  {
  }

  /** `x & 255` is the low byte of x. */
  lemma BitAndByte(x: nat)
    ensures BitAnd(x, 255, 32) == x % 256
  {
    Pow2Of32();
    BitAndLowOnes(x, 8, 32);
  }

  lemma {:induction false} BitAndZero(x: nat, w: nat)
    ensures BitAnd(x, 0, w) == 0
  {
    if w > 0 {
      BitAndZero(x / 2, w - 1);
    }
  }

  lemma {:induction false} BitOrZero(x: nat, w: nat)
    requires x < Pow2(w)
    ensures BitOr(x, 0, w) == x
  {
    if w > 0 {
      BitOrZero(x / 2, w - 1);
    }
  }

  /**
   * Masking a w-bit value with ones above the low h bits clears those
   * h bits: the result is x rounded down to a multiple of 2^h.
   */
  lemma {:induction false} BitAndHighOnes(x: nat, h: nat, w: nat)
    requires h <= w && Pow2(h) <= Pow2(w) && x < Pow2(w)
    ensures BitAnd(x, Pow2(w) - Pow2(h), w) == x - x % Pow2(h)
  {
    if w == 0 {
    } else if h == 0 {
      BitAndLowOnes(x, w, w);
      DivModUnique(x, Pow2(w), 0, x);
    } else {
      var mask := Pow2(w) - Pow2(h);
      assert mask == 2 * (Pow2(w - 1) - Pow2(h - 1));
      assert mask / 2 == Pow2(w - 1) - Pow2(h - 1) && mask % 2 == 0;
      Pow2Monotone(h - 1, w - 1);
      BitAndHighOnes(x / 2, h - 1, w - 1);
      assert BitAnd(x, mask, w) == 2 * (x / 2 - (x / 2) % Pow2(h - 1));
      ModDouble(x, Pow2(h - 1));
    }
  }

  /** Setting the low h bits of a multiple of 2^h adds 2^h - 1. */
  lemma {:induction false} BitOrLowOnes(n: nat, h: nat, w: nat)
    requires h <= w && n < Pow2(w) && n % Pow2(h) == 0
    ensures BitOr(n, Pow2(h) - 1, w) == n + Pow2(h) - 1
  {
    if w == 0 {
    } else if h == 0 {
      BitOrZero(n, w);
    } else {
      var ones := Pow2(h) - 1;
      assert ones == 2 * (Pow2(h - 1) - 1) + 1;
      assert ones / 2 == Pow2(h - 1) - 1 && ones % 2 == 1;
      ModDouble(n, Pow2(h - 1));
      assert n % 2 == 0 && (n / 2) % Pow2(h - 1) == 0;
      BitOrLowOnes(n / 2, h - 1, w - 1);
      assert BitOr(n, ones, w) == 2 * (n / 2 + Pow2(h - 1) - 1) + 1;
    }
  }

  /** Rounding down to a multiple of d leaves a multiple of d. */
  lemma RoundDownIsMultiple(x: nat, d: nat)
    requires d > 0
    ensures (x - x % d) % d == 0
  {
    DivModUnique(x - x % d, d, x / d, 0);
  }
}
