/** Byte and word types shared by every component. */
module Primitives {

  type byte = x: int | 0 <= x < 0x100

  type u32 = x: int | 0 <= x < 0x1_0000_0000

  const TWO32: int := 0x1_0000_0000

  function Min(a: int, b: int): int {
    if a < b then a else b
  }

  function Max(a: int, b: int): int {
    if a < b then b else a
  }

  function Pow(b: nat, n: nat): nat {
    if n == 0 then 1 else b * Pow(b, n - 1)
  }

  lemma {:induction false} PowPositive(b: nat, n: nat)
    requires 0 < b
    ensures 0 < Pow(b, n)
  {
    if n != 0 {
      PowPositive(b, n - 1);
    }
  }

  lemma {:induction false} PowAdd(b: nat, m: nat, n: nat)
    ensures Pow(b, m + n) == Pow(b, m) * Pow(b, n)
  {
    if m != 0 {
      PowAdd(b, m - 1, n);
      MulAssoc(b, Pow(b, m - 1), Pow(b, n));
    }
  }

  lemma MulAssoc(x: int, y: int, z: int)
    ensures (x * y) * z == x * (y * z)
  {
  }

  lemma PowTwo28()
    ensures Pow(2, 28) == 0x1000_0000
  {
    assert Pow(2, 7) == 128;
    PowAdd(2, 7, 7);
    PowAdd(2, 14, 14);
  }

  lemma {:induction false} PowMonotone(b: nat, m: nat, n: nat)
    requires 0 < b && m <= n
    ensures 0 < Pow(b, m) <= Pow(b, n)
    decreases n - m
  {
    PowPositive(b, m);
    if m < n {
      PowMonotone(b, m + 1, n);
      assert Pow(b, m + 1) == b * Pow(b, m);
      assert b * Pow(b, m) >= Pow(b, m);
    }
  }

  lemma MulMonotone(a: nat, b: nat, c: nat, d: nat)
    requires a <= c && b <= d
    ensures a * b <= c * d
  {
    assert a * b <= c * b;
    assert c * b <= c * d;
  }

  lemma MulSwap(x: int, y: int, z: int)
    ensures x * (y * z) == y * (x * z)
  {
  }

  /** Bitwise conjunction of two natural numbers. */
  function And(x: nat, y: nat): nat
    decreases x
  {
    if x == 0 || y == 0 then 0 else (x % 2) * (y % 2) + 2 * And(x / 2, y / 2)
  }

  lemma {:induction false} AndAtMost(x: nat, y: nat)
    ensures And(x, y) <= x && And(x, y) <= y
    decreases x
  {
    if x != 0 && y != 0 {
      AndAtMost(x / 2, y / 2);
    }
  }

  lemma HalfMod(x: nat, m: nat)
    requires 0 < m
    ensures x % (2 * m) == 2 * ((x / 2) % m) + x % 2
  {
    var q, r := (x / 2) / m, (x / 2) % m;
    assert x / 2 == m * q + r;
    assert x == 2 * (m * q + r) + x % 2;
    MulSwap(2, m, q);
    ModUnique(x, 2 * m, q, 2 * r + x % 2);
  }

  lemma ModUnique(x: int, m: int, q: int, r: int)
    requires 0 <= r < m && x == m * q + r
    ensures x % m == r && x / m == q
  {
    var d := x / m - q;
    assert m * (x / m) + x % m == x;
    assert m * (x / m) - m * q == m * d;
    assert d >= 1 ==> m * d >= m;
    assert d <= -1 ==> m * d <= -m;
  }

  /** The n low bits of x. */
  function LowBits(x: nat, n: nat): nat
    decreases n
  {
    if n == 0 then 0 else x % 2 + 2 * LowBits(x / 2, n - 1)
  }

  lemma {:induction false} LowBitsIsMod(x: nat, n: nat)
    ensures 0 < Pow(2, n) && LowBits(x, n) == x % Pow(2, n)
  {
    PowPositive(2, n);
    if 0 < n {
      LowBitsIsMod(x / 2, n - 1);
      HalfMod(x, Pow(2, n - 1));
    }
  }

  lemma {:induction false} AndLowBits(x: nat, n: nat)
    ensures 0 < Pow(2, n) && And(x, Pow(2, n) - 1) == LowBits(x, n)
  {
    hide And, Pow;
    PowPositive(2, n);
    PowHalf(n);
    if n == 0 {
      AndNone(x);
    } else {
      PowPositive(2, n - 1);
      AndLowBits(x / 2, n - 1);
      AndHalve(x, Pow(2, n - 1) - 1, 1);
    }
  }

  lemma AndNone(x: nat)
    ensures And(x, 0) == 0
  {
  }

  lemma HalfHigh(x: nat, y: nat, hi: nat, lo: nat)
    requires x < 2 * hi && 2 * hi - 2 * lo <= y < 2 * hi
    ensures x / 2 < hi && hi - lo <= y / 2 < hi && 2 * (y / 2) + y % 2 == y
  {
  }

  lemma LowHalve(x: nat, n: nat, half: nat, low: nat, b: nat)
    requires n == (x % 2) * b + 2 * half && x / 2 - low <= half
    ensures x - (x % 2 + 2 * low) <= n
  {
    MulMonotone(0, 0, x % 2, b);
  }

  /** Masking with a number that has all bits from lo up to hi takes nothing but low bits away. */
  lemma {:induction false} AndHigh(x: nat, y: nat, hi: nat, lo: nat)
    requires lo <= hi && x < Pow(2, hi) && Pow(2, hi) - Pow(2, lo) <= y < Pow(2, hi)
    ensures x - LowBits(x, lo) <= And(x, y)
  {
    hide And, Pow;
    if lo == 0 {
      PowHalf(0);
      AndAll(x, hi);
    } else {
      PowHalf(hi);
      PowHalf(lo);
      HalfHigh(x, y, Pow(2, hi - 1), Pow(2, lo - 1));
      AndHigh(x / 2, y / 2, hi - 1, lo - 1);
      AndHalve(x, y / 2, y % 2);
      LowHalve(x, And(x, y), And(x / 2, y / 2), LowBits(x / 2, lo - 1), y % 2);
    }
  }

  lemma PowHalf(n: nat)
    ensures Pow(2, 0) == 1 && (0 < n ==> Pow(2, n) == 2 * Pow(2, n - 1))
  {
  }

  lemma AndAll(x: nat, n: nat)
    requires x < Pow(2, n)
    ensures And(x, Pow(2, n) - 1) == x
  {
    hide And, Pow, LowBits;
    AndLowBits(x, n);
    LowBitsIsMod(x, n);
    ModUnique(x, Pow(2, n), 0, x);
  }

  /** Masking with the bits from lo up to hi. */
  lemma {:induction false} AndBandBits(x: nat, hi: nat, lo: nat)
    requires lo <= hi
    ensures 0 < Pow(2, lo) <= Pow(2, hi)
    ensures And(x, Pow(2, hi) - Pow(2, lo)) == LowBits(x, hi) - LowBits(x, lo)
  {
    hide And, Pow;
    PowMonotone(2, lo, hi);
    if lo == 0 {
      PowHalf(0);
      AndLowBits(x, hi);
    } else {
      PowHalf(lo);
      PowHalf(hi);
      AndBandBits(x / 2, hi - 1, lo - 1);
      AndHalve(x, Pow(2, hi - 1) - Pow(2, lo - 1), 0);
    }
  }

  /** Masking with the bits from lo up to hi is a difference of two remainders. */
  lemma AndBand(x: nat, hi: nat, lo: nat)
    requires lo <= hi
    ensures 0 < Pow(2, lo) <= Pow(2, hi)
    ensures And(x, Pow(2, hi) - Pow(2, lo)) == x % Pow(2, hi) - x % Pow(2, lo)
  {
    AndBandBits(x, hi, lo);
    LowBitsIsMod(x, hi);
    LowBitsIsMod(x, lo);
  }

  lemma AndHalve(x: nat, y: nat, b: nat)
    requires b < 2
    ensures And(x, 2 * y + b) == (x % 2) * b + 2 * And(x / 2, y)
  {
  }

  lemma PowTwo32()
    ensures Pow(2, 31) == 0x8000_0000 && Pow(2, 32) == TWO32
  {
    PowTwo28();
    PowAdd(2, 28, 3);
    PowAdd(2, 28, 4);
    assert Pow(2, 3) == 8 && Pow(2, 4) == 16;
  }

  lemma ModMod(x: int, a: int, m: int)
    requires 0 < a && 0 < m
    ensures 0 < a * m && x % (a * m) % m == x % m
  {
    var q, r := x / (a * m), x % (a * m);
    assert x == (a * m) * q + r;
    var s := r / m;
    assert r == m * s + r % m;
    calc {
      x;
      (a * m) * q + m * s + r % m;
      { MulSwap(a, m, q); MulAssoc(a, m, q); }
      m * (a * q) + m * s + r % m;
      m * (a * q + s) + r % m;
    }
    ModUnique(x, m, a * q + s, r % m);
  }
}
