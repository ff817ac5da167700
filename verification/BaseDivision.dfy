/** The 64-bit division by estimate and correction, and the condition under which it divides. */
module BaseDivision {
  import opened Primitives

  const TWO64: int := 0x1_0000_0000_0000_0000

  // x & (0x100000000 - 2^k) is zero exactly when x is below 2^k.
  lemma HighBitsClear(x: int, k: nat)
    requires 0 <= x < TWO32 && k <= 32
    ensures 0 < Pow(2, k) <= TWO32 && (And(x, TWO32 - Pow(2, k)) == 0 <==> x < Pow(2, k))
  {
    hide And, Pow;
    PowTwo32();
    AndBand(x, 32, k);
    BelowIsMod(x, Pow(2, k));
  }

  lemma BelowIsMod(x: int, p: int)
    requires 0 <= x < TWO32 && 0 < p
    ensures x % TWO32 - x % p == 0 <==> x < p
  {
  }

  lemma ShiftFits(x: int, p: int, f: int)
    requires 0 < x && 0 < p && 0 < f && p * f == TWO32
    ensures x < p ==> 0 < x * f < TWO32
    ensures p <= x ==> x * f >= TWO32
  {
    if x < p {
      assert (x + 1) * f <= p * f;
      assert (x + 1) * f == x * f + f;
      assert x * f >= f;
    } else {
      assert p * f <= x * f;
    }
  }

  lemma Assoc(x: int, a: int, b: int)
    ensures x * a * b == x * (a * b)
  {
  }

  // One step of the search for the highest bit: if the upper shift bits are clear, shift them out.
  method FlsStep(x: int, r: int, shift: nat, factor: int, low: int, ghost x0: int, ghost mult: int)
    returns (y: int, s: int, ghost m: int)
    requires 0 < x < TWO32 && 0 < shift <= 16 && factor * low == TWO32 && 0 < factor && low == Pow(2, 32 - shift)
    requires r <= 32 && x == x0 * mult && mult == Pow(2, 32 - r) && factor == Pow(2, shift)
    ensures 0 < y < TWO32 && y == x0 * m && s <= 32 && m == Pow(2, 32 - s)
    ensures if x < low then y == x * factor && s == r - shift && m == mult * factor else y == x && s == r && m == mult
  {
    hide And, Pow;
    HighBitsClear(x, 32 - shift);
    ShiftFits(x, low, factor);
    PowAdd(2, 32 - r, shift);
    y, s, m := x, r, mult;
    if And(x, TWO32 - low) == 0 {
      y := x * factor % TWO32;
      s := r - shift;
      m := mult * factor;
      Assoc(x0, mult, factor);
    }
  }

  /** The number of significant bits: fls. */
  method Fls(x: int) returns (r: int)
    requires 0 <= x < TWO32
    ensures if x == 0 then r == 0 else 1 <= r <= 32 && Pow(2, r - 1) <= x < Pow(2, r)
  {
    hide Pow;
    r := 32;
    if x == 0 {
      return 0;
    }
    Constants();
    var y := x;
    ghost var m := 1;
    y, r, m := FlsStep(y, r, 16, 0x1_0000, 0x1_0000, x, m);
    y, r, m := FlsStep(y, r, 8, 0x100, 0x100_0000, x, m);
    y, r, m := FlsStep(y, r, 4, 0x10, 0x1000_0000, x, m);
    y, r, m := FlsStep(y, r, 2, 4, 0x4000_0000, x, m);
    y, r, m := FlsStep(y, r, 1, 2, 0x8000_0000, x, m);
    FlsDone(x, y, r, m);
  }

  lemma FlsDone(x: int, y: int, r: int, m: int)
    requires 0 < x && 1 <= r <= 32 && m == Pow(2, 32 - r) && y == x * m && 0x8000_0000 <= y < TWO32
    ensures Pow(2, r - 1) <= x < Pow(2, r)
  {
    hide Pow;
    Constants();
    PowTwo32();
    PowPositive(2, 32 - r);
    PowAdd(2, r, 32 - r);
    PowAdd(2, r - 1, 32 - r);
    Bracket(x, m, Pow(2, r - 1), Pow(2, r));
  }

  lemma Bracket(x: int, m: int, a: int, b: int)
    requires 0 < m && a * m == 0x8000_0000 && b * m == TWO32 && 0x8000_0000 <= x * m < TWO32
    ensures a <= x < b
  {
    assert x >= b ==> x * m >= b * m;
    assert x < a ==> (x + 1) * m <= a * m;
    assert (x + 1) * m == x * m + m;
  }

  lemma Constants()
    ensures Pow(2, 0) == 1 && Pow(2, 1) == 2 && Pow(2, 2) == 4 && Pow(2, 4) == 16 && Pow(2, 8) == 0x100
    ensures Pow(2, 16) == 0x1_0000 && Pow(2, 24) == 0x100_0000 && Pow(2, 28) == 0x1000_0000 && Pow(2, 30) == 0x4000_0000 && Pow(2, 31) == 0x8000_0000
  {
    PowTwo28();
    assert Pow(2, 4) == 16 && Pow(2, 2) == 4 && Pow(2, 3) == 8 && Pow(2, 8) == 256;
    PowAdd(2, 8, 8);
    PowAdd(2, 16, 8);
    PowAdd(2, 28, 2);
    PowAdd(2, 28, 3);
  }

  /** The number of significant bits of x. */
  function BitLen(x: nat): nat {
    if x == 0 then 0 else 1 + BitLen(x / 2)
  }

  lemma {:induction false} BitLenUnique(x: nat, r: nat)
    requires 0 < r && Pow(2, r - 1) <= x < Pow(2, r)
    ensures BitLen(x) == r
    decreases r
  {
    if 1 < r {
      PowPositive(2, r - 2);
      assert Pow(2, r - 1) == 2 * Pow(2, r - 2) && Pow(2, r) == 2 * Pow(2, r - 1);
      BitLenUnique(x / 2, r - 1);
    } else {
      assert Pow(2, 0) == 1 && Pow(2, 1) == 2;
    }
  }

  predicate Wide(dividend: int, divisor: int) {
    0 <= dividend < TWO64 && TWO32 <= divisor < TWO64
  }

  // By how much both operands are shifted: enough for the divisor to have 31 bits.
  function Scale(divisor: int): (p: int)
    requires TWO32 <= divisor < TWO64
    ensures 0 < p
  {
    PowPositive(2, 1 + BitLen(divisor / TWO32));
    Pow(2, 1 + BitLen(divisor / TWO32))
  }

  lemma {:induction false} BitLenRange(x: nat)
    requires 0 < x
    ensures 0 < BitLen(x) && Pow(2, BitLen(x) - 1) <= x < Pow(2, BitLen(x))
    decreases x
  {
    if x == 1 {
      assert BitLen(0) == 0 && Pow(2, 0) == 1 && Pow(2, 1) == 2;
    } else {
      BitLenRange(x / 2);
      var r := BitLen(x / 2);
      assert Pow(2, r) == 2 * Pow(2, r - 1) && Pow(2, r + 1) == 2 * Pow(2, r);
    }
  }

  lemma HighPart(d: int, p: int, h: int, lo: int, hi: int)
    requires 0 < p && d == h * TWO32 + d % TWO32 && lo <= h < hi && p == 4 * lo && hi == 2 * lo && 0 < lo
    ensures 0x4000_0000 * p <= d < 0x8000_0000 * p
    ensures 0x4000_0000 <= d / p < 0x8000_0000
  {
    DivBounds(d, p, 0x4000_0000, 0x8000_0000);
  }

  lemma DivBounds(d: int, p: int, a: int, b: int)
    requires 0 < p && a * p <= d < b * p
    ensures a <= d / p < b
  {
    var q := d / p;
    assert d == p * q + d % p;
    assert q < a ==> (q + 1) * p <= a * p;
    assert (q + 1) * p == q * p + p;
    assert q >= b ==> q * p >= b * p;
  }

  /** The shifted divisor has exactly 31 significant bits. */
  lemma ScaledDivisor(divisor: int)
    requires TWO32 <= divisor < TWO64
    ensures 0x4000_0000 <= divisor / Scale(divisor) < 0x8000_0000
  {
    var h := divisor / TWO32;
    BitLenRange(h);
    var r := BitLen(h);
    hide BitLen;
    assert Pow(2, r) == 2 * Pow(2, r - 1) && Pow(2, r + 1) == 2 * Pow(2, r);
    PowPositive(2, r - 1);
    hide Pow;
    HighPart(divisor, Scale(divisor), h, Pow(2, r - 1), Pow(2, r));
  }

  function Estimate(dividend: int, divisor: int): (e: int)
    requires Wide(dividend, divisor)
    ensures 0 <= e
  {
    ScaledDivisor(divisor);
    var p := Scale(divisor);
    DivNonNegative(dividend, p);
    DivNonNegative(dividend / p, divisor / p);
    dividend / p / (divisor / p)
  }

  lemma DivNonNegative(x: int, y: int)
    requires 0 <= x && 0 < y
    ensures 0 <= x / y <= x
  {
    var q := x / y;
    assert x == y * q + x % y;
    assert q < 0 ==> y * q <= -y;
    assert q > x ==> y * q >= q;
  }

  // One less than the estimate, and one more again if at least the divisor remains, in 64 bits.
  function Corrected(dividend: int, e: int, divisor: int): int {
    var q := if e != 0 then e - 1 else e;
    if Remains(dividend, q, divisor) >= divisor then q + 1 else q
  }

  function Remains(dividend: int, q: int, divisor: int): int {
    (dividend - q * divisor) % TWO64
  }

  /** What the division computes, 64-bit wrap-around included. */
  function Quotient64(dividend: int, divisor: int): int
    requires 0 <= dividend < TWO64 && 0 < divisor < TWO64
  {
    if divisor < TWO32 then dividend / divisor else Corrected(dividend, Estimate(dividend, divisor), divisor)
  }

  method Div64(dividend: int, divisor: int) returns (quot: int)
    requires 0 <= dividend < TWO64 && 0 < divisor < TWO64
    ensures quot == Quotient64(dividend, divisor)
  {
    hide Pow, BitLen, Quotient64, Estimate, Remains;
    var high := divisor / TWO32;
    QuotientIs(dividend, divisor);
    if high == 0 {
      quot := dividend / divisor;
    } else {
      var n := Fls(high);
      n := 1 + n;
      EstimateIs(dividend, divisor, n);
      quot := dividend / Pow(2, n) / (divisor / Pow(2, n) % TWO32);
      if quot != 0 {
        quot := quot - 1;
      }
      RemainsIs(dividend, quot, divisor);
      if (dividend - quot * divisor) % TWO64 >= divisor {
        quot := quot + 1;
      }
    }
  }

  lemma QuotientIs(dividend: int, divisor: int)
    requires 0 <= dividend < TWO64 && 0 < divisor < TWO64
    ensures divisor / TWO32 == 0 <==> divisor < TWO32
    ensures Quotient64(dividend, divisor) == if divisor < TWO32 then dividend / divisor else Corrected(dividend, Estimate(dividend, divisor), divisor)
  {
    hide Estimate, Corrected;
  }

  lemma RemainsIs(dividend: int, q: int, divisor: int)
    ensures Remains(dividend, q, divisor) == (dividend - q * divisor) % TWO64
  {
  }

  // The estimate with the shift that the bit count of the divisor's high half gives.
  lemma EstimateIs(dividend: int, divisor: int, n: nat)
    requires Wide(dividend, divisor) && 1 < n && Pow(2, n - 2) <= divisor / TWO32 < Pow(2, n - 1)
    ensures 0 < Pow(2, n) && 0 < divisor / Pow(2, n) % TWO32
    ensures dividend / Pow(2, n) / (divisor / Pow(2, n) % TWO32) == Estimate(dividend, divisor)
  {
    hide Pow, BitLen;
    BitLenUnique(divisor / TWO32, n - 1);
    ScaledDivisor(divisor);
    SmallMod(divisor / Scale(divisor));
  }

  lemma SmallMod(x: int)
    requires 0 <= x < TWO32
    ensures x % TWO32 == x
  {
  }

  // The estimate in whole numbers, without divisions.
  lemma EstimateBrackets(dividend: int, divisor: int)
    requires Wide(dividend, divisor)
    ensures var e, p, b := Estimate(dividend, divisor), Scale(divisor), divisor / Scale(divisor);
            && 0x4000_0000 <= b && b * p <= divisor < b * p + p
            && e * b * p <= dividend && (forall q :: q * b * p <= dividend ==> q <= e)
  {
    hide Scale;
    ScaledDivisor(divisor);
    var p := Scale(divisor);
    var a, b := dividend / p, divisor / p;
    DivIs(divisor, p);
    DivIs(dividend, p);
    DivIs(a, b);
    var e := a / b;
    assert e == Estimate(dividend, divisor);
    Grow(e * b, a, p);
    assert e * b * p <= dividend;
    forall q | q * b * p <= dividend
      ensures q <= e
    {
      Below(q * b, a, p, dividend);
      Below(q, e, b, a);
    }
  }

  lemma DivIs(x: int, y: int)
    requires 0 < y
    ensures x / y * y <= x < x / y * y + y
  {
    assert x == y * (x / y) + x % y;
  }

  lemma Grow(x: int, a: int, p: int)
    requires x <= a && 0 < p
    ensures x * p <= a * p
  {
  }

  lemma Below(x: int, a: int, p: int, d: int)
    requires 0 < p && x * p <= d < a * p + p
    ensures x <= a
  {
    assert x >= a + 1 ==> x * p >= (a + 1) * p;
    assert (a + 1) * p == a * p + p;
  }

  /** The estimate is never too small. */
  lemma EstimateNeverUnder(dividend: int, divisor: int)
    requires Wide(dividend, divisor)
    ensures dividend / divisor <= Estimate(dividend, divisor)
  {
    hide Estimate, Scale;
    EstimateBrackets(dividend, divisor);
    var p, b, q := Scale(divisor), divisor / Scale(divisor), dividend / divisor;
    DivIs(dividend, divisor);
    DivNonNegative(dividend, divisor);
    Grow2(b * p, divisor, q);
    Assoc(q, b, p);
  }

  lemma Grow2(x: int, y: int, q: int)
    requires x <= y && 0 <= q
    ensures q * x <= q * y
  {
  }

  /** Where one less than the estimate is still too large, the divisor is small and the excess less than 2^34. */
  lemma Overshoot(dividend: int, divisor: int)
    requires Wide(dividend, divisor)
    ensures var e := Estimate(dividend, divisor);
            (e - 1) * divisor > dividend ==>
              (e - 1) * divisor - dividend < 0x4_0000_0000 && divisor < 0x4_0000_0000 && 0x4000_0000_0000_0000 <= dividend
  {
    hide Estimate, Scale;
    EstimateBrackets(dividend, divisor);
    var e, p, b := Estimate(dividend, divisor), Scale(divisor), divisor / Scale(divisor);
    var x := e * p;
    Grow2(divisor, b * p + p, e);
    assert e * (b * p + p) == e * (b * p) + x;
    Assoc(e, b, p);
    assert (e - 1) * divisor == e * divisor - divisor;
    if (e - 1) * divisor > dividend {
      assert divisor < x;
      assert x * b == e * b * p by {
        Assoc(e, p, b);
        Assoc(e, b, p);
      }
      Grow2(0x4000_0000, b, x);
    }
  }

  lemma SmallWrap(d: int)
    ensures 0 <= d < TWO64 ==> d % TWO64 == d
    ensures -TWO64 <= d < 0 ==> d % TWO64 == d + TWO64
  {
  }

  /**
   The division is exact just when taking one off the estimate makes the subtraction of the correction step not wrap around;
   otherwise it returns the estimate, which is too large.
   */
  lemma DivisionExact(dividend: int, divisor: int)
    requires Wide(dividend, divisor)
    ensures var e := Estimate(dividend, divisor);
            && (Quotient64(dividend, divisor) == dividend / divisor <==> e == 0 || (e - 1) * divisor <= dividend)
            && (Quotient64(dividend, divisor) != dividend / divisor ==> Quotient64(dividend, divisor) == e > dividend / divisor + 1)
  {
    hide Estimate, Quotient64, Corrected, Remains;
    EstimateNeverUnder(dividend, divisor);
    Overshoot(dividend, divisor);
    QuotientIs(dividend, divisor);
    CorrectedExact(dividend, Estimate(dividend, divisor), divisor);
  }

  lemma CorrectedExact(dividend: int, e: int, divisor: int)
    requires Wide(dividend, divisor) && 0 <= e && dividend / divisor <= e
    requires (e - 1) * divisor > dividend ==> (e - 1) * divisor - dividend < 0x4_0000_0000 && divisor < 0x4_0000_0000
    ensures Corrected(dividend, e, divisor) == dividend / divisor <==> e == 0 || (e - 1) * divisor <= dividend
    ensures Corrected(dividend, e, divisor) != dividend / divisor ==> Corrected(dividend, e, divisor) == e > dividend / divisor + 1
  {
    hide Remains;
    DivIs(dividend, divisor);
    DivNonNegative(dividend, divisor);
    var q := dividend / divisor;
    RemainsIs(dividend, 0, divisor);
    SmallWrap(dividend);
    if e != 0 {
      Rest(dividend, e - 1, q, divisor);
      if (e - 1) * divisor > dividend {
        TooLarge(e - 1, q, divisor, dividend);
      }
    }
  }

  // What remains after subtracting the last multiple that fits, or one before it, or one that does not fit.
  lemma Rest(n: int, k: int, q: int, d: int)
    requires 0 <= n < TWO64 && 0 < d < TWO64 && 0 <= k && q - 1 <= k && q * d <= n < q * d + d && k * d - n <= TWO64
    ensures k * d <= n ==> k == q || k == q - 1
    ensures k * d <= n ==> Remains(n, k, d) == n - k * d && (Remains(n, k, d) >= d <==> k == q - 1)
    ensures k * d > n ==> Remains(n, k, d) == n - k * d + TWO64
  {
    hide Remains;
    RemainsIs(n, k, d);
    var x, y := k * d, q * d;
    assert 0 <= x;
    SmallWrap(n - x);
    if x <= n {
      Below(k, q, d, n);
    }
    OneLess(q, d);
    assert k == q ==> x == y;
    assert k == q - 1 ==> x == (q - 1) * d;
  }

  lemma OneLess(q: int, d: int)
    ensures (q - 1) * d == q * d - d
  {
  }

  lemma TooLarge(x: int, q: int, d: int, n: int)
    requires 0 < d && x * d > n && q * d <= n
    ensures q < x
  {
    assert q >= x ==> q * d >= x * d;
  }

  /** A divisor below 2^32 or from 2^34 on, or a dividend below 2^62, is always divided exactly. */
  lemma DivisionSafe(dividend: int, divisor: int)
    requires 0 <= dividend < TWO64 && 0 < divisor < TWO64
    requires divisor < TWO32 || 0x4_0000_0000 <= divisor || dividend < 0x4000_0000_0000_0000
    ensures Quotient64(dividend, divisor) == dividend / divisor
  {
    if TWO32 <= divisor {
      hide Estimate, Quotient64;
      Overshoot(dividend, divisor);
      DivisionExact(dividend, divisor);
    }
  }

  /** Outside these ranges the division can be wrong. */
  lemma DivisionCanFail()
    ensures Quotient64(TWO64 - 1, TWO32 + 3) != (TWO64 - 1) / (TWO32 + 3)
  {
    assert BitLen(1) == 1 && BitLen(0) == 0;
    assert (TWO32 + 3) / TWO32 == 1;
    assert Pow(2, 2) == 4;
    assert Scale(TWO32 + 3) == 4;
    assert (TWO32 + 3) / 4 == 0x4000_0000 && (TWO64 - 1) / 4 == 0x3FFF_FFFF_FFFF_FFFF;
    assert Estimate(TWO64 - 1, TWO32 + 3) == 0x3FFF_FFFF_FFFF_FFFF / 0x4000_0000 == 0xFFFF_FFFF;
    DivisionExact(TWO64 - 1, TWO32 + 3);
  }
}
