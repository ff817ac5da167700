/** The hash functions of the match finder: what equal hashes say about the bytes that were hashed. */
module LzHash {
  import opened Primitives

  const HASH2_SIZE: int := 0x400
  const HASH3_SIZE: int := 0x1_0000
  const FIX3: int := HASH2_SIZE
  const FIX4: int := HASH2_SIZE + HASH3_SIZE

  /** Bitwise exclusive or of two natural numbers. */
  function Xor(x: nat, y: nat): nat
    decreases x + y
  {
    if x == 0 && y == 0 then 0 else (x + y) % 2 + 2 * Xor(x / 2, y / 2)
  }

  lemma {:induction false} XorInjective(x: nat, a: nat, b: nat, n: nat)
    requires LowBits(Xor(x, a), n) == LowBits(Xor(x, b), n)
    ensures LowBits(a, n) == LowBits(b, n)
    decreases n
  {
    hide Xor, LowBits;
    if 0 < n {
      XorHalves(x, a);
      XorHalves(x, b);
      LowParity(Xor(x, a), n);
      LowParity(Xor(x, b), n);
      LowParity(a, n);
      LowParity(b, n);
      SameParity(x, a, b);
      XorInjective(x / 2, a / 2, b / 2, n - 1);
    } else {
      NoBits(a);
      NoBits(b);
    }
  }

  lemma NoBits(x: nat)
    ensures LowBits(x, 0) == 0
  {
  }

  lemma XorHalves(x: nat, y: nat)
    ensures Xor(x, y) % 2 == (x + y) % 2 && Xor(x, y) / 2 == Xor(x / 2, y / 2)
  {
    var q := Xor(x / 2, y / 2);
    assert Xor(x, y) == (x + y) % 2 + 2 * q;
    hide Xor;
    Digit(q, (x + y) % 2);
  }

  lemma Digit(q: nat, r: nat)
    requires r < 2
    ensures (r + 2 * q) % 2 == r && (r + 2 * q) / 2 == q
  {
  }

  lemma LowParity(x: nat, n: nat)
    requires 0 < n
    ensures LowBits(x, n) % 2 == x % 2 && LowBits(x, n) / 2 == LowBits(x / 2, n - 1)
  {
    Digit(LowBits(x / 2, n - 1), x % 2);
  }

  lemma SameParity(x: nat, a: nat, b: nat)
    requires (x + a) % 2 == (x + b) % 2
    ensures a % 2 == b % 2
  {
  }

  // Bits above n do not reach the n low bits of the exclusive or.
  lemma {:induction false} XorHigh(x: nat, y: nat, n: nat)
    ensures LowBits(Xor(x, Pow(2, n) * y), n) == LowBits(x, n)
    decreases n
  {
    hide Xor, LowBits, Pow;
    if 0 < n {
      PowerHalves(n, y);
      XorHalves(x, Pow(2, n) * y);
      LowParity(Xor(x, Pow(2, n) * y), n);
      LowParity(x, n);
      SameParity(x, Pow(2, n) * y, 0);
      XorHigh(x / 2, y, n - 1);
    } else {
      NoBits(x);
      NoBits(Xor(x, Pow(2, n) * y));
    }
  }

  lemma PowerHalves(n: nat, y: nat)
    requires 0 < n
    ensures Pow(2, n) * y % 2 == 0 && Pow(2, n) * y / 2 == Pow(2, n - 1) * y
  {
    MulAssoc(2, Pow(2, n - 1), y);
  }

  // ---------- the hash values ----------

  predicate WfCrc(crc: seq<u32>) {
    |crc| == 256
  }

  function Temp2(crc: seq<u32>, c0: byte, c1: byte): nat
    requires WfCrc(crc)
  {
    Xor(crc[c0], c1)
  }

  function Temp3(crc: seq<u32>, c0: byte, c1: byte, c2: byte): nat
    requires WfCrc(crc)
  {
    Xor(Temp2(crc, c0, c1), 0x100 * c2)
  }

  function Head2(crc: seq<u32>, c0: byte, c1: byte): (h: nat)
    requires WfCrc(crc)
    ensures h < HASH2_SIZE
  {
    AndAtMost(Temp2(crc, c0, c1), HASH2_SIZE - 1);
    And(Temp2(crc, c0, c1), HASH2_SIZE - 1)
  }

  function Head3(crc: seq<u32>, c0: byte, c1: byte, c2: byte): (h: nat)
    requires WfCrc(crc)
    ensures h < HASH3_SIZE
  {
    AndAtMost(Temp3(crc, c0, c1, c2), HASH3_SIZE - 1);
    And(Temp3(crc, c0, c1, c2), HASH3_SIZE - 1)
  }

  function Pair(c0: byte, c1: byte): (h: nat)
    ensures h < 0x1_0000
  {
    c0 + 0x100 * c1
  }

  function Main3(crc: seq<u32>, mask: nat, c0: byte, c1: byte, c2: byte): (h: nat)
    requires WfCrc(crc)
    ensures h <= mask
  {
    AndAtMost(Temp3(crc, c0, c1, c2), mask);
    And(Temp3(crc, c0, c1, c2), mask)
  }

  function Main4(crc: seq<u32>, mask: nat, c0: byte, c1: byte, c2: byte, c3: byte): (h: nat)
    requires WfCrc(crc)
    ensures h <= mask
  {
    var temp := Xor(Temp3(crc, c0, c1, c2), crc[c3] * 32 % TWO32);
    AndAtMost(temp, mask);
    And(temp, mask)
  }

  // ---------- what equal hashes mean ----------

  lemma MaskIsLow(x: nat, n: nat)
    ensures 0 < Pow(2, n) && And(x, Pow(2, n) - 1) == LowBits(x, n)
  {
    AndLowBits(x, n);
  }

  lemma Powers()
    ensures Pow(2, 8) == 0x100 && Pow(2, 10) == 0x400 && Pow(2, 16) == 0x1_0000
  {
    assert Pow(2, 8) == 0x100 && Pow(2, 2) == 4;
    PowAdd(2, 8, 2);
    PowAdd(2, 8, 8);
  }

  lemma LowOfSmall(x: nat, n: nat)
    requires x < Pow(2, n)
    ensures LowBits(x, n) == x
  {
    LowBitsIsMod(x, n);
  }

  lemma {:induction false} LowerStill(x: nat, m: nat, n: nat)
    requires m <= n
    ensures LowBits(LowBits(x, n), m) == LowBits(x, m)
    decreases m
  {
    if 0 < m {
      LowParity(x, n);
      LowerStill(x / 2, m - 1, n - 1);
    }
  }

  /** Whatever the table: after the same first byte, the two-byte hash determines the second. */
  lemma Head2Determines(crc: seq<u32>, c0: byte, a: byte, b: byte)
    requires WfCrc(crc)
    ensures Head2(crc, c0, a) == Head2(crc, c0, b) <==> a == b
  {
    if Head2(crc, c0, a) == Head2(crc, c0, b) {
      Powers();
      hide And, Xor, LowBits, Pow;
      MaskIsLow(Temp2(crc, c0, a), 10);
      MaskIsLow(Temp2(crc, c0, b), 10);
      XorInjective(crc[c0], a, b, 10);
      LowOfSmall(a, 10);
      LowOfSmall(b, 10);
    }
  }

  /** After the same first byte, the three-byte hash determines the second and the third. */
  lemma Head3Determines(crc: seq<u32>, c0: byte, a: byte, a': byte, b: byte, b': byte)
    requires WfCrc(crc)
    ensures Head3(crc, c0, a, a') == Head3(crc, c0, b, b') <==> a == b && a' == b'
  {
    if Head3(crc, c0, a, a') == Head3(crc, c0, b, b') {
      Powers();
      hide And, Xor, LowBits, Pow;
      var x, y := Temp2(crc, c0, a), Temp2(crc, c0, b);
      MaskIsLow(Temp3(crc, c0, a, a'), 16);
      MaskIsLow(Temp3(crc, c0, b, b'), 16);
      SecondFirst(crc[c0], a, a', b, b');
      XorInjective(x, 0x100 * a', 0x100 * b', 16);
      LowOfSmall(0x100 * a', 16);
      LowOfSmall(0x100 * b', 16);
    }
  }

  lemma SecondFirst(t: nat, a: byte, a': byte, b: byte, b': byte)
    requires LowBits(Xor(Xor(t, a), 0x100 * a'), 16) == LowBits(Xor(Xor(t, b), 0x100 * b'), 16)
    ensures a == b
  {
    Powers();
    hide Xor, LowBits, Pow;
    var x, y := Xor(t, a), Xor(t, b);
    LowerStill(Xor(x, 0x100 * a'), 8, 16);
    LowerStill(Xor(y, 0x100 * b'), 8, 16);
    XorHigh(x, a', 8);
    XorHigh(y, b', 8);
    XorInjective(t, a, b, 8);
    LowOfSmall(a, 8);
    LowOfSmall(b, 8);
  }
}
