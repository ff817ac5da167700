/** Rounding an address up to a power of two. */
module Alignment {
  import opened Primitives

  // ALIGN_VALUE, in 32 bits
  function AlignValue(v: nat, alignment: nat): nat {
    (v + And((alignment - v) % TWO32, (alignment - 1) % TWO32)) % TWO32
  }

  lemma PlaceIs(v: nat, k: nat)
    requires k < 32 && v + Pow(2, k) <= TWO32
    ensures 0 < Pow(2, k) && AlignValue(v, Pow(2, k)) == v + (Pow(2, k) - v) % Pow(2, k)
  {
    hide Pow, And, AlignValue;
    PowPositive(2, k);
    PowTwo32();
    PowMonotone(2, k, 31);
    var a := Pow(2, k);
    MaskIs(a - v, k);
    PlaceOf(v, a);
  }

  // Masking a 32-bit difference with a power of two less one takes its remainder.
  lemma MaskIs(d: int, k: nat)
    requires k < 32
    ensures 0 < Pow(2, k) && And(d % TWO32, Pow(2, k) - 1) == d % Pow(2, k)
  {
    hide Pow, And, LowBits;
    PowPositive(2, k);
    PowPositive(2, 32 - k);
    PowTwo32();
    AndLowBits(d % TWO32, k);
    LowBitsIsMod(d % TWO32, k);
    PowAdd(2, 32 - k, k);
    assert (32 - k) + k == 32;
    ModMod(d, Pow(2, 32 - k), Pow(2, k));
  }

  lemma PlaceOf(v: nat, a: nat)
    requires 0 < a < TWO32 && v + a <= TWO32 && And((a - v) % TWO32, a - 1) == (a - v) % a
    ensures AlignValue(v, a) == v + (a - v) % a
  {
    hide And;
    var y := (a - v) % a;
    RemainderBelow(a - v, a);
    assert (a - 1) % TWO32 == a - 1;
    assert 0 <= v + y < TWO32;
  }

  lemma RemainderBelow(x: int, a: int)
    requires 0 < a
    ensures 0 <= x % a < a
  {
  }

  lemma AlignUp(v: int, a: int)
    requires 0 < a
    ensures (v + (a - v) % a) % a == 0 && 0 <= (a - v) % a < a
  {
    var q := (a - v) / a;
    assert a - v == a * q + (a - v) % a;
    assert v + (a - v) % a == a * (1 - q);
    ModUnique(v + (a - v) % a, a, 1 - q, 0);
  }
}
