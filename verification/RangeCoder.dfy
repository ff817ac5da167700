/**
 The adaptive binary range decoder: one normalisation, one modelled bit and one direct bit,
 on 32-bit values with explicit wrap-around.
 */
module RangeCoder {
  import opened Primitives

  // Every renormalised range is at least TOP.
  const TOP: int := 0x100_0000

  // Probabilities are 11-bit; a fresh one is half of BIT_MODEL_TOTAL.
  const BIT_MODEL_TOTAL: int := 2048
  const PROB_INIT: int := 1024
  const PROB_MIN: int := 31
  const PROB_MAX: int := 2017

  // The smallest range that one shift by 8 bits renormalises.
  const RAW_MIN: int := 0x1_0000

  datatype Coder = Coder(range: int, code: int, probs: seq<int>, inp: seq<byte>)

  datatype Normed = Starved | Normal(rc: Coder)

  datatype Decoded = NoByte | Decoded(bit: bool, rc: Coder)

  function Normalize(rc: Coder): Normed {
    if rc.range < TOP then
      if |rc.inp| == 0 then Starved
      else Normal(rc.(range := rc.range * 256, code := (rc.code * 256 + rc.inp[0]) % TWO32, inp := rc.inp[1..]))
    else
      Normal(rc)
  }

  function Raise(p: int): int {
    p + (BIT_MODEL_TOTAL - p) / 32
  }

  function Lower(p: int): int {
    p - p / 32
  }

  function Bound(range: int, p: int): int {
    (range / 2048) * p
  }

  function ModelBit(rc: Coder, i: int): Decoded
    requires 0 <= i < |rc.probs|
  {
    match Normalize(rc)
    case Starved => NoByte
    case Normal(n) =>
      var bound := Bound(n.range, n.probs[i]);
      if n.code < bound then
        Decoded(false, n.(range := bound, probs := n.probs[i := Raise(n.probs[i])]))
      else
        Decoded(true, n.(range := n.range - bound, code := n.code - bound, probs := n.probs[i := Lower(n.probs[i])]))
  }

  // The branch-free step: the sign bit of the wrapped difference selects what is added back.
  function DirectStep(range: int, code: int): (bool, int) {
    var diff := (code - range) % TWO32;
    var t := (0 - diff / 0x8000_0000) % TWO32;
    (t == 0, (diff + if t == 0 then 0 else range) % TWO32)
  }

  function DirectBit(rc: Coder): Decoded {
    match Normalize(rc)
    case Starved => NoByte
    case Normal(n) =>
      var half := n.range / 2;
      var (bit, code) := DirectStep(half, n.code);
      Decoded(bit, n.(range := half, code := code))
  }

  predicate GoodProb(p: int) {
    PROB_MIN <= p <= PROB_MAX
  }

  predicate GoodProbs(probs: seq<int>) {
    forall i :: 0 <= i < |probs| ==> GoodProb(probs[i])
  }

  // What holds between two bits: one shift is enough to renormalise.
  predicate Raw(rc: Coder) {
    RAW_MIN <= rc.range < TWO32 && 0 <= rc.code < TWO32 && GoodProbs(rc.probs)
  }

  predicate Canonical(rc: Coder) {
    Raw(rc) && TOP <= rc.range
  }

  lemma BoundBounds(range: int, p: int)
    requires TOP <= range < TWO32 && GoodProb(p)
    ensures range <= 67 * Bound(range, p)
    ensures range <= 67 * (range - Bound(range, p))
    ensures RAW_MIN <= Bound(range, p) <= range - RAW_MIN
  {
    MulBetween(range / 2048, p);
    BoundFits(range, Bound(range, p));
  }

  lemma MulBetween(q: nat, p: int)
    requires GoodProb(p)
    ensures 31 * q <= q * p <= 2017 * q
  {
    assert 0 <= q * (p - 31);
    assert 0 <= q * (2017 - p);
  }

  lemma BoundFits(range: int, bound: int)
    requires TOP <= range < TWO32
    requires 31 * (range / 2048) <= bound <= 2017 * (range / 2048)
    ensures range <= 67 * bound && range <= 67 * (range - bound)
    ensures RAW_MIN <= bound <= range - RAW_MIN
  {
    var q, r := range / 2048, range % 2048;
    assert range == 2048 * q + r;
    assert 8192 <= q;
  }

  /** One shift by 8 bits always renormalises, and no 32-bit range overflows. */
  lemma NormalizeOnce(rc: Coder)
    requires Raw(rc)
    ensures match Normalize(rc)
            case Starved => rc.range < TOP && rc.inp == []
            case Normal(n) => Canonical(n) && Normalize(n) == Normal(n) && n.probs == rc.probs
                              && (rc.code < rc.range ==> n.code < n.range)
  {
  }

  /**
   The probability band is closed under both updates: it is never left once entered. Both move by a thirty-second of the way
   that is left, in whole steps, and stand still only at the ends of the band.
   */
  lemma ProbBandClosed(p: int)
    requires GoodProb(p)
    ensures GoodProb(Raise(p)) && GoodProb(Lower(p))
    ensures 32 * (Raise(p) - p) <= 2048 - p < 32 * (Raise(p) - p + 1) && 32 * (p - Lower(p)) <= p < 32 * (p - Lower(p) + 1)
    ensures (Raise(p) == p <==> p == 2017) && (Lower(p) == p <==> p == 31)
  {
  }

  /** A modelled bit keeps the coder invariant, shrinks the range by less than 67, and keeps code below range. */
  lemma ModelBitInvariant(rc: Coder, i: int)
    requires Raw(rc) && 0 <= i < |rc.probs|
    ensures match ModelBit(rc, i)
            case NoByte => rc.range < TOP && rc.inp == []
            case Decoded(_, r) => Raw(r) && |r.probs| == |rc.probs| && Normalize(rc).Normal?
                                  && r.inp == Normalize(rc).rc.inp
                                  && Normalize(rc).rc.range <= 67 * r.range
                                  && (rc.code < rc.range ==> r.code < r.range)
  {
    NormalizeOnce(rc);
    match Normalize(rc)
    case Starved =>
    case Normal(n) =>
      BoundBounds(n.range, n.probs[i]);
      ProbBandClosed(n.probs[i]);
  }

  /** The branch-free direct-bit step is compare-and-subtract exactly when the difference fits in 31 bits. */
  lemma DirectStepIsCompare(range: int, code: int)
    requires 0 <= range < 0x8000_0000 && 0 <= code < TWO32
    ensures DirectStep(range, code) == (code >= range, if code >= range then code - range else code)
            <==> code < range + 0x8000_0000
  {
    if code < range {
      assert (code - range) % TWO32 == code - range + TWO32;
    } else {
      assert (code - range) % TWO32 == code - range;
    }
  }

  /**
   A direct bit keeps the coder invariant and halves the range; on code < range it is compare-and-subtract,
   and code stays below range except in the one case of an odd range with code == range - 1.
   */
  lemma DirectBitInvariant(rc: Coder)
    requires Raw(rc)
    ensures match DirectBit(rc)
            case NoByte => rc.range < TOP && rc.inp == []
            case Decoded(bit, r) =>
              Raw(r) && r.probs == rc.probs && Normalize(rc).Normal?
              && var n := Normalize(rc).rc;
              r.inp == n.inp && r.range == n.range / 2 && n.range * 1024 <= 2049 * r.range
              && (rc.code < rc.range ==>
                    n.code < n.range
                    && bit == (n.code >= r.range) && r.code == (if bit then n.code - r.range else n.code)
                    && r.code <= r.range
                    && (r.code == r.range <==> n.range % 2 == 1 && n.code == n.range - 1))
  {
    NormalizeOnce(rc);
    match Normalize(rc)
    case Starved =>
    case Normal(n) =>
      DirectStepIsCompare(n.range / 2, n.code);
  }
}
