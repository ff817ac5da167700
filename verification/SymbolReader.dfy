/** The parts of one symbol: literal, length, distance, each decoded in place and tied to the grammar. */
module SymbolReader {
  import opened Primitives
  import opened RangeCoder
  import opened SymbolCode
  import opened SymbolRun
  import opened BitReader

  method DecodeLiteral(probs: array<int>, lit: int, input: seq<byte>, r: Regs, ghost cx: Ctx, ghost goal: Outcome)
    returns (b: int, n: Regs)
    requires Going(probs[..], input, r, cx, Plain(1), goal) && lit == cx.lit
    modifies probs
    ensures Going(probs[..], input, n, cx, Done(Lit(b)), goal)
  {
    hide Going;
    var symbol := 1;
    n := r;
    while symbol < 0x100
      invariant 1 <= symbol < 0x200
      invariant Going(probs[..], input, n, cx, if symbol < 0x100 then Plain(symbol) else Done(Lit(symbol - 0x100)), goal)
      decreases 0x200 - symbol
    {
      var bit;
      bit, n := GetBit(probs, lit + symbol, input, n, cx, Plain(symbol), goal);
      symbol := symbol + symbol + if bit then 1 else 0;
    }
    b := symbol % 0x100;
  }

  lemma AndBit8(y: nat)
    ensures And(y, 256) == if y / 256 % 2 == 1 then 256 else 0
  {
    hide And;
    assert Pow(2, 8) == 256 && Pow(2, 9) == 512;
    AndBand(y, 9, 8);
    Bit8(y);
  }

  lemma Bit8(y: nat)
    ensures y % 512 - y % 256 == if y / 256 % 2 == 1 then 256 else 0
  {
  }

  // The other half of the table is used as long as the decoded bits repeat those of matchByte.
  method DecodeMatchedLiteral(probs: array<int>, lit: int, matched: int, input: seq<byte>, r: Regs, ghost cx: Ctx,
      ghost goal: Outcome)
    returns (b: int, n: Regs)
    requires Going(probs[..], input, r, cx, Matched(1, matched, 0x100), goal) && lit == cx.lit && 0 <= matched
    modifies probs
    ensures Going(probs[..], input, n, cx, Done(Lit(b)), goal)
  {
    hide Going;
    var symbol, matchByte, offs := 1, matched, 0x100;
    n := r;
    while symbol < 0x100
      invariant 1 <= symbol < 0x200 && 0 <= matchByte && (offs == 0 || offs == 0x100)
      invariant Going(probs[..], input, n, cx, if symbol < 0x100 then Matched(symbol, matchByte, offs) else Done(Lit(symbol - 0x100)), goal)
      decreases 0x200 - symbol
    {
      ghost var pc := Matched(symbol, matchByte, offs);
      matchByte := matchByte + matchByte;
      var mask := offs;
      AndBit8(matchByte);
      offs := And(matchByte, offs);
      var bit;
      bit, n := GetBit(probs, lit + (offs + mask + symbol), input, n, cx, pc, goal);
      if bit {
        symbol := symbol + symbol + 1;
      } else {
        symbol := symbol + symbol;
        offs := mask - offs;
      }
    }
    b := symbol % 0x100;
  }

  method DecodeLenTree(probs: array<int>, k: Kind, off: int, lim: int, add: int, input: seq<byte>, r: Regs, ghost cx: Ctx,
      ghost goal: Outcome)
    returns (len: int, n: Regs)
    requires Going(probs[..], input, r, cx, LenTree(k, off, lim, add, 1), goal)
    modifies probs
    ensures 0 <= len < 272 && Going(probs[..], input, n, cx, AfterLen(k, len), goal)
  {
    hide Going;
    GoingWf(probs[..], input, r, cx, LenTree(k, off, lim, add, 1), goal);
    var i := 1;
    ghost var pc := LenTree(k, off, lim, add, 1);
    n := r;
    while i < lim
      invariant 1 <= i < 2 * lim
      invariant pc == if i < lim then LenTree(k, off, lim, add, i) else AfterLen(k, i - lim + add)
      invariant Going(probs[..], input, n, cx, pc, goal)
      decreases 2 * lim - i
    {
      var bit;
      bit, n := GetBit(probs, LenBase(k) + off + i, input, n, cx, pc, goal);
      pc := Step(cx, pc, bit);
      i := i + i + if bit then 1 else 0;
    }
    len := i - lim + add;
  }

  lemma GoingWf(probs: seq<int>, input: seq<byte>, r: Regs, cx: Ctx, pc: Pc, goal: Outcome)
    requires Going(probs, input, r, cx, pc, goal)
    ensures WfPc(cx, pc) && WfCtx(cx, |probs|)
  {
  }

  method DecodeLen(probs: array<int>, k: Kind, posState: int, input: seq<byte>, r: Regs, ghost cx: Ctx, ghost goal: Outcome)
    returns (len: int, n: Regs)
    requires Going(probs[..], input, r, cx, LenChoice(k), goal) && posState == cx.posState
    modifies probs
    ensures 0 <= len < 272 && Going(probs[..], input, n, cx, AfterLen(k, len), goal)
  {
    hide Going;
    var bit;
    bit, n := GetBit(probs, LenBase(k), input, r, cx, LenChoice(k), goal);
    if !bit {
      len, n := DecodeLenTree(probs, k, posState, 8, 0, input, n, cx, goal);
    } else {
      bit, n := GetBit(probs, LenBase(k) + LEN_CHOICE2, input, n, cx, LenChoice2(k), goal);
      if !bit {
        len, n := DecodeLenTree(probs, k, posState + 8, 8, 8, input, n, cx, goal);
      } else {
        len, n := DecodeLenTree(probs, k, LEN_HIGH, 256, 16, input, n, cx, goal);
      }
    }
  }

  method DecodeSlot(probs: array<int>, len: int, input: seq<byte>, r: Regs, ghost cx: Ctx, ghost goal: Outcome)
    returns (slot: int, n: Regs)
    requires Going(probs[..], input, r, cx, Slot(len, 1), goal)
    modifies probs
    ensures 0 <= slot < 64 && Going(probs[..], input, n, cx, AfterSlot(len, slot), goal)
  {
    hide Going;
    var i := 1;
    n := r;
    while i < 64
      invariant 1 <= i < 128
      invariant Going(probs[..], input, n, cx, if i < 64 then Slot(len, i) else AfterSlot(len, i - 64), goal)
      decreases 128 - i
    {
      var bit;
      bit, n := GetBit(probs, POS_SLOT + (if len < 4 then len else 3) * 64 + i, input, n, cx, Slot(len, i), goal);
      i := i + i + if bit then 1 else 0;
    }
    slot := i - 64;
  }

  lemma SpecialFits(probs: seq<int>, input: seq<byte>, r: Regs, cx: Ctx, len: int, base: int, bits: int, goal: Outcome)
    requires Going(probs, input, r, cx, Special(len, base, 1, 1, bits), goal)
    ensures 1 <= bits <= 5
  {
  }

  lemma AtSpecial(cx: Ctx, len: int, base: int, m: int, i: int, n: int)
    requires WfPc(cx, Special(len, base, m, i, n))
    ensures SlotQuery(cx, Special(len, base, m, i, n)) == Model(SPEC_POS + base + i)
  {
  }

  lemma FromSpecial(cx: Ctx, len: int, base: int, m: int, i: int, n: int, bit: bool)
    requires WfPc(cx, Special(len, base, m, i, n))
    ensures Step(cx, Special(len, base, m, i, n), bit)
            == var j := i + if bit then 2 * m else m;
               if n > 1 then Special(len, base, 2 * m, j, n - 1) else Done(Match(base + j - 2 * m, len))
  {
  }

  lemma AtAlign(cx: Ctx, len: int, dist: int, m: int, i: int)
    requires WfPc(cx, AlignBits(len, dist, m, i))
    ensures SlotQuery(cx, AlignBits(len, dist, m, i)) == Model(ALIGN + i)
  {
  }

  lemma FromAlign(cx: Ctx, len: int, dist: int, m: int, i: int, bit: bool)
    requires WfPc(cx, AlignBits(len, dist, m, i))
    ensures Step(cx, AlignBits(len, dist, m, i), bit)
            == if m < 8 then AlignBits(len, dist, 2 * m, i + if bit then 2 * m else m)
               else Done(Match(dist + if bit then i else i - 8, len))
  {
  }

  // Where bit leads from a point of the tree of near distances.
  function NextSpecial(len: int, base: int, m: int, i: int, n: int, bit: bool): Pc {
    var j := i + if bit then 2 * m else m;
    if n > 1 then Special(len, base, 2 * m, j, n - 1) else Done(Match(base + j - 2 * m, len))
  }

  method SpecialBit(probs: array<int>, ghost len: int, base: int, ghost m: int, i: int, ghost left: int, input: seq<byte>,
      r: Regs, ghost cx: Ctx, ghost goal: Outcome)
    returns (bit: bool, n: Regs)
    requires Going(probs[..], input, r, cx, Special(len, base, m, i, left), goal)
    modifies probs
    ensures Going(probs[..], input, n, cx, NextSpecial(len, base, m, i, left, bit), goal)
  {
    hide Going, WfPc, Step, SlotQuery;
    ghost var pc := Special(len, base, m, i, left);
    GoingWf(probs[..], input, r, cx, pc, goal);
    AtSpecial(cx, len, base, m, i, left);
    bit, n := GetBit(probs, SPEC_POS + base + i, input, r, cx, pc, goal);
    FromSpecial(cx, len, base, m, i, left, bit);
  }

  // The low bits of a near distance, least significant first, each with its own adapting probability.
  method DecodeSpecial(probs: array<int>, len: int, base: int, bits: int, input: seq<byte>, r: Regs, ghost cx: Ctx,
      ghost goal: Outcome)
    returns (distance: int, n: Regs)
    requires Going(probs[..], input, r, cx, Special(len, base, 1, 1, bits), goal)
    modifies probs
    ensures 0 <= distance < TWO32 && Going(probs[..], input, n, cx, Done(Match(distance, len)), goal)
  {
    hide Going;
    SpecialFits(probs[..], input, r, cx, len, base, bits, goal);
    var m, numDirectBits := 1, bits;
    distance := base + 1;
    n := r;
    while 0 < numDirectBits
      invariant 0 <= numDirectBits <= bits
      invariant Going(probs[..], input, n, cx,
                      if 0 < numDirectBits then Special(len, base, m, distance - base, numDirectBits) else Done(Match(distance - m, len)), goal)
    {
      var bit;
      bit, n := SpecialBit(probs, len, base, m, distance - base, numDirectBits, input, n, cx, goal);
      if bit {
        m := m + m;
        distance := distance + m;
      } else {
        distance := distance + m;
        m := m + m;
      }
      numDirectBits := numDirectBits - 1;
    }
    distance := distance - m;
    MatchFits(probs[..], input, n, cx, len, distance, goal);
  }

  method DecodeFar(probs: array<int>, len: int, top: int, bits: int, input: seq<byte>, r: Regs, ghost cx: Ctx,
      ghost goal: Outcome)
    returns (distance: int, n: Regs)
    requires Going(probs[..], input, r, cx, Direct(len, top, bits), goal)
    modifies probs
    ensures 0 <= distance < TWO32 && Going(probs[..], input, n, cx, Done(Match(distance, len)), goal)
  {
    hide Going;
    GoingWf(probs[..], input, r, cx, Direct(len, top, bits), goal);
    var numDirectBits := bits;
    distance := top;
    n := r;
    while 0 < numDirectBits
      invariant 0 <= numDirectBits <= bits
      invariant Going(probs[..], input, n, cx,
                      if 0 < numDirectBits then Direct(len, distance, numDirectBits) else AlignBits(len, 16 * distance, 1, 1), goal)
    {
      distance, n := GetDirectBit(probs[..], input, n, distance, cx, Direct(len, distance, numDirectBits), goal);
      numDirectBits := numDirectBits - 1;
    }
    distance, n := DecodeAlign(probs, len, distance, input, n, cx, goal);
  }

  lemma AlignFits(probs: seq<int>, input: seq<byte>, r: Regs, cx: Ctx, len: int, high: int, goal: Outcome)
    requires Going(probs, input, r, cx, AlignBits(len, 16 * high, 1, 1), goal)
    ensures 0 <= high * 16 <= TWO32 - 16 && high * 16 % TWO32 == high * 16
  {
  }

  lemma MatchFits(probs: seq<int>, input: seq<byte>, r: Regs, cx: Ctx, len: int, distance: int, goal: Outcome)
    requires Going(probs, input, r, cx, Done(Match(distance, len)), goal)
    ensures 0 <= distance < TWO32
  {
  }

  function NextAlign(len: int, dist: int, m: int, i: int, bit: bool): Pc {
    if m < 8 then AlignBits(len, dist, 2 * m, i + if bit then 2 * m else m) else Done(Match(dist + if bit then i else i - 8, len))
  }

  method AlignBit(probs: array<int>, ghost len: int, ghost dist: int, ghost m: int, i: int, input: seq<byte>, r: Regs,
      ghost cx: Ctx, ghost goal: Outcome)
    returns (bit: bool, n: Regs)
    requires Going(probs[..], input, r, cx, AlignBits(len, dist, m, i), goal)
    modifies probs
    ensures Going(probs[..], input, n, cx, NextAlign(len, dist, m, i, bit), goal)
  {
    hide Going, WfPc, Step, SlotQuery;
    ghost var pc := AlignBits(len, dist, m, i);
    GoingWf(probs[..], input, r, cx, pc, goal);
    AtAlign(cx, len, dist, m, i);
    bit, n := GetBit(probs, ALIGN + i, input, r, cx, pc, goal);
    FromAlign(cx, len, dist, m, i, bit);
  }

  // The four lowest bits of a far distance, least significant first.
  method DecodeAlign(probs: array<int>, len: int, high: int, input: seq<byte>, r: Regs, ghost cx: Ctx, ghost goal: Outcome)
    returns (distance: int, n: Regs)
    requires Going(probs[..], input, r, cx, AlignBits(len, 16 * high, 1, 1), goal)
    modifies probs
    ensures 0 <= distance < TWO32 && Going(probs[..], input, n, cx, Done(Match(distance, len)), goal)
  {
    hide Going;
    AlignFits(probs[..], input, r, cx, len, high, goal);
    var i, m := 1, 1;
    n := r;
    while m < 8
      invariant m == 1 || m == 2 || m == 4 || m == 8
      invariant Going(probs[..], input, n, cx, AlignBits(len, 16 * high, m, i), goal)
      decreases 8 - m
    {
      var bit;
      bit, n := AlignBit(probs, len, 16 * high, m, i, input, n, cx, goal);
      i := i + if bit then m * 2 else m;
      m := m + m;
    }
    var last;
    last, n := AlignBit(probs, len, 16 * high, 8, i, input, n, cx, goal);
    if !last {
      i := i - 8;
    }
    distance := high * 16 % TWO32 + i;
    MatchFits(probs[..], input, n, cx, len, distance, goal);
  }

  method DecodeDistance(probs: array<int>, len: int, input: seq<byte>, r: Regs, ghost cx: Ctx, ghost goal: Outcome)
    returns (distance: int, n: Regs)
    requires Going(probs[..], input, r, cx, Slot(len, 1), goal)
    modifies probs
    ensures 0 <= distance < TWO32 && Going(probs[..], input, n, cx, Done(Match(distance, len)), goal)
  {
    hide Going;
    distance, n := DecodeSlot(probs, len, input, r, cx, goal);
    if distance >= 4 {
      var posSlot := distance;
      var numDirectBits := distance / 2 - 1;
      distance := 2 + distance % 2;
      if posSlot < 14 {
        distance, n := DecodeSpecial(probs, len, Scale(distance, numDirectBits), numDirectBits, input, n, cx, goal);
      } else {
        distance, n := DecodeFar(probs, len, distance, numDirectBits - 4, input, n, cx, goal);
      }
    }
  }

  // Which of the last four distances is repeated, or -1 for a single repeated byte.
  method DecodeRepIndex(probs: array<int>, state: int, posState: int, input: seq<byte>, r: Regs, ghost cx: Ctx,
      ghost goal: Outcome)
    returns (k: int, n: Regs)
    requires Going(probs[..], input, r, cx, IsRepG0, goal) && state == cx.state && posState == cx.posState
    modifies probs
    ensures -1 <= k < 4
    ensures Going(probs[..], input, n, cx, if k == -1 then Done(ShortRep) else LenChoice(AsRep(k)), goal)
  {
    hide Going;
    var bit;
    bit, n := GetBit(probs, IS_REP_G0 + state, input, r, cx, IsRepG0, goal);
    if !bit {
      bit, n := GetBit(probs, IS_REP0_LONG + posState + state, input, n, cx, IsRep0Long, goal);
      k := if bit then 0 else -1;
    } else {
      bit, n := GetBit(probs, IS_REP_G1 + state, input, n, cx, IsRepG1, goal);
      if !bit {
        k := 1;
      } else {
        bit, n := GetBit(probs, IS_REP_G2 + state, input, n, cx, IsRepG2, goal);
        k := if bit then 3 else 2;
      }
    }
  }
}
