/**
 The look-ahead decoder: walks one symbol without touching the probabilities and reports when the input ends inside it.
 Written out a second time as in the source, with its own index arithmetic and its own check before every byte.
 */
module LookAhead {
  import opened Primitives
  import opened RangeCoder
  import opened SymbolCode
  import opened SymbolRun
  import opened BitReader
  import opened SymbolReader

  // Looking ahead from pc with these registers has the given outcome, possibly an incomplete symbol.
  ghost predicate Scouting(probs: seq<int>, input: seq<byte>, r: Regs, cx: Ctx, pc: Pc, goal: Outcome) {
    && 0 <= r.pos <= |input|
    && Raw(CoderAt(probs, input, r)) && WfCtx(cx, |probs|) && WfPc(cx, pc)
    && Peek(cx, pc, CoderAt(probs, input, r)) == goal
  }

  // Where a check leaves off: further on, or at the end of the input inside the symbol.
  ghost predicate Scouted(ok: bool, probs: seq<int>, input: seq<byte>, r: Regs, cx: Ctx, pc: Pc, goal: Outcome) {
    if ok then Scouting(probs, input, r, cx, pc, goal) else goal == Incomplete
  }

  lemma ScoutAsk(probs: seq<int>, input: seq<byte>, r: Regs, cx: Ctx, pc: Pc, goal: Outcome)
    requires Scouting(probs, input, r, cx, pc, goal) && !pc.Done?
    ensures var d := Ask(cx, pc, CoderAt(probs, input, r));
            if d.NoByte? then
              goal == Incomplete && Normalize(CoderAt(probs, input, r)).Starved?
            else
              && WfPc(cx, Step(cx, pc, d.bit)) && Raw(d.rc) && |d.rc.probs| == |probs|
              && Peek(cx, Step(cx, pc, d.bit), d.rc.(probs := probs)) == goal
  {
    var rc := CoderAt(probs, input, r);
    AskKeeps(cx, pc, rc);
    var d := Ask(cx, pc, rc);
    if d.NoByte? {
      AskStarves(cx, pc, rc);
    } else {
      StepWf(cx, pc, d.bit);
      StepCheaper(cx, pc, d.bit);
    }
  }

  lemma AskStarves(cx: Ctx, pc: Pc, rc: Coder)
    requires WfCtx(cx, |rc.probs|) && WfPc(cx, pc) && !pc.Done? && Ask(cx, pc, rc).NoByte?
    ensures Normalize(rc).Starved?
  {
    QueryFits(cx, pc, |rc.probs|);
  }

  // One renormalisation, unless it would need a byte that is not there.
  method RenormalizeCheck(ghost probs: seq<int>, input: seq<byte>, r: Regs) returns (ok: bool, n: Regs)
    requires 0 <= r.pos <= |input| && Raw(CoderAt(probs, input, r))
    ensures ok <==> Normalize(CoderAt(probs, input, r)).Normal?
    ensures ok ==> 0 <= n.pos <= |input| && Normalize(CoderAt(probs, input, r)) == Normal(CoderAt(probs, input, n))
    ensures ok ==> Canonical(CoderAt(probs, input, n))
  {
    n := r;
    ok := true;
    if n.range < TOP {
      if n.pos >= |input| {
        return false, n;
      }
      n := Renormalize(probs, input, r);
    }
  }

  method GetBitCheck(probs: array<int>, p: int, input: seq<byte>, r: Regs, ghost cx: Ctx, ghost pc: Pc, ghost goal: Outcome)
    returns (ok: bool, bit: bool, n: Regs)
    requires Scouting(probs[..], input, r, cx, pc, goal) && SlotQuery(cx, pc) == Model(p)
    ensures Scouted(ok, probs[..], input, n, cx, Step(cx, pc, bit), goal)
  {
    hide Peek, Step, SlotQuery;
    bit := false;
    QueryFits(cx, pc, probs.Length);
    ScoutAsk(probs[..], input, r, cx, pc, goal);
    var ttt := probs[p];
    ok, n := RenormalizeCheck(probs[..], input, r);
    if ok {
      var bound := (n.range / 2048) * ttt;
      if n.code < bound {
        n := Regs(bound, n.code, n.pos);
      } else {
        n := Regs(n.range - bound, n.code - bound, n.pos);
        bit := true;
      }
    }
  }

  /** Subtracting under the inverted sign mask is the same step as subtracting and adding back under the sign mask. */
  lemma MaskedSubtract(range: int, code: int, mask: int)
    requires 0 <= range < 0x8000_0000 && 0 <= code < TWO32
    requires mask == ((code - range) % TWO32 / 0x8000_0000 - 1) % TWO32
    ensures mask == 0 || mask == TWO32 - 1
    ensures DirectStep(range, code) == (mask != 0, (code - if mask == 0 then 0 else range) % TWO32)
  {
  }

  method GetDirectBitCheck(ghost probs: seq<int>, input: seq<byte>, r: Regs, ghost cx: Ctx, ghost pc: Pc, ghost goal: Outcome)
    returns (ok: bool, n: Regs, ghost bit: bool)
    requires Scouting(probs, input, r, cx, pc, goal) && pc.Direct?
    ensures Scouted(ok, probs, input, n, cx, Step(cx, pc, bit), goal)
  {
    hide Peek, Step, And, Pow, DirectStep;
    ScoutAsk(probs, input, r, cx, pc, goal);
    bit := false;
    ok, n := RenormalizeCheck(probs, input, r);
    if ok {
      var range := n.range / 2;
      var mask := ((n.code - range) % TWO32 / 0x8000_0000 - 1) % TWO32;
      MaskedSubtract(range, n.code, mask);
      AndMask(range, mask);
      bit := mask != 0;
      var code := (n.code - And(range, mask)) % TWO32;
      assert Ask(cx, pc, CoderAt(probs, input, r)) == Decoded(bit, CoderAt(probs, input, Regs(range, code, n.pos)));
      n := Regs(range, code, n.pos);
    }
  }

  method PeekLiteral(probs: array<int>, lit: int, input: seq<byte>, r: Regs, ghost cx: Ctx, ghost goal: Outcome)
    returns (ok: bool, n: Regs, ghost b: int)
    requires Scouting(probs[..], input, r, cx, Plain(1), goal) && lit == cx.lit
    ensures Scouted(ok, probs[..], input, n, cx, Done(Lit(b)), goal)
  {
    hide Scouting;
    var symbol := 1;
    ghost var pc := Plain(1);
    n := r;
    ok := true;
    while ok && symbol < 0x100
      invariant 1 <= symbol < 0x200
      invariant ok ==> pc == if symbol < 0x100 then Plain(symbol) else Done(Lit(symbol - 0x100))
      invariant Scouted(ok, probs[..], input, n, cx, pc, goal)
      decreases 0x200 - symbol
    {
      var bit;
      ok, bit, n := GetBitCheck(probs, lit + symbol, input, n, cx, pc, goal);
      pc := Step(cx, pc, bit);
      symbol := symbol + symbol + if bit then 1 else 0;
    }
    b := symbol - 0x100;
  }

  method PeekMatchedLiteral(probs: array<int>, lit: int, matched: int, input: seq<byte>, r: Regs, ghost cx: Ctx,
      ghost goal: Outcome)
    returns (ok: bool, n: Regs, ghost b: int)
    requires Scouting(probs[..], input, r, cx, Matched(1, matched, 0x100), goal) && lit == cx.lit && 0 <= matched
    ensures Scouted(ok, probs[..], input, n, cx, Done(Lit(b)), goal)
  {
    hide Scouting;
    var symbol: int, matchByte, offs := 1, matched, 0x100;
    ghost var pc := Matched(1, matched, 0x100);
    n := r;
    ok := true;
    while ok && symbol < 0x100
      invariant 1 <= symbol < 0x200 && 0 <= matchByte && (offs == 0 || offs == 0x100)
      invariant ok ==> pc == if symbol < 0x100 then Matched(symbol, matchByte, offs) else Done(Lit(symbol - 0x100))
      invariant Scouted(ok, probs[..], input, n, cx, pc, goal)
      decreases 0x200 - symbol
    {
      matchByte := matchByte + matchByte;
      var mask := offs;
      AndBit8(matchByte);
      offs := And(matchByte, offs);
      var bit;
      ok, bit, n := GetBitCheck(probs, lit + (offs + mask + symbol), input, n, cx, pc, goal);
      pc := Step(cx, pc, bit);
      if bit {
        symbol := symbol + symbol + 1;
      } else {
        symbol := symbol + symbol;
        offs := mask - offs;
      }
    }
    b := symbol - 0x100;
  }

  method PeekLenTree(probs: array<int>, k: Kind, off: int, lim: int, add: int, input: seq<byte>, r: Regs, ghost cx: Ctx,
      ghost goal: Outcome)
    returns (ok: bool, len: int, n: Regs)
    requires Scouting(probs[..], input, r, cx, LenTree(k, off, lim, add, 1), goal)
    ensures Scouted(ok, probs[..], input, n, cx, AfterLen(k, len), goal) && 0 <= len < 272
  {
    hide Scouting;
    ScoutWf(probs[..], input, r, cx, LenTree(k, off, lim, add, 1), goal);
    var i := 1;
    ghost var pc := LenTree(k, off, lim, add, 1);
    n := r;
    ok := true;
    while ok && i < lim
      invariant 1 <= i < 2 * lim
      invariant ok ==> pc == if i < lim then LenTree(k, off, lim, add, i) else AfterLen(k, i - lim + add)
      invariant Scouted(ok, probs[..], input, n, cx, pc, goal)
      decreases 2 * lim - i
    {
      var bit;
      ok, bit, n := GetBitCheck(probs, LenBase(k) + off + i, input, n, cx, pc, goal);
      pc := Step(cx, pc, bit);
      i := i + i + if bit then 1 else 0;
    }
    len := if ok then i - lim + add else 0;
  }

  lemma ScoutWf(probs: seq<int>, input: seq<byte>, r: Regs, cx: Ctx, pc: Pc, goal: Outcome)
    requires Scouting(probs, input, r, cx, pc, goal)
    ensures WfPc(cx, pc)
  {
  }

  method PeekLen(probs: array<int>, k: Kind, posState: int, input: seq<byte>, r: Regs, ghost cx: Ctx, ghost goal: Outcome)
    returns (ok: bool, len: int, n: Regs)
    requires Scouting(probs[..], input, r, cx, LenChoice(k), goal) && posState == cx.posState
    ensures Scouted(ok, probs[..], input, n, cx, AfterLen(k, len), goal) && 0 <= len < 272
  {
    hide Scouting;
    len := 0;
    var bit;
    ok, bit, n := GetBitCheck(probs, LenBase(k), input, r, cx, LenChoice(k), goal);
    if ok {
      if !bit {
        ok, len, n := PeekLenTree(probs, k, posState, 8, 0, input, n, cx, goal);
      } else {
        ok, bit, n := GetBitCheck(probs, LenBase(k) + LEN_CHOICE2, input, n, cx, LenChoice2(k), goal);
        if ok {
          if !bit {
            ok, len, n := PeekLenTree(probs, k, posState + 8, 8, 8, input, n, cx, goal);
          } else {
            ok, len, n := PeekLenTree(probs, k, LEN_HIGH, 256, 16, input, n, cx, goal);
          }
        }
      }
    }
  }

  method PeekSlot(probs: array<int>, len: int, input: seq<byte>, r: Regs, ghost cx: Ctx, ghost goal: Outcome)
    returns (ok: bool, slot: int, n: Regs)
    requires Scouting(probs[..], input, r, cx, Slot(len, 1), goal)
    ensures 0 <= slot < 64 && Scouted(ok, probs[..], input, n, cx, AfterSlot(len, slot), goal)
  {
    hide Scouting;
    var i := 1;
    ghost var pc := Slot(len, 1);
    n := r;
    ok := true;
    while ok && i < 64
      invariant 1 <= i < 128
      invariant ok ==> pc == if i < 64 then Slot(len, i) else AfterSlot(len, i - 64)
      invariant Scouted(ok, probs[..], input, n, cx, pc, goal)
      decreases 128 - i
    {
      ScoutWf(probs[..], input, n, cx, pc, goal);
      var bit;
      ok, bit, n := GetBitCheck(probs, POS_SLOT + (if len < 3 then len else 3) * 64 + i, input, n, cx, pc, goal);
      pc := Step(cx, pc, bit);
      i := i + i + if bit then 1 else 0;
    }
    slot := if ok then i - 64 else 0;
  }

  method PeekSpecial(probs: array<int>, len: int, base: int, bits: int, input: seq<byte>, r: Regs, ghost cx: Ctx,
      ghost goal: Outcome)
    returns (ok: bool, n: Regs, ghost distance: int)
    requires Scouting(probs[..], input, r, cx, Special(len, base, 1, 1, bits), goal)
    ensures Scouted(ok, probs[..], input, n, cx, Done(Match(distance, len)), goal)
  {
    hide Scouting, Step, SlotQuery, Scale, Pow;
    ScoutWf(probs[..], input, r, cx, Special(len, base, 1, 1, bits), goal);
    assert 1 <= bits;
    hide WfPc;
    var i, m, numDirectBits := 1, 1, bits;
    ghost var pc := Special(len, base, 1, 1, bits);
    n := r;
    ok := true;
    while ok && 0 < numDirectBits
      invariant 0 <= numDirectBits <= bits
      invariant ok && 0 < numDirectBits ==> pc == Special(len, base, m, i, numDirectBits)
      invariant ok && numDirectBits == 0 ==> pc == Done(Match(base + i - m, len))
      invariant Scouted(ok, probs[..], input, n, cx, pc, goal)
      decreases numDirectBits
    {
      ScoutWf(probs[..], input, n, cx, pc, goal);
      AtSpecial(cx, len, base, m, i, numDirectBits);
      var bit;
      ok, bit, n := GetBitCheck(probs, SPEC_POS + base + i, input, n, cx, pc, goal);
      FromSpecial(cx, len, base, m, i, numDirectBits, bit);
      pc := Step(cx, pc, bit);
      if bit {
        m := m + m;
        i := i + m;
      } else {
        i := i + m;
        m := m + m;
      }
      numDirectBits := numDirectBits - 1;
    }
    distance := base + i - m;
  }

  method PeekFar(probs: array<int>, len: int, top: int, bits: int, input: seq<byte>, r: Regs, ghost cx: Ctx, ghost goal: Outcome)
    returns (ok: bool, n: Regs, ghost distance: int)
    requires Scouting(probs[..], input, r, cx, Direct(len, top, bits), goal)
    ensures Scouted(ok, probs[..], input, n, cx, Done(Match(distance, len)), goal)
  {
    hide Scouting, Pow;
    ScoutWf(probs[..], input, r, cx, Direct(len, top, bits), goal);
    assert 1 <= bits;
    hide WfPc;
    var numDirectBits := bits;
    ghost var high := top;
    ghost var pc := Direct(len, top, bits);
    n := r;
    ok := true;
    while ok && 0 < numDirectBits
      invariant 0 <= numDirectBits <= bits
      invariant ok ==> pc == if 0 < numDirectBits then Direct(len, high, numDirectBits) else AlignBits(len, 16 * high, 1, 1)
      invariant Scouted(ok, probs[..], input, n, cx, pc, goal)
      decreases numDirectBits
    {
      ScoutWf(probs[..], input, n, cx, pc, goal);
      ghost var bit;
      ok, n, bit := GetDirectBitCheck(probs[..], input, n, cx, pc, goal);
      pc := Step(cx, pc, bit);
      high := 2 * high + B(bit);
      numDirectBits := numDirectBits - 1;
    }
    distance := 0;
    if ok {
      ok, n, distance := PeekAlign(probs, len, high, input, n, cx, goal);
    }
  }

  method PeekAlign(probs: array<int>, ghost len: int, ghost high: int, input: seq<byte>, r: Regs, ghost cx: Ctx,
      ghost goal: Outcome)
    returns (ok: bool, n: Regs, ghost distance: int)
    requires Scouting(probs[..], input, r, cx, AlignBits(len, 16 * high, 1, 1), goal)
    ensures Scouted(ok, probs[..], input, n, cx, Done(Match(distance, len)), goal)
  {
    hide Scouting, WfPc, Step, SlotQuery;
    var i, m, numDirectBits := 1, 1, 4;
    ghost var pc := AlignBits(len, 16 * high, 1, 1);
    n := r;
    ok := true;
    distance := 0;
    while ok && 0 < numDirectBits
      invariant 0 <= numDirectBits <= 4
      invariant m == if numDirectBits == 4 then 1 else if numDirectBits == 3 then 2 else if numDirectBits == 2 then 4
                     else if numDirectBits == 1 then 8 else 16
      invariant ok ==> pc == if 0 < numDirectBits then AlignBits(len, 16 * high, m, i) else Done(Match(distance, len))
      invariant Scouted(ok, probs[..], input, n, cx, pc, goal)
      decreases numDirectBits
    {
      ScoutWf(probs[..], input, n, cx, pc, goal);
      AtAlign(cx, len, 16 * high, m, i);
      var bit;
      ok, bit, n := GetBitCheck(probs, ALIGN + i, input, n, cx, pc, goal);
      FromAlign(cx, len, 16 * high, m, i, bit);
      pc := Step(cx, pc, bit);
      distance := 16 * high + if bit then i else i - 8;
      if bit {
        m := m + m;
        i := i + m;
      } else {
        i := i + m;
        m := m + m;
      }
      numDirectBits := numDirectBits - 1;
    }
  }

  method PeekDistance(probs: array<int>, len: int, input: seq<byte>, r: Regs, ghost cx: Ctx, ghost goal: Outcome)
    returns (ok: bool, n: Regs, ghost distance: int)
    requires Scouting(probs[..], input, r, cx, Slot(len, 1), goal)
    ensures Scouted(ok, probs[..], input, n, cx, Done(Match(distance, len)), goal)
  {
    hide Scouting;
    var posSlot;
    ok, posSlot, n := PeekSlot(probs, len, input, r, cx, goal);
    distance := posSlot;
    if ok && posSlot >= 4 {
      var numDirectBits := posSlot / 2 - 1;
      if posSlot < 14 {
        ok, n, distance := PeekSpecial(probs, len, Scale(2 + posSlot % 2, numDirectBits), numDirectBits, input, n, cx, goal);
      } else {
        ok, n, distance := PeekFar(probs, len, 2 + posSlot % 2, numDirectBits - 4, input, n, cx, goal);
      }
    }
  }

  method PeekRep(probs: array<int>, state: int, posState: int, input: seq<byte>, r: Regs, ghost cx: Ctx, ghost goal: Outcome)
    returns (ok: bool, n: Regs, ghost sym: Symbol)
    requires Scouting(probs[..], input, r, cx, IsRepG0, goal) && state == cx.state && posState == cx.posState
    ensures Scouted(ok, probs[..], input, n, cx, Done(sym), goal) && (sym.ShortRep? || sym.Rep?)
  {
    hide Scouting;
    var bit;
    sym := ShortRep;
    var k := 0;
    ok, bit, n := GetBitCheck(probs, IS_REP_G0 + state, input, r, cx, IsRepG0, goal);
    if ok {
      if !bit {
        ok, bit, n := GetBitCheck(probs, IS_REP0_LONG + posState + state, input, n, cx, IsRep0Long, goal);
        if ok && !bit {
          return;
        }
      } else {
        ok, bit, n := GetBitCheck(probs, IS_REP_G1 + state, input, n, cx, IsRepG1, goal);
        k := 1;
        if ok && bit {
          ok, bit, n := GetBitCheck(probs, IS_REP_G2 + state, input, n, cx, IsRepG2, goal);
          k := if bit then 3 else 2;
        }
      }
    }
    if ok {
      var len;
      ok, len, n := PeekLen(probs, AsRep(k), posState, input, n, cx, goal);
      sym := Rep(k, len);
    }
  }
}
