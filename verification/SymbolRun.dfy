/**
 The two interpreters of the symbol grammar: Run adapts the probabilities as it goes, Peek leaves them alone.
 They agree because no probability slot is used twice in one symbol, and twenty bytes are enough for either.
 */
module SymbolRun {
  import opened Primitives
  import opened RangeCoder
  import opened SymbolCode

  const REQUIRED_INPUT_MAX: int := 20

  datatype Outcome = Incomplete | Complete(sym: Symbol, rc: Coder)

  function Ask(cx: Ctx, pc: Pc, rc: Coder): (d: Decoded)
    requires WfCtx(cx, |rc.probs|) && WfPc(cx, pc) && !pc.Done?
    ensures d.Decoded? ==> |d.rc.probs| == |rc.probs|
  {
    QueryFits(cx, pc, |rc.probs|);
    match SlotQuery(cx, pc)
    case Model(i) => ModelBit(rc, i)
    case Fair => DirectBit(rc)
    case Nothing => NoByte
  }

  function Run(cx: Ctx, pc: Pc, rc: Coder): Outcome
    requires WfCtx(cx, |rc.probs|) && WfPc(cx, pc)
    decreases Fuel(pc)
  {
    if pc.Done? then
      Complete(pc.symbol, rc)
    else
      match Ask(cx, pc, rc)
      case NoByte => Incomplete
      case Decoded(bit, r) =>
        StepWf(cx, pc, bit);
        StepCheaper(cx, pc, bit);
        Run(cx, Step(cx, pc, bit), r)
  }

  function Peek(cx: Ctx, pc: Pc, rc: Coder): Outcome
    requires WfCtx(cx, |rc.probs|) && WfPc(cx, pc)
    decreases Fuel(pc)
  {
    if pc.Done? then
      Complete(pc.symbol, rc)
    else
      match Ask(cx, pc, rc)
      case NoByte => Incomplete
      case Decoded(bit, r) =>
        StepWf(cx, pc, bit);
        StepCheaper(cx, pc, bit);
        Peek(cx, Step(cx, pc, bit), r.(probs := rc.probs))
  }

  // ---------- what a run keeps ----------

  predicate Suffix(whole: seq<byte>, rest: seq<byte>) {
    |rest| <= |whole| && whole[|whole| - |rest|..] == rest
  }

  lemma SuffixTrans(a: seq<byte>, b: seq<byte>, c: seq<byte>)
    requires Suffix(a, b) && Suffix(b, c)
    ensures Suffix(a, c)
  {
    assert a[|a| - |c|..] == a[|a| - |b|..][|b| - |c|..];
  }

  lemma AskKeeps(cx: Ctx, pc: Pc, rc: Coder)
    requires WfCtx(cx, |rc.probs|) && WfPc(cx, pc) && !pc.Done? && Raw(rc)
    ensures var d := Ask(cx, pc, rc);
            d.Decoded? ==> Raw(d.rc) && Suffix(rc.inp, d.rc.inp)
  {
    QueryFits(cx, pc, |rc.probs|);
    if pc.Direct? {
      DirectBitInvariant(rc);
    } else {
      ModelBitInvariant(rc, SlotQuery(cx, pc).i);
    }
  }

  /** A completed symbol leaves a coder in its invariant, the same table size, and a suffix of the input. */
  lemma {:induction false} RunKeeps(cx: Ctx, pc: Pc, rc: Coder)
    requires WfCtx(cx, |rc.probs|) && WfPc(cx, pc) && Raw(rc)
    ensures match Run(cx, pc, rc)
            case Incomplete => true
            case Complete(sym, r) => WfSymbol(sym) && Raw(r) && |r.probs| == |rc.probs| && Suffix(rc.inp, r.inp)
    decreases Fuel(pc)
  {
    if !pc.Done? {
      AskKeeps(cx, pc, rc);
      match Ask(cx, pc, rc)
      case NoByte =>
      case Decoded(bit, r) =>
        StepWf(cx, pc, bit);
        StepCheaper(cx, pc, bit);
        RunKeeps(cx, Step(cx, pc, bit), r);
        match Run(cx, Step(cx, pc, bit), r)
        case Incomplete =>
        case Complete(_, last) => SuffixTrans(rc.inp, r.inp, last.inp);
    }
  }

  function Extend(rc: Coder, more: seq<byte>): Coder {
    rc.(inp := rc.inp + more)
  }

  lemma AskExtend(cx: Ctx, pc: Pc, rc: Coder, more: seq<byte>)
    requires WfCtx(cx, |rc.probs|) && WfPc(cx, pc) && !pc.Done?
    ensures match Ask(cx, pc, rc)
            case NoByte => true
            case Decoded(bit, r) => Ask(cx, pc, Extend(rc, more)) == Decoded(bit, Extend(r, more))
  {
    if rc.range < TOP && rc.inp != [] {
      assert (rc.inp + more)[1..] == rc.inp[1..] + more;
    }
  }

  /** Bytes after the ones a symbol needs do not matter to it. */
  lemma {:induction false} RunExtend(cx: Ctx, pc: Pc, rc: Coder, more: seq<byte>)
    requires WfCtx(cx, |rc.probs|) && WfPc(cx, pc)
    ensures match Run(cx, pc, rc)
            case Incomplete => true
            case Complete(sym, r) => Run(cx, pc, Extend(rc, more)) == Complete(sym, Extend(r, more))
    decreases Fuel(pc)
  {
    if !pc.Done? {
      AskExtend(cx, pc, rc, more);
      match Ask(cx, pc, rc)
      case NoByte =>
      case Decoded(bit, r) =>
        StepWf(cx, pc, bit);
        StepCheaper(cx, pc, bit);
        RunExtend(cx, Step(cx, pc, bit), r, more);
    }
  }

  lemma AskPrefix(cx: Ctx, pc: Pc, rc: Coder, more: seq<byte>)
    requires WfCtx(cx, |rc.probs|) && WfPc(cx, pc) && !pc.Done?
    ensures match Ask(cx, pc, rc)
            case Decoded(_, _) => true
            case NoByte => Ask(cx, pc, Extend(rc, more)).NoByte? || |Ask(cx, pc, Extend(rc, more)).rc.inp| < |more|
  {
  }

  lemma AskInputShrinks(cx: Ctx, pc: Pc, rc: Coder)
    requires WfCtx(cx, |rc.probs|) && WfPc(cx, pc) && !pc.Done?
    ensures Ask(cx, pc, rc).Decoded? ==> |Ask(cx, pc, rc).rc.inp| <= |rc.inp|
  {
  }

  lemma {:induction false} RunInputShrinks(cx: Ctx, pc: Pc, rc: Coder)
    requires WfCtx(cx, |rc.probs|) && WfPc(cx, pc)
    ensures Run(cx, pc, rc).Complete? ==> |Run(cx, pc, rc).rc.inp| <= |rc.inp|
    decreases Fuel(pc)
  {
    if !pc.Done? {
      AskInputShrinks(cx, pc, rc);
      match Ask(cx, pc, rc)
      case NoByte =>
      case Decoded(bit, r) =>
        StepWf(cx, pc, bit);
        StepCheaper(cx, pc, bit);
        RunInputShrinks(cx, Step(cx, pc, bit), r);
    }
  }

  /** If a symbol is incomplete without some extra bytes, then with them it uses some of them. */
  lemma {:induction false} RunPrefix(cx: Ctx, pc: Pc, rc: Coder, more: seq<byte>)
    requires WfCtx(cx, |rc.probs|) && WfPc(cx, pc)
    requires Run(cx, pc, rc).Incomplete?
    ensures Run(cx, pc, Extend(rc, more)).Incomplete? || |Run(cx, pc, Extend(rc, more)).rc.inp| < |more|
    decreases Fuel(pc)
  {
    AskExtend(cx, pc, rc, more);
    AskPrefix(cx, pc, rc, more);
    var d, e := Ask(cx, pc, rc), Ask(cx, pc, Extend(rc, more));
    if e.Decoded? {
      StepWf(cx, pc, e.bit);
      StepCheaper(cx, pc, e.bit);
      if d.Decoded? {
        RunPrefix(cx, Step(cx, pc, d.bit), d.rc, more);
      } else {
        RunInputShrinks(cx, Step(cx, pc, e.bit), e.rc);
      }
    }
  }

  /** Renormalising early, before the first bit instead of inside it, makes no difference. */
  lemma RunNormalized(cx: Ctx, rc: Coder)
    requires WfCtx(cx, |rc.probs|) && Raw(rc) && Normalize(rc).Normal?
    ensures Run(cx, IsMatch, rc) == Run(cx, IsMatch, Normalize(rc).rc)
  {
    NormalizeOnce(rc);
    assert Ask(cx, IsMatch, rc) == Ask(cx, IsMatch, Normalize(rc).rc);
  }

  // ---------- no slot is used twice ----------

  // Position of a probability slot in the order in which one symbol can use slots.
  function Rank(i: int): int {
    if i >= LITERAL then 10000 + (i - LITERAL) % 256
    else if i >= POS_SLOT then 8000 + (i - POS_SLOT)
    else if i >= IS_REP_G2 then 5
    else if i >= IS_REP_G1 then 4
    else if i >= IS_REP_G0 then 2
    else if i >= IS_REP then 1
    else if i >= ALIGN then 12000 + (i - ALIGN)
    else if i >= IS_MATCH then 0
    else if i >= LEN_CODER then 6000 + (i - LEN_CODER)
    else if i >= REP_LEN_CODER then 6000 + (i - REP_LEN_CODER)
    else if i >= IS_REP0_LONG then 3
    else 12000 + i
  }

  function RankOf(cx: Ctx, pc: Pc): int {
    match SlotQuery(cx, pc)
    case Model(i) => Rank(i)
    case Fair => 11000
    case Nothing => 20000
  }

  lemma LiteralRank(cx: Ctx, sym: int, j: int, numProbs: int)
    requires WfCtx(cx, numProbs) && 1 <= sym < 256 && 0 <= j <= 2
    ensures Rank(cx.lit + (256 * j + sym)) == 10000 + sym
  {
    var k := (cx.lit - LITERAL) / LIT_SIZE;
    assert cx.lit - LITERAL == 768 * k;
    assert cx.lit + (256 * j + sym) - LITERAL == 256 * (3 * k + j) + sym;
  }

  lemma RankOfLiteral(cx: Ctx, pc: Pc, numProbs: int)
    requires WfCtx(cx, numProbs) && WfPc(cx, pc) && (pc.Plain? || pc.Matched?)
    ensures RankOf(cx, pc) == 10000 + pc.sym
  {
    match pc
    case Plain(sym) => LiteralRank(cx, sym, 0, numProbs);
    case Matched(sym, mb, offs) => LiteralRank(cx, sym, (MatchBit(mb, offs) + offs) / 256, numProbs);
  }

  lemma RankGrowsLiteral(cx: Ctx, pc: Pc, bit: bool, numProbs: int)
    requires WfCtx(cx, numProbs) && WfPc(cx, pc) && (pc.Plain? || pc.Matched? || pc.IsMatch?)
    ensures RankOf(cx, Step(cx, pc, bit)) > RankOf(cx, pc)
  {
    var q := Step(cx, pc, bit);
    StepWf(cx, pc, bit);
    if !pc.IsMatch? {
      RankOfLiteral(cx, pc, numProbs);
    }
    if q.Plain? || q.Matched? {
      RankOfLiteral(cx, q, numProbs);
    }
  }

  lemma RankOfLen(cx: Ctx, pc: Pc, numProbs: int)
    requires WfCtx(cx, numProbs) && WfPc(cx, pc) && (pc.LenChoice? || pc.LenChoice2? || pc.LenTree?)
    ensures RankOf(cx, pc) == 6000 + (if pc.LenChoice? then 0 else if pc.LenChoice2? then LEN_CHOICE2 else pc.off + pc.i)
  {
  }

  lemma RankGrowsLen(cx: Ctx, pc: Pc, bit: bool, numProbs: int)
    requires WfCtx(cx, numProbs) && WfPc(cx, pc) && (pc.LenChoice? || pc.LenChoice2? || pc.LenTree?)
    ensures RankOf(cx, Step(cx, pc, bit)) > RankOf(cx, pc)
  {
    hide RankOf;
    var q := Step(cx, pc, bit);
    StepWf(cx, pc, bit);
    RankOfLen(cx, pc, numProbs);
    if q.LenTree? || q.LenChoice2? {
      RankOfLen(cx, q, numProbs);
    } else {
      RankLate(cx, q);
    }
  }

  lemma RankLate(cx: Ctx, q: Pc)
    requires WfPc(cx, q) && (q.Slot? || q.Done?)
    ensures RankOf(cx, q) >= 8000
  {
  }

  lemma RankGrowsSlot(cx: Ctx, pc: Pc, bit: bool)
    requires WfPc(cx, pc) && pc.Slot?
    ensures RankOf(cx, Step(cx, pc, bit)) > RankOf(cx, pc)
  {
    var j := 2 * pc.i + B(bit);
    assert RankOf(cx, pc) == 8000 + Min(pc.len, 3) * 64 + pc.i;
    if j >= 64 {
      AfterSlotOk(cx, pc.len, j - 64);
    }
  }

  lemma RankGrowsTail(cx: Ctx, pc: Pc, bit: bool)
    requires WfPc(cx, pc) && (pc.Special? || pc.AlignBits? || pc.Direct?)
    ensures RankOf(cx, Step(cx, pc, bit)) >= RankOf(cx, pc)
    ensures !pc.Direct? ==> RankOf(cx, Step(cx, pc, bit)) > RankOf(cx, pc)
  {
  }

  lemma RankGrows(cx: Ctx, pc: Pc, bit: bool, numProbs: int)
    requires WfCtx(cx, numProbs) && WfPc(cx, pc) && !pc.Done?
    ensures RankOf(cx, Step(cx, pc, bit)) >= RankOf(cx, pc)
    ensures !pc.Direct? ==> RankOf(cx, Step(cx, pc, bit)) > RankOf(cx, pc)
  {
    if pc.Plain? || pc.Matched? || pc.IsMatch? {
      RankGrowsLiteral(cx, pc, bit, numProbs);
    } else if pc.LenChoice? || pc.LenChoice2? || pc.LenTree? {
      RankGrowsLen(cx, pc, bit, numProbs);
    } else if pc.Slot? {
      RankGrowsSlot(cx, pc, bit);
    } else if pc.Special? || pc.AlignBits? || pc.Direct? {
      RankGrowsTail(cx, pc, bit);
    }
  }

  /** The probability slots used along one path of answers. */
  function SlotsAsked(cx: Ctx, pc: Pc, bits: seq<bool>): seq<int>
    requires WfPc(cx, pc) && 0 <= cx.matchByte
    decreases |bits|
  {
    if bits == [] || pc.Done? then
      []
    else
      StepWf(cx, pc, bits[0]);
      (if SlotQuery(cx, pc).Model? then [SlotQuery(cx, pc).i] else [])
      + SlotsAsked(cx, Step(cx, pc, bits[0]), bits[1..])
  }

  predicate DistinctFrom(cx: Ctx, pc: Pc, s: seq<int>) {
    && (forall a :: 0 <= a < |s| ==> Rank(s[a]) >= RankOf(cx, pc))
    && (forall a, b :: 0 <= a < b < |s| ==> s[a] != s[b])
  }

  lemma DistinctCons(cx: Ctx, pc: Pc, q: Pc, rest: seq<int>, i: int)
    requires DistinctFrom(cx, q, rest) && RankOf(cx, q) > RankOf(cx, pc) && Rank(i) == RankOf(cx, pc)
    ensures DistinctFrom(cx, pc, [i] + rest)
  {
    var s := [i] + rest;
    forall a, b | 0 <= a < b < |s|
      ensures s[a] != s[b]
    {
      assert s[b] == rest[b - 1];
    }
  }

  /** On every path through the grammar, no probability slot is used twice. */
  lemma {:induction false} SlotsDistinct(cx: Ctx, pc: Pc, bits: seq<bool>, numProbs: int)
    requires WfCtx(cx, numProbs) && WfPc(cx, pc)
    ensures DistinctFrom(cx, pc, SlotsAsked(cx, pc, bits))
    decreases |bits|
  {
    if bits != [] && !pc.Done? {
      var q := Step(cx, pc, bits[0]);
      StepWf(cx, pc, bits[0]);
      RankGrows(cx, pc, bits[0], numProbs);
      QueryFits(cx, pc, numProbs);
      SlotsDistinct(cx, q, bits[1..], numProbs);
      var rest := SlotsAsked(cx, q, bits[1..]);
      if SlotQuery(cx, pc).Model? {
        DistinctCons(cx, pc, q, rest, SlotQuery(cx, pc).i);
      } else {
        assert [] + rest == rest;
      }
    }
  }

  // ---------- the look-ahead agrees with the decoder ----------

  predicate AgreeFrom(p: seq<int>, q: seq<int>, rank: int) {
    |p| == |q| && forall i :: 0 <= i < |p| && Rank(i) >= rank ==> p[i] == q[i]
  }

  lemma AskAgrees(cx: Ctx, pc: Pc, rc: Coder, fixed: seq<int>)
    requires WfCtx(cx, |rc.probs|) && WfPc(cx, pc) && !pc.Done?
    requires AgreeFrom(rc.probs, fixed, RankOf(cx, pc))
    ensures match Ask(cx, pc, rc)
            case NoByte => Ask(cx, pc, rc.(probs := fixed)).NoByte?
            case Decoded(bit, r) =>
              && Ask(cx, pc, rc.(probs := fixed)).Decoded?
              && Ask(cx, pc, rc.(probs := fixed)).bit == bit
              && Ask(cx, pc, rc.(probs := fixed)).rc.(probs := fixed) == r.(probs := fixed)
              && AgreeFrom(r.probs, fixed, RankOf(cx, Step(cx, pc, bit)))
  {
    QueryFits(cx, pc, |rc.probs|);
    match Ask(cx, pc, rc)
    case NoByte =>
    case Decoded(bit, r) => RankGrows(cx, pc, bit, |rc.probs|);
  }

  /** Decoding with adapting probabilities and with fixed ones gives the same symbol from the same bytes. */
  lemma {:induction false} PeekAgrees(cx: Ctx, pc: Pc, rc: Coder, fixed: seq<int>)
    requires WfCtx(cx, |rc.probs|) && WfPc(cx, pc)
    requires AgreeFrom(rc.probs, fixed, RankOf(cx, pc))
    ensures match Run(cx, pc, rc)
            case Incomplete => Peek(cx, pc, rc.(probs := fixed)).Incomplete?
            case Complete(sym, r) => Peek(cx, pc, rc.(probs := fixed)) == Complete(sym, r.(probs := fixed))
    decreases Fuel(pc)
  {
    if !pc.Done? {
      AskAgrees(cx, pc, rc, fixed);
      match Ask(cx, pc, rc)
      case NoByte =>
      case Decoded(bit, r) =>
        StepWf(cx, pc, bit);
        StepCheaper(cx, pc, bit);
        PeekAgrees(cx, Step(cx, pc, bit), r, fixed);
    }
  }

  // ---------- twenty bytes are enough ----------

  function Weight(pc: Pc): nat {
    Pow(67, ModelLeft(pc)) * Pow(2, FairLeft(pc))
  }

  // k more bytes certainly complete the symbol from pc
  predicate Enough(pc: Pc, range: int, k: nat) {
    (range + 1) * Pow(255, k + 1) > TWO32 * Weight(pc)
  }

  lemma WeightModel(m: nat, f: nat, m': nat, f': nat)
    requires m + 1 <= m' && f <= f'
    ensures Pow(67, m') * Pow(2, f') >= 67 * (Pow(67, m) * Pow(2, f))
  {
    PowMonotone(67, m + 1, m');
    PowMonotone(2, f, f');
    MulMonotone(67 * Pow(67, m), Pow(2, f), Pow(67, m'), Pow(2, f'));
    MulAssoc(67, Pow(67, m), Pow(2, f));
  }

  lemma WeightFair(m: nat, f: nat, m': nat, f': nat)
    requires m <= m' && f + 1 <= f'
    ensures Pow(67, m') * Pow(2, f') >= 2 * (Pow(67, m) * Pow(2, f))
  {
    PowMonotone(67, m, m');
    PowMonotone(2, f + 1, f');
    MulMonotone(Pow(67, m), 2 * Pow(2, f), Pow(67, m'), Pow(2, f'));
    MulSwap(Pow(67, m), 2, Pow(2, f));
  }

  lemma WeightLastSpecial(m: nat)
    ensures Pow(67, m) * Pow(2, 26) >= 67
  {
    PowMonotone(2, 7, 26);
    assert Pow(2, 7) == 128;
    PowPositive(67, m);
    MulMonotone(1, 67, Pow(67, m), Pow(2, 26));
  }

  lemma WeightStep(cx: Ctx, pc: Pc, bit: bool)
    requires WfPc(cx, pc) && !pc.Done? && 0 <= cx.matchByte
    ensures Weight(pc) >= (if pc.Direct? then 2 else 67) * Weight(Step(cx, pc, bit))
  {
    var q := Step(cx, pc, bit);
    StepCheaper(cx, pc, bit);
    WeightCheaper(pc, q);
  }

  lemma WeightCheaper(pc: Pc, q: Pc)
    requires Cheaper(pc, q)
    ensures Weight(pc) >= (if pc.Direct? then 2 else 67) * Weight(q)
  {
    if pc.Special? && pc.n == 1 {
      WeightLastSpecial(ModelLeft(pc));
    } else if pc.Direct? {
      WeightFair(ModelLeft(q), FairLeft(q), ModelLeft(pc), FairLeft(pc));
    } else {
      WeightModel(ModelLeft(q), FairLeft(q), ModelLeft(pc), FairLeft(pc));
    }
  }

  lemma WeightPositive(pc: Pc)
    ensures 1 <= Weight(pc)
  {
    PowPositive(67, ModelLeft(pc));
    PowPositive(2, FairLeft(pc));
    MulMonotone(1, 1, Pow(67, ModelLeft(pc)), Pow(2, FairLeft(pc)));
  }

  lemma EnoughNormalize(range: int, k: nat, w: nat)
    requires RAW_MIN <= range < TOP && 1 <= w && (range + 1) * Pow(255, k + 1) > TWO32 * w
    ensures 1 <= k && (range * 256 + 1) * Pow(255, k) > TWO32 * w
  {
    assert Pow(255, k + 1) == 255 * Pow(255, k);
    if k == 0 {
      assert false;
    }
    MulMonotone((range + 1) * 255, Pow(255, k), range * 256 + 1, Pow(255, k));
    MulAssoc(range + 1, 255, Pow(255, k));
  }

  lemma EnoughBit(n: int, r: int, x: nat, w: nat, v: nat, c: nat)
    requires 0 <= n && 0 <= r && 1 <= c
    requires (n + 1) * x > TWO32 * w && w >= c * v && n + 1 <= c * (r + 1)
    ensures (r + 1) * x > TWO32 * v
  {
    MulMonotone(n + 1, x, c * (r + 1), x);
    MulAssoc(c, r + 1, x);
    assert c * ((r + 1) * x) > TWO32 * (c * v);
    assert TWO32 * (c * v) == c * (TWO32 * v);
  }

  lemma AskShrinks(cx: Ctx, pc: Pc, rc: Coder)
    requires WfCtx(cx, |rc.probs|) && WfPc(cx, pc) && !pc.Done? && Canonical(rc)
    ensures match Ask(cx, pc, rc)
            case NoByte => false
            case Decoded(bit, r) => 0 <= r.range && rc.range + 1 <= (if pc.Direct? then 2 else 67) * (r.range + 1) && r.inp == rc.inp
  {
    QueryFits(cx, pc, |rc.probs|);
    if pc.Direct? {
      DirectBitInvariant(rc);
    } else {
      ModelBitInvariant(rc, SlotQuery(cx, pc).i);
    }
  }

  lemma AskEnoughNormal(cx: Ctx, pc: Pc, rc: Coder)
    requires WfCtx(cx, |rc.probs|) && WfPc(cx, pc) && !pc.Done? && Canonical(rc)
    requires Enough(pc, rc.range, |rc.inp|)
    ensures match Ask(cx, pc, rc)
            case NoByte => false
            case Decoded(bit, r) => Enough(Step(cx, pc, bit), r.range, |r.inp|)
  {
    AskShrinks(cx, pc, rc);
    var d := Ask(cx, pc, rc);
    WeightStep(cx, pc, d.bit);
    var c := if pc.Direct? then 2 else 67;
    EnoughBit(rc.range, d.rc.range, Pow(255, |rc.inp| + 1), Weight(pc), Weight(Step(cx, pc, d.bit)), c);
  }

  lemma AskEnough(cx: Ctx, pc: Pc, rc: Coder)
    requires WfCtx(cx, |rc.probs|) && WfPc(cx, pc) && !pc.Done? && Raw(rc)
    requires Enough(pc, rc.range, |rc.inp|)
    ensures match Ask(cx, pc, rc)
            case NoByte => false
            case Decoded(bit, r) => Enough(Step(cx, pc, bit), r.range, |r.inp|)
  {
    WeightPositive(pc);
    NormalizeOnce(rc);
    if rc.range < TOP {
      EnoughNormalize(rc.range, |rc.inp|, Weight(pc));
    }
    var n := Normalize(rc).rc;
    assert Ask(cx, pc, n) == Ask(cx, pc, rc);
    AskEnoughNormal(cx, pc, n);
  }

  lemma {:induction false} RunEnough(cx: Ctx, pc: Pc, rc: Coder)
    requires WfCtx(cx, |rc.probs|) && WfPc(cx, pc) && Raw(rc)
    requires Enough(pc, rc.range, |rc.inp|)
    ensures match Run(cx, pc, rc)
            case Incomplete => false
            case Complete(_, r) => Normalize(r).Normal?
    decreases Fuel(pc)
  {
    if pc.Done? {
      WeightPositive(pc);
      if rc.range < TOP {
        EnoughNormalize(rc.range, |rc.inp|, Weight(pc));
      }
    } else {
      AskKeeps(cx, pc, rc);
      AskEnough(cx, pc, rc);
      var d := Ask(cx, pc, rc);
      StepWf(cx, pc, d.bit);
      StepCheaper(cx, pc, d.bit);
      RunEnough(cx, Step(cx, pc, d.bit), d.rc);
    }
  }

  lemma TwentyBytesNumber()
    ensures (TOP + 1) * Pow(255, 21) > TWO32 * (Pow(67, 22) * Pow(2, 26))
  {
    assert Pow(255, 7) == 70110209207109375;
    PowAdd(255, 7, 7);
    PowAdd(255, 14, 7);
    assert Pow(67, 11) == 122130132904968017083;
    PowAdd(67, 11, 11);
    assert Pow(2, 13) == 8192;
    PowAdd(2, 13, 13);
  }

  /**
   From a renormalised coder, any symbol and the renormalisation after it need at most 20 bytes,
   whatever the probabilities and the bytes are.
   */
  lemma TwentyBytes(cx: Ctx, rc: Coder)
    requires WfCtx(cx, |rc.probs|) && Canonical(rc) && |rc.inp| >= REQUIRED_INPUT_MAX
    ensures match Run(cx, IsMatch, rc)
            case Incomplete => false
            case Complete(_, r) => Normalize(r).Normal?
  {
    TwentyBytesNumber();
    PowMonotone(255, 21, |rc.inp| + 1);
    MulMonotone(TOP + 1, Pow(255, 21), rc.range + 1, Pow(255, |rc.inp| + 1));
    RunEnough(cx, IsMatch, rc);
  }
}
