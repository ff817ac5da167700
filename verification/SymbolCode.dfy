/**
 The bit-level grammar of one LZMA symbol. A program counter says which question the decoder asks next:
 a modelled bit (with the probability slot it uses), a fair bit, or none because the symbol is complete.
 Both decoders of the source, the one that adapts probabilities and the one that only looks ahead,
 are interpreters of this grammar.
 */
module SymbolCode {
  import opened Primitives
  import opened RangeCoder

  // Regions of the probability array, counted from its first element.
  const SPEC_POS: int := 0
  const IS_REP0_LONG: int := 128
  const REP_LEN_CODER: int := 384
  const LEN_CODER: int := 896
  const IS_MATCH: int := 1408
  const ALIGN: int := 1664
  const IS_REP: int := 1680
  const IS_REP_G0: int := 1692
  const IS_REP_G1: int := 1704
  const IS_REP_G2: int := 1716
  const POS_SLOT: int := 1728
  const LITERAL: int := 1984
  const LIT_SIZE: int := 0x300

  const LEN_CHOICE2: int := 8
  const LEN_HIGH: int := 256

  const NUM_STATES: int := 12
  const NUM_LIT_STATES: int := 7
  const END_MARK: int := 0xFFFF_FFFF

  /** What a symbol's decoding reads of the decoder besides probabilities: none of it changes before the symbol ends. */
  datatype Ctx = Ctx(state: int, posState: int, lit: int, matchByte: int)

  datatype Kind = AsMatch | AsRep(r: int)

  datatype Symbol =
    | Lit(b: int)
    | ShortRep
    | Rep(r: int, len: int)
    | Match(dist: int, len: int)

  datatype Pc =
    | IsMatch
    | Plain(sym: int)
    | Matched(sym: int, mb: int, offs: int)
    | IsRep
    | IsRepG0
    | IsRep0Long
    | IsRepG1
    | IsRepG2
    | LenChoice(k: Kind)
    | LenChoice2(k: Kind)
    | LenTree(k: Kind, off: int, lim: int, add: int, i: int)
    | Slot(len: int, i: int)
    | Special(len: int, base: int, m: int, i: int, n: int)
    | Direct(len: int, dist: int, n: int)
    | AlignBits(len: int, dist: int, m: int, i: int)
    | Done(symbol: Symbol)

  datatype Query = Model(i: int) | Fair | Nothing

  // ---------- the grammar ----------

  predicate WfCtx(cx: Ctx, numProbs: int) {
    && 0 <= cx.state < NUM_STATES
    && 0 <= cx.posState <= 240 && cx.posState % 16 == 0
    && LITERAL <= cx.lit && cx.lit + LIT_SIZE <= numProbs && (cx.lit - LITERAL) % LIT_SIZE == 0
    && 0 <= cx.matchByte < 256
  }

  predicate WfKind(k: Kind) {
    k.AsRep? ==> 0 <= k.r < 4
  }

  predicate WfSymbol(s: Symbol) {
    match s
    case Lit(b) => 0 <= b < 256
    case ShortRep => true
    case Rep(r, len) => 0 <= r < 4 && 0 <= len < 272
    case Match(dist, len) => 0 <= dist < TWO32 && 0 <= len < 272
  }

  // x << n for the shifts by 1 to 5 that distances use
  function Scale(x: int, n: int): int {
    if n == 1 then 2 * x else if n == 2 then 4 * x else if n == 3 then 8 * x else if n == 4 then 16 * x else 32 * x
  }

  predicate WfPc(cx: Ctx, pc: Pc) {
    match pc
    case Plain(sym) => 1 <= sym < 256
    case Matched(sym, mb, offs) => 1 <= sym < 256 && 0 <= mb && (offs == 0 || offs == 256)
    case LenChoice(k) => WfKind(k)
    case LenChoice2(k) => WfKind(k)
    case LenTree(k, off, lim, add, i) =>
      && WfKind(k) && 1 <= i < lim
      && ((off == cx.posState && lim == 8 && add == 0)
          || (off == cx.posState + 8 && lim == 8 && add == 8)
          || (off == LEN_HIGH && lim == 256 && add == 16))
    case Slot(len, i) => 0 <= len < 272 && 1 <= i < 64
    case Special(len, base, m, i, n) =>
      0 <= len < 272 && 1 <= n <= 5 && 1 <= m <= i < 2 * m && 0 <= base && base + Scale(m, n) <= 128
    case Direct(len, dist, n) => 0 <= len < 272 && 1 <= n <= 26 && 0 <= dist < Pow(2, 28 - n)
    case AlignBits(len, dist, m, i) =>
      && 0 <= len < 272 && (m == 1 || m == 2 || m == 4 || m == 8) && m <= i < 2 * m
      && 0 <= dist <= TWO32 - 16 && dist % 16 == 0
    case Done(s) => WfSymbol(s)
    case _ => true
  }

  function LenBase(k: Kind): int {
    if k.AsMatch? then LEN_CODER else REP_LEN_CODER
  }

  // (offs & (mb << 1)) for offs in {0, 0x100}
  function MatchBit(mb: int, offs: int): int {
    if offs == 256 && (2 * mb) / 256 % 2 == 1 then 256 else 0
  }

  function SlotQuery(cx: Ctx, pc: Pc): Query {
    match pc
    case IsMatch => Model(IS_MATCH + cx.posState + cx.state)
    case Plain(sym) => Model(cx.lit + sym)
    case Matched(sym, mb, offs) => Model(cx.lit + (MatchBit(mb, offs) + offs + sym))
    case IsRep => Model(IS_REP + cx.state)
    case IsRepG0 => Model(IS_REP_G0 + cx.state)
    case IsRep0Long => Model(IS_REP0_LONG + cx.posState + cx.state)
    case IsRepG1 => Model(IS_REP_G1 + cx.state)
    case IsRepG2 => Model(IS_REP_G2 + cx.state)
    case LenChoice(k) => Model(LenBase(k))
    case LenChoice2(k) => Model(LenBase(k) + LEN_CHOICE2)
    case LenTree(k, off, _, _, i) => Model(LenBase(k) + off + i)
    case Slot(len, i) => Model(POS_SLOT + Min(len, 3) * 64 + i)
    case Special(_, base, _, i, _) => Model(SPEC_POS + base + i)
    case Direct(_, _, _) => Fair
    case AlignBits(_, _, _, i) => Model(ALIGN + i)
    case Done(_) => Nothing
  }

  function B(bit: bool): int {
    if bit then 1 else 0
  }

  function AfterSlot(len: int, slot: int): Pc
    requires 0 <= slot < 64
  {
    if slot < 4 then
      Done(Match(slot, len))
    else
      var numDirectBits := slot / 2 - 1;
      if slot < 14 then
        Special(len, Scale(2 + slot % 2, numDirectBits), 1, 1, numDirectBits)
      else
        Direct(len, 2 + slot % 2, numDirectBits - 4)
  }

  function AfterLen(k: Kind, len: int): Pc {
    if k.AsRep? then Done(Rep(k.r, len)) else Slot(len, 1)
  }

  function Step(cx: Ctx, pc: Pc, bit: bool): Pc
    requires WfPc(cx, pc)
  {
    match pc
    case IsMatch => if bit then IsRep else if cx.state < NUM_LIT_STATES then Plain(1) else Matched(1, cx.matchByte, 256)
    case Plain(sym) =>
      var s := 2 * sym + B(bit);
      if s < 256 then Plain(s) else Done(Lit(s - 256))
    case Matched(sym, mb, offs) =>
      var s := 2 * sym + B(bit);
      var mine := MatchBit(mb, offs);
      if s < 256 then Matched(s, 2 * mb, if bit then mine else offs - mine) else Done(Lit(s - 256))
    case IsRep => if bit then IsRepG0 else LenChoice(AsMatch)
    case IsRepG0 => if bit then IsRepG1 else IsRep0Long
    case IsRep0Long => if bit then LenChoice(AsRep(0)) else Done(ShortRep)
    case IsRepG1 => if bit then IsRepG2 else LenChoice(AsRep(1))
    case IsRepG2 => LenChoice(AsRep(if bit then 3 else 2))
    case LenChoice(k) => if bit then LenChoice2(k) else LenTree(k, cx.posState, 8, 0, 1)
    case LenChoice2(k) => if bit then LenTree(k, LEN_HIGH, 256, 16, 1) else LenTree(k, cx.posState + 8, 8, 8, 1)
    case LenTree(k, off, lim, add, i) =>
      var j := 2 * i + B(bit);
      if j < lim then LenTree(k, off, lim, add, j) else AfterLen(k, j - lim + add)
    case Slot(len, i) =>
      var j := 2 * i + B(bit);
      if j < 64 then Slot(len, j) else AfterSlot(len, j - 64)
    case Special(len, base, m, i, n) =>
      var j := i + m + B(bit) * m;
      if n > 1 then Special(len, base, 2 * m, j, n - 1) else Done(Match(base + j - 2 * m, len))
    case Direct(len, dist, n) =>
      var d := 2 * dist + B(bit);
      if n > 1 then Direct(len, d, n - 1) else AlignBits(len, 16 * d, 1, 1)
    case AlignBits(len, dist, m, i) =>
      if m < 8 then AlignBits(len, dist, 2 * m, i + m + B(bit) * m) else Done(Match(dist + i - 8 + 8 * B(bit), len))
    case Done(_) => pc
  }

  // ---------- how many bits can still be asked ----------

  function TreeLeft(lim: int, i: int): nat {
    if i >= lim then 0
    else if 2 * i >= lim then 1
    else if 4 * i >= lim then 2
    else if 8 * i >= lim then 3
    else if 16 * i >= lim then 4
    else if 32 * i >= lim then 5
    else if 64 * i >= lim then 6
    else if 128 * i >= lim then 7
    else 8
  }

  // Modelled bits still to come, at most; the five bits of a special slot count as four plus 26 halvings.
  function ModelLeft(pc: Pc): nat
  {
    match pc
    case IsMatch => 22
    case Plain(sym) => TreeLeft(256, sym)
    case Matched(sym, _, _) => TreeLeft(256, sym)
    case IsRep => 21
    case IsRepG0 => 13
    case IsRep0Long => 11
    case IsRepG1 => 12
    case IsRepG2 => 11
    case LenChoice(k) => if k.AsMatch? then 20 else 10
    case LenChoice2(k) => if k.AsMatch? then 19 else 9
    case LenTree(k, _, lim, _, i) => TreeLeft(lim, i) + if k.AsMatch? then 10 else 0
    case Slot(_, i) => TreeLeft(64, i) + 4
    case Special(_, _, _, _, n) => if n >= 1 then n - 1 else 0
    case Direct(_, _, _) => 4
    case AlignBits(_, _, m, _) => if m == 1 then 4 else if m == 2 then 3 else if m == 4 then 2 else 1
    case Done(_) => 0
  }

  // Range halvings still to come, at most.
  function FairLeft(pc: Pc): nat {
    match pc
    case IsMatch => 26
    case IsRep => 26
    case LenChoice(k) => if k.AsMatch? then 26 else 0
    case LenChoice2(k) => if k.AsMatch? then 26 else 0
    case LenTree(k, _, _, _, _) => if k.AsMatch? then 26 else 0
    case Slot(_, _) => 26
    case Special(_, _, _, _, _) => 26
    case Direct(_, _, n) => if n >= 0 then n else 0
    case _ => 0
  }

  function Fuel(pc: Pc): nat {
    ModelLeft(pc) + FairLeft(pc)
  }

  lemma AfterSlotOk(cx: Ctx, len: int, slot: int)
    requires 0 <= len < 272 && 0 <= slot < 64
    ensures var q := AfterSlot(len, slot);
            WfPc(cx, q) && ModelLeft(q) <= 4 && FairLeft(q) <= 26
  {
    if 14 <= slot {
      var n := slot / 2 - 5;
      PowMonotone(2, 2, 28 - n);
      assert Pow(2, 2) == 4;
    }
  }

  lemma TreeLeftStep(lim: int, i: int, j: int)
    requires 1 <= i < lim <= 256 && 2 * i <= j
    ensures TreeLeft(lim, j) + 1 <= TreeLeft(lim, i)
  {
  }

  predicate Tree(pc: Pc) {
    pc.Plain? || pc.Matched? || pc.LenTree?
  }

  predicate Tail(pc: Pc) {
    pc.Slot? || pc.Special? || pc.Direct? || pc.AlignBits?
  }

  /** Every step leads to a well-formed point. */
  lemma StepWf(cx: Ctx, pc: Pc, bit: bool)
    requires WfPc(cx, pc) && 0 <= cx.matchByte
    ensures WfPc(cx, Step(cx, pc, bit))
  {
    if pc.Slot? {
      StepWfSlot(cx, pc, bit);
    } else if pc.Direct? {
      StepWfDirect(cx, pc, bit);
    } else if pc.LenTree? {
      StepWfLen(cx, pc, bit);
    } else if pc.Special? || pc.AlignBits? {
      StepWfReverse(cx, pc, bit);
    }
  }

  lemma StepWfSlot(cx: Ctx, pc: Pc, bit: bool)
    requires WfPc(cx, pc) && pc.Slot?
    ensures WfPc(cx, Step(cx, pc, bit))
  {
    var j := 2 * pc.i + B(bit);
    if j >= 64 {
      AfterSlotOk(cx, pc.len, j - 64);
    }
  }

  lemma StepWfDirect(cx: Ctx, pc: Pc, bit: bool)
    requires WfPc(cx, pc) && pc.Direct?
    ensures WfPc(cx, Step(cx, pc, bit))
  {
    assert Pow(2, 28 - pc.n + 1) == 2 * Pow(2, 28 - pc.n);
    if pc.n == 1 {
      PowTwo28();
    }
  }

  lemma StepWfLen(cx: Ctx, pc: Pc, bit: bool)
    requires WfPc(cx, pc) && pc.LenTree?
    ensures WfPc(cx, Step(cx, pc, bit))
  {
  }

  lemma StepWfReverse(cx: Ctx, pc: Pc, bit: bool)
    requires WfPc(cx, pc) && (pc.Special? || pc.AlignBits?)
    ensures WfPc(cx, Step(cx, pc, bit))
  {
  }

  // q asks for strictly fewer bits than pc, of the kind that pc asks for
  predicate Cheaper(pc: Pc, q: Pc) {
    if pc.Direct? then
      ModelLeft(q) <= ModelLeft(pc) && FairLeft(q) + 1 <= FairLeft(pc)
    else if pc.Special? && pc.n == 1 then
      q.Done? && FairLeft(pc) == 26
    else
      ModelLeft(q) + 1 <= ModelLeft(pc) && FairLeft(q) <= FairLeft(pc)
  }

  /** Every step leaves strictly fewer bits to ask. */
  lemma StepCheaper(cx: Ctx, pc: Pc, bit: bool)
    requires WfPc(cx, pc) && !pc.Done?
    ensures Cheaper(pc, Step(cx, pc, bit)) && Fuel(Step(cx, pc, bit)) < Fuel(pc)
  {
    if Tree(pc) {
      StepCheaperTree(cx, pc, bit);
    } else if pc.Slot? {
      StepCheaperSlot(cx, pc, bit);
    } else if Tail(pc) {
      StepCheaperTail(cx, pc, bit);
    } else {
      StepCheaperHead(cx, pc, bit);
    }
  }

  lemma StepCheaperHead(cx: Ctx, pc: Pc, bit: bool)
    requires WfPc(cx, pc) && !Tree(pc) && !Tail(pc) && !pc.Done?
    ensures Cheaper(pc, Step(cx, pc, bit))
  {
  }

  lemma StepCheaperTree(cx: Ctx, pc: Pc, bit: bool)
    requires WfPc(cx, pc) && Tree(pc)
    ensures Cheaper(pc, Step(cx, pc, bit))
  {
    match pc
    case Plain(sym) => TreeLeftStep(256, sym, 2 * sym + B(bit));
    case Matched(sym, _, _) => TreeLeftStep(256, sym, 2 * sym + B(bit));
    case LenTree(k, off, lim, add, i) => TreeLeftStep(lim, i, 2 * i + B(bit));
  }

  lemma StepCheaperSlot(cx: Ctx, pc: Pc, bit: bool)
    requires WfPc(cx, pc) && pc.Slot?
    ensures Cheaper(pc, Step(cx, pc, bit))
  {
    var j := 2 * pc.i + B(bit);
    TreeLeftStep(64, pc.i, j);
    if j >= 64 {
      AfterSlotOk(cx, pc.len, j - 64);
    }
  }

  lemma StepCheaperTail(cx: Ctx, pc: Pc, bit: bool)
    requires WfPc(cx, pc) && Tail(pc) && !pc.Slot?
    ensures Cheaper(pc, Step(cx, pc, bit))
  {
  }

  lemma QueryFits(cx: Ctx, pc: Pc, numProbs: int)
    requires WfCtx(cx, numProbs) && WfPc(cx, pc)
    ensures SlotQuery(cx, pc).Model? ==> 0 <= SlotQuery(cx, pc).i < numProbs
    ensures SlotQuery(cx, pc).Fair? <==> pc.Direct?
    ensures SlotQuery(cx, pc).Nothing? <==> pc.Done?
  {
  }
}
