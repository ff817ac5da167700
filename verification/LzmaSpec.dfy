/**
 What the LZMA decoder computes, on a flat unbounded history and with a renormalised coder after every symbol:
 the specification that the in-place decoder with its circular dictionary and partial buffers is proved against.
 */
module LzmaSpec {
  import opened Primitives
  import opened RangeCoder
  import opened SymbolCode
  import opened SymbolRun
  import opened Lz77

  const RANGE_INIT: int := 0xFFFF_FFFF
  const RC_INIT_SIZE: int := 5
  const SPEC_LEN_START: int := 274
  const BAD_REP_CODE: int := 0xC000_0000 - 0x400
  const DIC_MIN: int := 0x1000

  datatype Props = Props(lc: int, lp: int, pb: int, dicSize: int)

  // What LzmaProps_Decode delivers.
  predicate WfProps(p: Props) {
    0 <= p.lc <= 8 && 0 <= p.lp <= 4 && 0 <= p.pb <= 4 && DIC_MIN <= p.dicSize < TWO32
  }

  function NumProbs(p: Props): int
    requires WfProps(p)
  {
    LITERAL + LIT_SIZE * Pow(2, p.lc + p.lp)
  }

  datatype Core = Core(range: int, code: int, probs: seq<int>, state: int,
                       rep0: int, rep1: int, rep2: int, rep3: int, hist: seq<byte>, rem: int)

  function CoderOf(c: Core, inp: seq<byte>): Coder {
    Coder(c.range, c.code, c.probs, inp)
  }

  function WithCoder(c: Core, r: Coder): Core {
    c.(range := r.range, code := r.code, probs := r.probs)
  }

  // The 32-bit counter of output bytes.
  function ProcessedPos(h: seq<byte>): int {
    |h| % TWO32
  }

  // Zero until a whole dictionary has been output.
  function CheckDicSize(p: Props, h: seq<byte>): int {
    if |h| >= p.dicSize then p.dicSize else 0
  }

  predicate GoodRep(p: Props, c: Core, rep: int) {
    1 <= rep <= Max(1, |c.hist|) && rep <= p.dicSize
  }

  predicate Fresh(c: Core) {
    && c.range == RANGE_INIT && c.state == 0
    && forall i :: 0 <= i < |c.probs| ==> c.probs[i] == PROB_INIT
  }

  /** What holds when a symbol has been decoded but not yet applied. */
  predicate MidCore(p: Props, c: Core) {
    && WfProps(p)
    && Raw(CoderOf(c, []))
    && |c.probs| == NumProbs(p)
    && 0 <= c.state < NUM_STATES
    && GoodRep(p, c, c.rep0) && GoodRep(p, c, c.rep1) && GoodRep(p, c, c.rep2) && GoodRep(p, c, c.rep3)
    && 0 <= c.rem <= SPEC_LEN_START
    && (c.hist == [] ==> c.state == 0 && (c.rem == 0 || c.rem == SPEC_LEN_START))
  }

  /** The decoder invariant, with the coder possibly one renormalisation behind. */
  predicate RawCore(p: Props, c: Core) {
    MidCore(p, c) && (c.hist == [] && c.rem == 0 ==> Fresh(c))
  }

  predicate ValidCore(p: Props, c: Core) {
    RawCore(p, c) && TOP <= c.range
  }

  // ---------- the context of a symbol ----------

  // Offset of the probabilities of a literal, from the output position and the byte before it.
  function LitOffset(p: Props, pos: int, prev: int): int
    requires WfProps(p) && 0 <= pos
  {
    PowPositive(2, p.lp);
    PowPositive(2, 8 - p.lc);
    LIT_SIZE * ((pos % Pow(2, p.lp)) * Pow(2, p.lc) + prev / Pow(2, 8 - p.lc))
  }

  function PosState(p: Props, pos: int): int
    requires WfProps(p) && 0 <= pos
  {
    PowPositive(2, p.pb);
    16 * (pos % Pow(2, p.pb))
  }

  // The first literal goes to the first table; later ones are placed by position and previous byte.
  function LitBase(p: Props, h: seq<byte>): int
    requires WfProps(p)
  {
    LITERAL + if h == [] then 0 else LitOffset(p, ProcessedPos(h), h[|h| - 1])
  }

  function CtxOf(p: Props, c: Core): Ctx
    requires MidCore(p, c)
  {
    Ctx(c.state, PosState(p, ProcessedPos(c.hist)), LitBase(p, c.hist),
        if c.state >= NUM_LIT_STATES then c.hist[|c.hist| - c.rep0] else 0)
  }

  lemma MulBelow(x: int, y: int, a: int, b: int)
    requires 0 <= x < a && 0 <= y < b
    ensures 0 <= x * b + y < a * b
  {
    assert (x + 1) * b <= a * b;
    assert x * b + b == (x + 1) * b;
  }

  lemma LitOffsetBounds(p: Props, pos: int, prev: int)
    requires WfProps(p) && 0 <= pos && 0 <= prev < 256
    ensures 0 <= LitOffset(p, pos, prev) && LitOffset(p, pos, prev) + LIT_SIZE <= LIT_SIZE * Pow(2, p.lc + p.lp)
    ensures LitOffset(p, pos, prev) % LIT_SIZE == 0
  {
    var a, b, d := Pow(2, p.lp), Pow(2, p.lc), Pow(2, 8 - p.lc);
    PowPositive(2, p.lp);
    LcPowers(p.lc);
    PowAdd(2, p.lp, p.lc);
    DivBelow(prev, b, d);
    MulBelow(pos % a, prev / d, a, b);
  }

  lemma DivBelow(x: int, b: int, d: int)
    requires 0 <= x < b * d && 0 < d
    ensures 0 <= x / d < b
  {
    var q := x / d;
    assert d * q + x % d == x;
    assert q >= b ==> d * q >= d * b;
  }

  lemma CtxOk(p: Props, c: Core)
    requires MidCore(p, c)
    ensures WfCtx(CtxOf(p, c), |c.probs|)
  {
    hide Raw, GoodProbs, LitOffset;
    var pos := ProcessedPos(c.hist);
    PowPositive(2, p.pb);
    PowMonotone(2, p.pb, 4);
    assert Pow(2, 4) == 16;
    PowMonotone(2, 0, p.lc + p.lp);
    if c.hist != [] {
      LitOffsetBounds(p, pos, c.hist[|c.hist| - 1]);
    }
  }

  // ---------- one symbol ----------

  datatype Fetched = FetchMore | Fetched(sym: Symbol, c: Core, rest: seq<byte>)

  /** Decode one symbol and renormalise; nothing of the LZ77 state changes yet. */
  function Fetch(p: Props, c: Core, inp: seq<byte>): Fetched
    requires RawCore(p, c)
  {
    CtxOk(p, c);
    match Run(CtxOf(p, c), IsMatch, CoderOf(c, inp))
    case Incomplete => FetchMore
    case Complete(sym, r) =>
      match Normalize(r)
      case Starved => FetchMore
      case Normal(n) => Fetched(sym, WithCoder(c, n), n.inp)
  }

  function AfterLit(state: int): int {
    if state < 4 then 0 else if state < 10 then state - 3 else state - 6
  }

  datatype Applied = Rejected | Applied(c: Core)

  // How far back a match may reach.
  function Window(p: Props, h: seq<byte>): int {
    if CheckDicSize(p, h) == 0 then ProcessedPos(h) else CheckDicSize(p, h)
  }

  function WriteMatch(c: Core, len: int, lim: int): Applied
    requires 1 <= c.rep0 <= |c.hist| && |c.hist| <= lim && 0 < len
  {
    if lim == |c.hist| then Rejected
    else var n := Min(lim - |c.hist|, len); Applied(c.(hist := CopyMatch(c.hist, c.rep0, n), rem := len - n))
  }

  function Rotate(c: Core, r: int): Core {
    if r == 0 then c
    else if r == 1 then c.(rep0 := c.rep1, rep1 := c.rep0)
    else if r == 2 then c.(rep0 := c.rep2, rep1 := c.rep0, rep2 := c.rep1)
    else c.(rep0 := c.rep3, rep1 := c.rep0, rep2 := c.rep1, rep3 := c.rep2)
  }

  /** What a decoded symbol does to the LZ77 state when output must stop at lim. */
  function Apply(p: Props, c: Core, s: Symbol, lim: int): Applied
    requires MidCore(p, c) && WfSymbol(s) && |c.hist| <= lim
    requires c.hist == [] ==> s.Lit? || s.Match?
  {
    match s
    case Lit(b) => Applied(c.(hist := c.hist + [b], state := AfterLit(c.state)))
    case ShortRep =>
      Applied(c.(hist := CopyMatch(c.hist, c.rep0, 1), state := if c.state < NUM_LIT_STATES then 9 else 11))
    case Rep(r, len) =>
      WriteMatch(Rotate(c, r).(state := if c.state < NUM_LIT_STATES then 8 else 11), len + MATCH_MIN_LEN, lim)
    case Match(dist, len) =>
      if dist == END_MARK then
        Applied(c.(rem := SPEC_LEN_START))
      else if dist >= Window(p, c.hist) then
        Rejected
      else
        WindowReach(p, c.hist);
        WriteMatch(c.(rep0 := dist + 1, rep1 := c.rep0, rep2 := c.rep1, rep3 := c.rep2,
                      state := if c.state < NUM_LIT_STATES then 7 else 10),
                   len + MATCH_MIN_LEN, lim)
  }

  lemma WindowReach(p: Props, h: seq<byte>)
    requires WfProps(p)
    ensures 0 <= Window(p, h) <= |h| && Window(p, h) <= p.dicSize
    ensures |h| < p.dicSize ==> Window(p, h) == |h|
  {
    if |h| < p.dicSize {
      assert |h| % TWO32 == |h|;
    }
  }

  function WriteRem(c: Core, lim: int): Core
    requires 1 <= c.rep0 && 0 <= c.rem && |c.hist| <= lim && (0 < c.rem < SPEC_LEN_START ==> c.rep0 <= |c.hist|)
  {
    if c.rem == 0 || c.rem >= SPEC_LEN_START then c
    else var n := Min(lim - |c.hist|, c.rem); c.(hist := CopyMatch(c.hist, c.rep0, n), rem := c.rem - n)
  }

  // ---------- what a symbol keeps ----------

  // What is true of the outcome d of applying a symbol to c.
  predicate AppliedOk(p: Props, c: Core, d: Core, lim: int) {
    && RawCore(p, d) && CoderOf(d, []) == CoderOf(c, [])
    && (if d.rem == SPEC_LEN_START then d.hist == c.hist
        else |c.hist| < |d.hist| <= Max(lim, |c.hist| + 1) && (d.rem > 0 ==> |d.hist| == lim))
  }

  lemma WriteMatchKeeps(p: Props, c: Core, len: int, lim: int)
    requires MidCore(p, c) && c.hist != [] && |c.hist| <= lim && 0 < len < SPEC_LEN_START
    ensures 1 <= c.rep0 <= |c.hist|
    ensures match WriteMatch(c, len, lim)
            case Rejected => lim == |c.hist|
            case Applied(d) => AppliedOk(p, c, d, lim) && d.rem != SPEC_LEN_START
  {
  }

  lemma ApplyKeeps(p: Props, c: Core, s: Symbol, lim: int)
    requires MidCore(p, c) && WfSymbol(s) && |c.hist| <= lim && c.rem == 0
    requires c.hist == [] ==> s.Lit? || s.Match?
    ensures match Apply(p, c, s, lim)
            case Rejected => true
            case Applied(d) => AppliedOk(p, c, d, lim) && (s.Match? && s.dist == END_MARK <==> d.rem == SPEC_LEN_START)
  {
    hide Raw, GoodProbs, NumProbs, WriteMatch;
    WindowReach(p, c.hist);
    match s
    case Lit(_) =>
    case ShortRep =>
    case Rep(r, len) =>
      WriteMatchKeeps(p, Rotate(c, r).(state := if c.state < NUM_LIT_STATES then 8 else 11), len + MATCH_MIN_LEN, lim);
    case Match(dist, len) =>
      if dist != END_MARK && dist < Window(p, c.hist) {
        WriteMatchKeeps(p, c.(rep0 := dist + 1, rep1 := c.rep0, rep2 := c.rep1, rep3 := c.rep2,
                              state := if c.state < NUM_LIT_STATES then 7 else 10),
                        len + MATCH_MIN_LEN, lim);
      }
  }

  lemma WriteRemKeeps(p: Props, c: Core, lim: int)
    requires RawCore(p, c) && |c.hist| <= lim
    ensures var d := WriteRem(c, lim);
            && RawCore(p, d) && CoderOf(d, []) == CoderOf(c, []) && |c.hist| <= |d.hist| <= lim
            && (d.rem == SPEC_LEN_START <==> c.rem == SPEC_LEN_START)
            && (0 < d.rem < SPEC_LEN_START ==> |d.hist| == lim)
            && (c.rem == 0 || c.rem == SPEC_LEN_START ==> d == c)
  {
  }

  lemma FetchKeeps(p: Props, c: Core, inp: seq<byte>)
    requires RawCore(p, c)
    ensures match Fetch(p, c, inp)
            case FetchMore => true
            case Fetched(s, d, rest) =>
              && WfSymbol(s) && Canonical(CoderOf(d, [])) && |d.probs| == |c.probs| && Suffix(inp, rest)
              && d == c.(range := d.range, code := d.code, probs := d.probs) && MidCore(p, d)
  {
    CtxOk(p, c);
    RunKeeps(CtxOf(p, c), IsMatch, CoderOf(c, inp));
    match Run(CtxOf(p, c), IsMatch, CoderOf(c, inp))
    case Incomplete =>
    case Complete(sym, r) =>
      NormalizeOnce(r);
      match Normalize(r)
      case Starved =>
      case Normal(n) =>
        assert Suffix(r.inp, n.inp);
        SuffixTrans(inp, r.inp, n.inp);
  }

  // ---------- the literal index, two ways ----------

  // The decoder's single masked expression, with 32-bit wrap of the shifted position.
  function FusedLitOffset(p: Props, pos: int, prev: int): int
    requires WfProps(p) && 0 <= pos && 0 <= prev < 256
  {
    PowMonotone(2, 8 - p.lc, 8 + p.lp);
    3 * (And((pos * 256 + prev) % TWO32, Pow(2, 8 + p.lp) - Pow(2, 8 - p.lc)) * Pow(2, p.lc))
  }

  lemma ModMul(x: int, y: int, a: int, m: int)
    requires 0 <= x && 0 <= y < m && 0 < a && 0 < m
    ensures 0 < a * m && (x * m + y) % (a * m) == (x % a) * m + y
  {
    var q, r := x / a, x % a;
    assert x == a * q + r;
    MulBelow(r, y, a, m);
    calc {
      x * m + y;
      (a * q + r) * m + y;
      a * q * m + r * m + y;
      (a * m) * q + (r * m + y);
    }
    ModUnique(x * m + y, a * m, q, r * m + y);
  }

  lemma FuseAlgebra(r: int, t: int, b: int, d: int)
    requires b * d == 256
    ensures (r * 256 + d * t) * b == 256 * (r * b + t)
  {
    MulAssoc(d, t, b);
    MulSwap(d, t, b);
    assert (r * 256 + d * t) * b == r * 256 * b + d * t * b;
    assert t * (d * b) == t * 256;
  }

  lemma LpMaskValue(p: Props, pos: int, prev: int)
    requires WfProps(p) && 0 <= pos && 0 <= prev < 256
    ensures 0 < Pow(2, p.lp) && 0 < Pow(2, 8 - p.lc) <= Pow(2, 8 + p.lp)
    ensures And((pos * 256 + prev) % TWO32, Pow(2, 8 + p.lp) - Pow(2, 8 - p.lc))
            == (pos % Pow(2, p.lp)) * 256 + (prev - prev % Pow(2, 8 - p.lc))
  {
    AndBand((pos * 256 + prev) % TWO32, 8 + p.lp, 8 - p.lc);
    BandHigh(pos, prev, p.lp);
    BandLow(pos, prev, p.lc);
  }

  /** The fused mask expression of the decoder indexes the same literal probabilities as the plain formula. */
  lemma FusedLiteralIndex(p: Props, pos: int, prev: int)
    requires WfProps(p) && 0 <= pos && 0 <= prev < 256
    ensures FusedLitOffset(p, pos, prev) == LitOffset(p, pos, prev)
  {
    hide Pow, And;
    LpMaskValue(p, pos, prev);
    LcPowers(p.lc);
    DivParts(prev, Pow(2, 8 - p.lc));
    FuseFinal(And((pos * 256 + prev) % TWO32, Pow(2, 8 + p.lp) - Pow(2, 8 - p.lc)),
              pos % Pow(2, p.lp), prev / Pow(2, 8 - p.lc), Pow(2, p.lc), Pow(2, 8 - p.lc));
  }

  lemma LcPowers(lc: nat)
    requires lc <= 8
    ensures 0 < Pow(2, lc) && 0 < Pow(2, 8 - lc) && Pow(2, lc) * Pow(2, 8 - lc) == 256
  {
    PowPositive(2, lc);
    PowPositive(2, 8 - lc);
    PowAdd(2, lc, 8 - lc);
    assert Pow(2, 8) == 256;
  }

  lemma DivParts(x: int, d: int)
    requires 0 < d
    ensures x - x % d == d * (x / d)
  {
  }

  lemma FuseFinal(m: int, r: int, t: int, b: int, d: int)
    requires m == r * 256 + d * t && b * d == 256
    ensures 3 * (m * b) == LIT_SIZE * (r * b + t)
  {
    FuseAlgebra(r, t, b, d);
  }

  lemma BandHigh(pos: int, prev: int, lp: nat)
    requires 0 <= pos && 0 <= prev < 256 && lp <= 4
    ensures 0 < Pow(2, lp) && 0 < Pow(2, 8 + lp)
    ensures (pos * 256 + prev) % TWO32 % Pow(2, 8 + lp) == (pos % Pow(2, lp)) * 256 + prev
  {
    PowPositive(2, lp);
    PowPositive(2, 8 + lp);
    PowAdd(2, lp, 8);
    assert Pow(2, 8) == 256;
    PowPositive(2, 24 - lp);
    PowAdd(2, 24 - lp, 8 + lp);
    PowTwo32();
    ModMod(pos * 256 + prev, Pow(2, 24 - lp), Pow(2, 8 + lp));
    ModMul(pos, prev, Pow(2, lp), 256);
  }

  lemma BandLow(pos: int, prev: int, lc: nat)
    requires 0 <= pos && 0 <= prev < 256 && lc <= 8
    ensures 0 < Pow(2, 8 - lc) && (pos * 256 + prev) % TWO32 % Pow(2, 8 - lc) == prev % Pow(2, 8 - lc)
  {
    LcPowers(lc);
    PowPositive(2, 24 + lc);
    PowAdd(2, 24 + lc, 8 - lc);
    PowTwo32();
    ModMod(pos * 256 + prev, Pow(2, 24 + lc), Pow(2, 8 - lc));
    ModMod(pos * 256 + prev, Pow(2, lc), Pow(2, 8 - lc));
    assert (pos * 256 + prev) % 256 == prev;
  }

  // ---------- the first symbol ----------

  // Which of the three classes a symbol from pc on can only have.
  datatype Class = LitClass | MatchClass | RepClass | AnyClass

  function ClassOf(pc: Pc): Class {
    match pc
    case Plain(_) => LitClass
    case Matched(_, _, _) => LitClass
    case IsRepG0 => RepClass
    case IsRep0Long => RepClass
    case IsRepG1 => RepClass
    case IsRepG2 => RepClass
    case LenChoice(k) => if k.AsMatch? then MatchClass else RepClass
    case LenChoice2(k) => if k.AsMatch? then MatchClass else RepClass
    case LenTree(k, _, _, _, _) => if k.AsMatch? then MatchClass else RepClass
    case Slot(_, _) => MatchClass
    case Special(_, _, _, _, _) => MatchClass
    case Direct(_, _, _) => MatchClass
    case AlignBits(_, _, _, _) => MatchClass
    case Done(s) => SymbolClass(s)
    case IsMatch => AnyClass
    case IsRep => AnyClass
  }

  function SymbolClass(s: Symbol): Class {
    if s.Lit? then LitClass else if s.Match? then MatchClass else RepClass
  }

  lemma StepClass(cx: Ctx, pc: Pc, bit: bool)
    requires WfPc(cx, pc) && !ClassOf(pc).AnyClass?
    ensures ClassOf(Step(cx, pc, bit)) == ClassOf(pc)
  {
  }

  lemma {:induction false} RunClass(cx: Ctx, pc: Pc, rc: Coder)
    requires WfCtx(cx, |rc.probs|) && WfPc(cx, pc) && !ClassOf(pc).AnyClass?
    ensures match Run(cx, pc, rc)
            case Incomplete => true
            case Complete(s, _) => SymbolClass(s) == ClassOf(pc)
    decreases Fuel(pc)
  {
    if !pc.Done? {
      match Ask(cx, pc, rc)
      case NoByte =>
      case Decoded(bit, r) =>
        StepWf(cx, pc, bit);
        StepCheaper(cx, pc, bit);
        StepClass(cx, pc, bit);
        RunClass(cx, Step(cx, pc, bit), r);
    }
  }

  lemma FreshFirstBit(p: Props, c: Core, inp: seq<byte>)
    requires ValidCore(p, c) && Fresh(c)
    ensures WfCtx(CtxOf(p, c), |c.probs|)
    ensures var d := Ask(CtxOf(p, c), IsMatch, CoderOf(c, inp));
            && d.Decoded? && (d.bit <==> c.code >= 0x7FFF_FC00)
            && (d.bit ==> d.rc.range == 0x8000_03FF && d.rc.code == c.code - 0x7FFF_FC00
                          && d.rc.probs[IS_REP + c.state] == PROB_INIT)
  {
    CtxOk(p, c);
    QueryFits(CtxOf(p, c), IsMatch, |c.probs|);
  }

  lemma FreshSecondBit(cx: Ctx, rc: Coder)
    requires WfCtx(cx, |rc.probs|) && rc.range == 0x8000_03FF && rc.probs[IS_REP + cx.state] == PROB_INIT
    ensures var e := Ask(cx, IsRep, rc);
            e.Decoded? && (e.bit <==> rc.code >= 0x4000_0000)
  {
  }

  /** Right after initialisation the code threshold separates exactly the streams whose first symbol is a repetition. */
  lemma BadRepIsExact(p: Props, c: Core, inp: seq<byte>)
    requires ValidCore(p, c) && Fresh(c)
    ensures match Fetch(p, c, inp)
            case FetchMore => true
            case Fetched(s, _, _) => (SymbolClass(s) == RepClass <==> c.code >= BAD_REP_CODE)
  {
    FreshFirstBit(p, c, inp);
    var cx := CtxOf(p, c);
    var d := Ask(cx, IsMatch, CoderOf(c, inp));
    if d.bit {
      FreshSecondBit(cx, d.rc);
      RunClass(cx, Step(cx, IsRep, Ask(cx, IsRep, d.rc).bit), Ask(cx, IsRep, d.rc).rc);
      assert Run(cx, IsRep, d.rc) == Run(cx, Step(cx, IsRep, Ask(cx, IsRep, d.rc).bit), Ask(cx, IsRep, d.rc).rc);
      assert Run(cx, IsMatch, CoderOf(c, inp)) == Run(cx, IsRep, d.rc);
    } else {
      RunClass(cx, Step(cx, IsMatch, d.bit), d.rc);
    }
  }
}
