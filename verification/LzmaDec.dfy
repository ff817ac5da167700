/** The decoder object: circular dictionary, cached counters, adapting probabilities and the buffer of an incomplete symbol. */
module LzmaDecoder {
  import opened Primitives
  import opened RangeCoder
  import opened SymbolCode
  import opened SymbolRun
  import opened Lz77
  import opened LzmaSpec
  import opened LzmaDriver
  import opened LzmaRounds
  import opened Streaming
  import opened OutputLimits
  import opened BitReader
  import opened SymbolReader
  import opened LookAhead

  // The dictionary index k bytes behind pos, wrapping once around n.
  function Back(n: int, pos: int, k: int): int {
    if pos < k then pos - k + n else pos - k
  }

  /** The circular buffer d, next to be written at pos, holds the last bytes of the flat history h. */
  ghost predicate Mirrors(d: seq<byte>, pos: int, h: seq<byte>) {
    && 0 <= pos <= |d|
    && forall k {:trigger Back(|d|, pos, k)} :: 1 <= k <= |h| && k <= |d| ==> d[Back(|d|, pos, k)] == h[|h| - k]
  }

  lemma MirrorsPush(d: seq<byte>, pos: int, h: seq<byte>, b: byte)
    requires Mirrors(d, pos, h) && pos < |d|
    ensures Mirrors(d[pos := b], pos + 1, h + [b])
  {
    var e, g := d[pos := b], h + [b];
    forall k {:trigger Back(|e|, pos + 1, k)} | 1 <= k <= |g| && k <= |e|
      ensures e[Back(|e|, pos + 1, k)] == g[|g| - k]
    {
      if 1 < k {
        assert Back(|e|, pos + 1, k) == Back(|d|, pos, k - 1);
      }
    }
  }

  /** Starting over at the beginning of a full buffer keeps the mirror. */
  lemma MirrorsWrap(d: seq<byte>, h: seq<byte>)
    requires Mirrors(d, |d|, h)
    ensures Mirrors(d, 0, h)
  {
    forall k {:trigger Back(|d|, 0, k)} | 1 <= k <= |h| && k <= |d|
      ensures d[Back(|d|, 0, k)] == h[|h| - k]
    {
      assert Back(|d|, 0, k) == Back(|d|, |d|, k);
    }
  }

  lemma MirrorsRead(d: seq<byte>, pos: int, h: seq<byte>, k: int)
    requires Mirrors(d, pos, h) && 1 <= k <= |h| && k <= |d|
    ensures 0 <= Back(|d|, pos, k) < |d| && d[Back(|d|, pos, k)] == h[|h| - k]
  {
  }

  lemma CopyMatchSnoc(h: seq<byte>, dist: int, n: nat)
    requires 1 <= dist <= |h|
    ensures var g := CopyMatch(h, dist, n); CopyMatch(h, dist, n + 1) == g + [g[|g| - dist]]
  {
    CopyMatchSplit(h, dist, n, 1);
    var g := CopyMatch(h, dist, n);
    assert CopyMatch(g, dist, 1) == CopyMatch(g + [g[|g| - dist]], dist, 0);
  }

  lemma ProcessedAdd(h: seq<byte>, g: seq<byte>)
    requires |h| <= |g|
    ensures (ProcessedPos(h) + (|g| - |h|)) % TWO32 == ProcessedPos(g)
  {
  }

  lemma GoesAble(p: Props, c: Core, inp: seq<byte>, lim: int, fin: bool)
    requires Ready(p, c, lim) && c.rem == 0 && c.hist != [] && |c.hist| < lim && |inp| >= REQUIRED_INPUT_MAX
    ensures Able(p, c, inp, lim, fin)
  {
    hide Advance;
    GoesOn(p, c, inp, lim, fin);
  }

  lemma RemainingRoom(p: Props, h: seq<byte>)
    requires WfProps(p) && CheckDicSize(p, h) == 0
    ensures (p.dicSize - ProcessedPos(h)) % TWO32 == p.dicSize - |h| && 0 < p.dicSize - |h|
    ensures ProcessedPos(h) == 0 <==> h == []
  {
  }

  lemma RepsReachIfAny(p: Props, c: Core)
    requires RawCore(p, c)
    ensures 0 < c.rem < SPEC_LEN_START ==> 1 <= c.rep0 <= |c.hist| && c.rep0 <= p.dicSize
  {
  }

  lemma RemRange(p: Props, c: Core)
    requires RawCore(p, c)
    ensures 0 <= c.rem <= SPEC_LEN_START && 1 <= c.rep0
  {
  }

  lemma CopyNone(h: seq<byte>, dist: int)
    requires 1 <= dist
    ensures CopyMatch(h, dist, 0) == h
  {
  }

  lemma ApplyLitIs(p: Props, c: Core, goal: Outcome, b: byte, lim: int, d: Core)
    requires CanApply(p, c, goal, lim) && goal.sym == Lit(b)
    requires d == WithCoder(c, goal.rc).(hist := c.hist + [b], state := AfterLit(c.state))
    ensures Apply(p, WithCoder(c, goal.rc), goal.sym, lim) == Applied(d)
  {
  }

  lemma ApplyShortRepIs(p: Props, c: Core, goal: Outcome, lim: int, d: Core)
    requires CanApply(p, c, goal, lim) && goal.sym == ShortRep && 1 <= c.rep0 <= |c.hist|
    requires d == WithCoder(c, goal.rc).(hist := c.hist + [c.hist[|c.hist| - c.rep0]], state := if c.state < NUM_LIT_STATES then 9 else 11)
    ensures Apply(p, WithCoder(c, goal.rc), goal.sym, lim) == Applied(d)
  {
    hide CopyMatch;
    CopyOne(c.hist, c.rep0);
  }

  lemma ApplyRepIs(p: Props, c: Core, goal: Outcome, k: int, len: int, lim: int, d: Core)
    requires CanApply(p, c, goal, lim) && goal.sym == Rep(k, len) && |c.hist| < lim
    requires var e := Rotate(WithCoder(c, goal.rc), k).(state := if c.state < NUM_LIT_STATES then 8 else 11);
             var n := Min(lim - |c.hist|, len + MATCH_MIN_LEN);
             1 <= e.rep0 <= |c.hist| && d == e.(hist := CopyMatch(c.hist, e.rep0, n), rem := len + MATCH_MIN_LEN - n)
    ensures Apply(p, WithCoder(c, goal.rc), goal.sym, lim) == Applied(d)
  {
    hide CopyMatch;
  }

  lemma ApplyEndIs(p: Props, c: Core, goal: Outcome, lim: int)
    requires CanApply(p, c, goal, lim) && goal.sym.Match? && goal.sym.dist == END_MARK
    ensures Apply(p, WithCoder(c, goal.rc), goal.sym, lim) == Applied(WithCoder(c, goal.rc).(rem := SPEC_LEN_START))
  {
  }

  lemma ApplyMatchIs(p: Props, c: Core, goal: Outcome, dist: int, len: int, lim: int, ok: bool, d: Core)
    requires CanApply(p, c, goal, lim) && goal.sym == Match(dist, len) && dist != END_MARK
    requires ok <==> dist < Window(p, c.hist) && |c.hist| < lim
    requires ok ==> var n := Min(lim - |c.hist|, len + MATCH_MIN_LEN);
                    && dist < |c.hist|
                    && d == WithCoder(c, goal.rc).(rep0 := dist + 1, rep1 := c.rep0, rep2 := c.rep1, rep3 := c.rep2,
                                                   state := if c.state < NUM_LIT_STATES then 7 else 10,
                                                   hist := CopyMatch(c.hist, dist + 1, n), rem := len + MATCH_MIN_LEN - n)
    ensures Apply(p, WithCoder(c, goal.rc), goal.sym, lim) == if ok then Applied(d) else Rejected
  {
    hide CopyMatch;
  }

  datatype Dummy = DummyError | DummyLit | DummyMatch | DummyRep

  function DummyOf(f: Fetched): Dummy {
    match f
    case FetchMore => DummyError
    case Fetched(s, _, _) => if s.Lit? then DummyLit else if s.Match? then DummyMatch else DummyRep
  }

  lemma AndLowOnly(pos: nat, bits: nat)
    ensures 0 < Pow(2, bits) && And(pos, Pow(2, bits) - 1) == pos % Pow(2, bits)
  {
    AndBand(pos, bits, 0);
  }

  lemma ScoutStart(p: Props, c: Core, probs: seq<int>, input: seq<byte>, r: Regs, goal: Outcome)
    requires RawCore(p, c) && 0 <= r.pos <= |input| && CoderAt(probs, input, r) == CoderOf(c, input[r.pos..])
    requires WfCtx(CtxOf(p, c), |probs|) && goal == Peek(CtxOf(p, c), IsMatch, CoderAt(probs, input, r))
    ensures Scouting(probs, input, r, CtxOf(p, c), IsMatch, goal)
  {
    hide Peek, CtxOf;
  }

  /** What looking ahead found is what fetching the symbol will find. */
  lemma PeekFetch(p: Props, c: Core, probs: seq<int>, input: seq<byte>, start: int, r: Regs, ok: bool, sym: Symbol, goal: Outcome)
    requires RawCore(p, c) && 0 <= start <= |input| && probs == c.probs && WfCtx(CtxOf(p, c), |probs|)
    requires goal == Peek(CtxOf(p, c), IsMatch, CoderOf(c, input[start..]))
    requires Scouted(ok, probs, input, r, CtxOf(p, c), Done(sym), goal)
    ensures ok ==> 0 <= r.pos <= |input| && Raw(CoderAt(probs, input, r))
    ensures var f := Fetch(p, c, input[start..]);
            if ok && Normalize(CoderAt(probs, input, r)).Normal? then f.Fetched? && f.sym == sym else f == FetchMore
  {
    hide CtxOf, Raw, MidCore;
    var rc := CoderOf(c, input[start..]);
    PeekAgrees(CtxOf(p, c), IsMatch, rc, c.probs);
    assert rc.(probs := c.probs) == rc;
  }

  // d is c with its cut match finished up to lim.
  ghost predicate Finished(p: Props, c: Core, d: Core, lim: int) {
    RawCore(p, c) && |c.hist| <= lim && d == WriteRem(c, lim)
  }

  lemma SteppedFinishes(p: Props, c: Core, inp: seq<byte>, d: Core, e: Core, rest: seq<byte>, lim: int, fin: bool)
    requires Stepped(p, c, inp, d, rest, lim, fin) && Finished(p, d, e, lim) && Ready(p, e, lim)
    ensures Stepped(p, c, inp, e, rest, lim, fin)
  {
    hide Advance;
    ReadyWriteRem(p, e, lim);
  }

  lemma RepsReach(p: Props, c: Core)
    requires MidCore(p, c) && c.hist != []
    ensures 1 <= c.rep0 <= |c.hist| && 1 <= c.rep1 <= |c.hist| && 1 <= c.rep2 <= |c.hist| && 1 <= c.rep3 <= |c.hist|
    ensures c.rep0 <= p.dicSize && c.rep1 <= p.dicSize && c.rep2 <= p.dicSize && c.rep3 <= p.dicSize
  {
  }

  lemma CopyOne(h: seq<byte>, dist: int)
    requires 1 <= dist <= |h|
    ensures CopyMatch(h, dist, 1) == h + [h[|h| - dist]]
  {
    assert CopyMatch(h, dist, 1) == CopyMatch(h + [h[|h| - dist]], dist, 0);
  }

  lemma PoisedGoing(p: Props, probs: seq<int>, input: seq<byte>, r: Regs, c: Core, lim: int, fin: bool, goal: Outcome)
    requires 0 <= r.pos <= |input| && Poised(p, c, input[r.pos..], lim, fin)
    requires CoderOf(c, input[r.pos..]) == CoderAt(probs, input, r) && WfCtx(CtxOf(p, c), |c.probs|)
    requires goal == Run(CtxOf(p, c), IsMatch, CoderOf(c, input[r.pos..])) && goal.Complete?
    ensures Going(probs, input, r, CtxOf(p, c), IsMatch, goal) && c.rem == 0 && MidCore(p, c)
  {
    hide Run, Advance, CtxOf;
  }

  lemma AndLowPos(p: Props, pos: int)
    requires WfProps(p) && 0 <= pos
    ensures 0 < Pow(2, p.pb) && And(pos, Pow(2, p.pb) - 1) * 16 == PosState(p, pos)
  {
    AndBand(pos, p.pb, 0);
  }

  // The class of the outcome is known as soon as the class bits are.
  lemma GoingClass(probs: seq<int>, input: seq<byte>, r: Regs, cx: Ctx, pc: Pc, goal: Outcome)
    requires Going(probs, input, r, cx, pc, goal)
    ensures !ClassOf(pc).AnyClass? ==> SymbolClass(goal.sym) == ClassOf(pc)
  {
    if !ClassOf(pc).AnyClass? {
      RunClass(cx, pc, CoderAt(probs, input, r));
    }
  }

  lemma MidReads(p: Props, c: Core)
    requires MidCore(p, c)
    ensures c.state >= NUM_LIT_STATES ==> 1 <= c.rep0 <= |c.hist| && c.rep0 <= p.dicSize && CtxOf(p, c).matchByte == c.hist[|c.hist| - c.rep0]
    ensures CtxOf(p, c).lit == LitBase(p, c.hist) && CtxOf(p, c).state == c.state && CtxOf(p, c).posState == PosState(p, ProcessedPos(c.hist))
  {
  }

  function Bare(c: Core): Core {
    c.(range := 0, code := 0, probs := [])
  }

  ghost predicate CanApply(p: Props, c: Core, goal: Outcome, lim: int) {
    && goal.Complete? && MidCore(p, WithCoder(c, goal.rc)) && WfSymbol(goal.sym) && |c.hist| <= lim
    && (c.hist == [] ==> goal.sym.Lit? || goal.sym.Match?)
  }

  // A finished symbol leaves a coder with which the core can be continued.
  lemma SymbolDone(p: Props, c: Core, probs: seq<int>, input: seq<byte>, n: Regs, cx: Ctx, s: Symbol, goal: Outcome)
    requires MidCore(p, c) && Going(probs, input, n, cx, Done(s), goal) && |probs| == NumProbs(p)
    ensures 0 <= n.pos <= |input| && WfSymbol(s) && goal == Complete(s, CoderAt(probs, input, n))
    ensures MidCore(p, WithCoder(c, goal.rc))
  {
  }

  // While the dictionary has not been filled once, the distance to its size says whether len more bytes fill it.
  lemma RemainingWindow(p: Props, h: seq<byte>, len: int)
    requires WfProps(p) && 0 <= len
    ensures CheckDicSize(p, h) == 0 ==>
              ((p.dicSize - ProcessedPos(h)) % TWO32 <= len <==> |h| + len >= p.dicSize)
  {
  }

  /** The newest bytes of the history lie in one piece right behind the write position, as far back as the buffer starts. */
  lemma MirrorsTail(d: seq<byte>, pos: int, h: seq<byte>, n: int)
    requires Mirrors(d, pos, h) && 0 <= n <= pos && n <= |h|
    ensures d[pos - n..pos] == h[|h| - n..]
  {
    var tail := d[pos - n..pos];
    forall i | 0 <= i < n
      ensures tail[i] == h[|h| - n + i]
    {
      assert Back(|d|, pos, n - i) == pos - n + i;
    }
  }

  /** How many bytes LzmaDec_Allocate takes for the dictionary. */
  function AllocSize(dicSize: u32): (n: int)
    ensures dicSize <= n
    ensures var unit := if dicSize < 0x40_0000 then 0x1000 else if dicSize < 0x4000_0000 then 0x10_0000 else 0x40_0000;
            if dicSize <= 0x1_0000_0000 - unit then n % unit == 0 && n < dicSize + unit else n == dicSize
  {
    var unit := if dicSize >= 0x4000_0000 then 0x40_0000 else if dicSize >= 0x40_0000 then 0x10_0000 else 0x1000;
    var sum := (dicSize + unit - 1) % TWO32;
    var rounded := sum - sum % unit;
    if rounded < dicSize then dicSize else rounded
  }

  // What a symbol leaves of the topped-up buffer is given back to the input.
  lemma GivenBack(pend: seq<byte>, src: seq<byte>, at: int, look: int, used: int)
    requires 0 <= at <= at + look <= |src| && 0 <= used <= |pend| + look && |pend| + look - used <= look
    ensures var pos := at + look - (|pend| + look - used);
            (pend + src[at..at + look])[used..] + src[at + look..] == [] + src[pos..]
  {
  }

  lemma Appended(h: seq<byte>, g: seq<byte>, k: seq<byte>)
    requires Grows(h, g) && Grows(g, k)
    ensures Grows(h, k) && k[|h|..] == g[|h|..] + k[|g|..]
  {
    assert k == g + k[|g|..];
  }

  datatype SRes = Ok | ErrorData | ErrorFail

  class LzmaDec {
    const prop: Props
    const probs: array<int>
    const dic: array<byte>
    const tempBuf: array<byte>
    var dicPos: int
    var range: int
    var code: int
    var processedPos: int
    var checkDicSize: int
    var rep0: int
    var rep1: int
    var rep2: int
    var rep3: int
    var state: int
    var remainLen: int
    var tempBufSize: int
    // Everything output since initialisation; the dictionary holds the end of it.
    ghost var hist: seq<byte>

    ghost predicate Shape() {
      WfProps(prop) && probs.Length == NumProbs(prop) && tempBuf.Length == REQUIRED_INPUT_MAX && dic != tempBuf
    }

    // The buffer mirrors the history, and either is as large as any distance or has not wrapped.
    ghost predicate Dictionary()
      reads this`dicPos, this`hist, dic
    {
      Mirrors(dic[..], dicPos, hist) && (dic.Length >= prop.dicSize || dicPos == |hist|)
    }

    ghost function Now(): Core
      reads this, probs
    {
      Core(range, code, probs[..], state, rep0, rep1, rep2, rep3, hist, remainLen)
    }

    // dic[dicPos++] = b
    method Emit(b: byte)
      requires Shape() && Dictionary() && dicPos < dic.Length
      modifies this`dicPos, this`hist, dic
      ensures Dictionary() && dicPos == old(dicPos) + 1 && hist == old(hist) + [b]
    {
      MirrorsPush(dic[..], dicPos, hist, b);
      ghost var d := dic[..];
      dic[dicPos] := b;
      assert dic[..] == d[dicPos := b];
      dicPos := dicPos + 1;
      hist := hist + [b];
    }

    // Output one byte and count it.
    method PutByte(b: byte)
      requires Shape() && Dictionary() && dicPos < dic.Length && processedPos == ProcessedPos(hist)
      modifies this`dicPos, this`hist, this`processedPos, dic
      ensures Dictionary() && dicPos == old(dicPos) + 1 && hist == old(hist) + [b] && processedPos == ProcessedPos(hist)
    {
      ghost var h := hist;
      Emit(b);
      processedPos := (processedPos + 1) % TWO32;
      ProcessedAdd(h, hist);
    }

    // The byte rep bytes back: dic[dicPos - rep + (dicPos < rep ? dicBufSize : 0)]
    method ByteBack(rep: int) returns (b: byte)
      requires Shape() && Dictionary() && 1 <= rep <= |hist| && rep <= prop.dicSize
      ensures b == hist[|hist| - rep]
    {
      var i := dicPos - rep + if dicPos < rep then dic.Length else 0;
      assert i == Back(dic.Length, dicPos, rep);
      b := dic[i];
    }

    lemma RepInBuffer()
      requires Shape() && Dictionary() && 1 <= rep0 <= |hist| && rep0 <= prop.dicSize
      ensures rep0 <= dic.Length && 0 <= dicPos <= dic.Length
    {
    }

    method CopyOneStraight(src: int)
      requires Shape() && Dictionary() && dicPos < dic.Length
      requires 1 <= rep0 <= |hist| && rep0 <= prop.dicSize && dicPos + src == Back(dic.Length, dicPos, rep0)
      modifies this`dicPos, this`hist, dic
      ensures Dictionary() && dicPos == old(dicPos) + 1 && hist == old(hist) + [old(hist)[|old(hist)| - rep0]]
      ensures dicPos + src < dic.Length ==> dicPos + src == Back(dic.Length, dicPos, rep0)
    {
      MirrorsRead(dic[..], dicPos, hist, rep0);
      Emit(dic[dicPos + src]);
    }

    // Copy from pos, which does not run past the end of the buffer.
    method CopyStraight(pos: int, curLen: int)
      requires Shape() && Dictionary() && 0 < curLen && dicPos + curLen <= dic.Length
      requires 1 <= rep0 <= |hist| && rep0 <= prop.dicSize
      requires pos == Back(dic.Length, dicPos, rep0) && curLen <= dic.Length - pos
      modifies this`dicPos, this`hist, dic
      ensures Dictionary() && dicPos == old(dicPos) + curLen && hist == CopyMatch(old(hist), rep0, curLen)
    {
      hide Mirrors, CopyMatch, WfProps, NumProbs;
      var src := pos - dicPos;
      var lim := dicPos + curLen;
      ghost var h := hist;
      CopyNone(h, rep0);
      RepInBuffer();
      while dicPos != lim
        invariant old(dicPos) <= dicPos <= lim && Dictionary()
        invariant 1 <= rep0 <= |hist| && hist == CopyMatch(h, rep0, dicPos - old(dicPos))
        invariant dicPos < lim ==> dicPos + src == Back(dic.Length, dicPos, rep0)
        decreases lim - dicPos
      {
        CopyMatchSnoc(h, rep0, dicPos - old(dicPos));
        CopyOneStraight(src);
      }
    }

    method CopyOneAround(pos: int) returns (next: int)
      requires Shape() && Dictionary() && dicPos < dic.Length
      requires 1 <= rep0 <= |hist| && rep0 <= prop.dicSize && pos == Back(dic.Length, dicPos, rep0)
      modifies this`dicPos, this`hist, dic
      ensures Dictionary() && dicPos == old(dicPos) + 1 && hist == old(hist) + [old(hist)[|old(hist)| - rep0]]
      ensures dicPos < dic.Length ==> next == Back(dic.Length, dicPos, rep0)
    {
      Emit(dic[pos]);
      next := pos + 1;
      if next == dic.Length {
        next := 0;
      }
    }

    // Copy from pos, going around the end of the buffer.
    method CopyAround(start: int, curLen: int)
      requires Shape() && Dictionary() && 0 < curLen && dicPos + curLen <= dic.Length
      requires 1 <= rep0 <= |hist| && rep0 <= prop.dicSize
      requires start == Back(dic.Length, dicPos, rep0)
      modifies this`dicPos, this`hist, dic
      ensures Dictionary() && dicPos == old(dicPos) + curLen && hist == CopyMatch(old(hist), rep0, curLen)
    {
      hide Mirrors, CopyMatch, WfProps, NumProbs;
      var pos, len := start, curLen;
      ghost var h := hist;
      CopyNone(h, rep0);
      RepInBuffer();
      while len != 0
        invariant 0 <= len <= curLen && Dictionary() && dicPos == old(dicPos) + curLen - len
        invariant 1 <= rep0 <= |hist| && hist == CopyMatch(h, rep0, curLen - len)
        invariant 0 < len ==> pos == Back(dic.Length, dicPos, rep0)
      {
        CopyMatchSnoc(h, rep0, curLen - len);
        pos := CopyOneAround(pos);
        len := len - 1;
      }
    }

    /** Copy a match as far as the limit allows and remember what is left of it. */
    method PutMatch(total: int, limit: int) returns (ok: bool)
      requires Shape() && Dictionary() && processedPos == ProcessedPos(hist) && 0 < total
      requires 1 <= rep0 <= |hist| && rep0 <= prop.dicSize && dicPos <= limit <= dic.Length
      modifies this`dicPos, this`hist, this`processedPos, this`remainLen, dic
      ensures Dictionary() && processedPos == ProcessedPos(hist)
      ensures ok <==> old(dicPos) < limit
      ensures !ok ==> dicPos == old(dicPos) && hist == old(hist)
      ensures ok ==> var n := Min(limit - old(dicPos), total);
                     dicPos == old(dicPos) + n && hist == CopyMatch(old(hist), rep0, n) && remainLen == total - n
    {
      hide Mirrors, CopyMatch, ProcessedPos;
      RepInBuffer();
      var rem := limit - dicPos;
      if rem == 0 {
        return false;
      }
      ghost var h := hist;
      var curLen := if rem < total then rem else total;
      var pos := dicPos - rep0 + if dicPos < rep0 then dic.Length else 0;
      processedPos := (processedPos + curLen) % TWO32;
      remainLen := total - curLen;
      if curLen <= dic.Length - pos {
        CopyStraight(pos, curLen);
      } else {
        CopyAround(pos, curLen);
      }
      ProcessedAdd(h, hist);
      ok := true;
    }

    // Copy byte by byte, finding the source of each anew.
    method CopyBytes(curLen: int)
      requires Shape() && Dictionary() && 0 <= curLen && dicPos + curLen <= dic.Length
      requires 1 <= rep0 <= |hist| && rep0 <= prop.dicSize
      modifies this`dicPos, this`hist, dic
      ensures Dictionary() && dicPos == old(dicPos) + curLen && hist == CopyMatch(old(hist), rep0, curLen)
      ensures |hist| == |old(hist)| + curLen
    {
      var len := curLen;
      ghost var h := hist;
      assert hist == CopyMatch(h, rep0, 0);
      hide CopyMatch;
      while len != 0
        invariant 0 <= len <= curLen && Dictionary() && dicPos == old(dicPos) + curLen - len
        invariant 1 <= rep0 <= |hist| && |hist| == |h| + curLen - len && hist == CopyMatch(h, rep0, curLen - len)
      {
        len := len - 1;
        CopyMatchSnoc(h, rep0, curLen - len - 1);
        var b := ByteBack(rep0);
        Emit(b);
      }
    }

    /** Finish, as far as the limit allows, a match that an earlier limit cut short. */
    method WriteRemainder(limit: int)
      requires Shape() && Dictionary() && processedPos == ProcessedPos(hist) && checkDicSize == CheckDicSize(prop, hist)
      requires 0 <= remainLen && dicPos <= limit <= dic.Length
      requires 0 < remainLen < SPEC_LEN_START ==> 1 <= rep0 <= |hist| && rep0 <= prop.dicSize
      modifies this`dicPos, this`hist, this`processedPos, this`remainLen, this`checkDicSize, dic
      ensures Dictionary() && processedPos == ProcessedPos(hist) && checkDicSize == CheckDicSize(prop, hist)
      ensures var n := if 0 < old(remainLen) < SPEC_LEN_START then Min(limit - old(dicPos), old(remainLen)) else 0;
              && dicPos == old(dicPos) + n && remainLen == old(remainLen) - n
              && (if n == 0 then hist == old(hist) else 1 <= rep0 <= |old(hist)| && hist == CopyMatch(old(hist), rep0, n))
    {
      hide ProcessedPos, Mirrors, CopyMatch;
      if remainLen != 0 && remainLen < SPEC_LEN_START {
        ghost var h := hist;
        var len := remainLen;
        var rem := limit - dicPos;
        if rem < len {
          len := rem;
        }
        RemainingWindow(prop, hist, len);
        if checkDicSize == 0 && (prop.dicSize - processedPos) % TWO32 <= len {
          checkDicSize := prop.dicSize;
        }
        processedPos := (processedPos + len) % TWO32;
        remainLen := remainLen - len;
        CopyBytes(len);
        ProcessedAdd(h, hist);
      }
    }

    // ---------- one symbol ----------

    ghost predicate Counters()
      reads this`processedPos, this`checkDicSize, this`hist
    {
      processedPos == ProcessedPos(hist) && checkDicSize == CheckDicSize(prop, hist)
    }

    // The index of the literal probabilities: three sub-tables per context, the context cut out by one mask.
    method LiteralIndex() returns (lit: int)
      requires Shape() && Dictionary() && Counters()
      ensures lit == LitBase(prop, hist)
    {
      hide And, Pow, LitOffset;
      lit := LITERAL;
      if processedPos != 0 || checkDicSize != 0 {
        var i := (if dicPos == 0 then dic.Length else dicPos) - 1;
        assert i == Back(dic.Length, dicPos, 1);
        var prev: int := dic[i];
        PowMonotone(2, 8 - prop.lc, 8 + prop.lp);
        var lpMask := Pow(2, 8 + prop.lp) - Pow(2, 8 - prop.lc);
        lit := lit + 3 * (And((processedPos * 256 + prev) % TWO32, lpMask) * Pow(2, prop.lc));
        FusedLiteralIndex(prop, processedPos, prev);
      }
    }

    // A symbol can be decoded from registers r on, in context cx; its outcome will be applied to c0.
    ghost predicate Midway(c0: Core, cx: Ctx, input: seq<byte>, r: Regs, pc: Pc, goal: Outcome, limit: int)
      reads this, probs, dic
    {
      && Shape() && Dictionary() && Counters()
      && Bare(Now()) == Bare(c0) && MidCore(prop, c0) && c0.rem == 0 && cx == CtxOf(prop, c0)
      && Going(probs[..], input, r, cx, pc, goal)
      && dicPos <= limit <= dic.Length && (dicPos == limit ==> goal.sym.Match?) && (hist == [] ==> goal.sym.Lit? || goal.sym.Match?)
    }

    // The symbol has been applied to c0 and the registers are back in the fields.
    ghost predicate Delivered(c0: Core, pos0: int, input: seq<byte>, n: Regs, goal: Outcome, lim: int)
      reads this, probs, dic
    {
      && Dictionary() && processedPos == ProcessedPos(hist) && dicPos - pos0 == |hist| - |c0.hist|
      && 0 <= n.pos <= |input| && range == n.range && code == n.code
      && goal.Complete? && goal.rc == CoderAt(probs[..], input, n)
      && CanApply(prop, c0, goal, lim) && Apply(prop, WithCoder(c0, goal.rc), goal.sym, lim) == Applied(Now())
    }

    method LiteralPart(input: seq<byte>, r: Regs, ghost c0: Core, ghost cx: Ctx, ghost pc: Pc, ghost goal: Outcome,
        ghost limit: int)
      returns (n: Regs)
      requires pc == if state < NUM_LIT_STATES then Plain(1) else Matched(1, cx.matchByte, 256)
      requires Midway(c0, cx, input, r, pc, goal, limit) && dicPos < limit
      modifies this, probs, dic
      ensures tempBufSize == old(tempBufSize)
      ensures Delivered(c0, old(dicPos), input, n, goal, |c0.hist| + limit - old(dicPos)) && checkDicSize == old(checkDicSize)
    {
      hide Going, Raw, LitBase, PosState, Mirrors, MidCore, Step, Run, CtxOf, WfProps, NumProbs;
      MidReads(prop, c0);
      var lit := LiteralIndex();
      var symbol;
      if state < NUM_LIT_STATES {
        state := state - if state < 4 then state else 3;
        symbol, n := DecodeLiteral(probs, lit, input, r, cx, goal);
      } else {
        var matchByte := ByteBack(rep0);
        state := state - if state < 10 then 3 else 6;
        symbol, n := DecodeMatchedLiteral(probs, lit, matchByte, input, r, cx, goal);
      }
      SymbolDone(prop, c0, probs[..], input, n, cx, Lit(symbol), goal);
      PutLiteral(symbol, input, n, c0, goal, limit);
    }

    // All bits of the symbol are decoded; the registers after them are n.
    ghost predicate AllRead(c0: Core, input: seq<byte>, n: Regs, s: Symbol, goal: Outcome, limit: int)
      reads this, probs, dic
    {
      && Shape() && Dictionary() && Counters() && hist == c0.hist && c0.rem == 0 && remainLen == 0
      && 0 <= n.pos <= |input| && dicPos <= limit <= dic.Length
      && goal == Complete(s, CoderAt(probs[..], input, n)) && CanApply(prop, c0, goal, |c0.hist| + limit - dicPos)
    }

    method PutLiteral(symbol: byte, input: seq<byte>, n: Regs, ghost c0: Core, ghost goal: Outcome, ghost limit: int)
      requires AllRead(c0, input, n, Lit(symbol), goal, limit) && dicPos < limit
      requires Bare(Now()) == Bare(c0.(state := AfterLit(c0.state)))
      modifies this`dicPos, this`hist, this`processedPos, this`range, this`code, dic
      ensures Delivered(c0, old(dicPos), input, n, goal, |c0.hist| + limit - old(dicPos))
    {
      hide CanApply, Mirrors;
      PutByte(symbol);
      range, code := n.range, n.code;
      ApplyLitIs(prop, c0, goal, symbol, |c0.hist| + limit - old(dicPos), Now());
    }

    // Move the k-th last distance to the front.
    method UseRep(k: int)
      requires 0 <= k < 4
      modifies this`rep0, this`rep1, this`rep2, this`rep3, this`state
      ensures Now() == Rotate(old(Now()), k).(state := if old(state) < NUM_LIT_STATES then 8 else 11)
    {
      if k != 0 {
        var distance;
        if k == 1 {
          distance := rep1;
        } else {
          if k == 2 {
            distance := rep2;
          } else {
            distance := rep3;
            rep3 := rep2;
          }
          rep2 := rep1;
        }
        rep1 := rep0;
        rep0 := distance;
      }
      state := if state < NUM_LIT_STATES then 8 else 11;
    }

    method RepPart(input: seq<byte>, r: Regs, posState: int, limit: int, ghost c0: Core, ghost cx: Ctx, ghost goal: Outcome)
      returns (n: Regs)
      requires Midway(c0, cx, input, r, IsRepG0, goal, limit) && dicPos < limit && hist != [] && posState == cx.posState
      modifies this, probs, dic
      ensures tempBufSize == old(tempBufSize)
      ensures Delivered(c0, old(dicPos), input, n, goal, |c0.hist| + limit - old(dicPos)) && checkDicSize == old(checkDicSize)
    {
      hide Going, Raw, LitBase, PosState, Mirrors, MidCore, Step, Run, CtxOf, CopyMatch;
      MidReads(prop, c0);
      var k;
      k, n := DecodeRepIndex(probs, state, posState, input, r, cx, goal);
      if k == -1 {
        ShortRepByte(input, n, limit, c0, cx, goal);
      } else {
        n := RepMatch(k, input, n, posState, limit, c0, cx, goal);
      }
    }

    method ShortRepByte(input: seq<byte>, n: Regs, limit: int, ghost c0: Core, ghost cx: Ctx, ghost goal: Outcome)
      requires Midway(c0, cx, input, n, Done(ShortRep), goal, limit) && dicPos < limit && hist != []
      modifies this, dic
      ensures tempBufSize == old(tempBufSize)
      ensures Delivered(c0, old(dicPos), input, n, goal, |c0.hist| + limit - old(dicPos)) && checkDicSize == old(checkDicSize)
    {
      hide Going, Raw, LitBase, PosState, Mirrors, MidCore, Step, Run, CtxOf, CopyMatch, Apply, WfProps, NumProbs;
      RepsReach(prop, c0);
      SymbolDone(prop, c0, probs[..], input, n, cx, ShortRep, goal);
      ghost var lim := |c0.hist| + limit - dicPos;
      var b := ByteBack(rep0);
      PutByte(b);
      state := if state < NUM_LIT_STATES then 9 else 11;
      range, code := n.range, n.code;
      ApplyShortRepIs(prop, c0, goal, lim, Now());
    }

    method RepMatch(k: int, input: seq<byte>, r: Regs, posState: int, limit: int, ghost c0: Core, ghost cx: Ctx,
        ghost goal: Outcome)
      returns (n: Regs)
      requires 0 <= k < 4
      requires Midway(c0, cx, input, r, LenChoice(AsRep(k)), goal, limit) && dicPos < limit && hist != [] && posState == cx.posState
      modifies this, probs, dic
      ensures tempBufSize == old(tempBufSize)
      ensures Delivered(c0, old(dicPos), input, n, goal, |c0.hist| + limit - old(dicPos)) && checkDicSize == old(checkDicSize)
    {
      hide Going, Raw, LitBase, PosState, Mirrors, MidCore, Step, Run, CtxOf, CopyMatch, WfProps, NumProbs;
      RepsReach(prop, c0);
      UseRep(k);
      var len;
      len, n := DecodeLen(probs, AsRep(k), posState, input, r, cx, goal);
      SymbolDone(prop, c0, probs[..], input, n, cx, Rep(k, len), goal);
      FinishRep(k, len, input, n, limit, c0, goal);
    }

    method FinishRep(k: int, len: int, input: seq<byte>, n: Regs, limit: int, ghost c0: Core, ghost goal: Outcome)
      requires AllRead(c0, input, n, Rep(k, len), goal, limit) && dicPos < limit && MidCore(prop, c0)
      requires Bare(Now()) == Bare(Rotate(c0, k).(state := if c0.state < NUM_LIT_STATES then 8 else 11))
      modifies this`dicPos, this`hist, this`processedPos, this`remainLen, this`range, this`code, dic
      ensures Delivered(c0, old(dicPos), input, n, goal, |c0.hist| + limit - old(dicPos))
    {
      hide Mirrors, CopyMatch, Apply, MidCore, WfProps, NumProbs;
      ghost var lim := |c0.hist| + limit - dicPos;
      RepsReach(prop, c0);
      range, code := n.range, n.code;
      var ok := PutMatch(len + MATCH_MIN_LEN, limit);
      ApplyRepIs(prop, c0, goal, k, len, lim, Now());
    }

    // Remember a new distance; false when it reaches behind the window.
    method UseDistance(distance: int) returns (ok: bool)
      requires Shape() && Counters() && 0 <= distance < END_MARK
      modifies this`rep0, this`rep1, this`rep2, this`rep3, this`state
      ensures Now() == old(Now()).(rep0 := distance + 1, rep1 := old(rep0), rep2 := old(rep1), rep3 := old(rep2),
                                   state := if old(state) < NUM_LIT_STATES then 7 else 10)
      ensures ok <==> distance < Window(prop, hist)
    {
      rep3 := rep2;
      rep2 := rep1;
      rep1 := rep0;
      rep0 := distance + 1;
      state := if state < NUM_LIT_STATES then NUM_LIT_STATES else NUM_LIT_STATES + 3;
      ok := !(distance >= if checkDicSize == 0 then processedPos else checkDicSize);
    }

    method MatchPart(input: seq<byte>, r: Regs, posState: int, limit: int, ghost c0: Core, ghost cx: Ctx, ghost goal: Outcome)
      returns (ok: bool, n: Regs)
      requires Midway(c0, cx, input, r, LenChoice(AsMatch), goal, limit) && posState == cx.posState
      modifies this, probs, dic
      ensures tempBufSize == old(tempBufSize)
      ensures ok ==> Delivered(c0, old(dicPos), input, n, goal, |c0.hist| + limit - old(dicPos)) && checkDicSize == old(checkDicSize)
      ensures !ok ==> var lim := |c0.hist| + limit - old(dicPos);
                      CanApply(prop, c0, goal, lim) && Apply(prop, WithCoder(c0, goal.rc), goal.sym, lim) == Rejected
      ensures !ok ==> Dictionary() && dicPos == old(dicPos) && hist == old(hist)
    {
      hide Going, LitBase, PosState, Mirrors, MidCore, Step, Run, CtxOf, Apply, CanApply, Delivered;
      var len;
      len, n := DecodeLen(probs, AsMatch, posState, input, r, cx, goal);
      var distance;
      distance, n := DecodeDistance(probs, len, input, n, cx, goal);
      ok := FinishMatch(distance, len, input, n, limit, c0, cx, goal);
    }

    method FinishMatch(distance: int, len: int, input: seq<byte>, n: Regs, limit: int, ghost c0: Core, ghost cx: Ctx,
        ghost goal: Outcome)
      returns (ok: bool)
      requires Midway(c0, cx, input, n, Done(Match(distance, len)), goal, limit)
      modifies this, dic
      ensures tempBufSize == old(tempBufSize)
      ensures ok ==> Delivered(c0, old(dicPos), input, n, goal, |c0.hist| + limit - old(dicPos)) && checkDicSize == old(checkDicSize)
      ensures !ok ==> var lim := |c0.hist| + limit - old(dicPos);
                      CanApply(prop, c0, goal, lim) && Apply(prop, WithCoder(c0, goal.rc), goal.sym, lim) == Rejected
      ensures !ok ==> Dictionary() && dicPos == old(dicPos) && hist == old(hist)
    {
      hide Going, Raw, LitBase, PosState, Mirrors, MidCore, Step, Run, CtxOf, CopyMatch, Window, Apply, CheckDicSize,
           GoodRep, WfPc, WfCtx, WfProps, NumProbs;
      SymbolDone(prop, c0, probs[..], input, n, cx, Match(distance, len), goal);
      ghost var lim := |c0.hist| + limit - dicPos;
      range, code := n.range, n.code;
      if distance == END_MARK {
        remainLen := SPEC_LEN_START;
        ApplyEndIs(prop, c0, goal, lim);
        return true;
      }
      WindowReach(prop, hist);
      ok := UseDistance(distance);
      if ok {
        ok := PutMatch(len + MATCH_MIN_LEN, limit);
      }
      ApplyMatchIs(prop, c0, goal, distance, len, lim, ok, Now());
    }

    /**
     Decode one symbol in place and apply it, output stopping at limit: exactly what the specification
     does with the symbol that the bytes hold.
     */
    method DecodeSymbol(input: seq<byte>, pos: int, limit: int, ghost goal: Outcome) returns (ok: bool, next: int)
      requires Shape() && Dictionary() && Counters() && MidCore(prop, Now()) && remainLen == 0
      requires Going(probs[..], input, Regs(range, code, pos), CtxOf(prop, Now()), IsMatch, goal)
      requires dicPos <= limit <= dic.Length && (dicPos == limit ==> goal.sym.Match?) && (hist == [] ==> goal.sym.Lit? || goal.sym.Match?)
      modifies this, probs, dic
      ensures tempBufSize == old(tempBufSize)
      ensures ok ==> Delivered(old(Now()), old(dicPos), input, Regs(range, code, next), goal, |old(hist)| + limit - old(dicPos))
                     && checkDicSize == old(checkDicSize)
      ensures !ok ==> var c0, lim := old(Now()), |old(hist)| + limit - old(dicPos);
                      CanApply(prop, c0, goal, lim) && Apply(prop, WithCoder(c0, goal.rc), goal.sym, lim) == Rejected
      ensures !ok ==> Dictionary() && dicPos == old(dicPos) && hist == old(hist)
    {
      hide Going, Raw, LitBase, Mirrors, MidCore, Run, CopyMatch, Window, Apply, CheckDicSize, Pow, And;
      ghost var c0 := Now();
      ghost var cx := CtxOf(prop, c0);
      MidReads(prop, c0);
      AndLowPos(prop, processedPos);
      var posState := And(processedPos, Pow(2, prop.pb) - 1) * 16;
      var r := Regs(range, code, pos);
      var bit;
      ok := true;
      GoingClass(probs[..], input, r, cx, IsMatch, goal);
      bit, r := GetBit(probs, IS_MATCH + posState + state, input, r, cx, IsMatch, goal);
      if !bit {
        ghost var pc := if state < NUM_LIT_STATES then Plain(1) else Matched(1, cx.matchByte, 256);
        GoingClass(probs[..], input, r, cx, pc, goal);
        r := LiteralPart(input, r, c0, cx, pc, goal, limit);
      } else {
        bit, r := GetBit(probs, IS_REP + state, input, r, cx, IsRep, goal);
        if bit {
          GoingClass(probs[..], input, r, cx, IsRepG0, goal);
          r := RepPart(input, r, posState, limit, c0, cx, goal);
        } else {
          ok, r := MatchPart(input, r, posState, limit, c0, cx, goal);
        }
      }
      next := r.pos;
    }

    // ---------- many symbols ----------

    // How far output may go, counted in history bytes.
    ghost function LimitOf(limit: int): int
      reads this`hist, this`dicPos
    {
      |hist| + limit - dicPos
    }

    // The position limit stands for early, at or before the true limit lim, and does not cross the filling of the dictionary.
    ghost predicate Limited(limit: int, lim: int)
      reads this`hist, this`dicPos, this`checkDicSize
    {
      && dicPos <= limit <= dic.Length && LimitOf(limit) <= lim && (dicPos == limit ==> LimitOf(limit) == lim)
      && (checkDicSize == 0 ==> LimitOf(limit) <= prop.dicSize)
    }

    /** One turn of the symbol loop; more says whether the loop goes on. */
    method Turn(input: seq<byte>, pos: int, limit: int, bufLimit: int, ghost lim: int, ghost fin: bool)
      returns (ok: bool, more: bool, next: int)
      requires Shape() && Dictionary() && Counters() && 0 <= pos <= |input|
      requires Poised(prop, Now(), input[pos..], lim, fin) && Limited(limit, lim)
      modifies this, probs, dic
      ensures tempBufSize == old(tempBufSize)
      ensures !ok ==> RestOf(prop, old(Now()), input[pos..], lim, fin) == Failed(NotSpecified)
      ensures !ok ==> Dictionary() && dicPos == old(dicPos) && hist == old(hist)
      ensures ok ==>
                && Dictionary() && processedPos == ProcessedPos(hist) && checkDicSize == old(checkDicSize)
                && LimitOf(limit) == old(LimitOf(limit)) && pos <= next <= |input|
                && Continues(prop, Now(), input[next..], lim, fin, RestOf(prop, old(Now()), input[pos..], lim, fin))
                && RawCore(prop, Now()) && |hist| <= LimitOf(limit) && (0 < remainLen < SPEC_LEN_START ==> |hist| == LimitOf(limit))
                && |old(hist)| <= |hist| && (remainLen == SPEC_LEN_START || |old(hist)| < |hist|)
                && SteppedLate(prop, old(Now()), input[pos..], Now(), input[next..], lim, fin)
                && (more <==> remainLen != SPEC_LEN_START && dicPos < limit && next < bufLimit)
    {
      hide Run, Drive, Apply, Mirrors, Poised, Continues, SteppedLate, CtxOf, Normalize, Raw, Goes, RawCore;
      PoisedRun(prop, Now(), input[pos..], lim, fin);
      ghost var c := Now();
      ghost var goal := Run(CtxOf(prop, c), IsMatch, CoderOf(c, input[pos..]));
      PoisedGoing(prop, probs[..], input, Regs(range, code, pos), c, lim, fin, goal);
      ok, next := DecodeSymbol(input, pos, limit, goal);
      if !ok {
        RoundRejected(prop, c, input[pos..], lim, fin, old(LimitOf(limit)));
      } else {
        RoundApplied(prop, c, input[pos..], lim, fin, old(LimitOf(limit)), Now());
      }
      more := remainLen != SPEC_LEN_START && dicPos < limit && next < bufLimit;
    }

    // What the symbol loop keeps: the drive continues from here, and a match is only cut short at the limit.
    ghost predicate Underway(input: seq<byte>, pos: int, limit: int, lim: int, fin: bool, early: int, check: int, whole: Driven)
      reads this, probs, dic
    {
      && Dictionary() && processedPos == ProcessedPos(hist) && checkDicSize == check
      && 0 <= pos <= |input| && LimitOf(limit) == early && |hist| <= early
      && RawCore(prop, Now()) && (0 < remainLen < SPEC_LEN_START ==> |hist| == early)
      && Continues(prop, Now(), input[pos..], lim, fin, whole)
    }

    /**
     Decode symbols from input[start..] until output reaches limit or the unread input gets short: at least one,
     all of them steps of one and the same drive up to lim. The renormalisation after the last symbol is made up for at the end.
     */
    method DecodeReal(input: seq<byte>, start: int, limit: int, bufLimit: int, ghost lim: int, ghost fin: bool)
      returns (ok: bool, pos: int)
      requires Shape() && Dictionary() && Counters()
      requires 0 <= start <= |input| && Goes(prop, Now(), input[start..], lim, fin) && Limited(limit, lim)
      requires bufLimit <= start || bufLimit + REQUIRED_INPUT_MAX <= |input|
      modifies this, probs, dic
      ensures tempBufSize == old(tempBufSize)
      ensures !ok ==> Drive(prop, old(Now()), input[start..], lim, fin) == Failed(NotSpecified)
      ensures Dictionary() && dicPos - |hist| == old(dicPos) - |old(hist)| && old(dicPos) <= dicPos <= limit
      ensures ok ==>
                && Underway(input, pos, limit, lim, fin, old(LimitOf(limit)), old(checkDicSize), Drive(prop, old(Now()), input[start..], lim, fin))
                && (bufLimit <= start ==> Stepped(prop, old(Now()), input[start..], Now(), input[pos..], lim, fin))
                && start <= pos && TOP <= range && |old(hist)| <= |hist| && (remainLen == SPEC_LEN_START || |old(hist)| < |hist|)
    {
      hide Run, Drive, Mirrors, Poised, Continues, SteppedLate, Stepped, CtxOf, Normalize, Raw, GoodRep, Advance, WfProps,
           NumProbs;
      ghost var c0, h, early, check := Now(), hist, LimitOf(limit), checkDicSize;
      ghost var whole := Drive(prop, Now(), input[start..], lim, fin);
      PoisedStart(prop, Now(), input[start..], lim, fin);
      var more;
      ok, more, pos := Turn(input, start, limit, bufLimit, lim, fin);
      while ok && more
        invariant !ok ==> whole == Failed(NotSpecified)
        invariant tempBufSize == old(tempBufSize)
        invariant Dictionary() && dicPos - |hist| == old(dicPos) - |old(hist)| && old(dicPos) <= dicPos <= limit
        invariant ok ==> Underway(input, pos, limit, lim, fin, early, check, whole)
        invariant ok ==> start <= pos && |h| <= |hist| && (remainLen == SPEC_LEN_START || |h| < |hist|)
        invariant ok && bufLimit <= start ==> SteppedLate(prop, c0, input[start..], Now(), input[pos..], lim, fin)
        invariant ok && more ==> dicPos < limit <= dic.Length && pos < bufLimit && remainLen != SPEC_LEN_START
        decreases ok && more, limit - dicPos
      {
        StaysPoised(prop, Now(), input[pos..], lim, fin, whole);
        ok, more, pos := Turn(input, pos, limit, bufLimit, lim, fin);
      }
      if ok {
        ghost var d, at := Now(), pos;
        pos := RenormalizeFields(input, pos, lim, fin, whole);
        if bufLimit <= start {
          SteppedSettles(prop, c0, input[start..], d, input[at..], Now(), input[pos..], lim, fin);
        }
      }
    }

    // The renormalisation that the last symbol left out.
    method RenormalizeFields(input: seq<byte>, pos: int, ghost lim: int, ghost fin: bool, ghost whole: Driven) returns (next: int)
      requires 0 <= pos <= |input| && Continues(prop, Now(), input[pos..], lim, fin, whole)
      modifies this`range, this`code
      ensures pos <= next <= |input| && TOP <= range && RawCore(prop, Now()) && Bare(Now()) == old(Bare(Now()))
      ensures Continues(prop, Now(), input[next..], lim, fin, whole)
      ensures Normalize(old(CoderOf(Now(), input[pos..]))) == Normal(CoderOf(Now(), input[next..]))
    {
      var n := Renormalize(probs[..], input, Regs(range, code, pos));
      range, code, next := n.range, n.code, n.pos;
    }

    // Between batches: nothing pending inside the symbol loop, and the drive from here is the whole.
    ghost predicate Settled(input: seq<byte>, pos: int, limit: int, lim: int, fin: bool, whole: Driven)
      reads this, probs, dic
    {
      && Dictionary() && Counters() && 0 <= pos <= |input| && dicPos <= limit <= dic.Length && LimitOf(limit) == lim
      && Ready(prop, Now(), lim) && Drive(prop, Now(), input[pos..], lim, fin) == whole
    }

    /** One batch: symbols up to the point where the dictionary is full for the first time, then the rest of a cut match. */
    method Batch(input: seq<byte>, start: int, limit: int, bufLimit: int, ghost lim: int, ghost fin: bool)
      returns (ok: bool, pos: int)
      requires Shape() && Dictionary() && Counters() && dicPos <= limit <= dic.Length && LimitOf(limit) == lim
      requires 0 <= start <= |input| && Able(prop, Now(), input[start..], lim, fin)
      requires bufLimit <= start || bufLimit + REQUIRED_INPUT_MAX <= |input|
      modifies this, probs, dic
      ensures tempBufSize == old(tempBufSize)
      ensures !ok ==> Drive(prop, old(Now()), input[start..], lim, fin) == Failed(NotSpecified)
      ensures Dictionary() && dicPos - |hist| == old(dicPos) - |old(hist)| && old(dicPos) <= dicPos <= limit
      ensures ok ==>
                && Settled(input, pos, limit, lim, fin, Drive(prop, old(Now()), input[start..], lim, fin))
                && (bufLimit <= start ==> Stepped(prop, old(Now()), input[start..], Now(), input[pos..], lim, fin))
                && start <= pos && (remainLen == SPEC_LEN_START || |old(hist)| < |hist|)
    {
      hide Run, Drive, Mirrors, Continues, Stepped, CtxOf, Normalize, Raw, GoodRep, Advance, Goes, CopyMatch;
      ghost var c0 := Now();
      AbleGoes(prop, Now(), input[start..], lim, fin);
      var limit2 := limit;
      if checkDicSize == 0 {
        RemainingRoom(prop, hist);
        var rem := (prop.dicSize - processedPos) % TWO32;
        if limit - dicPos > rem {
          limit2 := dicPos + rem;
        }
        if processedPos == 0 {
          if code >= BAD_REP_CODE {
            return false, start;
          }
        }
      }
      ghost var whole := Drive(prop, Now(), input[start..], lim, fin);
      ok, pos := DecodeReal(input, start, limit2, bufLimit, lim, fin);
      if ok {
        ghost var d := Now();
        FinishBatch(input, pos, limit, limit2, lim, fin, whole);
        if bufLimit <= start {
          SteppedFinishes(prop, c0, input[start..], d, Now(), input[pos..], lim, fin);
        }
      }
    }

    // Finish a cut match: the in-place counterpart of WriteRem.
    method WriteRest(limit: int, ghost lim: int)
      requires Shape() && Dictionary() && Counters() && dicPos <= limit <= dic.Length && LimitOf(limit) == lim
      requires RawCore(prop, Now())
      modifies this`dicPos, this`hist, this`processedPos, this`remainLen, this`checkDicSize, dic
      ensures Dictionary() && Counters() && dicPos <= limit && LimitOf(limit) == lim && |old(hist)| <= |hist|
      ensures Finished(prop, old(Now()), Now(), lim) && RawCore(prop, Now()) && CoderOf(Now(), []) == old(CoderOf(Now(), []))
      ensures remainLen == SPEC_LEN_START <==> old(remainLen) == SPEC_LEN_START
    {
      hide Mirrors, CopyMatch, MidCore, ProcessedPos, CheckDicSize;
      RepsReachIfAny(prop, Now());
      ghost var c := Now();
      RemRange(prop, c);
      WriteRemKeeps(prop, c, lim);
      WriteRemainder(limit);
      assert Now() == WriteRem(c, lim);
    }

    method FinishBatch(input: seq<byte>, pos: int, limit: int, ghost limit2: int, ghost lim: int, ghost fin: bool,
        ghost whole: Driven)
      requires Shape() && Underway(input, pos, limit2, lim, fin, LimitOf(limit2), checkDicSize, whole) && TOP <= range
      requires LimitOf(limit) == lim && dicPos <= limit2 <= limit <= dic.Length
      requires if checkDicSize == 0 then |hist| <= prop.dicSize else checkDicSize == prop.dicSize && |hist| >= prop.dicSize
      modifies this`dicPos, this`hist, this`processedPos, this`remainLen, this`checkDicSize, dic
      ensures Settled(input, pos, limit, lim, fin, whole)
      ensures |old(hist)| <= |hist| && (remainLen == SPEC_LEN_START <==> old(remainLen) == SPEC_LEN_START)
      ensures Finished(prop, old(Now()), Now(), lim)
    {
      hide Run, Drive, Mirrors, Continues, CtxOf, Normalize, Raw, Advance, CopyMatch;
      SettledContinues(prop, Now(), input[pos..], lim, fin, whole);
      if checkDicSize == 0 && processedPos >= prop.dicSize {
        checkDicSize := prop.dicSize;
      }
      WriteRest(limit, lim);
    }

    /** Decode batches while there is room for output and plenty of input; at least one. */
    method DecodeReal2(input: seq<byte>, start: int, limit: int, bufLimit: int, ghost lim: int, ghost fin: bool)
      returns (ok: bool, pos: int)
      requires Shape() && Dictionary() && Counters() && dicPos <= limit <= dic.Length && LimitOf(limit) == lim
      requires 0 <= start <= |input| && Able(prop, Now(), input[start..], lim, fin)
      requires bufLimit <= start || bufLimit + REQUIRED_INPUT_MAX <= |input|
      modifies this, probs, dic
      ensures tempBufSize == old(tempBufSize)
      ensures !ok ==> Drive(prop, old(Now()), input[start..], lim, fin) == Failed(NotSpecified)
      ensures Dictionary() && dicPos - |hist| == old(dicPos) - |old(hist)| && old(dicPos) <= dicPos <= limit
      ensures ok ==>
                && Settled(input, pos, limit, lim, fin, Drive(prop, old(Now()), input[start..], lim, fin))
                && (bufLimit <= start ==> Stepped(prop, old(Now()), input[start..], Now(), input[pos..], lim, fin))
                && start <= pos && (remainLen == SPEC_LEN_START || |old(hist)| < |hist|)
    {
      hide Run, Drive, Mirrors, Advance, Stepped, Goes, CopyMatch, Raw, GoodRep;
      ghost var c0 := Now();
      ghost var whole := Drive(prop, Now(), input[start..], lim, fin);
      ok, pos := Batch(input, start, limit, bufLimit, lim, fin);
      while ok && dicPos < limit && pos < bufLimit && remainLen < SPEC_LEN_START
        invariant !ok ==> whole == Failed(NotSpecified)
        invariant tempBufSize == old(tempBufSize)
        invariant Dictionary() && dicPos - |hist| == old(dicPos) - |old(hist)| && old(dicPos) <= dicPos <= limit
        invariant ok ==> Settled(input, pos, limit, lim, fin, whole)
        invariant ok ==> start <= pos && (remainLen == SPEC_LEN_START || |old(hist)| < |hist|)
        invariant ok && bufLimit <= start ==> Stepped(prop, c0, input[start..], Now(), input[pos..], lim, fin)
        decreases ok, remainLen < SPEC_LEN_START, lim - |hist|
      {
        GoesAble(prop, Now(), input[pos..], lim, fin);
        ok, pos := Batch(input, pos, limit, bufLimit, lim, fin);
      }
    }

    // ---------- looking ahead ----------

    // The literal index again, by its plain formula.
    method PlainLiteralIndex() returns (lit: int)
      requires Shape() && Dictionary() && Counters()
      ensures lit == LitBase(prop, hist)
    {
      hide And, Pow;
      lit := LITERAL;
      if checkDicSize != 0 || processedPos != 0 {
        var i := (if dicPos == 0 then dic.Length else dicPos) - 1;
        assert i == Back(dic.Length, dicPos, 1);
        var prev: int := dic[i];
        PowPositive(2, prop.lp);
        PowPositive(2, 8 - prop.lc);
        AndLowOnly(processedPos, prop.lp);
        lit := lit + LIT_SIZE * (And(processedPos, Pow(2, prop.lp) - 1) * Pow(2, prop.lc) + prev / Pow(2, 8 - prop.lc));
      }
    }

    /**
     Walk the next symbol without changing anything: an error exactly when the input ends before the symbol and the
     renormalisation after it are complete, and otherwise the class of the symbol that will be decoded.
     */
    method TryDummy(input: seq<byte>, start: int) returns (res: Dummy)
      requires Shape() && Dictionary() && Counters() && RawCore(prop, Now()) && 0 <= start <= |input|
      ensures res == DummyOf(Fetch(prop, Now(), input[start..]))
    {
      hide Scouting, Mirrors, LitBase, PosState, Peek, Fetch, CtxOf, Raw;
      ghost var c := Now();
      CtxOk(prop, c);
      ghost var cx := CtxOf(prop, c);
      MidReads(prop, c);
      AndLowPos(prop, processedPos);
      var posState := And(processedPos, Pow(2, prop.pb) - 1) * 16;
      var r := Regs(range, code, start);
      ghost var goal := Peek(cx, IsMatch, CoderAt(probs[..], input, r));
      ScoutStart(prop, c, probs[..], input, r, goal);
      ghost var sym := ShortRep;
      var ok, bit;
      ok, bit, r := GetBitCheck(probs, IS_MATCH + posState + state, input, r, cx, IsMatch, goal);
      res := DummyError;
      if ok && !bit {
        ok, r, sym := DummyLiteral(input, r, c, goal);
        res := DummyLit;
      } else if ok {
        ok, bit, r := GetBitCheck(probs, IS_REP + state, input, r, cx, IsRep, goal);
        if ok && bit {
          ok, r, sym := PeekRep(probs, state, posState, input, r, cx, goal);
          res := DummyRep;
        } else if ok {
          var len;
          ok, len, r := PeekLen(probs, AsMatch, posState, input, r, cx, goal);
          if ok {
            ghost var distance;
            ok, r, distance := PeekDistance(probs, len, input, r, cx, goal);
            sym := Match(distance, len);
          }
          res := DummyMatch;
        }
      }
      PeekFetch(prop, c, probs[..], input, start, r, ok, sym, goal);
      if ok {
        ok, r := RenormalizeCheck(probs[..], input, r);
      }
      if !ok {
        res := DummyError;
      }
    }

    method DummyLiteral(input: seq<byte>, r: Regs, ghost c: Core, ghost goal: Outcome) returns (ok: bool, n: Regs,
        ghost sym: Symbol)
      requires Shape() && Dictionary() && Counters() && c == Now() && RawCore(prop, c)
      requires Scouting(probs[..], input, r, CtxOf(prop, c), Step(CtxOf(prop, c), IsMatch, false), goal)
      ensures Scouted(ok, probs[..], input, n, CtxOf(prop, c), Done(sym), goal) && sym.Lit?
    {
      hide Scouting, Mirrors, LitBase, PosState, Peek, CtxOf, Raw;
      MidReads(prop, c);
      var lit := PlainLiteralIndex();
      ghost var b;
      if state < NUM_LIT_STATES {
        ok, n, b := PeekLiteral(probs, lit, input, r, CtxOf(prop, c), goal);
      } else {
        var matchByte := ByteBack(rep0);
        ok, n, b := PeekMatchedLiteral(probs, lit, matchByte, input, r, CtxOf(prop, c), goal);
      }
      sym := Lit(b);
    }

    // ---------- a call ----------

    ghost function Temp(): seq<byte>
      requires 0 <= tempBufSize <= tempBuf.Length
      reads this`tempBufSize, tempBuf
    {
      tempBuf[..tempBufSize]
    }

    // Between calls: waiting for the first five bytes, or in the middle of a stream.
    ghost function Abs(): Dec
      requires 0 <= tempBufSize <= tempBuf.Length
      reads this, probs, tempBuf
    {
      if remainLen == SPEC_LEN_START + 2 then Start(hist, Temp()) else Live(Now(), Temp())
    }

    ghost predicate Valid()
      reads this, probs, dic, tempBuf
    {
      Shape() && Dictionary() && Counters() && 0 <= tempBufSize < REQUIRED_INPUT_MAX && ValidDec(prop, Abs())
    }

    // Where a call stands between batches; whole is the drive it makes, base the bytes that initialisation took.
    ghost predicate Holding(src: seq<byte>, base: int, pos: int, dicLimit: int, lim: int, fin: bool, whole: Driven)
      reads this, probs, dic, tempBuf
    {
      && Shape() && Dictionary() && Counters() && dicPos <= dicLimit <= dic.Length && LimitOf(dicLimit) == lim
      && 0 <= tempBufSize < REQUIRED_INPUT_MAX && 0 <= base <= pos <= |src| && Ready(prop, Now(), lim)
      && (tempBufSize != 0 ==> pos == base && remainLen == 0 && Fetch(prop, Now(), Temp()).FetchMore?)
      && Drive(prop, Now(), Temp() + src[pos..], lim, fin) == whole
    }

    // The call ends with what the specification returns.
    ghost predicate Reports(r: Returned, res: SRes, pos: int, status: Status)
      reads this, probs, dic, tempBuf
    {
      match r
      case DataError(why) => res == ErrorData && status == why
      case Returned(d, n, st) => res == Ok && status == st && pos == n && Valid() && Abs() == d
    }

    /** The round whose input is not buffered: look ahead if little is left, then decode as much as possible. */
    method DirectRound(src: seq<byte>, at: int, dicLimit: int, checkEndMarkNow: bool, ghost base: int, ghost lim: int,
        ghost fin: bool, ghost whole: Driven)
      returns (go: bool, res: SRes, pos: int, status: Status)
      requires Holding(src, base, at, dicLimit, lim, fin, whole) && tempBufSize == 0
      requires Open(prop, Now(), lim, fin) && checkEndMarkNow == (dicPos >= dicLimit)
      modifies this, probs, dic, tempBuf
      ensures Dictionary() && dicPos - |hist| == old(dicPos) - |old(hist)| && old(dicPos) <= dicPos <= dicLimit && at <= pos <= |src|
      ensures go ==> Holding(src, base, pos, dicLimit, lim, fin, whole) && (remainLen == SPEC_LEN_START || |old(hist)| < |hist|)
      ensures !go ==> Reports(Settle(whole, |src| - base, base), res, pos, status)
    {
      hide Drive, Advance, Fetch, Mirrors, MidCore, Able;
      go, res, pos, status := true, Ok, at, NotSpecified;
      assert Temp() + src[at..] == src[at..];
      OpenAdvance(prop, Now(), src[at..], lim, fin);
      var bufLimit := at;
      if |src| - at < REQUIRED_INPUT_MAX || checkEndMarkNow {
        var dummyRes := TryDummy(src, at);
        if dummyRes == DummyError {
          KeepRest(src, at);
          return false, Ok, |src|, NeedsMoreInput;
        }
        if checkEndMarkNow && dummyRes != DummyMatch {
          return false, ErrorData, at, NotFinished;
        }
      } else {
        FetchTotal(prop, Now(), src[at..]);
        bufLimit := |src| - REQUIRED_INPUT_MAX;
      }
      go, pos := DecodeReal2(src, at, dicLimit, bufLimit, lim, fin);
      if !go {
        return false, ErrorData, at, NotSpecified;
      }
      assert Temp() + src[pos..] == src[pos..];
    }

    // Keep what is left of the input, the beginning of an incomplete symbol.
    method KeepRest(src: seq<byte>, at: int)
      requires 0 <= at <= |src| && |src| - at < REQUIRED_INPUT_MAX == tempBuf.Length
      modifies this`tempBufSize, tempBuf
      ensures 0 <= tempBufSize <= tempBuf.Length && Temp() == src[at..]
    {
      forall i | 0 <= i < |src| - at {
        tempBuf[i] := src[at + i];
      }
      tempBufSize := |src| - at;
    }

    // Top the buffer up to the most a symbol can need.
    method FillTemp(src: seq<byte>, at: int) returns (lookAhead: int)
      requires tempBuf.Length == REQUIRED_INPUT_MAX && 0 <= tempBufSize < REQUIRED_INPUT_MAX && 0 <= at <= |src|
      modifies this`tempBufSize, tempBuf
      ensures lookAhead == Min(REQUIRED_INPUT_MAX - old(tempBufSize), |src| - at) && tempBufSize == old(tempBufSize) + lookAhead
      ensures Temp() == old(Temp()) + src[at..at + lookAhead]
    {
      ghost var pend := Temp();
      var rem := tempBufSize;
      lookAhead := 0;
      while rem < REQUIRED_INPUT_MAX && lookAhead < |src| - at
        invariant rem == old(tempBufSize) + lookAhead && 0 <= lookAhead <= |src| - at && rem <= REQUIRED_INPUT_MAX
        invariant tempBuf[..rem] == pend + src[at..at + lookAhead]
      {
        tempBuf[rem] := src[at + lookAhead];
        rem, lookAhead := rem + 1, lookAhead + 1;
        assert src[at..at + lookAhead] == src[at..at + lookAhead - 1] + [src[at + lookAhead - 1]];
      }
      tempBufSize := rem;
    }

    // What the buffered round needs to know: the buffer and what follows it are the pending bytes and the input.
    lemma Buffered(c: Core, pend: seq<byte>, src: seq<byte>, at: int, look: int, lim: int, fin: bool)
      requires Open(prop, c, lim, fin) && Fetch(prop, c, pend).FetchMore? && 0 <= at <= at + look <= |src|
      ensures var temp, more := pend + src[at..at + look], src[at + look..];
              && pend + src[at..] == temp + more
              && match Fetch(prop, c, temp)
                 case FetchMore => |temp| < REQUIRED_INPUT_MAX && (more == [] ==> Drive(prop, c, pend + src[at..], lim, fin) == Hungry(c, temp))
                 case Fetched(s, _, rest) =>
                   && |rest| < look
                   && (|c.hist| >= lim && !s.Match? ==> Drive(prop, c, pend + src[at..], lim, fin) == Failed(NotFinished))
                   && (|c.hist| < lim || s.Match? ==> Able(prop, c, temp, lim, fin))
                   && (Drive(prop, c, temp, lim, fin) == Failed(NotSpecified) ==>
                         Drive(prop, c, pend + src[at..], lim, fin) == Failed(NotSpecified))
    {
      hide Drive, Advance, Fetch, MidCore, Able;
      var temp, more := pend + src[at..at + look], src[at + look..];
      assert src[at..] == src[at..at + look] + more;
      assert pend + src[at..] == temp + more;
      OpenAdvance(prop, c, temp, lim, fin);
      DriveExtend(prop, c, temp, more, lim, fin);
      FetchPrefix(prop, c, pend, src[at..at + look]);
      assert more == [] ==> temp + more == temp;
    }

    /** The round that completes a buffered symbol: it takes just the bytes of the symbol from the input. */
    method TempRound(src: seq<byte>, at: int, dicLimit: int, checkEndMarkNow: bool, ghost base: int, ghost lim: int,
        ghost fin: bool, ghost whole: Driven)
      returns (go: bool, res: SRes, pos: int, status: Status)
      requires Holding(src, base, at, dicLimit, lim, fin, whole) && tempBufSize != 0
      requires Open(prop, Now(), lim, fin) && checkEndMarkNow == (dicPos >= dicLimit)
      modifies this, probs, dic, tempBuf
      ensures Dictionary() && dicPos - |hist| == old(dicPos) - |old(hist)| && old(dicPos) <= dicPos <= dicLimit && at <= pos <= |src|
      ensures go ==> Holding(src, base, pos, dicLimit, lim, fin, whole) && (remainLen == SPEC_LEN_START || |old(hist)| < |hist|)
      ensures !go ==> Reports(Settle(whole, |src| - base, base), res, pos, status)
    {
      hide Drive, Advance, Fetch, Mirrors, MidCore, Able, Stepped, CheckDicSize, ProcessedPos, WfProps, NumProbs, CoderOf,
           WithCoder;
      go, res, pos, status := true, Ok, at, NotSpecified;
      ghost var c, pend := Now(), Temp();
      var lookAhead := FillTemp(src, at);
      var rem := tempBufSize;
      Buffered(c, pend, src, at, lookAhead, lim, fin);
      if rem < REQUIRED_INPUT_MAX || checkEndMarkNow {
        var dummyRes := TryDummy(tempBuf[..rem], 0);
        if dummyRes == DummyError {
          return false, Ok, at + lookAhead, NeedsMoreInput;
        }
        if checkEndMarkNow && dummyRes != DummyMatch {
          return false, ErrorData, at, NotFinished;
        }
      }
      go, res, pos, status := TempDecode(src, at, lookAhead, dicLimit, pend, base, lim, fin, whole);
    }

    // The buffered bytes hold a whole symbol: decode it, and give back what it did not use.
    method TempDecode(src: seq<byte>, at: int, look: int, dicLimit: int, ghost pend: seq<byte>, ghost base: int,
        ghost lim: int, ghost fin: bool,
                      ghost whole: Driven)
      returns (go: bool, res: SRes, pos: int, status: Status)
      requires Shape() && Dictionary() && Counters() && dicPos <= dicLimit <= dic.Length && LimitOf(dicLimit) == lim
      requires 0 <= base <= at <= at + look <= |src| && 0 <= tempBufSize <= REQUIRED_INPUT_MAX && Temp() == pend + src[at..at + look]
      requires Able(prop, Now(), Temp(), lim, fin) && Fetch(prop, Now(), Temp()).Fetched? && |Fetch(prop, Now(), Temp()).rest| < look
      requires Drive(prop, Now(), Temp() + src[at + look..], lim, fin) == whole
      requires Drive(prop, Now(), Temp(), lim, fin) == Failed(NotSpecified) ==> whole == Failed(NotSpecified)
      modifies this, probs, dic
      ensures Dictionary() && dicPos - |hist| == old(dicPos) - |old(hist)| && old(dicPos) <= dicPos <= dicLimit && at <= pos <= |src|
      ensures go ==> Holding(src, base, pos, dicLimit, lim, fin, whole) && (remainLen == SPEC_LEN_START || |old(hist)| < |hist|)
      ensures !go ==> Reports(Settle(whole, |src| - base, base), res, pos, status)
    {
      hide Drive, Advance, Fetch, Mirrors, MidCore, Able, Stepped, CheckDicSize, ProcessedPos, WfProps, NumProbs, CoderOf,
           WithCoder;
      ghost var c, temp, more := Now(), Temp(), src[at + look..];
      var rem, lookAhead := tempBufSize, look;
      assert temp[0..] == temp;
      var kkk;
      res, pos, status := Ok, at, NotSpecified;
      go, kkk := DecodeReal2(tempBuf[..rem], 0, dicLimit, 0, lim, fin);
      if !go {
        return false, ErrorData, at, NotSpecified;
      }
      SteppedFetch(prop, c, temp, Now(), temp[kkk..], lim, fin);
      StepOn(prop, c, temp, Now(), temp[kkk..], more, lim, fin);
      // Either of these would be an internal error; neither can happen.
      if rem < kkk || lookAhead < rem - kkk {
        go, res := false, ErrorFail;
      } else {
        rem := rem - kkk;
        lookAhead := lookAhead - rem;
        pos := at + lookAhead;
        tempBufSize := 0;
        GivenBack(pend, src, at, |temp| - |pend|, kkk);
        assert Temp() == [];
      }
    }

    // Collect the first five bytes; the decoder starts once all have arrived and the first is zero.
    method Prepare(src: seq<byte>) returns (res: SRes, ready: bool, pos: int)
      requires Shape() && remainLen == SPEC_LEN_START + 2 && 0 <= tempBufSize < RC_INIT_SIZE
      modifies this`tempBufSize, this`range, this`code, this`rep0, this`rep1, this`rep2, this`rep3, this`state, this`remainLen, probs, tempBuf
      ensures 0 <= pos == Min(RC_INIT_SIZE - old(tempBufSize), |src|) && 0 <= tempBufSize <= tempBuf.Length
      ensures var t := old(Temp()) + src[..pos];
              && (res == ErrorData <==> t != [] && t[0] != 0) && res != ErrorFail
              && (res == Ok ==> ready == (|t| == RC_INIT_SIZE))
              && (res == Ok && !ready ==> Temp() == t && remainLen == old(remainLen))
              && (res == Ok && ready ==> Now() == InitCore(prop, hist, CodeOf(t)) && tempBufSize == 0)
    {
      hide Pow, NumProbs;
      pos, ready := 0, false;
      ghost var pend := Temp();
      while pos < |src| && tempBufSize < RC_INIT_SIZE
        modifies this`tempBufSize, tempBuf
        invariant 0 <= pos <= |src| && tempBufSize == old(tempBufSize) + pos <= RC_INIT_SIZE && Temp() == pend + src[..pos]
      {
        tempBuf[tempBufSize] := src[pos];
        tempBufSize, pos := tempBufSize + 1, pos + 1;
        assert src[..pos] == src[..pos - 1] + [src[pos - 1]];
      }
      if tempBufSize != 0 && tempBuf[0] != 0 {
        return ErrorData, false, pos;
      }
      if tempBufSize < RC_INIT_SIZE {
        return Ok, false, pos;
      }
      StartCoder();
      ready := true;
      res := Ok;
    }

    method StartCoder()
      requires Shape() && remainLen == SPEC_LEN_START + 2 && tempBufSize == RC_INIT_SIZE
      modifies this`tempBufSize, this`range, this`code, this`rep0, this`rep1, this`rep2, this`rep3, this`state, this`remainLen, probs
      ensures Now() == InitCore(prop, hist, CodeOf(old(Temp()))) && tempBufSize == 0
    {
      hide Pow, NumProbs;
      var b1: int, b2: int, b3: int, b4: int := tempBuf[1], tempBuf[2], tempBuf[3], tempBuf[4];
      code := b1 * 0x100_0000 + b2 * 0x1_0000 + b3 * 0x100 + b4;
      assert code == CodeOf(Temp());
      range := RANGE_INIT;
      tempBufSize := 0;
      if remainLen > SPEC_LEN_START + 1 {
        var i := 0;
        while i < probs.Length
          modifies probs
          invariant 0 <= i <= probs.Length && forall k :: 0 <= k < i ==> probs[k] == PROB_INIT
        {
          probs[i] := PROB_INIT;
          i := i + 1;
        }
        rep0, rep1, rep2, rep3 := 1, 1, 1, 1;
        state := 0;
      }
      remainLen := 0;
      assert probs[..] == InitCore(prop, hist, code).probs;
    }

    /** The rounds of a call until the end mark, a limit, an error or the end of the input. */
    method Rounds(src: seq<byte>, base: int, dicLimit: int, fin: bool, ghost lim: int, ghost whole: Driven)
      returns (res: SRes, srcLen: int, status: Status)
      requires Holding(src, base, base, dicLimit, lim, fin, whole)
      modifies this, probs, dic, tempBuf
      ensures Dictionary() && dicPos - |hist| == old(dicPos) - |old(hist)| && old(dicPos) <= dicPos <= dicLimit && base <= srcLen <= |src|
      ensures Reports(Settle(whole, |src| - base, base), res, srcLen, status)
    {
      hide Drive, Advance, Fetch, Mirrors, MidCore;
      srcLen := base;
      while remainLen != SPEC_LEN_START
        invariant Holding(src, base, srcLen, dicLimit, lim, fin, whole)
        invariant Dictionary() && dicPos - |hist| == old(dicPos) - |old(hist)| && old(dicPos) <= dicPos
        decreases remainLen != SPEC_LEN_START, lim - |hist|
      {
        var checkEndMarkNow := false;
        ClosedIfNot(src, base, srcLen, dicLimit, lim, fin, whole);
        if dicPos >= dicLimit {
          if remainLen == 0 && code == 0 {
            return Ok, srcLen, MaybeFinishedWithoutMark;
          }
          if !fin {
            return Ok, srcLen, NotFinished;
          }
          if remainLen != 0 {
            return ErrorData, srcLen, NotFinished;
          }
          checkEndMarkNow := true;
        }
        var go;
        if tempBufSize == 0 {
          go, res, srcLen, status := DirectRound(src, srcLen, dicLimit, checkEndMarkNow, base, lim, fin, whole);
        } else {
          go, res, srcLen, status := TempRound(src, srcLen, dicLimit, checkEndMarkNow, base, lim, fin, whole);
        }
        if !go {
          return;
        }
      }
      ClosedIfNot(src, base, srcLen, dicLimit, lim, fin, whole);
      if code != 0 {
        return ErrorData, srcLen, NotSpecified;
      }
      return Ok, srcLen, FinishedWithMark;
    }

    // What the call reports if it stops here.
    lemma ClosedIfNot(src: seq<byte>, base: int, pos: int, dicLimit: int, lim: int, fin: bool, whole: Driven)
      requires Holding(src, base, pos, dicLimit, lim, fin, whole)
      ensures if Open(prop, Now(), lim, fin) then remainLen == 0 && (|hist| >= lim ==> code != 0 && fin)
              else match Settle(whole, |src| - base, base)
                   case DataError(why) =>
                     if remainLen == SPEC_LEN_START then code != 0 && why == NotSpecified
                     else dicPos == dicLimit && fin && remainLen != 0 && why == NotFinished
                   case Returned(d, n, st) =>
                     && n == pos && Valid() && Abs() == d
                     && (if remainLen == SPEC_LEN_START then code == 0 && st == FinishedWithMark
                         else dicPos == dicLimit && if remainLen == 0 && code == 0 then st == MaybeFinishedWithoutMark else !fin && st == NotFinished)
    {
      hide Drive, Advance, Fetch, Mirrors, Raw, GoodRep, WfProps, CheckDicSize, ProcessedPos;
      if !Open(prop, Now(), lim, fin) {
        ClosedAdvance(prop, Now(), Temp() + src[pos..], lim, fin);
        SettleStop(Now(), Temp(), src, pos, base, if whole.Stopped? then whole.status else NotSpecified);
      }
    }

    // The call has begun: from here it goes on as a drive over the buffered bytes and the rest of the input.
    ghost predicate Begun(r: Returned, src: seq<byte>, base: int, lim: int, fin: bool)
      reads this, probs, dic, tempBuf
    {
      && Shape() && Dictionary() && Counters() && 0 <= tempBufSize < REQUIRED_INPUT_MAX && RawCore(prop, Now())
      && 0 <= base <= |src| && |hist| <= lim && Ready(prop, WriteRem(Now(), lim), lim)
      && (tempBufSize != 0 ==> base == 0 && remainLen == 0 && Fetch(prop, Now(), Temp()).FetchMore?)
      && r == Resume(prop, WriteRem(Now(), lim), Temp(), src[base..], base, lim, fin)
    }

    /** The part of a call before its first round: collecting the bytes that start the range coder, if they are due. */
    method Begin(src: seq<byte>, ghost lim: int, ghost fin: bool) returns (ready: bool, res: SRes, pos: int, status: Status)
      requires Valid() && |hist| <= lim
      modifies this`tempBufSize, this`range, this`code, this`rep0, this`rep1, this`rep2, this`rep3, this`state, this`remainLen, probs, tempBuf
      ensures |HistOf(old(Abs()))| <= lim && 0 <= pos <= |src| && res != ErrorFail && Dictionary()
      ensures ready ==> Begun(Call(prop, old(Abs()), src, lim, fin), src, pos, lim, fin)
      ensures !ready ==> Reports(Call(prop, old(Abs()), src, lim, fin), res, pos, status)
    {
      hide Drive, Advance, Fetch, Mirrors, Ready, RawCore, WriteRem, Resume, ProcessedPos, CheckDicSize, CodeOf, InitCore;
      ghost var d := Abs();
      ready, res, pos, status := true, Ok, 0, NotSpecified;
      AbsPhase();
      if remainLen > SPEC_LEN_START {
        res, ready, pos := Prepare(src);
        if res == Ok && !ready {
          status := NeedsMoreInput;
        } else if res == Ok {
          StartReady(hist, d.temp + src[..pos], lim);
          assert Temp() == [];
        } else {
          ready := false;
        }
      } else {
        RestReady(Now(), lim);
        assert src[0..] == src;
      }
    }

    lemma StartReady(h: seq<byte>, t: seq<byte>, lim: int)
      requires WfProps(prop) && |t| == RC_INIT_SIZE && |h| <= lim
      ensures var c := InitCore(prop, h, CodeOf(t));
              RawCore(prop, c) && WriteRem(c, lim) == c && Ready(prop, c, lim)
    {
      hide Raw;
      InitCoreReady(prop, h, CodeOf(t), lim);
    }

    lemma RestReady(c: Core, lim: int)
      requires RawCore(prop, c) && |c.hist| <= lim
      requires ValidCore(prop, c)
      ensures Ready(prop, WriteRem(c, lim), lim)
    {
      hide Raw;
      WriteRemKeeps(prop, c, lim);
    }

    lemma AbsPhase()
      requires Valid()
      ensures if remainLen > SPEC_LEN_START then remainLen == SPEC_LEN_START + 2 && tempBufSize < RC_INIT_SIZE
              else ValidCore(prop, Now()) && (tempBufSize != 0 ==> remainLen == 0 && Fetch(prop, Now(), Temp()).FetchMore?)
    {
    }

    /**
     One call: exactly what the specification's call does, in result, bytes consumed, status and state,
     and never with an internal error.
     */
    method DecodeToDic(dicLimit: int, src: seq<byte>, fin: bool) returns (res: SRes, srcLen: int, status: Status)
      requires Valid() && dicPos <= dicLimit <= dic.Length
      modifies this, probs, dic, tempBuf
      ensures Dictionary() && dicPos - |hist| == old(dicPos) - |old(hist)| && old(dicPos) <= dicPos <= dicLimit
      ensures 0 <= srcLen <= |src| && res != ErrorFail
      ensures |HistOf(old(Abs()))| <= old(LimitOf(dicLimit))
      ensures Reports(Call(prop, old(Abs()), src, old(LimitOf(dicLimit)), fin), res, srcLen, status)
    {
      hide Drive, Advance, Fetch, Mirrors, MidCore, Call, Settle, ProcessedPos, CheckDicSize;
      ghost var lim := LimitOf(dicLimit);
      var ready;
      ready, res, srcLen, status := Begin(src, lim, fin);
      if ready {
        WriteRest(dicLimit, lim);
        res, srcLen, status := Rounds(src, srcLen, dicLimit, fin, lim, Drive(prop, Now(), Temp() + src[srcLen..], lim, fin));
      }
    }

    // ---------- starting, and decoding through the circular buffer ----------

    /** Over a dictionary buffer given by the caller, as LzmaDecode uses it. */
    constructor (p: Props, buffer: array<byte>)
      requires WfProps(p)
      ensures prop == p && dic == buffer && fresh(probs) && fresh(tempBuf)
      ensures Valid() && dicPos == 0 && Abs() == Start([], [])
    {
      prop, dic := p, buffer;
      PowPositive(2, p.lc + p.lp);
      probs := new int[NumProbs(p)];
      tempBuf := new byte[REQUIRED_INPUT_MAX];
      dicPos, range, code, processedPos, checkDicSize := 0, 0, 0, 0, 0;
      rep0, rep1, rep2, rep3, state, remainLen, tempBufSize := 0, 0, 0, 0, 0, 0, 0;
      hist := [];
      new;
      Init();
    }

    /** Over a dictionary buffer of the size LzmaDec_Allocate takes, never smaller than the dictionary. */
    constructor Allocate(p: Props)
      requires WfProps(p)
      ensures prop == p && fresh(dic) && fresh(probs) && fresh(tempBuf) && dic.Length == AllocSize(p.dicSize) >= p.dicSize
      ensures Valid() && dicPos == 0 && Abs() == Start([], [])
    {
      prop := p;
      PowPositive(2, p.lc + p.lp);
      dic := new byte[AllocSize(p.dicSize)];
      probs := new int[NumProbs(p)];
      tempBuf := new byte[REQUIRED_INPUT_MAX];
      dicPos, range, code, processedPos, checkDicSize := 0, 0, 0, 0, 0;
      rep0, rep1, rep2, rep3, state, remainLen, tempBufSize := 0, 0, 0, 0, 0, 0, 0;
      hist := [];
      new;
      Init();
    }

    /**
     Forget the dictionary, or only the state: the next call starts the range coder anew. With neither flag it does so with
     the probabilities and distances of before.
     */
    method InitDicAndState(initDic: bool, initState: bool)
      requires Shape()
      requires if initDic then 0 <= dicPos <= dic.Length && (dicPos == 0 || prop.dicSize <= dic.Length) else Dictionary() && Counters()
      modifies this`remainLen, this`tempBufSize, this`processedPos, this`checkDicSize, this`hist
      ensures initDic || initState ==> Valid() && Abs() == Start(if initDic then [] else old(hist), [])
      ensures tempBufSize == 0 && remainLen == SPEC_LEN_START + if initDic || initState then 2 else 1
      ensures if initDic then processedPos == checkDicSize == 0 && hist == []
              else processedPos == old(processedPos) && checkDicSize == old(checkDicSize) && hist == old(hist)
    {
      remainLen := SPEC_LEN_START + 1;
      tempBufSize := 0;
      if initDic {
        processedPos := 0;
        checkDicSize := 0;
        hist := [];
        remainLen := SPEC_LEN_START + 2;
      }
      if initState {
        remainLen := SPEC_LEN_START + 2;
      }
    }

    method Init()
      requires Shape()
      modifies this`dicPos, this`remainLen, this`tempBufSize, this`processedPos, this`checkDicSize, this`hist
      ensures Valid() && dicPos == 0 && Abs() == Start([], [])
    {
      dicPos := 0;
      InitDicAndState(true, true);
    }

    // memcpy (dest + at, dic + from, n)
    method CopyOut(dest: array<byte>, at: int, from: int, n: int)
      requires dest != dic && 0 <= n && 0 <= at && at + n <= dest.Length && 0 <= from && from + n <= dic.Length
      modifies dest
      ensures dest[..at] == old(dest[..at]) && dest[at..at + n] == dic[from..from + n] && dest[at + n..] == old(dest[at + n..])
    {
      forall i | 0 <= i < n {
        dest[at + i] := dic[from + i];
      }
    }

    // Where DecodeToBuf stands: what is still to come is a single unbounded call, what came is in dest.
    ghost predicate Buffering(d0: Dec, whole: Returned, src: seq<byte>, used: int, out: seq<byte>, lim: int, fin: bool)
      reads this, probs, dic, tempBuf
    {
      && Valid() && 0 <= used <= |src| && |HistOf(Abs())| <= lim && Grows(HistOf(d0), hist) && out == hist[|HistOf(d0)|..]
      && whole == After(used, Call(prop, Abs(), src[used..], lim, fin))
    }

    // What one call inside DecodeToBuf did: the outcome is settled, or the rest is still one unbounded call.
    lemma Piece(d0: Dec, whole: Returned, src: seq<byte>, used: int, d: Dec, lim1: int, lim: int, fin: bool, cur: bool)
      requires ValidDec(prop, d) && |HistOf(d)| <= lim1 <= lim && 0 <= used <= |src| && Grows(HistOf(d0), HistOf(d))
      requires whole == After(used, Call(prop, d, src[used..], lim, fin))
      requires if lim1 < lim then !cur else cur == fin
      ensures match Call(prop, d, src[used..], lim1, cur)
              case DataError(why) => whole == DataError(why)
              case Returned(e, n, st) =>
                && ValidDec(prop, e) && |HistOf(e)| <= lim1 && 0 <= n <= |src| - used
                && Grows(HistOf(d), HistOf(e)) && Grows(HistOf(d0), HistOf(e))
                && HistOf(e)[|HistOf(d0)|..] == HistOf(d)[|HistOf(d0)|..] + HistOf(e)[|HistOf(d)|..]
                && whole == After(used + n, Call(prop, e, src[used + n..], lim, fin))
                && (|HistOf(e)| < lim1 < lim ==> whole == Returned(e, used + n, st))
                && (lim1 == lim ==> whole == Returned(e, used + n, st))
    {
      hide Call, ValidDec;
      var rest := src[used..];
      CallKeeps(prop, d, rest, lim1, cur);
      CallGrows(prop, d, rest, lim1, cur);
      if lim1 < lim {
        CallLimits(prop, d, rest, lim1, lim, fin);
        CallShort(prop, d, rest, lim1, lim, fin);
      } else {
        CallSplit(prop, d, rest, [], lim, fin);
        assert rest + [] == rest;
      }
      match Call(prop, d, rest, lim1, cur)
      case DataError(_) =>
      case Returned(e, n, _) =>
        assert rest[n..] == src[used + n..] && rest[n..] + [] == rest[n..];
        AfterAfter(used, n, Call(prop, e, src[used + n..], lim, fin));
        Appended(HistOf(d0), HistOf(d), HistOf(e));
    }

    lemma AbsHist()
      requires 0 <= tempBufSize <= tempBuf.Length
      ensures HistOf(Abs()) == hist
    {
    }

    // At the end of the buffer go on at its beginning.
    method WrapPos()
      requires Valid() && prop.dicSize <= dic.Length
      modifies this`dicPos
      ensures Valid() && Abs() == old(Abs()) && 0 <= dicPos < dic.Length
    {
      hide ValidDec, Counters;
      if dicPos == dic.Length {
        MirrorsWrap(dic[..], hist);
        dicPos := 0;
      }
    }

    // The bytes output since from, moved to dest.
    method Deliver(dest: array<byte>, at: int, from: int, ghost h: seq<byte>) returns (n: int)
      requires Shape() && Dictionary() && dest != dic && dest != tempBuf && 0 <= from <= dicPos <= dic.Length
      requires dicPos - |hist| == from - |h| && 0 <= at && at + dicPos - from <= dest.Length
      modifies dest
      ensures n == dicPos - from && dest[..at] == old(dest[..at]) && dest[at..at + n] == hist[|h|..] && dest[at + n..] == old(dest[at + n..])
    {
      n := dicPos - from;
      CopyOut(dest, at, from, n);
      MirrorsTail(dic[..], dicPos, hist, n);
    }

    // One turn of DecodeToBuf: decode up to the end of the buffer or of the room in dest, and copy out what came.
    method DecodePiece(dest: array<byte>, at: int, room: int, src: seq<byte>, used: int, fin: bool, ghost d0: Dec,
        ghost whole: Returned, ghost out: seq<byte>)
      returns (res: SRes, outSizeCur: int, inSizeCur: int, status: Status)
      requires prop.dicSize <= dic.Length && dest != dic && dest != tempBuf && 0 <= at && 0 <= room && at + room <= dest.Length
      requires Buffering(d0, whole, src, used, out, |hist| + room, fin)
      modifies this, probs, dic, tempBuf, dest
      ensures 0 <= outSizeCur <= room && 0 <= inSizeCur <= |src| - used && res != ErrorFail
      ensures dest[..at] == old(dest[..at]) && dest[at + outSizeCur..] == old(dest[at + outSizeCur..])
      ensures res == ErrorData ==> whole == DataError(status)
      ensures res == Ok ==>
                && |hist| == |old(hist)| + outSizeCur
                && Buffering(d0, whole, src, used + inSizeCur, out + dest[at..at + outSizeCur], |hist| + room - outSizeCur, fin)
                && (outSizeCur == 0 || outSizeCur == room ==> whole == Returned(Abs(), used + inSizeCur, status))
    {
      hide Call, ValidDec, Mirrors, Counters, Now, Temp, CheckDicSize, WfProps, NumProbs;
      WrapPos();
      AbsHist();
      var from := dicPos;
      var limit, cur := dic.Length, false;
      if room <= dic.Length - from {
        limit, cur := from + room, fin;
      }
      ghost var d, h := Abs(), hist;
      Piece(d0, whole, src, used, d, LimitOf(limit), |hist| + room, fin, cur);
      res, inSizeCur, status := DecodeToDic(limit, src[used..], cur);
      if res == Ok {
        AbsHist();
      }
      outSizeCur := Deliver(dest, at, from, h);
    }

    /**
     Decode into the caller's buffer by way of the circular dictionary: the bytes delivered, the bytes used, the status
     and the state are those of a single call over an unbounded history.
     */
    method DecodeToBuf(dest: array<byte>, capacity: int, src: seq<byte>, fin: bool) returns (res: SRes, destLen: int,
        srcLen: int, status: Status)
      requires Valid() && prop.dicSize <= dic.Length && 0 <= capacity <= dest.Length && dest != dic && dest != tempBuf
      modifies this, probs, dic, tempBuf, dest
      ensures 0 <= destLen <= capacity && 0 <= srcLen <= |src| && res != ErrorFail && dest[destLen..] == old(dest[destLen..])
      ensures |HistOf(old(Abs()))| <= |old(hist)| + capacity
      ensures match Call(prop, old(Abs()), src, |old(hist)| + capacity, fin)
              case DataError(why) => res == ErrorData && status == why
              case Returned(d, n, st) =>
                && res == Ok && srcLen == n && status == st && Valid() && Abs() == d
                && hist == old(hist) + dest[..destLen]
    {
      hide Call, ValidDec, Mirrors, Counters, Now, Temp;
      AbsHist();
      ghost var d0, h := Abs(), hist;
      ghost var whole, was := Call(prop, d0, src, |hist| + capacity, fin), dest[..];
      var outSize := capacity;
      destLen, srcLen := 0, 0;
      assert src[0..] == src;
      while true
        invariant 0 <= destLen <= capacity && dest[destLen..] == was[destLen..]
        invariant outSize == capacity - destLen && 0 <= srcLen <= |src| && h == HistOf(d0)
        invariant Buffering(d0, whole, src, srcLen, dest[..destLen], |hist| + outSize, fin) && |hist| == |h| + destLen
        decreases outSize
      {
        var outSizeCur, inSizeCur;
        ghost var out, tail := dest[..destLen], dest[destLen..];
        res, outSizeCur, inSizeCur, status := DecodePiece(dest, destLen, outSize, src, srcLen, fin, d0, whole, out);
        assert dest[destLen + outSizeCur..] == tail[outSizeCur..];
        assert dest[..destLen + outSizeCur] == out + dest[destLen..destLen + outSizeCur];
        srcLen := srcLen + inSizeCur;
        outSize := outSize - outSizeCur;
        destLen := destLen + outSizeCur;
        if res != Ok || outSizeCur == 0 || outSize == 0 {
          return;
        }
      }
    }
  }
}
