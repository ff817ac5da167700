/**
 The resumable driver on values: symbols are decoded until the output limit, the end mark, an error,
 or an input that ends inside a symbol. A call of the decoder is one such drive over the bytes kept
 from before followed by the new ones.
 */
module LzmaDriver {
  import opened Primitives
  import opened RangeCoder
  import opened SymbolCode
  import opened SymbolRun
  import opened Lz77
  import opened LzmaSpec

  datatype Status = NotSpecified | FinishedWithMark | NotFinished | NeedsMoreInput | MaybeFinishedWithoutMark

  datatype Driven =
    | Stopped(c: Core, rest: seq<byte>, status: Status)
    | Hungry(c: Core, pend: seq<byte>)
    | Failed(why: Status)

  datatype Round = End(d: Driven) | Again(c: Core, rest: seq<byte>, sym: Symbol)

  predicate Ready(p: Props, c: Core, lim: int) {
    ValidCore(p, c) && |c.hist| <= lim && (0 < c.rem < SPEC_LEN_START ==> |c.hist| == lim)
  }

  /** One round of the driver: stop, or decode and apply one symbol. */
  function Advance(p: Props, c: Core, inp: seq<byte>, lim: int, fin: bool): Round
    requires Ready(p, c, lim)
  {
    if c.rem == SPEC_LEN_START then
      End(if c.code != 0 then Failed(NotSpecified) else Stopped(c, inp, FinishedWithMark))
    else if |c.hist| >= lim && c.rem == 0 && c.code == 0 then
      End(Stopped(c, inp, MaybeFinishedWithoutMark))
    else if |c.hist| >= lim && !fin then
      End(Stopped(c, inp, NotFinished))
    else if |c.hist| >= lim && c.rem != 0 then
      End(Failed(NotFinished))
    else
      match Fetch(p, c, inp)
      case FetchMore => End(Hungry(c, inp))
      case Fetched(s, d, rest) =>
        FetchKeeps(p, c, inp);
        if |c.hist| >= lim && !s.Match? then
          End(Failed(NotFinished))
        else if c.hist == [] && c.code >= BAD_REP_CODE then
          End(Failed(NotSpecified))
        else
          FirstSymbol(p, c, inp);
          match Apply(p, d, s, lim)
          case Rejected => End(Failed(NotSpecified))
          case Applied(e) => Again(e, rest, s)
  }

  lemma FirstSymbol(p: Props, c: Core, inp: seq<byte>)
    requires ValidCore(p, c) && c.rem == 0 && Fetch(p, c, inp).Fetched?
    requires !(c.hist == [] && c.code >= BAD_REP_CODE)
    ensures c.hist == [] ==> Fetch(p, c, inp).sym.Lit? || Fetch(p, c, inp).sym.Match?
  {
    if c.hist == [] {
      BadRepIsExact(p, c, inp);
    }
  }

  function Todo(c: Core, lim: int): int {
    if c.rem == SPEC_LEN_START then 0 else 1 + Max(0, lim - |c.hist|)
  }

  lemma AdvanceKeeps(p: Props, c: Core, inp: seq<byte>, lim: int, fin: bool)
    requires Ready(p, c, lim)
    ensures match Advance(p, c, inp, lim, fin)
            case End(Stopped(d, rest, _)) => d == c && rest == inp
            case End(Hungry(d, pend)) => d == c && pend == inp && c.rem == 0 && Fetch(p, c, inp).FetchMore?
            case End(Failed(_)) => true
            case Again(d, rest, s) =>
              Ready(p, d, lim) && Todo(d, lim) < Todo(c, lim) && Suffix(inp, rest) && WfSymbol(s)
              && c.rem == 0 && Fetch(p, c, inp).Fetched? && Fetch(p, c, inp).rest == rest
  {
    if Advance(p, c, inp, lim, fin).Again? {
      FetchKeeps(p, c, inp);
      FirstSymbol(p, c, inp);
      var f := Fetch(p, c, inp);
      ApplyKeeps(p, f.c, f.sym, lim);
    }
  }

  function Drive(p: Props, c: Core, inp: seq<byte>, lim: int, fin: bool): Driven
    requires Ready(p, c, lim)
    decreases Todo(c, lim)
  {
    AdvanceKeeps(p, c, inp, lim, fin);
    match Advance(p, c, inp, lim, fin)
    case End(d) => d
    case Again(d, rest, _) => Drive(p, d, rest, lim, fin)
  }

  // ---------- one call ----------

  /** Between calls the decoder waits for its first five bytes, or holds a core and the bytes of an incomplete symbol. */
  datatype Dec = Start(hist: seq<byte>, temp: seq<byte>) | Live(c: Core, pend: seq<byte>)

  datatype Returned = Returned(dec: Dec, consumed: int, status: Status) | DataError(why: Status)

  function HistOf(d: Dec): seq<byte> {
    if d.Start? then d.hist else d.c.hist
  }

  predicate ValidDec(p: Props, d: Dec) {
    && WfProps(p)
    && match d
       case Start(h, t) => |t| < RC_INIT_SIZE && (t != [] ==> t[0] == 0)
       case Live(c, pend) =>
         ValidCore(p, c) && |pend| < REQUIRED_INPUT_MAX
         && (pend != [] ==> c.rem == 0 && Fetch(p, c, pend).FetchMore?)
  }

  function CodeOf(t: seq<byte>): int
    requires |t| == RC_INIT_SIZE
  {
    var b1: int, b2: int, b3: int, b4: int := t[1], t[2], t[3], t[4];
    ((b1 * 256 + b2) * 256 + b3) * 256 + b4
  }

  function InitCore(p: Props, h: seq<byte>, code: int): Core
    requires WfProps(p)
  {
    PowPositive(2, p.lc + p.lp);
    Core(RANGE_INIT, code, seq(NumProbs(p), i => PROB_INIT), 0, 1, 1, 1, 1, h, 0)
  }

  lemma InitCoreReady(p: Props, h: seq<byte>, code: int, lim: int)
    requires WfProps(p) && 0 <= code < TWO32 && |h| <= lim
    ensures Ready(p, InitCore(p, h, code), lim)
  {
    PowPositive(2, p.lc + p.lp);
  }

  // What a call reports after a drive over the pending bytes followed by n new ones, base of which came before.
  function Settle(r: Driven, n: int, base: int): Returned {
    match r
    case Stopped(d, rest, st) =>
      var k := Min(|rest|, Max(0, |rest| - n));
      Returned(Live(d, rest[..k]), base + n - (|rest| - k), st)
    case Hungry(d, all) => Returned(Live(d, all), base + n, NeedsMoreInput)
    case Failed(why) => DataError(why)
  }

  function Resume(p: Props, c: Core, pend: seq<byte>, src: seq<byte>, base: int, lim: int, fin: bool): Returned
    requires Ready(p, c, lim)
  {
    Settle(Drive(p, c, pend + src, lim, fin), |src|, base)
  }

  // The first bytes t have arrived, the last used of them in this call; start the range coder if they are complete.
  function Launch(p: Props, h: seq<byte>, t: seq<byte>, rest: seq<byte>, used: int, lim: int, fin: bool): Returned
    requires WfProps(p) && |h| <= lim && |t| <= RC_INIT_SIZE
  {
    if t != [] && t[0] != 0 then
      DataError(NotSpecified)
    else if |t| < RC_INIT_SIZE then
      Returned(Start(h, t), used, NeedsMoreInput)
    else
      InitCoreReady(p, h, CodeOf(t), lim);
      Resume(p, InitCore(p, h, CodeOf(t)), [], rest, used, lim, fin)
  }

  /** One call of the decoder: src are the new bytes, output may grow up to lim bytes in all. */
  function Call(p: Props, d: Dec, src: seq<byte>, lim: int, fin: bool): Returned
    requires ValidDec(p, d) && |HistOf(d)| <= lim
  {
    match d
    case Start(h, t) =>
      var k := Min(RC_INIT_SIZE - |t|, |src|);
      Launch(p, h, t + src[..k], src[k..], k, lim, fin)
    case Live(c, pend) =>
      WriteRemKeeps(p, c, lim);
      Resume(p, WriteRem(c, lim), pend, src, 0, lim, fin)
  }

  lemma FetchTotal(p: Props, c: Core, inp: seq<byte>)
    requires ValidCore(p, c) && |inp| >= REQUIRED_INPUT_MAX
    ensures Fetch(p, c, inp).Fetched?
  {
    CtxOk(p, c);
    TwentyBytes(CtxOf(p, c), CoderOf(c, inp));
  }

  lemma FetchExtend(p: Props, c: Core, inp: seq<byte>, more: seq<byte>)
    requires RawCore(p, c)
    ensures match Fetch(p, c, inp)
            case FetchMore => true
            case Fetched(s, d, rest) => Fetch(p, c, inp + more) == Fetched(s, d, rest + more)
  {
    CtxOk(p, c);
    RunExtend(CtxOf(p, c), IsMatch, CoderOf(c, inp), more);
    assert Extend(CoderOf(c, inp), more) == CoderOf(c, inp + more);
    match Run(CtxOf(p, c), IsMatch, CoderOf(c, inp))
    case Incomplete =>
    case Complete(sym, r) => NormalizeExtend(r, more);
  }

  lemma NormalizeExtend(r: Coder, more: seq<byte>)
    ensures match Normalize(r)
            case Starved => true
            case Normal(n) => Normalize(Extend(r, more)) == Normal(Extend(n, more))
  {
    if r.range < TOP && r.inp != [] {
      assert (r.inp + more)[1..] == r.inp[1..] + more;
    }
  }

  /** A symbol that the pending bytes do not complete uses more than the pending bytes. */
  lemma FetchPrefix(p: Props, c: Core, pend: seq<byte>, more: seq<byte>)
    requires RawCore(p, c) && Fetch(p, c, pend).FetchMore?
    ensures match Fetch(p, c, pend + more)
            case FetchMore => true
            case Fetched(_, _, rest) => |rest| < |more|
  {
    CtxOk(p, c);
    var cx, r0 := CtxOf(p, c), CoderOf(c, pend);
    assert Extend(r0, more) == CoderOf(c, pend + more);
    match Run(cx, IsMatch, r0)
    case Incomplete => RunPrefix(cx, IsMatch, r0, more);
    case Complete(_, r) => RunExtend(cx, IsMatch, r0, more);
  }

  lemma {:induction false} DriveConsumes(p: Props, c: Core, inp: seq<byte>, lim: int, fin: bool)
    requires Ready(p, c, lim)
    ensures match Drive(p, c, inp, lim, fin)
            case Stopped(d, rest, _) => Ready(p, d, lim) && Suffix(inp, rest)
            case Hungry(d, pend) =>
              && Ready(p, d, lim) && Suffix(inp, pend) && d.rem == 0 && Fetch(p, d, pend).FetchMore?
              && Advance(p, d, pend, lim, fin) == End(Hungry(d, pend))
            case Failed(_) => true
    decreases Todo(c, lim)
  {
    AdvanceKeeps(p, c, inp, lim, fin);
    match Advance(p, c, inp, lim, fin)
    case End(_) =>
    case Again(d, rest, _) =>
      DriveConsumes(p, d, rest, lim, fin);
      match Drive(p, d, rest, lim, fin)
      case Stopped(_, last, _) => SuffixTrans(inp, rest, last);
      case Hungry(_, last) => SuffixTrans(inp, rest, last);
      case Failed(_) =>
  }

  lemma ResumeKeeps(p: Props, c: Core, pend: seq<byte>, src: seq<byte>, base: int, lim: int, fin: bool)
    requires Ready(p, c, lim) && ValidDec(p, Live(c, pend))
    ensures match Resume(p, c, pend, src, base, lim, fin)
            case DataError(_) => true
            case Returned(d, n, _) => ValidDec(p, d) && base <= n <= base + |src| && d.Live? && Ready(p, d.c, lim)
  {
    hide Drive, Fetch, Advance, Raw, NumProbs, Fresh;
    DriveConsumes(p, c, pend + src, lim, fin);
    match Drive(p, c, pend + src, lim, fin)
    case Failed(_) =>
    case Hungry(d, all) =>
      if |all| >= REQUIRED_INPUT_MAX {
        FetchTotal(p, d, all);
        assert false;
      }
    case Stopped(d, rest, st) => StoppedPending(p, c, pend, src, lim, fin);
  }

  /** A drive that stops has used all pending bytes, unless it stopped before its first symbol. */
  lemma StoppedPending(p: Props, c: Core, pend: seq<byte>, src: seq<byte>, lim: int, fin: bool)
    requires Ready(p, c, lim) && ValidDec(p, Live(c, pend))
    ensures match Drive(p, c, pend + src, lim, fin)
            case Stopped(d, rest, st) => |rest| <= |src| || (d == c && rest == pend + src && rest[..|rest| - |src|] == pend)
            case _ => true
  {
    AdvanceKeeps(p, c, pend + src, lim, fin);
    match Advance(p, c, pend + src, lim, fin)
    case End(_) =>
    case Again(d, rest, _) =>
      DriveConsumes(p, d, rest, lim, fin);
      if pend != [] {
        FetchPrefix(p, c, pend, src);
      } else {
        assert pend + src == src;
      }
  }

  /** Every call keeps the decoder valid, never uses more than it was given, and never outputs past its limit. */
  lemma CallKeeps(p: Props, d: Dec, src: seq<byte>, lim: int, fin: bool)
    requires ValidDec(p, d) && |HistOf(d)| <= lim
    ensures match Call(p, d, src, lim, fin)
            case DataError(_) => true
            case Returned(e, n, _) => ValidDec(p, e) && 0 <= n <= |src| && |HistOf(e)| <= lim
  {
    match d
    case Start(h, t) =>
      var k := Min(RC_INIT_SIZE - |t|, |src|);
      var t' := t + src[..k];
      if |t'| == RC_INIT_SIZE && t'[0] == 0 {
        InitCoreReady(p, h, CodeOf(t'), lim);
        ResumeKeeps(p, InitCore(p, h, CodeOf(t')), [], src[k..], k, lim, fin);
      }
    case Live(c, pend) =>
      WriteRemKeeps(p, c, lim);
      ResumeKeeps(p, WriteRem(c, lim), pend, src, 0, lim, fin);
  }

  // What a status says of the state a drive ends in.
  predicate Means(c: Core, st: Status, lim: int, fin: bool) {
    match st
    case NotSpecified => false
    case FinishedWithMark => c.rem == SPEC_LEN_START && c.code == 0
    case MaybeFinishedWithoutMark => c.rem == 0 && c.code == 0 && |c.hist| == lim
    case NotFinished => c.rem != SPEC_LEN_START && |c.hist| == lim && !fin
    case NeedsMoreInput => c.rem == 0 && (|c.hist| < lim || fin)
  }

  lemma {:induction false} DriveMeans(p: Props, c: Core, inp: seq<byte>, lim: int, fin: bool)
    requires Ready(p, c, lim)
    ensures match Drive(p, c, inp, lim, fin)
            case Stopped(d, rest, st) => st != NeedsMoreInput && Means(d, st, lim, fin)
            case Hungry(d, _) => Means(d, NeedsMoreInput, lim, fin)
            case Failed(_) => true
    decreases Todo(c, lim)
  {
    hide Fetch, ValidCore;
    AdvanceKeeps(p, c, inp, lim, fin);
    match Advance(p, c, inp, lim, fin)
    case End(_) =>
    case Again(d, rest, _) => DriveMeans(p, d, rest, lim, fin);
  }

  /**
   What the status of a call says: the end mark was read; the output is full and may be the whole; it is full and the whole is
   not known to be there; or all input was used, and the decoder waits for its first five bytes, or for more output to be due.
   */
  lemma StatusMeans(p: Props, d: Dec, src: seq<byte>, lim: int, fin: bool)
    requires ValidDec(p, d) && |HistOf(d)| <= lim
    ensures match Call(p, d, src, lim, fin)
            case DataError(_) => true
            case Returned(e, n, st) =>
              && (st == NeedsMoreInput ==> n == |src|)
              && if e.Live? then Means(e.c, st, lim, fin) else st == NeedsMoreInput && |e.temp| < 5
  {
    hide Drive, Fetch, Raw, NumProbs, Means, CopyMatch, Fresh;
    match d
    case Start(h, t) =>
      var k := Min(RC_INIT_SIZE - |t|, |src|);
      var u := t + src[..k];
      if |u| == RC_INIT_SIZE && u[0] == 0 {
        InitCoreReady(p, h, CodeOf(u), lim);
        DriveMeans(p, InitCore(p, h, CodeOf(u)), [] + src[k..], lim, fin);
      }
    case Live(c, pend) =>
      WriteRemKeeps(p, c, lim);
      DriveMeans(p, WriteRem(c, lim), pend + src, lim, fin);
  }
}
