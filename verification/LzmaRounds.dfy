/** From one symbol applied with a late renormalisation and an early limit to one round of the driver. */
module LzmaRounds {
  import opened Primitives
  import opened RangeCoder
  import opened SymbolCode
  import opened SymbolRun
  import opened Lz77
  import opened LzmaSpec
  import opened LzmaDriver
  import opened Streaming
  import opened OutputLimits

  lemma ApplyCoder(p: Props, c: Core, r: Coder, n: Coder, s: Symbol, lim: int)
    requires MidCore(p, WithCoder(c, r)) && MidCore(p, WithCoder(c, n)) && WfSymbol(s) && |c.hist| <= lim
    requires c.hist == [] ==> s.Lit? || s.Match?
    ensures match Apply(p, WithCoder(c, r), s, lim)
            case Rejected => Apply(p, WithCoder(c, n), s, lim) == Rejected
            case Applied(d) => Apply(p, WithCoder(c, n), s, lim) == Applied(WithCoder(d, n))
  {
    hide MidCore, CopyMatch;
  }

  // The driver neither stops nor starves here: it decodes a symbol, perhaps one that must be rejected.
  predicate Goes(p: Props, c: Core, inp: seq<byte>, lim: int, fin: bool)
  {
    && Ready(p, c, lim) && c.rem == 0 && !(c.hist == [] && c.code >= BAD_REP_CODE)
    && (Advance(p, c, inp, lim, fin).Again? || Advance(p, c, inp, lim, fin) == End(Failed(NotSpecified)))
  }

  // c, with the coder renormalised only now, is where the driver stands; it will decode a symbol.
  predicate Poised(p: Props, c: Core, inp: seq<byte>, lim: int, fin: bool) {
    && RawCore(p, c) && Normalize(CoderOf(c, inp)).Normal?
    && var n := Normalize(CoderOf(c, inp)).rc; Goes(p, WithCoder(c, n), n.inp, lim, fin)
  }

  function RestOf(p: Props, c: Core, inp: seq<byte>, lim: int, fin: bool): Driven
    requires Poised(p, c, inp, lim, fin)
  {
    var n := Normalize(CoderOf(c, inp)).rc;
    Drive(p, WithCoder(c, n), n.inp, lim, fin)
  }

  // The drive that continues from a core whose coder is renormalised now and whose match is finished up to lim.
  predicate Continues(p: Props, c: Core, inp: seq<byte>, lim: int, fin: bool, whole: Driven) {
    && RawCore(p, c) && Normalize(CoderOf(c, inp)).Normal? && |c.hist| <= lim
    && var n := Normalize(CoderOf(c, inp)).rc;
    Ready(p, WriteRem(WithCoder(c, n), lim), lim) && Drive(p, WriteRem(WithCoder(c, n), lim), n.inp, lim, fin) == whole
  }

  // One round of the driver leads from c to d, once the match d may have cut short is finished up to lim.
  predicate Stepped(p: Props, c: Core, inp: seq<byte>, d: Core, rest: seq<byte>, lim: int, fin: bool) {
    && Ready(p, c, lim) && RawCore(p, d) && |d.hist| <= lim
    && Advance(p, c, inp, lim, fin).Again?
    && Advance(p, c, inp, lim, fin).c == WriteRem(d, lim) && Advance(p, c, inp, lim, fin).rest == rest
  }

  // The same between cores whose coders are renormalised only now.
  predicate SteppedLate(p: Props, c: Core, inp: seq<byte>, d: Core, rest: seq<byte>, lim: int, fin: bool) {
    && Normalize(CoderOf(c, inp)).Normal? && Normalize(CoderOf(d, rest)).Normal?
    && var n, m := Normalize(CoderOf(c, inp)).rc, Normalize(CoderOf(d, rest)).rc;
    Stepped(p, WithCoder(c, n), n.inp, WithCoder(d, m), m.inp, lim, fin)
  }

  lemma PoisedRun(p: Props, c: Core, inp: seq<byte>, lim: int, fin: bool)
    requires Poised(p, c, inp, lim, fin)
    ensures MidCore(p, c) && c.rem == 0
    ensures WfCtx(CtxOf(p, c), |c.probs|)
    ensures var g := Run(CtxOf(p, c), IsMatch, CoderOf(c, inp));
            var n := Normalize(CoderOf(c, inp)).rc;
            var f := Fetch(p, WithCoder(c, n), n.inp);
            && g.Complete? && Normalize(g.rc).Normal? && MidCore(p, WithCoder(c, g.rc)) && MidCore(p, WithCoder(c, Normalize(g.rc).rc))
            && |g.rc.inp| <= |inp| && WfSymbol(g.sym) && Canonical(Normalize(g.rc).rc)
            && f == Fetched(g.sym, WithCoder(c, Normalize(g.rc).rc), Normalize(g.rc).rc.inp)
            && (c.hist == [] ==> g.sym.Lit? || g.sym.Match?) && (|c.hist| == lim ==> g.sym.Match?) && |c.hist| <= lim
  {
    hide Run, Drive, Apply, LitBase, PosState;
    var n := Normalize(CoderOf(c, inp)).rc;
    CtxOk(p, c);
    RunNormalized(CtxOf(p, c), CoderOf(c, inp));
    var cn := WithCoder(c, n);
    FetchKeeps(p, cn, n.inp);
    RunKeeps(CtxOf(p, c), IsMatch, CoderOf(c, inp));
    AdvanceKeeps(p, cn, n.inp, lim, fin);
    FirstSymbol(p, cn, n.inp);
    NormalizeOnce(Run(CtxOf(p, c), IsMatch, CoderOf(c, inp)).rc);
  }

  /** Applying the symbol up to an earlier limit, late coder and all, continues the drive. */
  lemma RoundApplied(p: Props, c: Core, inp: seq<byte>, lim: int, fin: bool, early: int, d: Core)
    requires Poised(p, c, inp, lim, fin) && |c.hist| <= early <= lim && (|c.hist| == early ==> early == lim)
    requires WfCtx(CtxOf(p, c), |c.probs|)
    requires var g := Run(CtxOf(p, c), IsMatch, CoderOf(c, inp));
             && g.Complete? && MidCore(p, WithCoder(c, g.rc)) && WfSymbol(g.sym) && (c.hist == [] ==> g.sym.Lit? || g.sym.Match?)
             && Apply(p, WithCoder(c, g.rc), g.sym, early) == Applied(d)
    ensures var g := Run(CtxOf(p, c), IsMatch, CoderOf(c, inp));
            && Continues(p, d, g.rc.inp, lim, fin, RestOf(p, c, inp, lim, fin))
            && SteppedLate(p, c, inp, d, g.rc.inp, lim, fin)
            && CoderOf(d, g.rc.inp) == g.rc
            && RawCore(p, d) && |d.hist| <= early && (0 < d.rem < SPEC_LEN_START ==> |d.hist| == early)
            && |c.hist| <= |d.hist| && (d.rem == SPEC_LEN_START || |c.hist| < |d.hist|)
  {
    hide Run, Fetch, Apply, MidCore, Ready, LitBase, PosState, CtxOf, WriteRem;
    PoisedRun(p, c, inp, lim, fin);
    var g := Run(CtxOf(p, c), IsMatch, CoderOf(c, inp));
    var n, m := Normalize(CoderOf(c, inp)).rc, Normalize(g.rc).rc;
    ApplyCoder(p, c, g.rc, m, g.sym, early);
    ApplyKeeps(p, WithCoder(c, g.rc), g.sym, early);
    ApplyLater(p, WithCoder(c, m), g.sym, early, lim, WithCoder(d, m));
    RoundAdvances(p, WithCoder(c, n), n.inp, lim, fin);
  }

  lemma ApplyLater(p: Props, c: Core, s: Symbol, early: int, lim: int, d: Core)
    requires MidCore(p, c) && WfSymbol(s) && c.rem == 0 && (c.hist == [] ==> s.Lit? || s.Match?)
    requires |c.hist| <= early <= lim && (|c.hist| == early ==> early == lim && s.Match?)
    requires Apply(p, c, s, early) == Applied(d)
    ensures RawCore(p, d) && |d.hist| <= lim && Apply(p, c, s, lim) == Applied(WriteRem(d, lim))
  {
    ApplyKeeps(p, c, s, early);
    if |c.hist| < early {
      ApplyCut(p, c, s, early, lim);
    }
  }

  lemma RoundAdvances(p: Props, c: Core, inp: seq<byte>, lim: int, fin: bool)
    requires Goes(p, c, inp, lim, fin)
    ensures var f := Fetch(p, c, inp);
            && f.Fetched? && WfSymbol(f.sym) && MidCore(p, f.c) && (c.hist == [] ==> f.sym.Lit? || f.sym.Match?)
            && match Apply(p, f.c, f.sym, lim)
               case Rejected => Drive(p, c, inp, lim, fin) == Failed(NotSpecified)
               case Applied(e) =>
                 && Ready(p, e, lim) && Drive(p, c, inp, lim, fin) == Drive(p, e, f.rest, lim, fin)
                 && Advance(p, c, inp, lim, fin) == Again(e, f.rest, f.sym)
  {
    hide Run, Apply, Fetch;
    FetchKeeps(p, c, inp);
    FirstSymbol(p, c, inp);
    AdvanceKeeps(p, c, inp, lim, fin);
  }

  lemma RoundRejected(p: Props, c: Core, inp: seq<byte>, lim: int, fin: bool, early: int)
    requires Poised(p, c, inp, lim, fin) && |c.hist| <= early <= lim && (|c.hist| == early ==> early == lim)
    requires WfCtx(CtxOf(p, c), |c.probs|)
    requires var g := Run(CtxOf(p, c), IsMatch, CoderOf(c, inp));
             && g.Complete? && MidCore(p, WithCoder(c, g.rc)) && WfSymbol(g.sym) && (c.hist == [] ==> g.sym.Lit? || g.sym.Match?)
             && Apply(p, WithCoder(c, g.rc), g.sym, early) == Rejected
    ensures RestOf(p, c, inp, lim, fin) == Failed(NotSpecified)
  {
    hide Run, Fetch, Apply, MidCore, Ready, LitBase, PosState, CtxOf, WriteRem;
    PoisedRun(p, c, inp, lim, fin);
    var g := Run(CtxOf(p, c), IsMatch, CoderOf(c, inp));
    var n, m := Normalize(CoderOf(c, inp)).rc, Normalize(g.rc).rc;
    ApplyCoder(p, c, g.rc, m, g.sym, early);
    if |c.hist| < early {
      ApplyCut(p, WithCoder(c, m), g.sym, early, lim);
    }
    RoundAdvances(p, WithCoder(c, n), n.inp, lim, fin);
  }

  /** With twenty bytes at hand and room for output the drive goes on. */
  lemma GoesOn(p: Props, c: Core, inp: seq<byte>, lim: int, fin: bool)
    requires Ready(p, c, lim) && c.rem == 0 && c.hist != [] && |c.hist| < lim && |inp| >= REQUIRED_INPUT_MAX
    ensures Goes(p, c, inp, lim, fin)
  {
    hide Run, Apply, Fetch, MidCore;
    FetchTotal(p, c, inp);
  }

  lemma StaysPoised(p: Props, c: Core, inp: seq<byte>, lim: int, fin: bool, whole: Driven)
    requires Continues(p, c, inp, lim, fin, whole) && c.rem == 0 && c.hist != [] && |c.hist| < lim && |inp| > REQUIRED_INPUT_MAX
    ensures Poised(p, c, inp, lim, fin) && RestOf(p, c, inp, lim, fin) == whole
  {
    hide Drive, Run, Goes, MidCore;
    var n := Normalize(CoderOf(c, inp)).rc;
    GoesOn(p, WithCoder(c, n), n.inp, lim, fin);
  }

  lemma PoisedStart(p: Props, c: Core, inp: seq<byte>, lim: int, fin: bool)
    requires Goes(p, c, inp, lim, fin)
    ensures Poised(p, c, inp, lim, fin) && RestOf(p, c, inp, lim, fin) == Drive(p, c, inp, lim, fin)
  {
    hide Advance;
  }

  // Like Goes, but the first symbol may still be of the kind that must not come first.
  predicate Able(p: Props, c: Core, inp: seq<byte>, lim: int, fin: bool) {
    && Ready(p, c, lim) && c.rem == 0
    && (Advance(p, c, inp, lim, fin).Again? || Advance(p, c, inp, lim, fin) == End(Failed(NotSpecified)))
  }

  lemma AbleGoes(p: Props, c: Core, inp: seq<byte>, lim: int, fin: bool)
    requires Able(p, c, inp, lim, fin)
    ensures if c.hist == [] && c.code >= BAD_REP_CODE then Drive(p, c, inp, lim, fin) == Failed(NotSpecified)
            else Goes(p, c, inp, lim, fin)
  {
    hide Fetch, Apply, MidCore;
  }

  lemma SettledContinues(p: Props, c: Core, inp: seq<byte>, lim: int, fin: bool, whole: Driven)
    requires Continues(p, c, inp, lim, fin, whole) && TOP <= c.range
    ensures ValidCore(p, c) && |c.hist| <= lim && Ready(p, WriteRem(c, lim), lim) && Drive(p, WriteRem(c, lim), inp, lim, fin) == whole
  {
    hide Drive, MidCore;
  }

  lemma SteppedSettles(p: Props, c: Core, inp: seq<byte>, d: Core, rest: seq<byte>, e: Core, left: seq<byte>, lim: int, fin: bool)
    requires SteppedLate(p, c, inp, d, rest, lim, fin) && TOP <= c.range
    requires Normalize(CoderOf(d, rest)) == Normal(CoderOf(e, left)) && e == WithCoder(d, CoderOf(e, left))
    ensures Stepped(p, c, inp, e, left, lim, fin)
  {
    hide Advance;
  }

  // The limits let the driver go on; from here only the input decides.
  predicate Open(p: Props, c: Core, lim: int, fin: bool) {
    Ready(p, c, lim) && c.rem == 0 && (|c.hist| >= lim ==> c.code != 0 && fin)
  }

  lemma OpenAdvance(p: Props, c: Core, inp: seq<byte>, lim: int, fin: bool)
    requires Open(p, c, lim, fin)
    ensures match Fetch(p, c, inp)
            case FetchMore => |inp| < REQUIRED_INPUT_MAX && Drive(p, c, inp, lim, fin) == Hungry(c, inp)
            case Fetched(s, _, _) =>
              if |c.hist| >= lim && !s.Match? then Drive(p, c, inp, lim, fin) == Failed(NotFinished)
              else Able(p, c, inp, lim, fin)
  {
    hide Apply, MidCore, Run;
    if |inp| >= REQUIRED_INPUT_MAX {
      FetchTotal(p, c, inp);
    }
  }

  /** The driver stops at once when the end mark has been read or an output limit says so. */
  lemma ClosedAdvance(p: Props, c: Core, inp: seq<byte>, lim: int, fin: bool)
    requires Ready(p, c, lim) && !Open(p, c, lim, fin)
    ensures Drive(p, c, inp, lim, fin) ==
              if c.rem == SPEC_LEN_START then (if c.code != 0 then Failed(NotSpecified) else Stopped(c, inp, FinishedWithMark))
              else if c.rem == 0 && c.code == 0 then Stopped(c, inp, MaybeFinishedWithoutMark)
              else if !fin then Stopped(c, inp, NotFinished)
              else Failed(NotFinished)
  {
    hide Apply, Raw, GoodRep, Fetch;
  }

  /** A step made on part of the input is a step on all of it. */
  lemma StepOn(p: Props, c: Core, inp: seq<byte>, d: Core, rest: seq<byte>, more: seq<byte>, lim: int, fin: bool)
    requires Stepped(p, c, inp, d, rest, lim, fin) && Ready(p, d, lim)
    ensures Drive(p, c, inp + more, lim, fin) == Drive(p, d, rest + more, lim, fin)
  {
    hide Advance, MidCore;
    AdvanceExtend(p, c, inp, more, lim, fin);
    AdvanceKeeps(p, c, inp + more, lim, fin);
    ReadyWriteRem(p, d, lim);
  }

  lemma SteppedFetch(p: Props, c: Core, inp: seq<byte>, d: Core, rest: seq<byte>, lim: int, fin: bool)
    requires Stepped(p, c, inp, d, rest, lim, fin)
    ensures Fetch(p, c, inp).Fetched? && Fetch(p, c, inp).rest == rest
  {
    hide Advance, MidCore;
    AdvanceKeeps(p, c, inp, lim, fin);
  }

  lemma SettleStop(c: Core, pend: seq<byte>, src: seq<byte>, at: int, base: int, st: Status)
    requires 0 <= base <= at <= |src| && (pend != [] ==> at == base)
    ensures Settle(Stopped(c, pend + src[at..], st), |src| - base, base) == Returned(Live(c, pend), at, st)
  {
  }
}
