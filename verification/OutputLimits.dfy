/**
 Output limits are invisible too: stopping at a limit and going on later gives what a later limit would have
 given at once, and with or without limits the output is the plain LZ77 replay of the decoded symbols.
 */
module OutputLimits {
  import opened Primitives
  import opened RangeCoder
  import opened SymbolCode
  import opened SymbolRun
  import opened Lz77
  import opened LzmaSpec
  import opened LzmaDriver
  import opened Streaming

  // ---------- stopping at a limit ----------

  lemma WriteRemCompose(p: Props, c: Core, lim1: int, lim2: int)
    requires RawCore(p, c) && |c.hist| <= lim1 <= lim2
    ensures WriteRem(WriteRem(c, lim1), lim2) == WriteRem(c, lim2)
  {
    hide CopyMatch, Raw, GoodProbs, NumProbs;
    if 0 < c.rem < SPEC_LEN_START {
      var a := Min(lim1 - |c.hist|, c.rem);
      var d := WriteRem(c, lim1);
      CopyMatchSplit(c.hist, c.rep0, a, Min(lim2 - |d.hist|, d.rem));
    }
  }

  /** A match cut at one limit and finished up to a later one is the match cut at the later one. */
  lemma WriteMatchCut(p: Props, c: Core, len: int, lim1: int, lim2: int)
    requires MidCore(p, c) && c.hist != [] && |c.hist| < lim1 <= lim2 && 0 < len < SPEC_LEN_START && c.rem == 0
    ensures WriteMatch(c, len, lim1).Applied? && WriteMatch(c, len, lim2) == Applied(WriteRem(WriteMatch(c, len, lim1).c, lim2))
  {
    hide CopyMatch, Raw, GoodProbs, NumProbs;
    var a := Min(lim1 - |c.hist|, len);
    CopyMatchSplit(c.hist, c.rep0, a, Min(lim2 - |c.hist| - a, len - a));
  }

  lemma ApplyCut(p: Props, c: Core, s: Symbol, lim1: int, lim2: int)
    requires MidCore(p, c) && WfSymbol(s) && |c.hist| < lim1 <= lim2 && c.rem == 0
    requires c.hist == [] ==> s.Lit? || s.Match?
    ensures match Apply(p, c, s, lim1)
            case Rejected => Apply(p, c, s, lim2) == Rejected
            case Applied(d) => RawCore(p, d) && |d.hist| <= lim1 && Apply(p, c, s, lim2) == Applied(WriteRem(d, lim2))
  {
    hide RawCore, WriteMatch;
    ApplyKeeps(p, c, s, lim1);
    WindowReach(p, c.hist);
    match s
    case Lit(_) =>
    case ShortRep =>
    case Rep(r, len) =>
      WriteMatchCut(p, Rotate(c, r).(state := if c.state < NUM_LIT_STATES then 8 else 11), len + MATCH_MIN_LEN, lim1, lim2);
    case Match(dist, len) =>
      if dist != END_MARK && dist < Window(p, c.hist) {
        WriteMatchCut(p, c.(rep0 := dist + 1, rep1 := c.rep0, rep2 := c.rep1, rep3 := c.rep2,
                            state := if c.state < NUM_LIT_STATES then 7 else 10),
                      len + MATCH_MIN_LEN, lim1, lim2);
      }
  }

  lemma AdvanceLimits(p: Props, c: Core, inp: seq<byte>, lim1: int, lim2: int, fin: bool)
    requires Ready(p, c, lim1) && lim1 <= lim2
    ensures match Advance(p, c, inp, lim1, false)
            case End(Stopped(_, _, _)) => true
            case End(e) => WriteRem(c, lim2) == c && Ready(p, c, lim2) && Advance(p, c, inp, lim2, fin) == End(e)
            case Again(d, rest, s) =>
              && Ready(p, c, lim2) && WriteRem(c, lim2) == c && |c.hist| < lim1
              && RawCore(p, d) && |d.hist| <= lim1 && Advance(p, c, inp, lim2, fin) == Again(WriteRem(d, lim2), rest, s)
  {
    hide Raw, GoodProbs, NumProbs, Apply, WriteRem, Run, CopyMatch, Fetch;
    AdvanceKeeps(p, c, inp, lim1, false);
    ReadyWriteRem(p, c, lim1);
    if |c.hist| < lim1 || c.rem == SPEC_LEN_START {
      ReadyWriteRem(p, c, lim2);
      if c.rem == 0 && Fetch(p, c, inp).Fetched? && !(c.hist == [] && c.code >= BAD_REP_CODE) {
        FetchKeeps(p, c, inp);
        FirstSymbol(p, c, inp);
        ApplyCut(p, Fetch(p, c, inp).c, Fetch(p, c, inp).sym, lim1, lim2);
      }
    }
  }

  lemma WriteRemReady(p: Props, c: Core, lim1: int, lim2: int)
    requires Ready(p, c, lim1) && lim1 <= lim2
    ensures Ready(p, WriteRem(c, lim2), lim2)
  {
    hide Raw, GoodProbs, NumProbs, WriteRem;
    WriteRemKeeps(p, c, lim2);
  }

  /** A drive under an earlier limit, resumed under a later one, is the drive under the later limit. */
  lemma {:induction false} DriveLimits(p: Props, c: Core, inp: seq<byte>, lim1: int, lim2: int, fin: bool)
    requires Ready(p, c, lim1) && lim1 <= lim2
    ensures Ready(p, WriteRem(c, lim2), lim2)
    ensures var whole := Drive(p, WriteRem(c, lim2), inp, lim2, fin);
            match Drive(p, c, inp, lim1, false)
            case Stopped(d, rest, _) =>
              && Ready(p, d, lim1) && Ready(p, WriteRem(d, lim2), lim2)
              && whole == Drive(p, WriteRem(d, lim2), rest, lim2, fin)
            case Hungry(d, pend) => whole == Hungry(d, pend)
            case Failed(why) => whole == Failed(why)
    decreases Todo(c, lim1)
  {
    hide Ready, RawCore, Apply, WriteRem, Run, CopyMatch, Fetch, Advance;
    WriteRemReady(p, c, lim1, lim2);
    AdvanceKeeps(p, c, inp, lim1, false);
    AdvanceLimits(p, c, inp, lim1, lim2, fin);
    match Advance(p, c, inp, lim1, false)
    case End(_) =>
    case Again(d, rest, s) => DriveLimits(p, d, rest, lim1, lim2, fin);
  }

  lemma ResumeLimitsHungry(p: Props, c: Core, pend: seq<byte>, src: seq<byte>, base: int, lim1: int, lim2: int, fin: bool)
    requires Ready(p, c, lim1) && lim1 <= lim2 && ValidDec(p, Live(c, pend)) && Drive(p, c, pend + src, lim1, false).Hungry?
    ensures var h := Drive(p, c, pend + src, lim1, false);
            && Ready(p, WriteRem(c, lim2), lim2) && Ready(p, h.c, lim1) && Ready(p, WriteRem(h.c, lim2), lim2)
            && Resume(p, WriteRem(c, lim2), pend, src, base, lim2, fin)
               == After(base + |src|, Resume(p, WriteRem(h.c, lim2), h.pend, [], 0, lim2, fin))
  {
    hide Ready, RawCore, Apply, WriteRem, Run, CopyMatch, Fetch, Drive;
    var h := Drive(p, c, pend + src, lim1, false);
    DriveLimits(p, c, pend + src, lim1, lim2, fin);
    DriveConsumes(p, c, pend + src, lim1, false);
    WriteRemReady(p, h.c, lim1, lim2);
    HungryAgain(p, h.c, h.pend, lim1, lim2, fin);
    assert h.pend + [] == h.pend;
  }

  lemma HungryAgain(p: Props, c: Core, pend: seq<byte>, lim1: int, lim2: int, fin: bool)
    requires Ready(p, c, lim1) && lim1 <= lim2 && Advance(p, c, pend, lim1, false) == End(Hungry(c, pend))
    ensures Ready(p, c, lim2) && WriteRem(c, lim2) == c && Drive(p, c, pend, lim2, fin) == Hungry(c, pend)
  {
    hide Ready, RawCore, Apply, WriteRem, Run, CopyMatch, Fetch, Advance;
    AdvanceLimits(p, c, pend, lim1, lim2, fin);
  }

  lemma ResumeLimitsStopped(p: Props, c: Core, pend: seq<byte>, src: seq<byte>, base: int, lim1: int, lim2: int, fin: bool)
    requires Ready(p, c, lim1) && lim1 <= lim2 && ValidDec(p, Live(c, pend)) && Drive(p, c, pend + src, lim1, false).Stopped?
    ensures var r := Resume(p, c, pend, src, base, lim1, false);
            && Ready(p, WriteRem(c, lim2), lim2)
            && r.Returned? && r.dec.Live? && Ready(p, r.dec.c, lim1) && base <= r.consumed <= base + |src|
            && Ready(p, WriteRem(r.dec.c, lim2), lim2)
            && Resume(p, WriteRem(c, lim2), pend, src, base, lim2, fin)
               == After(r.consumed, Resume(p, WriteRem(r.dec.c, lim2), r.dec.pend, src[r.consumed - base..], 0, lim2, fin))
  {
    hide ValidDec, Raw, GoodProbs, Apply, WriteRem, Run, CopyMatch, Fetch, Drive, Advance;
    var s := Drive(p, c, pend + src, lim1, false);
    DriveLimits(p, c, pend + src, lim1, lim2, fin);
    StoppedLeaves(p, c, pend, src, base, lim1, false);
    WriteRemReady(p, s.c, lim1, lim2);
    var r := Resume(p, c, pend, src, base, lim1, false);
    DriveConsumes(p, WriteRem(s.c, lim2), s.rest, lim2, fin);
    SettleRest(Drive(p, WriteRem(s.c, lim2), s.rest, lim2, fin), |src|, r.consumed - base, |r.dec.pend|, |s.rest|, base);
  }

  lemma SettleRest(g: Driven, n: int, used: int, pend: int, rest: int, base: int)
    requires 0 <= used <= n && 0 <= pend && rest == pend + n - used && (pend > 0 ==> used == 0)
    requires g.Stopped? ==> |g.rest| <= rest
    ensures Settle(g, n, base) == After(base + used, Settle(g, n - used, 0))
  {
  }

  lemma ResumeLimits(p: Props, c: Core, pend: seq<byte>, src: seq<byte>, base: int, lim1: int, lim2: int, fin: bool)
    requires Ready(p, c, lim1) && lim1 <= lim2 && ValidDec(p, Live(c, pend))
    ensures Ready(p, WriteRem(c, lim2), lim2)
    ensures match Resume(p, c, pend, src, base, lim1, false)
            case DataError(why) => Resume(p, WriteRem(c, lim2), pend, src, base, lim2, fin) == DataError(why)
            case Returned(d, n, _) =>
              && d.Live? && Ready(p, d.c, lim1) && base <= n <= base + |src| && Ready(p, WriteRem(d.c, lim2), lim2)
              && Resume(p, WriteRem(c, lim2), pend, src, base, lim2, fin)
                 == After(n, Resume(p, WriteRem(d.c, lim2), d.pend, src[n - base..], 0, lim2, fin))
  {
    hide Ready, ValidDec, RawCore, Apply, WriteRem, Run, CopyMatch, Fetch, Drive, Advance;
    DriveLimits(p, c, pend + src, lim1, lim2, fin);
    match Drive(p, c, pend + src, lim1, false)
    case Failed(_) =>
    case Hungry(h, all) =>
      ResumeLimitsHungry(p, c, pend, src, base, lim1, lim2, fin);
      assert src[|src|..] == [];
    case Stopped(_, _, _) => ResumeLimitsStopped(p, c, pend, src, base, lim1, lim2, fin);
  }

  lemma CallLimitsLive(p: Props, d: Dec, src: seq<byte>, lim1: int, lim2: int, fin: bool)
    requires ValidDec(p, d) && d.Live? && |d.c.hist| <= lim1 <= lim2
    ensures match Call(p, d, src, lim1, false)
            case DataError(why) => Call(p, d, src, lim2, fin) == DataError(why)
            case Returned(e, n, _) =>
              && ValidDec(p, e) && |HistOf(e)| <= lim1 && 0 <= n <= |src|
              && Call(p, d, src, lim2, fin) == After(n, Call(p, e, src[n..], lim2, fin))
  {
    hide Raw, GoodProbs, Apply, WriteRem, Run, CopyMatch, Fetch, Drive, Advance, Resume;
    CallKeeps(p, d, src, lim1, false);
    WriteRemKeeps(p, d.c, lim1);
    WriteRemKeeps(p, d.c, lim2);
    WriteRemCompose(p, d.c, lim1, lim2);
    PendingKept(p, d, lim1);
    ResumeLimits(p, WriteRem(d.c, lim1), d.pend, src, 0, lim1, lim2, fin);
  }

  lemma PendingKept(p: Props, d: Dec, lim: int)
    requires ValidDec(p, d) && d.Live? && |d.c.hist| <= lim
    ensures ValidDec(p, Live(WriteRem(d.c, lim), d.pend))
  {
    hide Fetch;
    WriteRemKeeps(p, d.c, lim);
  }

  lemma CallLimitsStart(p: Props, d: Dec, src: seq<byte>, lim1: int, lim2: int, fin: bool)
    requires ValidDec(p, d) && d.Start? && |d.hist| <= lim1 <= lim2
    ensures match Call(p, d, src, lim1, false)
            case DataError(why) => Call(p, d, src, lim2, fin) == DataError(why)
            case Returned(e, n, _) =>
              && ValidDec(p, e) && |HistOf(e)| <= lim1 && 0 <= n <= |src|
              && Call(p, d, src, lim2, fin) == After(n, Call(p, e, src[n..], lim2, fin))
  {
    hide Ready, RawCore, Apply, WriteRem, Run, CopyMatch, Fetch, Drive, Advance, Resume, InitCore, Raw, NumProbs, Fresh;
    CallKeeps(p, d, src, lim1, false);
    var k := Min(RC_INIT_SIZE - |d.temp|, |src|);
    var t := d.temp + src[..k];
    if |t| == RC_INIT_SIZE && t[0] == 0 {
      CallLimitsFirst(p, d, src, lim1, lim2, fin);
    } else if |t| < RC_INIT_SIZE {
      assert src[k..] == [] && t + [] == t;
    }
  }

  // The call that completes the first five bytes.
  lemma StartedCall(p: Props, d: Dec, src: seq<byte>, lim: int, fin: bool)
    requires ValidDec(p, d) && d.Start? && |d.hist| <= lim && |d.temp| + |src| >= RC_INIT_SIZE
    requires (d.temp + src[..RC_INIT_SIZE - |d.temp|])[0] == 0
    ensures var k := RC_INIT_SIZE - |d.temp|;
            var c := InitCore(p, d.hist, CodeOf(d.temp + src[..k]));
            Ready(p, c, lim) && Call(p, d, src, lim, fin) == Resume(p, c, [], src[k..], k, lim, fin)
  {
    hide Resume, Drive, Fetch, InitCore, Ready;
    InitCoreReady(p, d.hist, CodeOf(d.temp + src[..RC_INIT_SIZE - |d.temp|]), lim);
  }

  lemma CallLimitsFirst(p: Props, d: Dec, src: seq<byte>, lim1: int, lim2: int, fin: bool)
    requires ValidDec(p, d) && d.Start? && |d.hist| <= lim1 <= lim2 && |d.temp| + |src| >= RC_INIT_SIZE
    requires (d.temp + src[..RC_INIT_SIZE - |d.temp|])[0] == 0
    ensures match Call(p, d, src, lim1, false)
            case DataError(why) => Call(p, d, src, lim2, fin) == DataError(why)
            case Returned(e, n, _) =>
              && ValidDec(p, e) && |HistOf(e)| <= lim1 && 0 <= n <= |src|
              && Call(p, d, src, lim2, fin) == After(n, Call(p, e, src[n..], lim2, fin))
  {
    hide Ready, RawCore, Apply, WriteRem, Run, CopyMatch, Fetch, Drive, Advance, Resume, InitCore, CodeOf;
    CallKeeps(p, d, src, lim1, false);
    var k := RC_INIT_SIZE - |d.temp|;
    var c := InitCore(p, d.hist, CodeOf(d.temp + src[..k]));
    StartedCall(p, d, src, lim1, false);
    StartedCall(p, d, src, lim2, fin);
    ReadyWriteRem(p, c, lim2);
    InitPending(p, c, lim1);
    ResumeLimits(p, c, [], src[k..], k, lim1, lim2, fin);
    match Call(p, d, src, lim1, false)
    case DataError(_) =>
    case Returned(e, n, _) => assert src[k..][n - k..] == src[n..];
  }

  lemma InitPending(p: Props, c: Core, lim: int)
    requires Ready(p, c, lim)
    ensures ValidDec(p, Live(c, []))
  {
  }

  /** A call that may output up to lim1 followed by one that may go on up to lim2 is a call up to lim2. */
  lemma CallLimits(p: Props, d: Dec, src: seq<byte>, lim1: int, lim2: int, fin: bool)
    requires ValidDec(p, d) && |HistOf(d)| <= lim1 <= lim2
    ensures match Call(p, d, src, lim1, false)
            case DataError(why) => Call(p, d, src, lim2, fin) == DataError(why)
            case Returned(e, n, _) =>
              && ValidDec(p, e) && |HistOf(e)| <= lim1 && 0 <= n <= |src|
              && Call(p, d, src, lim2, fin) == After(n, Call(p, e, src[n..], lim2, fin))
  {
    if d.Live? {
      CallLimitsLive(p, d, src, lim1, lim2, fin);
    } else {
      CallLimitsStart(p, d, src, lim1, lim2, fin);
    }
  }

  /** A call of a schedule: the bytes that arrive before it, and how far output may go during it. */
  datatype Visit = Visit(chunk: seq<byte>, lim: int)

  function Arriving(visits: seq<Visit>): seq<byte> {
    if visits == [] then [] else visits[0].chunk + Arriving(visits[1..])
  }

  predicate Rising(from: int, visits: seq<Visit>, lim: int)
    decreases |visits|
  {
    if visits == [] then from <= lim else from <= visits[0].lim && Rising(visits[0].lim, visits[1..], lim)
  }

  lemma {:induction false} RisingReaches(from: int, visits: seq<Visit>, lim: int)
    requires Rising(from, visits, lim)
    ensures from <= lim
    decreases |visits|
  {
    if visits != [] {
      RisingReaches(visits[0].lim, visits[1..], lim);
    }
  }

  /** Calls that may each stop anywhere at their own limit, and a last one up to lim in the given finish mode. */
  function CallSchedule(p: Props, d: Dec, carry: seq<byte>, from: int, visits: seq<Visit>, lim: int, fin: bool): Returned
    requires ValidDec(p, d) && |HistOf(d)| <= from && Rising(from, visits, lim)
    decreases |visits|
  {
    if visits == [] then
      Call(p, d, carry, lim, fin)
    else
      var src := carry + visits[0].chunk;
      var r := Call(p, d, src, visits[0].lim, false);
      CallKeeps(p, d, src, visits[0].lim, false);
      if r.DataError? then r
      else After(r.consumed, CallSchedule(p, r.dec, src[r.consumed..], visits[0].lim, visits[1..], lim, fin))
  }

  lemma CallSplitLimits(p: Props, d: Dec, src: seq<byte>, more: seq<byte>, lim1: int, lim2: int, fin: bool)
    requires ValidDec(p, d) && |HistOf(d)| <= lim1 <= lim2
    ensures match Call(p, d, src, lim1, false)
            case DataError(why) => Call(p, d, src + more, lim2, fin) == DataError(why)
            case Returned(e, n, _) =>
              && ValidDec(p, e) && |HistOf(e)| <= lim1 && 0 <= n <= |src|
              && Call(p, d, src + more, lim2, fin) == After(n, Call(p, e, src[n..] + more, lim2, fin))
  {
    hide Call, ValidDec, HistOf;
    CallLimits(p, d, src, lim1, lim2, fin);
    CallSplit(p, d, src, more, lim2, fin);
    match Call(p, d, src, lim1, false)
    case DataError(_) =>
    case Returned(e, n, _) =>
      CallSplit(p, e, src[n..], more, lim2, fin);
      match Call(p, e, src[n..], lim2, fin)
      case DataError(_) =>
      case Returned(_, m, _) => assert src[n..][m..] == src[n + m..];
  }

  /**
   Neither the cuts of the input nor rising limits on the output in between can be observed:
   the schedule ends as one call over everything with the last limit.
   */
  lemma {:induction false} ScheduleEquivalence(p: Props, d: Dec, carry: seq<byte>, from: int, visits: seq<Visit>, lim: int,
      fin: bool)
    requires ValidDec(p, d) && |HistOf(d)| <= from && Rising(from, visits, lim)
    ensures |HistOf(d)| <= lim
    ensures CallSchedule(p, d, carry, from, visits, lim, fin) == Call(p, d, carry + Arriving(visits), lim, fin)
    decreases |visits|
  {
    hide Call, ValidDec, HistOf;
    RisingReaches(from, visits, lim);
    if visits == [] {
      assert carry + [] == carry;
    } else {
      var src, lim1 := carry + visits[0].chunk, visits[0].lim;
      RisingReaches(lim1, visits[1..], lim);
      assert carry + Arriving(visits) == src + Arriving(visits[1..]);
      CallSplitLimits(p, d, src, Arriving(visits[1..]), lim1, lim, fin);
      var r := Call(p, d, src, lim1, false);
      if r.Returned? {
        ScheduleEquivalence(p, r.dec, src[r.consumed..], lim1, visits[1..], lim, fin);
      }
    }
  }

  // ---------- the output is the replay of the symbols ----------

  /** The limit-free state behind a core: a match that was cut short counts as complete. */
  function Whole(c: Core): Lz
    requires 1 <= c.rep0 && 0 <= c.rem && (0 < c.rem < SPEC_LEN_START ==> c.rep0 <= |c.hist|)
  {
    Lz(if c.rem < SPEC_LEN_START then CopyMatch(c.hist, c.rep0, c.rem) else c.hist, c.rep0, c.rep1, c.rep2, c.rep3)
  }

  lemma WholeMatch(p: Props, c: Core, len: int, lim: int)
    requires MidCore(p, c) && c.hist != [] && |c.hist| < lim && 0 < len < SPEC_LEN_START
    ensures 1 <= c.rep0 <= |c.hist|
    ensures match WriteMatch(c, len, lim)
            case Rejected => false
            case Applied(d) =>
              && 1 <= d.rep0 <= |d.hist| && 0 <= d.rem < SPEC_LEN_START
              && Whole(d) == Lz(CopyMatch(c.hist, c.rep0, len), c.rep0, c.rep1, c.rep2, c.rep3)
  {
    hide Raw, GoodProbs, NumProbs, CopyMatch;
    CopyMatchSplit(c.hist, c.rep0, Min(lim - |c.hist|, len), len - Min(lim - |c.hist|, len));
  }

  lemma WholeWf(p: Props, c: Core)
    requires MidCore(p, c)
    ensures 1 <= c.rep0 && 0 <= c.rem && (0 < c.rem < SPEC_LEN_START ==> c.rep0 <= |c.hist|) && WfLz(Whole(c))
  {
  }

  lemma WholeIdle(p: Props, c: Core)
    requires MidCore(p, c) && c.rem == 0
    ensures Whole(c) == Lz(c.hist, c.rep0, c.rep1, c.rep2, c.rep3)
  {
  }

  lemma WholeApplyRep(p: Props, c: Core, s: Symbol, lim: int)
    requires MidCore(p, c) && WfSymbol(s) && |c.hist| < lim && c.rem == 0 && s.Rep? && c.hist != []
    ensures WfLz(Whole(c))
    ensures var a := Apply(p, c, s, lim);
            a.Applied? && MidCore(p, a.c) && Whole(a.c) == Replay1(Whole(c), s)
  {
    hide Raw, GoodProbs, NumProbs, WriteMatch, CopyMatch, Whole;
    WholeWf(p, c);
    WholeIdle(p, c);
    ApplyKeeps(p, c, s, lim);
    WholeMatch(p, Rotate(c, s.r).(state := if c.state < NUM_LIT_STATES then 8 else 11), s.len + MATCH_MIN_LEN, lim);
  }

  lemma WholeApplyMatch(p: Props, c: Core, s: Symbol, lim: int)
    requires MidCore(p, c) && WfSymbol(s) && |c.hist| <= lim && c.rem == 0 && s.Match?
    ensures WfLz(Whole(c))
    ensures match Apply(p, c, s, lim)
            case Rejected => true
            case Applied(d) => MidCore(p, d) && Whole(d) == Replay1(Whole(c), s)
  {
    hide Raw, GoodProbs, NumProbs, CopyMatch;
    WholeWf(p, c);
    WholeIdle(p, c);
    WindowReach(p, c.hist);
    ApplyKeeps(p, c, s, lim);
    if s.dist != END_MARK && s.dist < Window(p, c.hist) && |c.hist| < lim {
      WholeMatch(p, c.(rep0 := s.dist + 1, rep1 := c.rep0, rep2 := c.rep1, rep3 := c.rep2,
                       state := if c.state < NUM_LIT_STATES then 7 else 10),
                 s.len + MATCH_MIN_LEN, lim);
    }
  }

  lemma WholeApplyByte(p: Props, c: Core, s: Symbol, lim: int)
    requires MidCore(p, c) && WfSymbol(s) && |c.hist| < lim && c.rem == 0 && (s.Lit? || (s.ShortRep? && c.hist != []))
    ensures WfLz(Whole(c))
    ensures var a := Apply(p, c, s, lim);
            a.Applied? && MidCore(p, a.c) && Whole(a.c) == Replay1(Whole(c), s)
  {
    hide Raw, GoodProbs, NumProbs, CopyMatch, Whole;
    WholeWf(p, c);
    WholeIdle(p, c);
    ApplyKeeps(p, c, s, lim);
    WholeIdle(p, Apply(p, c, s, lim).c);
  }

  lemma WholeApply(p: Props, c: Core, s: Symbol, lim: int)
    requires MidCore(p, c) && WfSymbol(s) && |c.hist| <= lim && c.rem == 0 && (|c.hist| == lim ==> s.Match?)
    requires c.hist == [] ==> s.Lit? || s.Match?
    ensures WfLz(Whole(c))
    ensures match Apply(p, c, s, lim)
            case Rejected => true
            case Applied(d) => MidCore(p, d) && WfLz(Whole(d)) && Whole(d) == Replay1(Whole(c), s)
  {
    hide Raw, GoodProbs, NumProbs, Apply, CopyMatch, Whole, Replay1;
    WholeWf(p, c);
    match s
    case Lit(_) => WholeApplyByte(p, c, s, lim);
    case ShortRep => WholeApplyByte(p, c, s, lim);
    case Rep(_, _) => WholeApplyRep(p, c, s, lim);
    case Match(_, _) => WholeApplyMatch(p, c, s, lim);
  }

  /** The symbols a drive decodes and applies, in order. */
  function Symbols(p: Props, c: Core, inp: seq<byte>, lim: int, fin: bool): (r: seq<Symbol>)
    requires Ready(p, c, lim)
    ensures forall s :: s in r ==> WfSymbol(s)
    decreases Todo(c, lim)
  {
    AdvanceKeeps(p, c, inp, lim, fin);
    match Advance(p, c, inp, lim, fin)
    case End(_) => []
    case Again(d, rest, s) => [s] + Symbols(p, d, rest, lim, fin)
  }

  lemma AdvanceReplays(p: Props, c: Core, inp: seq<byte>, lim: int, fin: bool)
    requires Ready(p, c, lim)
    ensures WfLz(Whole(c))
    ensures match Advance(p, c, inp, lim, fin)
            case End(_) => true
            case Again(d, _, s) => Ready(p, d, lim) && WfSymbol(s) && WfLz(Whole(d)) && Whole(d) == Replay1(Whole(c), s)
  {
    hide Apply, Raw, GoodProbs, CopyMatch, Whole, Replay1;
    WholeWf(p, c);
    AdvanceKeeps(p, c, inp, lim, fin);
    if Advance(p, c, inp, lim, fin).Again? {
      FetchKeeps(p, c, inp);
      FirstSymbol(p, c, inp);
      WholeIdle(p, c);
      WholeIdle(p, Fetch(p, c, inp).c);
      WholeApply(p, Fetch(p, c, inp).c, Fetch(p, c, inp).sym, lim);
    }
  }

  /** What a drive has output, with a cut match counted as complete, is the limit-free replay of its symbols. */
  lemma {:induction false} DriveReplays(p: Props, c: Core, inp: seq<byte>, lim: int, fin: bool)
    requires Ready(p, c, lim)
    ensures WfLz(Whole(c))
    ensures var z := Replay(Whole(c), Symbols(p, c, inp, lim, fin));
            match Drive(p, c, inp, lim, fin)
            case Stopped(d, _, _) => Ready(p, d, lim) && Whole(d) == z && z.out[..|d.hist|] == d.hist
            case Hungry(d, _) => Ready(p, d, lim) && Whole(d) == z && z.out == d.hist
            case Failed(_) => true
    decreases Todo(c, lim)
  {
    hide Ready, Raw, RawCore, CopyMatch, Replay1, Advance;
    AdvanceKeeps(p, c, inp, lim, fin);
    AdvanceReplays(p, c, inp, lim, fin);
    match Advance(p, c, inp, lim, fin)
    case End(_) => WholeOut(p, c, lim);
    case Again(d, rest, s) =>
      DriveReplays(p, d, rest, lim, fin);
      var syms := Symbols(p, d, rest, lim, fin);
      assert ([s] + syms)[0] == s && ([s] + syms)[1..] == syms;
  }

  lemma WholeOut(p: Props, c: Core, lim: int)
    requires Ready(p, c, lim)
    ensures |c.hist| <= |Whole(c).out| && Whole(c).out[..|c.hist|] == c.hist
    ensures c.rem == 0 || c.rem == SPEC_LEN_START ==> Whole(c).out == c.hist
  {
  }

  // ---------- output only grows ----------

  predicate Grows(h: seq<byte>, g: seq<byte>) {
    |h| <= |g| && g[..|h|] == h
  }

  lemma ApplyGrows(p: Props, c: Core, s: Symbol, lim: int)
    requires MidCore(p, c) && WfSymbol(s) && |c.hist| <= lim && (c.hist == [] ==> s.Lit? || s.Match?)
    ensures match Apply(p, c, s, lim)
            case Rejected => true
            case Applied(d) => Grows(c.hist, d.hist)
  {
    hide Raw, NumProbs;
  }

  lemma AdvanceGrows(p: Props, c: Core, inp: seq<byte>, lim: int, fin: bool)
    requires Ready(p, c, lim)
    ensures match Advance(p, c, inp, lim, fin)
            case End(_) => true
            case Again(d, _, _) => Grows(c.hist, d.hist)
  {
    hide Raw, Apply;
    if Advance(p, c, inp, lim, fin).Again? {
      FetchKeeps(p, c, inp);
      FirstSymbol(p, c, inp);
      ApplyGrows(p, Fetch(p, c, inp).c, Fetch(p, c, inp).sym, lim);
    }
  }

  lemma {:induction false} DriveGrows(p: Props, c: Core, inp: seq<byte>, lim: int, fin: bool)
    requires Ready(p, c, lim)
    ensures match Drive(p, c, inp, lim, fin)
            case Stopped(d, _, _) => Grows(c.hist, d.hist)
            case Hungry(d, _) => Grows(c.hist, d.hist)
            case Failed(_) => true
    decreases Todo(c, lim)
  {
    hide Ready, Advance;
    AdvanceKeeps(p, c, inp, lim, fin);
    AdvanceGrows(p, c, inp, lim, fin);
    match Advance(p, c, inp, lim, fin)
    case End(_) =>
    case Again(d, rest, s) => DriveGrows(p, d, rest, lim, fin);
  }

  /** What has been output is never taken back. */
  lemma CallGrows(p: Props, d: Dec, src: seq<byte>, lim: int, fin: bool)
    requires ValidDec(p, d) && |HistOf(d)| <= lim
    ensures match Call(p, d, src, lim, fin)
            case DataError(_) => true
            case Returned(e, _, _) => Grows(HistOf(d), HistOf(e))
  {
    hide Drive, Fetch, Raw, Fresh;
    match d
    case Start(h, t) =>
      var k := Min(RC_INIT_SIZE - |t|, |src|);
      var u := t + src[..k];
      if |u| == RC_INIT_SIZE {
        InitCoreReady(p, h, CodeOf(u), lim);
        DriveGrows(p, InitCore(p, h, CodeOf(u)), [] + src[k..], lim, fin);
      }
    case Live(c, pend) =>
      WriteRemKeeps(p, c, lim);
      DriveGrows(p, WriteRem(c, lim), pend + src, lim, fin);
  }

  // A drive that did not reach its limit has ended for good, or waits for input.
  lemma {:induction false} DriveShort(p: Props, c: Core, inp: seq<byte>, lim: int, fin: bool)
    requires Ready(p, c, lim)
    ensures match Drive(p, c, inp, lim, fin)
            case Stopped(d, rest, st) => |d.hist| < lim ==> st == FinishedWithMark && d.rem == SPEC_LEN_START && d.code == 0
            case _ => true
    decreases Todo(c, lim)
  {
    AdvanceKeeps(p, c, inp, lim, fin);
    match Advance(p, c, inp, lim, fin)
    case End(_) =>
    case Again(d, rest, s) => DriveShort(p, d, rest, lim, fin);
  }

  /** A call that returns before reaching its limit would return the same, and use nothing more, under any later limit. */
  lemma CallShort(p: Props, d: Dec, src: seq<byte>, lim1: int, lim2: int, fin: bool)
    requires ValidDec(p, d) && |HistOf(d)| <= lim1 <= lim2
    ensures match Call(p, d, src, lim1, false)
            case DataError(_) => true
            case Returned(e, n, st) =>
              && ValidDec(p, e) && |HistOf(e)| <= lim1 && 0 <= n <= |src|
              && (|HistOf(e)| < lim1 ==> Call(p, e, src[n..], lim2, fin) == Returned(e, 0, st))
  {
    if d.Start? {
      CallShortStart(p, d, src, lim1, lim2, fin);
    } else {
      CallShortLive(p, d, src, lim1, lim2, fin);
    }
  }

  lemma CallShortStart(p: Props, d: Dec, src: seq<byte>, lim1: int, lim2: int, fin: bool)
    requires ValidDec(p, d) && d.Start? && |d.hist| <= lim1 <= lim2
    ensures match Call(p, d, src, lim1, false)
            case DataError(_) => true
            case Returned(e, n, st) =>
              && ValidDec(p, e) && |HistOf(e)| <= lim1 && 0 <= n <= |src|
              && (|HistOf(e)| < lim1 ==> Call(p, e, src[n..], lim2, fin) == Returned(e, 0, st))
  {
    hide Drive, Ready, RawCore, Fetch, Resume, InitCore;
    CallKeeps(p, d, src, lim1, false);
    var k := Min(RC_INIT_SIZE - |d.temp|, |src|);
    var u := d.temp + src[..k];
    if |u| < RC_INIT_SIZE {
      assert src[k..] == [] && u + [] == u;
    } else if u[0] == 0 {
      var c := InitCore(p, d.hist, CodeOf(u));
      InitCoreReady(p, d.hist, CodeOf(u), lim1);
      InitPending(p, c, lim1);
      ResumeShort(p, c, [], src[k..], k, lim1, lim2, fin);
      match Call(p, d, src, lim1, false)
      case DataError(_) =>
      case Returned(e, n, _) => assert src[k..][n - k..] == src[n..];
    }
  }

  lemma CallShortLive(p: Props, d: Dec, src: seq<byte>, lim1: int, lim2: int, fin: bool)
    requires ValidDec(p, d) && d.Live? && |d.c.hist| <= lim1 <= lim2
    ensures match Call(p, d, src, lim1, false)
            case DataError(_) => true
            case Returned(e, n, st) =>
              && ValidDec(p, e) && |HistOf(e)| <= lim1 && 0 <= n <= |src|
              && (|HistOf(e)| < lim1 ==> Call(p, e, src[n..], lim2, fin) == Returned(e, 0, st))
  {
    hide Drive, Raw, GoodProbs, Fetch, Resume;
    CallKeeps(p, d, src, lim1, false);
    PendingKept(p, d, lim1);
    RestReady(p, d.c, lim1);
    ResumeShort(p, WriteRem(d.c, lim1), d.pend, src, 0, lim1, lim2, fin);
  }

  lemma RestReady(p: Props, c: Core, lim: int)
    requires ValidCore(p, c) && |c.hist| <= lim
    ensures RawCore(p, c) && Ready(p, WriteRem(c, lim), lim)
  {
    WriteRemKeeps(p, c, lim);
  }

  lemma ResumeShort(p: Props, c: Core, pend: seq<byte>, src: seq<byte>, base: int, lim1: int, lim2: int, fin: bool)
    requires Ready(p, c, lim1) && lim1 <= lim2 && ValidDec(p, Live(c, pend))
    ensures match Resume(p, c, pend, src, base, lim1, false)
            case DataError(_) => true
            case Returned(e, n, st) =>
              && ValidDec(p, e) && e.Live? && base <= n <= base + |src| && |e.c.hist| <= lim1
              && (|e.c.hist| < lim1 ==> Call(p, e, src[n - base..], lim2, fin) == Returned(e, 0, st))
  {
    hide Drive, MidCore, Apply, CopyMatch, Run;
    ResumeKeeps(p, c, pend, src, base, lim1, false);
    DriveConsumes(p, c, pend + src, lim1, false);
    DriveShort(p, c, pend + src, lim1, false);
    match Drive(p, c, pend + src, lim1, false)
    case Failed(_) =>
    case Hungry(h, all) =>
      if |h.hist| < lim1 {
        assert all + src[|src|..] == all;
        ReadyRaises(p, h, lim1, lim2);
        HungryStill(p, h, all, lim2, fin);
      }
    case Stopped(s, rest, st) =>
      if |s.hist| < lim1 {
        StoppedLeaves(p, c, pend, src, base, lim1, false);
        var e := Resume(p, c, pend, src, base, lim1, false);
        ReadyRaises(p, s, lim1, lim2);
        EndStill(p, s, rest, lim2, fin);
        SettleStill(s, e.dec.pend, src[e.consumed - base..], st);
      }
  }

  lemma SettleStill(c: Core, pend: seq<byte>, src: seq<byte>, st: Status)
    ensures Settle(Stopped(c, pend + src, st), |src|, 0) == Returned(Live(c, pend), 0, st)
  {
  }

  lemma ReadyRaises(p: Props, c: Core, lim1: int, lim2: int)
    requires Ready(p, c, lim1) && |c.hist| < lim1 <= lim2
    ensures Ready(p, c, lim2) && WriteRem(c, lim2) == c
  {
    hide Raw;
  }

  lemma HungryStill(p: Props, c: Core, inp: seq<byte>, lim: int, fin: bool)
    requires Ready(p, c, lim) && |c.hist| < lim && c.rem == 0 && Fetch(p, c, inp).FetchMore?
    ensures Drive(p, c, inp, lim, fin) == Hungry(c, inp)
  {
    hide Apply, MidCore;
  }

  lemma EndStill(p: Props, c: Core, inp: seq<byte>, lim: int, fin: bool)
    requires Ready(p, c, lim) && c.rem == SPEC_LEN_START && c.code == 0
    ensures Drive(p, c, inp, lim, fin) == Stopped(c, inp, FinishedWithMark)
  {
    hide Apply, MidCore, Fetch;
  }

  /** From a fresh start, the output of a call is the beginning of the replay of its symbols, and all of it unless a limit cut it. */
  lemma CallReplays(p: Props, src: seq<byte>, lim: int, fin: bool)
    requires WfProps(p) && 0 <= lim && |src| >= RC_INIT_SIZE && src[0] == 0
    ensures Ready(p, InitCore(p, [], CodeOf(src[..RC_INIT_SIZE])), lim)
    ensures var z := Replay(Lz([], 1, 1, 1, 1), Symbols(p, InitCore(p, [], CodeOf(src[..RC_INIT_SIZE])), src[RC_INIT_SIZE..], lim, fin));
            match Call(p, Start([], []), src, lim, fin)
            case DataError(_) => true
            case Returned(e, _, st) => Grows(HistOf(e), z.out) && (|HistOf(e)| < lim ==> HistOf(e) == z.out)
  {
    hide Drive, Ready, ValidDec, Replay, Symbols, InitCore;
    var t := src[..RC_INIT_SIZE];
    var c := InitCore(p, [], CodeOf(t));
    InitCoreReady(p, [], CodeOf(t), lim);
    assert [] + t == t && [] + src[RC_INIT_SIZE..] == src[RC_INIT_SIZE..];
    InitWhole(p, CodeOf(t));
    ResumeReplays(p, c, src[RC_INIT_SIZE..], RC_INIT_SIZE, lim, fin);
  }

  lemma InitWhole(p: Props, code: int)
    requires WfProps(p)
    ensures Whole(InitCore(p, [], code)) == Lz([], 1, 1, 1, 1)
  {
  }

  lemma ResumeReplays(p: Props, c: Core, src: seq<byte>, base: int, lim: int, fin: bool)
    requires Ready(p, c, lim)
    ensures WfLz(Whole(c))
    ensures var z := Replay(Whole(c), Symbols(p, c, src, lim, fin));
            match Resume(p, c, [], src, base, lim, fin)
            case DataError(_) => true
            case Returned(e, _, st) => Grows(HistOf(e), z.out) && (|HistOf(e)| < lim ==> HistOf(e) == z.out)
  {
    hide Drive, Ready, Replay, Symbols;
    assert [] + src == src;
    DriveReplays(p, c, src, lim, fin);
    DriveShort(p, c, src, lim, fin);
    DriveConsumes(p, c, src, lim, fin);
    match Drive(p, c, src, lim, fin)
    case Stopped(d, _, _) => WholeOut(p, d, lim);
    case _ =>
  }
}
