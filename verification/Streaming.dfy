/**
 Laws over whole runs of the decoder: the way the input is cut into calls, and the way the output is
 limited in between, cannot be observed; and what has been output is the LZ77 replay of the symbols.
 */
module Streaming {
  import opened Primitives
  import opened RangeCoder
  import opened SymbolCode
  import opened SymbolRun
  import opened Lz77
  import opened LzmaSpec
  import opened LzmaDriver

  // ---------- more input ----------

  lemma AdvanceExtend(p: Props, c: Core, inp: seq<byte>, more: seq<byte>, lim: int, fin: bool)
    requires Ready(p, c, lim)
    ensures match Advance(p, c, inp, lim, fin)
            case End(Stopped(d, rest, st)) => Advance(p, c, inp + more, lim, fin) == End(Stopped(d, rest + more, st))
            case End(Hungry(_, _)) => true
            case End(Failed(why)) => Advance(p, c, inp + more, lim, fin) == End(Failed(why))
            case Again(d, rest, s) => Advance(p, c, inp + more, lim, fin) == Again(d, rest + more, s)
  {
    FetchExtend(p, c, inp, more);
  }

  /** Input that arrives later continues a drive exactly where it would have been. */
  lemma {:induction false} DriveExtend(p: Props, c: Core, inp: seq<byte>, more: seq<byte>, lim: int, fin: bool)
    requires Ready(p, c, lim)
    ensures match Drive(p, c, inp, lim, fin)
            case Stopped(d, rest, st) => Drive(p, c, inp + more, lim, fin) == Stopped(d, rest + more, st)
            case Hungry(d, pend) => Ready(p, d, lim) && Drive(p, c, inp + more, lim, fin) == Drive(p, d, pend + more, lim, fin)
            case Failed(why) => Drive(p, c, inp + more, lim, fin) == Failed(why)
    decreases Todo(c, lim)
  {
    AdvanceKeeps(p, c, inp, lim, fin);
    AdvanceExtend(p, c, inp, more, lim, fin);
    match Advance(p, c, inp, lim, fin)
    case End(_) =>
    case Again(d, rest, _) => DriveExtend(p, d, rest, more, lim, fin);
  }

  /** A drive that has stopped stays stopped under the same limit. */
  lemma {:induction false} DriveStable(p: Props, c: Core, inp: seq<byte>, other: seq<byte>, lim: int, fin: bool)
    requires Ready(p, c, lim)
    ensures match Drive(p, c, inp, lim, fin)
            case Stopped(d, rest, st) => Ready(p, d, lim) && Drive(p, d, other, lim, fin) == Stopped(d, other, st)
            case _ => true
    decreases Todo(c, lim)
  {
    AdvanceKeeps(p, c, inp, lim, fin);
    match Advance(p, c, inp, lim, fin)
    case End(_) =>
    case Again(d, rest, _) => DriveStable(p, d, rest, other, lim, fin);
  }

  lemma ReadyWriteRem(p: Props, c: Core, lim: int)
    requires Ready(p, c, lim)
    ensures WriteRem(c, lim) == c
  {
  }

  function After(n: int, r: Returned): Returned {
    match r
    case Returned(d, m, st) => Returned(d, n + m, st)
    case DataError(why) => DataError(why)
  }

  // Results of calls in a row add up.
  lemma AfterAfter(n: int, m: int, r: Returned)
    ensures After(n, After(m, r)) == After(n + m, r)
  {
  }

  // A drive that ran out of input does not stop before its next symbol when more arrives.
  lemma HungryContinues(p: Props, c: Core, pend: seq<byte>, src: seq<byte>, lim: int, fin: bool)
    requires Ready(p, c, lim) && ValidDec(p, Live(c, pend)) && Advance(p, c, pend, lim, fin) == End(Hungry(c, pend))
    ensures match Drive(p, c, pend + src, lim, fin)
            case Stopped(_, rest, _) => |rest| <= |src|
            case _ => true
  {
    StoppedPending(p, c, pend, src, lim, fin);
    AdvanceKeeps(p, c, pend + src, lim, fin);
    match Advance(p, c, pend + src, lim, fin)
    case End(_) =>
    case Again(d, rest, _) =>
      DriveConsumes(p, d, rest, lim, fin);
      if pend != [] {
        FetchPrefix(p, c, pend, src);
      } else {
        assert pend + src == src;
      }
  }

  lemma SettleHungry(g: Driven, n: int, more: int, base: int)
    requires 0 <= n && 0 <= more && (g.Stopped? ==> |g.rest| <= more)
    ensures Settle(g, n + more, base) == After(base + n, Settle(g, more, 0))
  {
  }

  lemma SettleStopped(d: Core, rest: seq<byte>, st: Status, n: int, used: int, more: seq<byte>, base: int)
    requires 0 <= used <= n && |rest| >= n - used && (|rest| > n - used ==> used == 0)
    ensures Settle(Stopped(d, rest + more, st), n + |more|, base)
            == After(base + used, Settle(Stopped(d, rest + more, st), n - used + |more|, 0))
  {
  }

  lemma ResumeSplitHungry(p: Props, c: Core, pend: seq<byte>, src: seq<byte>, more: seq<byte>, base: int, lim: int, fin: bool)
    requires Ready(p, c, lim) && ValidDec(p, Live(c, pend)) && Drive(p, c, pend + src, lim, fin).Hungry?
    ensures var h := Drive(p, c, pend + src, lim, fin);
            && Ready(p, h.c, lim)
            && Resume(p, c, pend, src + more, base, lim, fin) == After(base + |src|, Resume(p, h.c, h.pend, more, 0, lim, fin))
  {
    hide Drive, Fetch, Advance, Run, Ready, ValidDec;
    var h := Drive(p, c, pend + src, lim, fin);
    ResumeKeeps(p, c, pend, src, base, lim, fin);
    DriveConsumes(p, c, pend + src, lim, fin);
    DriveExtend(p, c, pend + src, more, lim, fin);
    assert pend + src + more == pend + (src + more);
    HungryContinues(p, h.c, h.pend, more, lim, fin);
    SettleHungry(Drive(p, h.c, h.pend + more, lim, fin), |src|, |more|, base);
  }

  lemma Assoc(a: seq<byte>, b: seq<byte>, c: seq<byte>)
    ensures a + (b + c) == a + b + c
  {
  }

  lemma ResumeSplitStopped(p: Props, c: Core, pend: seq<byte>, src: seq<byte>, more: seq<byte>, base: int, lim: int, fin: bool)
    requires Ready(p, c, lim) && ValidDec(p, Live(c, pend)) && Drive(p, c, pend + src, lim, fin).Stopped?
    ensures var r := Resume(p, c, pend, src, base, lim, fin);
            && r.Returned? && r.dec.Live? && Ready(p, r.dec.c, lim) && base <= r.consumed <= base + |src|
            && Resume(p, c, pend, src + more, base, lim, fin)
               == After(r.consumed, Resume(p, r.dec.c, r.dec.pend, src[r.consumed - base..] + more, 0, lim, fin))
  {
    hide Drive, Fetch, Advance, Run, ValidDec, Ready;
    var s := Drive(p, c, pend + src, lim, fin);
    StoppedLeaves(p, c, pend, src, base, lim, fin);
    var r := Resume(p, c, pend, src, base, lim, fin);
    var n := r.consumed - base;
    assert Drive(p, c, pend + (src + more), lim, fin) == Stopped(s.c, s.rest + more, s.status) by {
      DriveExtend(p, c, pend + src, more, lim, fin);
      Assoc(pend, src, more);
    }
    assert Drive(p, s.c, r.dec.pend + (src[n..] + more), lim, fin) == Stopped(s.c, s.rest + more, s.status) by {
      DriveStable(p, c, pend + src, s.rest + more, lim, fin);
      Assoc(r.dec.pend, src[n..], more);
    }
    SettleStopped(s.c, s.rest, s.status, |src|, n, more, base);
  }

  lemma StoppedLeaves(p: Props, c: Core, pend: seq<byte>, src: seq<byte>, base: int, lim: int, fin: bool)
    requires Ready(p, c, lim) && ValidDec(p, Live(c, pend)) && Drive(p, c, pend + src, lim, fin).Stopped?
    ensures var s, r := Drive(p, c, pend + src, lim, fin), Resume(p, c, pend, src, base, lim, fin);
            && r.Returned? && r.dec == Live(s.c, r.dec.pend) && Ready(p, s.c, lim) && base <= r.consumed <= base + |src|
            && r.dec.pend + src[r.consumed - base..] == s.rest
            && (r.dec.pend != [] ==> r.consumed == base)
  {
    hide Drive, Fetch, Advance, Run, ValidDec, Ready;
    ResumeKeeps(p, c, pend, src, base, lim, fin);
    DriveConsumes(p, c, pend + src, lim, fin);
    StoppedPending(p, c, pend, src, lim, fin);
    RestSplit(pend, src, Drive(p, c, pend + src, lim, fin).rest);
  }

  lemma RestSplit(pend: seq<byte>, src: seq<byte>, rest: seq<byte>)
    requires Suffix(pend + src, rest) && (|rest| <= |src| || rest == pend + src)
    ensures var k := Max(0, |rest| - |src|);
            rest[..k] + src[|src| - (|rest| - k)..] == rest
  {
    if |rest| <= |src| {
      assert (pend + src)[|pend| + |src| - |rest|..] == src[|src| - |rest|..];
    }
  }

  lemma ResumeSplit(p: Props, c: Core, pend: seq<byte>, src: seq<byte>, more: seq<byte>, base: int, lim: int, fin: bool)
    requires Ready(p, c, lim) && ValidDec(p, Live(c, pend))
    ensures match Resume(p, c, pend, src, base, lim, fin)
            case DataError(why) => Resume(p, c, pend, src + more, base, lim, fin) == DataError(why)
            case Returned(d, n, _) =>
              && d.Live? && Ready(p, d.c, lim) && base <= n <= base + |src|
              && Resume(p, c, pend, src + more, base, lim, fin)
                 == After(n, Resume(p, d.c, d.pend, src[n - base..] + more, 0, lim, fin))
  {
    hide Drive, Fetch, Advance, Run;
    match Drive(p, c, pend + src, lim, fin)
    case Failed(_) =>
      DriveExtend(p, c, pend + src, more, lim, fin);
      assert pend + src + more == pend + (src + more);
    case Hungry(d, all) =>
      ResumeSplitHungry(p, c, pend, src, more, base, lim, fin);
      assert src[|src|..] + more == more;
    case Stopped(_, _, _) => ResumeSplitStopped(p, c, pend, src, more, base, lim, fin);
  }

  lemma StartBytes(temp: seq<byte>, src: seq<byte>, more: seq<byte>, k: int)
    requires 0 <= k <= |more|
    ensures temp + (src + more)[..|src| + k] == temp + src + more[..k] && (src + more)[|src| + k..] == more[k..]
  {
    assert (src + more)[..|src| + k] == src + more[..k];
  }

  lemma CallSplitStart(p: Props, d: Dec, src: seq<byte>, more: seq<byte>, lim: int, fin: bool)
    requires ValidDec(p, d) && |HistOf(d)| <= lim && d.Start? && |d.temp| + |src| < RC_INIT_SIZE
    ensures match Call(p, d, src, lim, fin)
            case DataError(why) => Call(p, d, src + more, lim, fin) == DataError(why)
            case Returned(e, n, _) =>
              && ValidDec(p, e) && |HistOf(e)| <= lim && n == |src|
              && Call(p, d, src + more, lim, fin) == After(n, Call(p, e, more, lim, fin))
  {
    hide Launch;
    var t := d.temp + src;
    assert src[..|src|] == src;
    var k := Min(RC_INIT_SIZE - |t|, |more|);
    StartBytes(d.temp, src, more, k);
    assert src[|src|..] == [];
    assert Call(p, d, src, lim, fin) == Launch(p, d.hist, t, [], |src|, lim, fin);
    assert Call(p, d, src + more, lim, fin) == Launch(p, d.hist, t + more[..k], more[k..], |src| + k, lim, fin);
    assert t == [] || t[0] == 0 ==>
             Call(p, Start(d.hist, t), more, lim, fin) == Launch(p, d.hist, t + more[..k], more[k..], k, lim, fin);
    hide Call;
    LaunchShort(p, d.hist, t, |src|, lim, fin);
    LaunchLater(p, d.hist, t + more[..k], more[k..], k, |src|, lim, fin);
    LaunchBad(p, d.hist, t, more[..k], more[k..], |src| + k, lim, fin);
  }

  lemma LaunchShort(p: Props, h: seq<byte>, t: seq<byte>, used: int, lim: int, fin: bool)
    requires WfProps(p) && |h| <= lim && |t| < RC_INIT_SIZE
    ensures Launch(p, h, t, [], used, lim, fin)
            == if t != [] && t[0] != 0 then DataError(NotSpecified) else Returned(Start(h, t), used, NeedsMoreInput)
  {
  }

  lemma LaunchBad(p: Props, h: seq<byte>, t: seq<byte>, more: seq<byte>, rest: seq<byte>, used: int, lim: int, fin: bool)
    requires WfProps(p) && |h| <= lim && |t + more| <= RC_INIT_SIZE
    ensures t != [] && t[0] != 0 ==> Launch(p, h, t + more, rest, used, lim, fin) == DataError(NotSpecified)
  {
  }

  lemma LaunchLater(p: Props, h: seq<byte>, t: seq<byte>, rest: seq<byte>, used: int, n: int, lim: int, fin: bool)
    requires WfProps(p) && |h| <= lim && |t| <= RC_INIT_SIZE
    ensures Launch(p, h, t, rest, n + used, lim, fin) == After(n, Launch(p, h, t, rest, used, lim, fin))
  {
    hide Ready;
    if |t| == RC_INIT_SIZE {
      InitCoreReady(p, h, CodeOf(t), lim);
      ResumeBase(p, InitCore(p, h, CodeOf(t)), rest, used, n, lim, fin);
    }
  }

  lemma ResumeBase(p: Props, c: Core, src: seq<byte>, base: int, more: int, lim: int, fin: bool)
    requires Ready(p, c, lim)
    ensures Resume(p, c, [], src, more + base, lim, fin) == After(more, Resume(p, c, [], src, base, lim, fin))
  {
  }

  lemma InitValid(p: Props, c: Core, lim: int)
    requires Ready(p, c, lim)
    ensures ValidDec(p, Live(c, []))
  {
  }

  lemma CallSplitInit(p: Props, d: Dec, src: seq<byte>, more: seq<byte>, lim: int, fin: bool)
    requires ValidDec(p, d) && |HistOf(d)| <= lim && d.Start? && |d.temp| + |src| >= RC_INIT_SIZE
    ensures match Call(p, d, src, lim, fin)
            case DataError(why) => Call(p, d, src + more, lim, fin) == DataError(why)
            case Returned(e, n, _) =>
              && ValidDec(p, e) && |HistOf(e)| <= lim && 0 <= n <= |src|
              && Call(p, d, src + more, lim, fin) == After(n, Call(p, e, src[n..] + more, lim, fin))
  {
    hide Drive, Fetch, Advance, Run, Ready, Resume, InitCore, RawCore, ValidCore;
    CallKeeps(p, d, src, lim, fin);
    var k := RC_INIT_SIZE - |d.temp|;
    var t := d.temp + src[..k];
    assert (src + more)[..k] == src[..k];
    assert (src + more)[k..] == src[k..] + more;
    if t[0] == 0 {
      var c := InitCore(p, d.hist, CodeOf(t));
      InitCoreReady(p, d.hist, CodeOf(t), lim);
      assert Call(p, d, src, lim, fin) == Resume(p, c, [], src[k..], k, lim, fin);
      assert Call(p, d, src + more, lim, fin) == Resume(p, c, [], src[k..] + more, k, lim, fin);
      InitValid(p, c, lim);
      ResumeSplit(p, c, [], src[k..], more, k, lim, fin);
      match Call(p, d, src, lim, fin)
      case DataError(_) =>
      case Returned(e, n, _) =>
        ReadyWriteRem(p, e.c, lim);
        assert src[k..][n - k..] == src[n..];
        assert Call(p, e, src[n..] + more, lim, fin) == Resume(p, e.c, e.pend, src[n..] + more, 0, lim, fin);
        hide Call;
    }
  }

  /**
   Cutting the input in two: what the first call leaves unused is presented again in front of the rest,
   and the second call ends exactly as one call over everything would, errors included.
   */
  lemma CallSplit(p: Props, d: Dec, src: seq<byte>, more: seq<byte>, lim: int, fin: bool)
    requires ValidDec(p, d) && |HistOf(d)| <= lim
    ensures match Call(p, d, src, lim, fin)
            case DataError(why) => Call(p, d, src + more, lim, fin) == DataError(why)
            case Returned(e, n, _) =>
              && ValidDec(p, e) && |HistOf(e)| <= lim && 0 <= n <= |src|
              && Call(p, d, src + more, lim, fin) == After(n, Call(p, e, src[n..] + more, lim, fin))
  {
    hide Drive, Fetch, Advance, Run;
    if d.Start? {
      if |d.temp| + |src| < RC_INIT_SIZE {
        CallSplitStart(p, d, src, more, lim, fin);
        assert src[|src|..] + more == more;
      } else {
        CallSplitInit(p, d, src, more, lim, fin);
      }
    } else {
      WriteRemKeeps(p, d.c, lim);
      CallKeeps(p, d, src, lim, fin);
      ResumeSplit(p, WriteRem(d.c, lim), d.pend, src, more, 0, lim, fin);
      match Call(p, d, src, lim, fin)
      case DataError(_) =>
      case Returned(e, n, _) => ReadyWriteRem(p, e.c, lim);
    }
  }

  function Concat(chunks: seq<seq<byte>>): seq<byte> {
    if chunks == [] then [] else chunks[0] + Concat(chunks[1..])
  }

  /** Successive calls over chunks of input, each given the bytes its predecessor left unused and then its own chunk. */
  function CallChunks(p: Props, d: Dec, carry: seq<byte>, chunks: seq<seq<byte>>, lim: int, fin: bool): Returned
    requires ValidDec(p, d) && |HistOf(d)| <= lim && chunks != []
    decreases |chunks|
  {
    var src := carry + chunks[0];
    var r := Call(p, d, src, lim, fin);
    CallKeeps(p, d, src, lim, fin);
    if r.DataError? || |chunks| == 1 then r
    else After(r.consumed, CallChunks(p, r.dec, src[r.consumed..], chunks[1..], lim, fin))
  }

  /**
   Streaming equivalence: however the input is cut into successive calls, they end with the same result,
   status, total of bytes used and decoder state as a single call over the whole input.
   */
  lemma {:induction false} StreamingEquivalence(p: Props, d: Dec, carry: seq<byte>, chunks: seq<seq<byte>>, lim: int, fin: bool)
    requires ValidDec(p, d) && |HistOf(d)| <= lim && chunks != []
    ensures CallChunks(p, d, carry, chunks, lim, fin) == Call(p, d, carry + Concat(chunks), lim, fin)
    decreases |chunks|
  {
    hide Call, ValidDec, HistOf;
    var src := carry + chunks[0];
    var r := Call(p, d, src, lim, fin);
    assert carry + Concat(chunks) == src + Concat(chunks[1..]);
    CallKeeps(p, d, src, lim, fin);
    CallSplit(p, d, src, Concat(chunks[1..]), lim, fin);
    if |chunks| == 1 {
      assert src + Concat(chunks[1..]) == src;
    } else if r.Returned? {
      StreamingEquivalence(p, r.dec, src[r.consumed..], chunks[1..], lim, fin);
    }
  }
}
