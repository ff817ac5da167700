/**
 Any sequence of calls that deliver into buffers: each is given what its predecessor left unused and new bytes, and may
 output as many bytes as its buffer has room for.
 */
module Deliveries {
  import opened Primitives
  import opened SymbolCode
  import opened Lz77
  import opened LzmaSpec
  import opened LzmaDriver
  import opened Streaming
  import opened OutputLimits

  /** One call: the bytes that arrive before it, the room in its buffer, and its finish mode. */
  datatype Delivery = Delivery(chunk: seq<byte>, capacity: nat, fin: bool)

  /** After all calls: the decoder, the bytes not used, and all bytes delivered; or the error of a call. */
  datatype Delivered = Broken(why: Status) | Served(dec: Dec, carry: seq<byte>, out: seq<byte>)

  // What a call adds to the output, as the contract of decoding into a buffer says.
  function Output(d: Dec, e: Dec): seq<byte>
    requires |HistOf(d)| <= |HistOf(e)|
  {
    HistOf(e)[|HistOf(d)|..]
  }

  /** The calls one after the other, up to the first error. */
  function Deliver(p: Props, d: Dec, carry: seq<byte>, out: seq<byte>, calls: seq<Delivery>): Delivered
    requires ValidDec(p, d)
    decreases |calls|
  {
    if calls == [] then Served(d, carry, out)
    else
      var src, lim := carry + calls[0].chunk, |HistOf(d)| + calls[0].capacity;
      CallKeeps(p, d, src, lim, calls[0].fin);
      CallGrows(p, d, src, lim, calls[0].fin);
      match Call(p, d, src, lim, calls[0].fin)
      case DataError(why) => Broken(why)
      case Returned(e, n, _) => Deliver(p, e, src[n..], out + Output(d, e), calls[1..])
  }

  // The symbols that one call decodes and applies.
  function CallSymbols(p: Props, d: Dec, src: seq<byte>, lim: int, fin: bool): (r: seq<Symbol>)
    requires ValidDec(p, d) && |HistOf(d)| <= lim
    ensures forall s :: s in r ==> WfSymbol(s)
  {
    match d
    case Start(h, t) =>
      var k := Min(RC_INIT_SIZE - |t|, |src|);
      var u := t + src[..k];
      if |u| < RC_INIT_SIZE || u[0] != 0 then []
      else
        InitCoreReady(p, h, CodeOf(u), lim);
        Symbols(p, InitCore(p, h, CodeOf(u)), [] + src[k..], lim, fin)
    case Live(c, pend) =>
      WriteRemKeeps(p, c, lim);
      Symbols(p, WriteRem(c, lim), pend + src, lim, fin)
  }

  /** All symbols decoded by the calls, in order. */
  function SymbolsOf(p: Props, d: Dec, carry: seq<byte>, calls: seq<Delivery>): (r: seq<Symbol>)
    requires ValidDec(p, d)
    ensures forall s :: s in r ==> WfSymbol(s)
    decreases |calls|
  {
    if calls == [] then []
    else
      var src, lim := carry + calls[0].chunk, |HistOf(d)| + calls[0].capacity;
      CallKeeps(p, d, src, lim, calls[0].fin);
      match Call(p, d, src, lim, calls[0].fin)
      case DataError(_) => []
      case Returned(e, n, _) => CallSymbols(p, d, src, lim, calls[0].fin) + SymbolsOf(p, e, src[n..], calls[1..])
  }

  // The limit-free state behind a decoder between calls.
  function WholeOf(p: Props, d: Dec): (z: Lz)
    requires ValidDec(p, d)
    ensures WfLz(z)
  {
    match d
    case Start(h, _) => Lz(h, 1, 1, 1, 1)
    case Live(c, _) =>
      WholeWf(p, c);
      Whole(c)
  }

  lemma {:induction false} ReplayAppend(z: Lz, xs: seq<Symbol>, ys: seq<Symbol>)
    requires WfLz(z) && (forall s :: s in xs ==> WfSymbol(s)) && (forall s :: s in ys ==> WfSymbol(s))
    ensures Replay(z, xs + ys) == Replay(Replay(z, xs), ys)
    decreases |xs|
  {
    hide Replay1;
    if xs == [] {
      assert xs + ys == ys;
    } else {
      ReplayAppend(Replay1(z, xs[0]), xs[1..], ys);
      assert (xs + ys)[1..] == xs[1..] + ys;
    }
  }

  // Finishing a cut match early or late is the same to the limit-free state.
  lemma WholeRem(p: Props, c: Core, lim: int)
    requires ValidCore(p, c) && |c.hist| <= lim
    ensures 1 <= c.rep0 && 0 <= c.rem && (0 < c.rem < SPEC_LEN_START ==> c.rep0 <= |c.hist|)
    ensures Ready(p, WriteRem(c, lim), lim) && WfLz(Whole(c)) && WfLz(Whole(WriteRem(c, lim))) && Whole(WriteRem(c, lim)) == Whole(c)
  {
    hide NumProbs, CopyMatch;
    RestReady(p, c, lim);
    WholeWf(p, c);
    WholeWf(p, WriteRem(c, lim));
    if 0 < c.rem < SPEC_LEN_START {
      var n := Min(lim - |c.hist|, c.rem);
      CopyMatchSplit(c.hist, c.rep0, n, c.rem - n);
    }
  }

  // One call replays its symbols.
  lemma CallReplay(p: Props, d: Dec, src: seq<byte>, lim: int, fin: bool)
    requires ValidDec(p, d) && |HistOf(d)| <= lim
    ensures match Call(p, d, src, lim, fin)
            case DataError(_) => true
            case Returned(e, _, _) => ValidDec(p, e) && WholeOf(p, e) == Replay(WholeOf(p, d), CallSymbols(p, d, src, lim, fin))
  {
    if d.Start? {
      StartReplay(p, d, src, lim, fin);
    } else {
      LiveReplay(p, d, src, lim, fin);
    }
  }

  lemma StartReplay(p: Props, d: Dec, src: seq<byte>, lim: int, fin: bool)
    requires ValidDec(p, d) && d.Start? && |d.hist| <= lim
    ensures match Call(p, d, src, lim, fin)
            case DataError(_) => true
            case Returned(e, _, _) => ValidDec(p, e) && WholeOf(p, e) == Replay(WholeOf(p, d), CallSymbols(p, d, src, lim, fin))
  {
    hide Drive, Fetch, Replay, Symbols, ValidCore, WriteRem, InitCore, Whole;
    CallKeeps(p, d, src, lim, fin);
    var k := Min(RC_INIT_SIZE - |d.temp|, |src|);
    var u := d.temp + src[..k];
    if |u| == RC_INIT_SIZE && u[0] == 0 {
      InitCoreReady(p, d.hist, CodeOf(u), lim);
      StartWhole(p, d.hist, CodeOf(u));
      DriveReplays(p, InitCore(p, d.hist, CodeOf(u)), [] + src[k..], lim, fin);
    } else {
      ReplayNone(WholeOf(p, d));
    }
  }

  lemma LiveReplay(p: Props, d: Dec, src: seq<byte>, lim: int, fin: bool)
    requires ValidDec(p, d) && d.Live? && |d.c.hist| <= lim
    ensures match Call(p, d, src, lim, fin)
            case DataError(_) => true
            case Returned(e, _, _) => ValidDec(p, e) && WholeOf(p, e) == Replay(WholeOf(p, d), CallSymbols(p, d, src, lim, fin))
  {
    hide Drive, Fetch, Replay, Symbols, ValidCore, WriteRem, Whole;
    CallKeeps(p, d, src, lim, fin);
    WholeRem(p, d.c, lim);
    DriveReplays(p, WriteRem(d.c, lim), d.pend + src, lim, fin);
  }

  lemma StartWhole(p: Props, h: seq<byte>, code: int)
    requires WfProps(p)
    ensures Whole(InitCore(p, h, code)) == Lz(h, 1, 1, 1, 1)
  {
  }

  lemma ReplayNone(z: Lz)
    requires WfLz(z)
    ensures Replay(z, []) == z
  {
  }

  /**
   However the input arrives and however small the buffers are: the bytes delivered by calls without an error are the output
   so far, and that is the beginning of the limit-free replay of the symbols decoded, and all of it unless a match is cut.
   */
  lemma {:induction false} DeliveriesReplay(p: Props, d: Dec, carry: seq<byte>, out: seq<byte>, calls: seq<Delivery>)
    requires ValidDec(p, d) && out == HistOf(d)
    ensures match Deliver(p, d, carry, out, calls)
            case Broken(_) => true
            case Served(e, _, all) =>
              && ValidDec(p, e) && all == HistOf(e)
              && var z := Replay(WholeOf(p, d), SymbolsOf(p, d, carry, calls));
                 && WholeOf(p, e) == z && Grows(all, z.out) && (e.Start? || e.c.rem == 0 || e.c.rem == SPEC_LEN_START ==> all == z.out)
    decreases |calls|
  {
    hide Call, ValidDec, HistOf, CallSymbols, Replay, WholeOf;
    if calls == [] {
      ReplayNone(WholeOf(p, d));
      OutputOf(p, d);
    } else {
      var src, lim, fin := carry + calls[0].chunk, |HistOf(d)| + calls[0].capacity, calls[0].fin;
      CallKeeps(p, d, src, lim, fin);
      CallGrows(p, d, src, lim, fin);
      CallReplay(p, d, src, lim, fin);
      match Call(p, d, src, lim, fin)
      case DataError(_) =>
      case Returned(e, n, _) =>
        assert out + Output(d, e) == HistOf(e);
        DeliveriesReplay(p, e, src[n..], out + Output(d, e), calls[1..]);
        ReplayAppend(WholeOf(p, d), CallSymbols(p, d, src, lim, fin), SymbolsOf(p, e, src[n..], calls[1..]));
    }
  }

  lemma OutputOf(p: Props, d: Dec)
    requires ValidDec(p, d)
    ensures Grows(HistOf(d), WholeOf(p, d).out)
    ensures d.Start? || d.c.rem == 0 || d.c.rem == SPEC_LEN_START ==> HistOf(d) == WholeOf(p, d).out
  {
    hide NumProbs, Fetch;
    if d.Live? {
      WholeWf(p, d.c);
    }
  }

  // ---------- against one call on everything ----------

  function Arrived(calls: seq<Delivery>): seq<byte> {
    if calls == [] then [] else calls[0].chunk + Arrived(calls[1..])
  }

  // No call may output beyond lim, and none asks for the end.
  predicate Below(p: Props, d: Dec, carry: seq<byte>, calls: seq<Delivery>, lim: int)
    requires ValidDec(p, d)
    decreases |calls|
  {
    if calls == [] then |HistOf(d)| <= lim
    else
      var src, l := carry + calls[0].chunk, |HistOf(d)| + calls[0].capacity;
      CallKeeps(p, d, src, l, calls[0].fin);
      && !calls[0].fin && l <= lim
      && match Call(p, d, src, l, false)
         case DataError(_) => true
         case Returned(e, n, _) => Below(p, e, src[n..], calls[1..], lim)
  }

  /**
   Calls without an error, followed by one call up to any limit they kept below, are one call on all input up to that limit; so
   what was delivered is the beginning of what that call outputs.
   */
  lemma {:induction false} DeliveriesAreOneCall(p: Props, d: Dec, carry: seq<byte>, out: seq<byte>, calls: seq<Delivery>, lim: int,
      fin: bool)
    requires ValidDec(p, d) && out == HistOf(d) && Below(p, d, carry, calls, lim)
    ensures |HistOf(d)| <= lim
    ensures match Deliver(p, d, carry, out, calls)
            case Broken(why) => Call(p, d, carry + Arrived(calls), lim, fin) == DataError(why)
            case Served(e, rest, all) =>
              && ValidDec(p, e) && |HistOf(e)| <= lim && |rest| <= |carry + Arrived(calls)|
              && Call(p, d, carry + Arrived(calls), lim, fin)
                 == After(|carry + Arrived(calls)| - |rest|, Call(p, e, rest, lim, fin))
    decreases |calls|
  {
    hide Call, ValidDec, HistOf;
    if calls == [] {
      assert carry + [] == carry;
      AfterNone(Call(p, d, carry, lim, fin));
    } else {
      var src, l, more := carry + calls[0].chunk, |HistOf(d)| + calls[0].capacity, Arrived(calls[1..]);
      CallKeeps(p, d, src, l, false);
      CallGrows(p, d, src, l, false);
      CallSplitLimits(p, d, src, more, l, lim, fin);
      assert carry + Arrived(calls) == src + more;
      match Call(p, d, src, l, false)
      case DataError(_) =>
      case Returned(e, n, _) =>
        assert out + Output(d, e) == HistOf(e);
        DeliveriesAreOneCall(p, e, src[n..], out + Output(d, e), calls[1..], lim, fin);
        match Deliver(p, e, src[n..], out + Output(d, e), calls[1..])
        case Broken(_) =>
        case Served(g, rest, _) => AfterAfter(n, |src[n..] + more| - |rest|, Call(p, g, rest, lim, fin));
    }
  }

  lemma AfterNone(r: Returned)
    ensures After(0, r) == r
  {
  }
}
