/** The whole decompression in one call, output going straight to its destination. */
module LzmaOneCall {
  import opened Primitives
  import opened Memory
  import opened SymbolCode
  import opened Lz77
  import opened LzmaSpec
  import opened LzmaDriver
  import opened OutputLimits
  import opened LzmaDecoder

  const LZMA_PROPS_SIZE: int := 5

  datatype PropsResult = Unsupported | Decoded(props: Props)

  function PropsDecode(data: seq<byte>): PropsResult {
    if |data| < LZMA_PROPS_SIZE then Unsupported
    else
      var d: int, b1: int, b2: int, b3: int, b4: int := data[0], data[1], data[2], data[3], data[4];
      var dicSize := b1 + b2 * 0x100 + b3 * 0x1_0000 + b4 * 0x100_0000;
      if d >= 9 * 5 * 5 then Unsupported
      else Decoded(Props(d % 9, d / 9 % 5, d / 9 / 5, Max(dicSize, DIC_MIN)))
  }

  /** Every header that is accepted gives usable properties, and each combination of them comes from exactly one first byte. */
  lemma PropsDecodeExact(data: seq<byte>)
    ensures PropsDecode(data).Decoded? <==> |data| >= LZMA_PROPS_SIZE && data[0] < 225
    ensures match PropsDecode(data)
            case Unsupported => true
            case Decoded(p) => WfProps(p) && data[0] == (p.pb * 5 + p.lp) * 9 + p.lc
  {
  }

  /** The header of given properties: one byte composed of three numbers, and the dictionary size with its lowest byte first. */
  function Header(lc: int, lp: int, pb: int, v: nat): (h: seq<byte>)
    requires 0 <= lc < 9 && 0 <= lp < 5 && 0 <= pb < 5
    ensures |h| == 5
  {
    [(pb * 5 + lp) * 9 + lc] + Bytes(v, 4)
  }

  lemma FourBytes(v: nat)
    requires v < 0x1_0000_0000
    ensures var s := Bytes(v, 4);
            var b0: int, b1: int, b2: int, b3: int := s[0], s[1], s[2], s[3];
            b0 + b1 * 0x100 + b2 * 0x1_0000 + b3 * 0x100_0000 == v
  {
    assert Bytes(v, 4) == [v % 256] + ([v / 256 % 256] + ([v / 256 / 256 % 256] + [v / 256 / 256 / 256 % 256]));
  }

  /** Every combination of properties is read back from its header; a dictionary of less than 4096 bytes counts as one of 4096. */
  lemma HeaderRead(lc: int, lp: int, pb: int, v: nat)
    requires 0 <= lc < 9 && 0 <= lp < 5 && 0 <= pb < 5 && v < 0x1_0000_0000
    ensures PropsDecode(Header(lc, lp, pb, v)) == Decoded(Props(lc, lp, pb, Max(v, 0x1000)))
  {
    FourBytes(v);
    var h := Header(lc, lp, pb, v);
    assert h[1..] == Bytes(v, 4);
    assert h[1] == Bytes(v, 4)[0] && h[2] == Bytes(v, 4)[1] && h[3] == Bytes(v, 4)[2] && h[4] == Bytes(v, 4)[3];
  }

  /** And every header that is accepted begins with one of these. */
  lemma HeaderOf(data: seq<byte>)
    requires PropsDecode(data).Decoded?
    ensures exists lc, lp, pb, v: nat ::
              0 <= lc < 9 && 0 <= lp < 5 && 0 <= pb < 5 && v < 0x1_0000_0000 && data[..5] == Header(lc, lp, pb, v)
  {
    var p, v: nat := PropsDecode(data).props, Value(data[1..5]);
    PropsDecodeExact(data);
    BytesOfValue(data[1..5]);
    assert Pow(256, 4) == 0x1_0000_0000 by {
      Powers256();
    }
    assert data[..5] == [data[0]] + data[1..5];
    assert data[..5] == Header(p.lc, p.lp, p.pb, v);
  }

  datatype Code = CodeOk | CodeData | CodeUnsupported | CodeInputEof

  // dest[..n] are the first n bytes of the history when nothing has wrapped.
  lemma MirrorsAll(d: seq<byte>, h: seq<byte>)
    requires Mirrors(d, |h|, h)
    ensures |h| <= |d| && d[..|h|] == h
  {
    MirrorsTail(d, |h|, h, |h|);
  }

  /**
   LzmaDecode: reject short input and bad properties, then one call of the decoder whose dictionary is dest itself;
   input that ends too early is an error here. Nothing is required of the size of dest.
   */
  method LzmaDecode(dest: array<byte>, src: seq<byte>, propData: seq<byte>, fin: bool)
    returns (res: Code, destLen: int, srcLen: int, status: Status)
    modifies dest
    ensures 0 <= destLen <= dest.Length && 0 <= srcLen <= |src|
    ensures res == CodeUnsupported <==> |src| >= RC_INIT_SIZE && PropsDecode(propData).Unsupported?
    ensures |src| < RC_INIT_SIZE || PropsDecode(propData).Unsupported? ==> destLen == srcLen == 0 && dest[..] == old(dest[..])
    ensures |src| < RC_INIT_SIZE ==> res == CodeInputEof
    ensures |src| >= RC_INIT_SIZE && PropsDecode(propData).Decoded? ==>
              && WfProps(PropsDecode(propData).props)
              && match Call(PropsDecode(propData).props, Start([], []), src, dest.Length, fin)
                 case DataError(why) => res == CodeData && status == why
                 case Returned(d, n, st) =>
                   && res == (if st == NeedsMoreInput then CodeInputEof else CodeOk)
                   && srcLen == n && status == st && dest[..destLen] == HistOf(d)
  {
    hide Call, Mirrors, ValidDec;
    destLen, srcLen, status := 0, 0, NotSpecified;
    if |src| < RC_INIT_SIZE {
      return CodeInputEof, 0, 0, NotSpecified;
    }
    var props := PropsDecode(propData);
    if props.Unsupported? {
      return CodeUnsupported, 0, 0, NotSpecified;
    }
    PropsDecodeExact(propData);
    var p := new LzmaDec(props.props, dest);
    p.AbsHist();
    var r;
    r, srcLen, status := p.DecodeToDic(dest.Length, src, fin);
    destLen := p.dicPos;
    res := if r != Ok then CodeData else if status == NeedsMoreInput then CodeInputEof else CodeOk;
    MirrorsAll(dest[..], p.hist);
    if r == Ok {
      p.AbsHist();
    }
  }

  /** Between calls every remembered distance reaches back no further than the output, nor than the dictionary. */
  lemma DistanceSafety(p: Props, d: Dec, src: seq<byte>, lim: int, fin: bool)
    requires ValidDec(p, d) && |HistOf(d)| <= lim
    ensures match Call(p, d, src, lim, fin)
            case DataError(_) => true
            case Returned(e, _, _) =>
              && ValidDec(p, e)
              && (e.Live? ==> GoodRep(p, e.c, e.c.rep0) && GoodRep(p, e.c, e.c.rep1) && GoodRep(p, e.c, e.c.rep2) && GoodRep(p, e.c, e.c.rep3))
  {
    hide Call, Fetch;
    CallKeeps(p, d, src, lim, fin);
  }

  // ---------- the buffer of a single call ----------

  // How far back decoding and applying the symbol reads; a literal after a match looks at the byte the last distance names.
  function Source(c: Core, s: Symbol): int {
    match s
    case Lit(_) => if c.state >= NUM_LIT_STATES then c.rep0 else 0
    case ShortRep => c.rep0
    case Rep(r, _) => Rotate(c, r).rep0
    case Match(dist, _) => if dist == END_MARK then 0 else dist + 1
  }

  /**
   Reading dist behind pos in a buffer of n bytes meets only what lies before pos, needs no wrap-around, and leaves at least
   as much room before the end of the buffer as writing at pos does.
   */
  predicate Flat(n: int, pos: int, dist: int) {
    0 <= dist <= pos <= n && Back(n, pos, dist) == pos - dist && n - pos <= n - Back(n, pos, dist)
  }

  /** At every symbol of a drive, all remembered distances are in reach, and what the symbol reads has been output. */
  ghost predicate FlatDrive(p: Props, c: Core, inp: seq<byte>, lim: int, fin: bool)
    requires Ready(p, c, lim)
    decreases Todo(c, lim)
  {
    && GoodRep(p, c, c.rep0) && GoodRep(p, c, c.rep1) && GoodRep(p, c, c.rep2) && GoodRep(p, c, c.rep3)
    && (AdvanceKeeps(p, c, inp, lim, fin);
        match Advance(p, c, inp, lim, fin)
        case End(_) => true
        case Again(d, rest, s) => Flat(lim, |c.hist|, Source(c, s)) && FlatDrive(p, d, rest, lim, fin))
  }

  lemma {:induction false} DriveFlat(p: Props, c: Core, inp: seq<byte>, lim: int, fin: bool)
    requires Ready(p, c, lim)
    ensures FlatDrive(p, c, inp, lim, fin)
    decreases Todo(c, lim)
  {
    hide NumProbs, Fetch;
    AdvanceKeeps(p, c, inp, lim, fin);
    match Advance(p, c, inp, lim, fin)
    case End(_) =>
    case Again(d, rest, s) =>
      SourceFlat(p, c, inp, lim, fin);
      DriveFlat(p, d, rest, lim, fin);
  }

  lemma SourceFlat(p: Props, c: Core, inp: seq<byte>, lim: int, fin: bool)
    requires Ready(p, c, lim) && Advance(p, c, inp, lim, fin).Again?
    ensures Flat(lim, |c.hist|, Source(c, Advance(p, c, inp, lim, fin).sym))
  {
    hide NumProbs, Fetch, WriteMatch;
    AdvanceKeeps(p, c, inp, lim, fin);
    FetchKeeps(p, c, inp);
    FirstSymbol(p, c, inp);
    WindowReach(p, c.hist);
  }

  /**
   In a single call the buffer is the destination and the position in it the number of bytes output: over the whole run no
   distance reaches behind the first byte, so copying never goes around the end, and only bytes that were written are read.
   */
  lemma OneCallFlat(p: Props, src: seq<byte>, lim: int, fin: bool)
    requires WfProps(p) && 0 <= lim && |src| >= RC_INIT_SIZE && src[0] == 0
    ensures var c := InitCore(p, [], CodeOf(src[..RC_INIT_SIZE]));
            && Ready(p, c, lim) && FlatDrive(p, c, src[RC_INIT_SIZE..], lim, fin)
            && Call(p, Start([], []), src, lim, fin) == Settle(Drive(p, c, src[RC_INIT_SIZE..], lim, fin), |src| - RC_INIT_SIZE, RC_INIT_SIZE)
  {
    hide Drive, Ready, FlatDrive, InitCore, Settle;
    var t := src[..RC_INIT_SIZE];
    InitCoreReady(p, [], CodeOf(t), lim);
    assert [] + t == t && [] + src[RC_INIT_SIZE..] == src[RC_INIT_SIZE..];
    DriveFlat(p, InitCore(p, [], CodeOf(t)), src[RC_INIT_SIZE..], lim, fin);
  }
}
