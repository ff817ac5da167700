/**
 Whole texts: a text cut into bytes and copies is written as a stream, with nothing taken from the decoder's treatment of the
 moves, and decoding the stream gives the text back.
 */
module TextCoder {
  import opened Primitives
  import opened RangeCoder
  import opened SymbolCode
  import opened SymbolRun
  import opened Lz77
  import opened LzmaSpec
  import opened LzmaDriver
  import opened Streaming
  import opened OutputLimits
  import opened SymbolCoder
  import opened SymbolQuestions
  import opened RangeEncoder

  // ---------- the meaning of moves ----------

  datatype Manner = OfByte | OfCopy | OfRepeat | OfAgain

  function MannerOf(m: Move): Manner {
    match m
    case Literal(_) => OfByte
    case Again => OfAgain
    case Repeat(_, _) => OfRepeat
    case Copy(_, _) => OfCopy
  }

  // How many bytes a move writes.
  function Span(m: Move): int {
    match m
    case Literal(_) => 1
    case Again => 1
    case Repeat(_, length) => length
    case Copy(_, length) => length
  }

  // How far back it looks, given the last four distances, newest first.
  function Reach(recent: seq<int>, m: Move): int
    requires |recent| == 4 && WfMove(m) && !m.Literal?
  {
    match m
    case Again => recent[0]
    case Repeat(r, _) => recent[r]
    case Copy(distance, _) => distance
  }

  /** A distance that is used moves to the front; a new one drives out the last. */
  function Recent(recent: seq<int>, m: Move): (r: seq<int>)
    requires |recent| == 4 && WfMove(m)
    ensures |r| == 4
  {
    match m
    case Literal(_) => recent
    case Again => recent
    case Repeat(r, _) => [recent[r]] + recent[..r] + recent[r + 1..]
    case Copy(distance, _) => [distance] + recent[..3]
  }

  // The last moves, the newest first; before the first move there are bytes.
  function Ago(ms: seq<Manner>, k: nat): Manner {
    if k < |ms| then ms[|ms| - 1 - k] else OfByte
  }

  function Sort(before: Manner, m: Manner): int {
    if m == OfCopy then 0 else if m == OfRepeat || before != OfByte then 1 else 2
  }

  /** What the state number says of the last four moves: when there was one that was no byte, and of which sort it was. */
  function StateOf(ms: seq<Manner>): (s: int)
    ensures 0 <= s < 12 && (s < 7 <==> Ago(ms, 0) == OfByte)
    ensures s == 0 <==> Ago(ms, 0) == Ago(ms, 1) == Ago(ms, 2) == OfByte
  {
    if Ago(ms, 0) != OfByte then
      if Ago(ms, 1) == OfByte then 7 + Sort(OfByte, Ago(ms, 0)) else 10 + Sort(Ago(ms, 1), Ago(ms, 0))
    else if Ago(ms, 1) != OfByte then 4 + Sort(Ago(ms, 2), Ago(ms, 1))
    else if Ago(ms, 2) != OfByte then 1 + Sort(Ago(ms, 3), Ago(ms, 2))
    else 0
  }

  // What the decoder does to its state number.
  function NextState(state: int, m: Manner): int {
    match m
    case OfByte => AfterLit(state)
    case OfCopy => if state < NUM_LIT_STATES then 7 else 10
    case OfRepeat => if state < NUM_LIT_STATES then 8 else 11
    case OfAgain => if state < NUM_LIT_STATES then 9 else 11
  }

  /** The decoder's state number keeps saying just that. */
  lemma StateFollows(ms: seq<Manner>, m: Manner)
    ensures StateOf(ms + [m]) == NextState(StateOf(ms), m)
  {
    var more := ms + [m];
    assert Ago(more, 0) == m && Ago(more, 1) == Ago(ms, 0) && Ago(more, 2) == Ago(ms, 1) && Ago(more, 3) == Ago(ms, 2);
  }

  // ---------- a text and a cutting of it ----------

  /** A move says what the next bytes of the text are: a byte itself, or that they are those so far back. */
  predicate Fitting(dicSize: int, text: seq<byte>, pos: nat, recent: seq<int>, m: Move)
    requires |recent| == 4
  {
    && WfMove(m) && pos + Span(m) <= |text|
    && if m.Literal? then text[pos] == m.b
       else
         var d := Reach(recent, m);
         1 <= d <= pos && d <= dicSize && text[pos..pos + Span(m)] == text[pos - d..pos - d + Span(m)]
  }

  /** The moves, one after the other, say the whole text from pos on. */
  predicate Cutting(dicSize: int, text: seq<byte>, pos: nat, recent: seq<int>, moves: seq<Move>)
    requires |recent| == 4
    decreases |moves|
  {
    if moves == [] then pos == |text|
    else
      && Fitting(dicSize, text, pos, recent, moves[0])
      && Cutting(dicSize, text, pos + Span(moves[0]), Recent(recent, moves[0]), moves[1..])
  }

  // ---------- writing ----------

  /** Where the writer is. */
  datatype Pen = Pen(level: Level, manners: seq<Manner>, recent: seq<int>, pos: nat)

  predicate WfPen(p: Props, text: seq<byte>, pen: Pen) {
    && WfProps(p) && WfLevel(pen.level) && 0x100_0000 <= pen.level.range && |pen.level.probs| == 1984 + 768 * Pow(2, p.lc + p.lp)
    && pen.pos <= |text| && |pen.recent| == 4 && (forall i :: 0 <= i < 4 ==> 1 <= pen.recent[i] <= Max(1, pen.pos))
    && (pen.pos == 0 ==> pen.manners == [])
  }

  function SettingOf(p: Props, text: seq<byte>, pen: Pen): Setting
    requires WfPen(p, text, pen)
  {
    PowPositive(2, p.pb);
    PowPositive(2, p.lp);
    PowPositive(2, 8 - p.lc);
    var state := StateOf(pen.manners);
    Setting(state, pen.pos % Pow(2, p.pb),
            pen.pos % Pow(2, p.lp) * Pow(2, p.lc) + (if pen.pos == 0 then 0 else text[pen.pos - 1] / Pow(2, 8 - p.lc)),
            if state >= 7 then text[pen.pos - pen.recent[0]] else 0)
  }

  lemma SettingFits(p: Props, text: seq<byte>, pen: Pen)
    requires WfPen(p, text, pen)
    ensures WfSetting(SettingOf(p, text, pen)) && WfCtx(CtxIn(SettingOf(p, text, pen)), |pen.level.probs|)
  {
    hide WfLevel, Pow, StateOf;
    PowPositive(2, p.pb);
    PowMonotone(2, p.pb, 4);
    AlignSteps();
    var x := SettingOf(p, text, pen);
    var prev: nat := if pen.pos == 0 then 0 else text[pen.pos - 1];
    TableRange(p, pen.pos, prev);
    TableFits(x.table, Pow(2, p.lc + p.lp));
  }

  lemma TableRange(p: Props, pos: nat, prev: nat)
    requires WfProps(p) && prev < 256
    ensures 0 < Pow(2, p.lp) && 0 < Pow(2, 8 - p.lc)
    ensures 0 <= pos % Pow(2, p.lp) * Pow(2, p.lc) + prev / Pow(2, 8 - p.lc) < Pow(2, p.lc + p.lp)
    ensures 0 / Pow(2, 8 - p.lc) == 0
  {
    hide Pow;
    PowPositive(2, p.lp);
    LcPowers(p.lc);
    DivBelow(prev, Pow(2, p.lc), Pow(2, 8 - p.lc));
    MulBelow(pos % Pow(2, p.lp), prev / Pow(2, 8 - p.lc), Pow(2, p.lp), Pow(2, p.lc));
    PowAdd(2, p.lp, p.lc);
    NoQuotient(Pow(2, 8 - p.lc));
  }

  lemma NoQuotient(d: nat)
    requires 0 < d
    ensures 0 / d == 0
  {
  }

  lemma TableFits(t: int, n: int)
    requires 0 <= t < n
    ensures 1984 + 768 * t + 768 <= 1984 + 768 * n && (768 * t) % 768 == 0
  {
  }

  function NextPen(p: Props, text: seq<byte>, pen: Pen, m: Move): Pen
    requires WfPen(p, text, pen) && WfMove(m)
  {
    SettingFits(p, text, pen);
    Pen(MoveLevel(SettingOf(p, text, pen), m, pen.level), pen.manners + [MannerOf(m)], Recent(pen.recent, m), pen.pos + Span(m))
  }

  lemma NextPenWf(p: Props, text: seq<byte>, pen: Pen, m: Move)
    requires WfPen(p, text, pen) && Fitting(p.dicSize, text, pen.pos, pen.recent, m)
    ensures WfPen(p, text, NextPen(p, text, pen, m))
  {
    hide WfLevel, MoveLevel, SettingOf;
    SettingFits(p, text, pen);
    MoveLevelWf(SettingOf(p, text, pen), m, pen.level);
  }

  lemma NextPenIs(p: Props, text: seq<byte>, pen: Pen, m: Move)
    requires WfPen(p, text, pen) && Fitting(p.dicSize, text, pen.pos, pen.recent, m)
    ensures WfMove(m) && NextPen(p, text, pen, m).pos == pen.pos + Span(m) && NextPen(p, text, pen, m).recent == Recent(pen.recent, m)
  {
    hide MoveLevel, SettingOf, WfLevel;
  }

  lemma NextPenCut(p: Props, text: seq<byte>, pen: Pen, moves: seq<Move>)
    requires WfPen(p, text, pen) && Cutting(p.dicSize, text, pen.pos, pen.recent, moves) && moves != []
    ensures WfMove(moves[0]) && WfPen(p, text, NextPen(p, text, pen, moves[0]))
    ensures var next := NextPen(p, text, pen, moves[0]); Cutting(p.dicSize, text, next.pos, next.recent, moves[1..])
  {
    hide WfLevel, NextPen, Fitting;
    NextPenWf(p, text, pen, moves[0]);
    NextPenIs(p, text, pen, moves[0]);
  }

  // Where the writer is after all moves.
  function LastPen(p: Props, text: seq<byte>, pen: Pen, moves: seq<Move>): (r: Pen)
    requires WfPen(p, text, pen) && Cutting(p.dicSize, text, pen.pos, pen.recent, moves)
    ensures WfPen(p, text, r) && r.pos == |text|
    decreases |moves|
  {
    if moves == [] then pen
    else
      hide *;
      NextPenCut(p, text, pen, moves);
      LastPen(p, text, NextPen(p, text, pen, moves[0]), moves[1..])
  }

  /** The bytes of the moves, in front of those that are to follow. */
  function Written(p: Props, text: seq<byte>, pen: Pen, moves: seq<Move>, last: Tape): (t: Tape)
    requires WfPen(p, text, pen) && Cutting(p.dicSize, text, pen.pos, pen.recent, moves)
    requires 0 <= last.code < LastPen(p, text, pen, moves).level.range
    ensures 0 <= t.code < pen.level.range
    decreases |moves|
  {
    if moves == [] then last
    else
      hide WfLevel, NextPen, SettingOf, Fitting;
      NextPenWf(p, text, pen, moves[0]);
      NextPenIs(p, text, pen, moves[0]);
      SettingFits(p, text, pen);
      PutMove(SettingOf(p, text, pen), moves[0], pen.level, Written(p, text, NextPen(p, text, pen, moves[0]), moves[1..], last))
  }

  // ---------- reading ----------

  /** The decoder is where the writer was. */
  predicate Follows(p: Props, text: seq<byte>, pen: Pen, c: Core)
    requires WfPen(p, text, pen)
  {
    && c.range == pen.level.range && c.probs == pen.level.probs && c.state == StateOf(pen.manners)
    && [c.rep0, c.rep1, c.rep2, c.rep3] == pen.recent && c.hist == text[..pen.pos] && c.rem == 0
  }

  lemma CtxFollows(p: Props, text: seq<byte>, pen: Pen, c: Core)
    requires WfPen(p, text, pen) && Follows(p, text, pen, c) && MidCore(p, c)
    ensures CtxOf(p, c) == CtxIn(SettingOf(p, text, pen))
  {
    hide WfLevel, Pow, StateOf, Raw;
    PowPositive(2, p.pb);
    PowPositive(2, p.lp);
    PowPositive(2, 8 - p.lc);
    LowPart(pen.pos, p.pb);
    LowPart(pen.pos, p.lp);
    assert pen.recent[0] == c.rep0;
    var h := c.hist;
    assert h != [] ==> h[|h| - 1] == text[pen.pos - 1];
    ZeroMod(Pow(2, p.lp));
  }

  lemma ZeroMod(n: nat)
    requires 0 < n
    ensures 0 % n == 0
  {
  }

  // The low bits of the 32-bit counter are those of the position.
  lemma LowPart(pos: nat, n: nat)
    requires n <= 4
    ensures 0 < Pow(2, n) && pos % TWO32 % Pow(2, n) == pos % Pow(2, n)
  {
    hide Pow;
    PowPositive(2, n);
    PowPositive(2, 32 - n);
    PowAdd(2, 32 - n, n);
    PowTwo32();
    ModMod(pos, Pow(2, 32 - n), Pow(2, n));
  }

  // ---------- what a move does to the history ----------

  // Every new byte is the one so far before it.
  predicate Extends(h: seq<byte>, g: seq<byte>, n: nat, d: int) {
    && |g| == |h| + n && g[..|h|] == h && 1 <= d <= |h| && forall i :: |h| <= i < |g| ==> g[i] == g[i - d]
  }

  lemma CopyExtends(h: seq<byte>, d: int, n: nat)
    requires 1 <= d <= |h|
    ensures Extends(h, CopyMatch(h, d, n), n, d)
  {
    hide CopyMatch;
    forall i | |h| <= i < |h| + n
      ensures CopyMatch(h, d, n)[i] == CopyMatch(h, d, n)[i - d]
    {
      CopyMatchAt(h, d, n, i - |h|);
    }
  }

  /**
   Applying the symbol of a move that fits below the limit: a byte is appended, or exactly as many bytes as the move is long,
   each the one that is the move's reach before it; the reach becomes the last distance.
   */
  lemma MoveApplied(p: Props, c: Core, m: Move, lim: int)
    requires MidCore(p, c) && WfMove(m) && c.rem == 0 && |c.hist| + Span(m) <= lim && (c.hist == [] ==> m.Literal?)
    requires m.Copy? ==> m.distance <= |c.hist| && m.distance <= p.dicSize
    ensures WfSymbol(SymbolOf(m))
    ensures var recent := [c.rep0, c.rep1, c.rep2, c.rep3];
            match Apply(p, c, SymbolOf(m), lim)
            case Rejected => false
            case Applied(d) =>
              && d.rem == 0 && CoderOf(d, []) == CoderOf(c, []) && [d.rep0, d.rep1, d.rep2, d.rep3] == Recent(recent, m)
              && d.state == NextState(c.state, MannerOf(m))
              && if m.Literal? then d.hist == c.hist + [m.b] else Extends(c.hist, d.hist, Span(m), Reach(recent, m))
  {
    hide Raw, NumProbs, CopyMatch, Extends;
    WindowReach(p, c.hist);
    var recent := [c.rep0, c.rep1, c.rep2, c.rep3];
    if m.Literal? {
    } else {
      CopyExtends(c.hist, Reach(recent, m), Span(m));
      if m.Repeat? {
        RecentIs(recent, m.r, m.length);
      }
    }
  }

  lemma RecentIs(recent: seq<int>, r: int, length: int)
    requires |recent| == 4 && 0 <= r < 4 && 2 <= length <= 273
    ensures Recent(recent, Repeat(r, length))
            == if r == 0 then recent
               else if r == 1 then [recent[1], recent[0], recent[2], recent[3]]
               else if r == 2 then [recent[2], recent[0], recent[1], recent[3]]
               else [recent[3], recent[0], recent[1], recent[2]]
  {
  }

  // Only one text goes on like this.
  lemma {:induction false} ExtendsText(text: seq<byte>, pos: nat, g: seq<byte>, n: nat, d: int)
    requires pos + n <= |text| && Extends(text[..pos], g, n, d) && text[pos..pos + n] == text[pos - d..pos - d + n]
    ensures g == text[..pos + n]
  {
    var k := pos;
    while k < pos + n
      invariant pos <= k <= pos + n && g[..k] == text[..k]
    {
      assert g[k] == g[k - d] == g[..k][k - d] == text[k - d];
      assert text[pos..pos + n][k - pos] == text[pos - d..pos - d + n][k - pos];
      assert g[..k + 1] == g[..k] + [g[k]] && text[..k + 1] == text[..k] + [text[k]];
      k := k + 1;
    }
    assert g[..pos + n] == g;
  }

  // ---------- decoding what was written ----------

  /** The decoder at the beginning of the bytes t. */
  predicate Reads(p: Props, text: seq<byte>, pen: Pen, c: Core, t: Tape)
    requires WfPen(p, text, pen)
  {
    Follows(p, text, pen, c) && ValidCore(p, c) && c.code == t.code
  }

  /** From every place of the writer, the decoder reads the move that was written, end marks included. */
  lemma FetchRead(p: Props, text: seq<byte>, pen: Pen, c: Core, m: Move, t: Tape)
    requires WfPen(p, text, pen) && WfMove(m)
    requires 0 <= t.code < NextPen(p, text, pen, m).level.range
    requires WfSetting(SettingOf(p, text, pen)) && WfCtx(CtxIn(SettingOf(p, text, pen)), |pen.level.probs|)
    requires Reads(p, text, pen, c, PutMove(SettingOf(p, text, pen), m, pen.level, t))
    ensures Fetch(p, c, PutMove(SettingOf(p, text, pen), m, pen.level, t).bytes)
            == Fetched(SymbolOf(m), WithCoder(c, CoderAtTape(NextPen(p, text, pen, m).level, t)), t.bytes)
  {
    hide Run, SettingOf, PutMove, MoveLevel, WfLevel, Raw, NumProbs, StateOf;
    var x := SettingOf(p, text, pen);
    CtxFollows(p, text, pen, c);
    MoveFound(x, m, pen.level, t);
    assert CoderOf(c, PutMove(x, m, pen.level, t).bytes) == CoderAtTape(pen.level, PutMove(x, m, pen.level, t));
  }

  lemma AdvanceRead(p: Props, text: seq<byte>, pen: Pen, c: Core, m: Move, t: Tape, lim: int, fin: bool) returns (d: Core)
    requires WfPen(p, text, pen) && Fitting(p.dicSize, text, pen.pos, pen.recent, m) && |text| <= lim
    requires 0 <= t.code < NextPen(p, text, pen, m).level.range
    requires WfSetting(SettingOf(p, text, pen)) && WfCtx(CtxIn(SettingOf(p, text, pen)), |pen.level.probs|)
    requires Reads(p, text, pen, c, PutMove(SettingOf(p, text, pen), m, pen.level, t))
    ensures Ready(p, c, lim) && WfPen(p, text, NextPen(p, text, pen, m)) && Reads(p, text, NextPen(p, text, pen, m), d, t)
    ensures Advance(p, c, PutMove(SettingOf(p, text, pen), m, pen.level, t).bytes, lim, fin) == Round.Again(d, t.bytes, SymbolOf(m))
  {
    hide Run, SettingOf, PutMove, MoveLevel, WfLevel, Raw, NumProbs, StateOf, Fetch, Apply, Extends, Fresh;
    var u := PutMove(SettingOf(p, text, pen), m, pen.level, t);
    NextPenWf(p, text, pen, m);
    FetchRead(p, text, pen, c, m, t);
    FetchKeeps(p, c, u.bytes);
    if c.hist == [] {
      assert m.Literal?;
      BadRepIsExact(p, c, u.bytes);
    }
    var f := Fetch(p, c, u.bytes).c;
    MoveApplied(p, f, m, lim);
    ApplyKeeps(p, f, SymbolOf(m), lim);
    d := Apply(p, f, SymbolOf(m), lim).c;
    StateFollows(pen.manners, MannerOf(m));
    TextFollows(p, text, pen, m, d.hist);
  }

  lemma TextFollows(p: Props, text: seq<byte>, pen: Pen, m: Move, g: seq<byte>)
    requires WfPen(p, text, pen) && Fitting(p.dicSize, text, pen.pos, pen.recent, m)
    requires if m.Literal? then g == text[..pen.pos] + [m.b] else Extends(text[..pen.pos], g, Span(m), Reach(pen.recent, m))
    ensures g == text[..pen.pos + Span(m)]
  {
    hide WfLevel;
    if !m.Literal? {
      ExtendsText(text, pen.pos, g, Span(m), Reach(pen.recent, m));
    }
  }

  /** Decoding goes through all that was written, and on with what follows. */
  lemma {:induction false} DriveRead(p: Props, text: seq<byte>, pen: Pen, c: Core, moves: seq<Move>, last: Tape, lim: int, fin: bool)
      returns (d: Core)
    requires WfPen(p, text, pen) && Cutting(p.dicSize, text, pen.pos, pen.recent, moves) && |text| <= lim
    requires 0 <= last.code < LastPen(p, text, pen, moves).level.range
    requires Reads(p, text, pen, c, Written(p, text, pen, moves, last))
    ensures Ready(p, c, lim) && Ready(p, d, lim) && Reads(p, text, LastPen(p, text, pen, moves), d, last) && d.hist == text
    ensures Drive(p, c, Written(p, text, pen, moves, last).bytes, lim, fin) == Drive(p, d, last.bytes, lim, fin)
    decreases |moves|
  {
    hide SettingOf, PutMove, WfLevel, Raw, NumProbs, StateOf, Advance, Fitting, NextPen, ValidCore;
    if moves == [] {
      d := c;
      AtTheEnd(p, text, pen, c, lim);
    } else {
      NextPenWf(p, text, pen, moves[0]);
      NextPenIs(p, text, pen, moves[0]);
      SettingFits(p, text, pen);
      var next := NextPen(p, text, pen, moves[0]);
      var t := Written(p, text, next, moves[1..], last);
      var e := AdvanceRead(p, text, pen, c, moves[0], t, lim, fin);
      d := DriveRead(p, text, next, e, moves[1..], last, lim, fin);
      DriveOn(p, c, Written(p, text, pen, moves, last).bytes, lim, fin);
    }
  }

  lemma AtTheEnd(p: Props, text: seq<byte>, pen: Pen, c: Core, lim: int)
    requires WfPen(p, text, pen) && Follows(p, text, pen, c) && ValidCore(p, c) && pen.pos == |text| <= lim
    ensures Ready(p, c, lim) && c.hist == text
  {
    hide WfLevel, ValidCore;
    assert text[..pen.pos] == text;
  }

  lemma DriveOn(p: Props, c: Core, inp: seq<byte>, lim: int, fin: bool)
    requires Ready(p, c, lim) && Advance(p, c, inp, lim, fin).Again?
    ensures var a := Advance(p, c, inp, lim, fin); Ready(p, a.c, lim) && Drive(p, c, inp, lim, fin) == Drive(p, a.c, a.rest, lim, fin)
  {
    AdvanceKeeps(p, c, inp, lim, fin);
  }

  // ---------- streams ----------

  /** Where the writer begins: a full range, even chances, all four distances one. */
  function FirstPen(p: Props): Pen
    requires WfProps(p)
  {
    Pen(Level(0xFFFF_FFFF, seq(1984 + 768 * Pow(2, p.lc + p.lp), _ => 1024)), [], [1, 1, 1, 1], 0)
  }

  lemma FirstPenWf(p: Props, text: seq<byte>)
    requires WfProps(p)
    ensures WfPen(p, text, FirstPen(p))
  {
    PowPositive(2, p.lc + p.lp);
  }

  // A zero byte, the code with its highest byte first, and the other bytes.
  function Stream(t: Tape): seq<byte>
    requires 0 <= t.code < TWO32
  {
    [0, t.code / 0x100_0000, t.code / 0x1_0000 % 256, t.code / 256 % 256, t.code % 256] + t.bytes
  }

  lemma BigEndian(c: nat)
    ensures c == c / 256 * 256 + c % 256 && c / 0x1_0000 == c / 256 / 256 && c / 0x100_0000 == c / 256 / 256 / 256
  {
  }

  lemma StreamParts(t: Tape)
    requires 0 <= t.code < TWO32
    ensures var s := Stream(t); |s| == 5 + |t.bytes| && s[0] == 0 && s[5..] == t.bytes && CodeOf(s[..5]) == t.code
  {
    BigEndian(t.code);
    BigEndian(t.code / 256);
    BigEndian(t.code / 256 / 256);
    var s := Stream(t);
    var q := s[..5];
    assert q[1] == s[1] && q[2] == s[2] && q[3] == s[3] && q[4] == s[4];
    CodeIs(q, t.code);
  }

  lemma CodeIs(q: seq<byte>, c: nat)
    requires |q| == 5 && q[4] == c % 256 && q[3] == c / 256 % 256 && q[2] == c / 256 / 256 % 256 && q[1] == c / 256 / 256 / 256
    ensures CodeOf(q) == c
  {
    BigEndian(c);
    BigEndian(c / 256);
    BigEndian(c / 256 / 256);
  }

  lemma FirstRead(p: Props, text: seq<byte>, t: Tape)
    requires WfProps(p) && 0 <= t.code < 0xFFFF_FFFF
    ensures WfPen(p, text, FirstPen(p)) && Reads(p, text, FirstPen(p), InitCore(p, [], t.code), t)
  {
    PowPositive(2, p.lc + p.lp);
    FirstPenWf(p, text);
    InitCoreReady(p, [], t.code, 0);
    var c, pen := InitCore(p, [], t.code), FirstPen(p);
    assert c.probs == pen.level.probs;
    assert [c.rep0, c.rep1, c.rep2, c.rep3] == pen.recent;
    assert c.hist == text[..0];
  }

  // Decoding a stream in one call.
  lemma CallReads(p: Props, text: seq<byte>, moves: seq<Move>, last: Tape, lim: int, fin: bool) returns (d: Core)
    requires WfProps(p) && Cutting(p.dicSize, text, 0, [1, 1, 1, 1], moves) && |text| <= lim
    requires WfPen(p, text, FirstPen(p)) && 0 <= last.code < LastPen(p, text, FirstPen(p), moves).level.range
    ensures Ready(p, d, lim) && Reads(p, text, LastPen(p, text, FirstPen(p), moves), d, last) && d.hist == text
    ensures var s := Stream(Written(p, text, FirstPen(p), moves, last));
            Call(p, Start([], []), s, lim, fin) == Settle(Drive(p, d, last.bytes, lim, fin), |s| - 5, 5)
  {
    hide Drive, Settle, CodeOf, InitCore, FirstPen, Written, LastPen, Cutting, Reads;
    PowPositive(2, p.lc + p.lp);
    FirstRange(p);
    var t := Written(p, text, FirstPen(p), moves, last);
    FirstRead(p, text, t);
    StreamParts(t);
    var s := Stream(t);
    InitCoreReady(p, [], t.code, lim);
    d := DriveRead(p, text, FirstPen(p), InitCore(p, [], t.code), moves, last, lim, fin);
    assert [] + s[..5] == s[..5] && [] + s[5..] == s[5..];
  }

  lemma FirstRange(p: Props)
    requires WfProps(p)
    ensures FirstPen(p).level.range == 0xFFFF_FFFF && FirstPen(p).pos == 0 && FirstPen(p).recent == [1, 1, 1, 1]
  {
  }

  /** The stream of a text that ends where the text does. */
  function Encoded(p: Props, text: seq<byte>, moves: seq<Move>): seq<byte>
    requires WfProps(p) && Cutting(p.dicSize, text, 0, [1, 1, 1, 1], moves)
  {
    FirstPenWf(p, text);
    Stream(Written(p, text, FirstPen(p), moves, Tape(0, [])))
  }

  /** One more move, behind all others, that need say nothing of the text. */
  function Tail(p: Props, text: seq<byte>, moves: seq<Move>, m: Move): (t: Tape)
    requires WfProps(p) && Cutting(p.dicSize, text, 0, [1, 1, 1, 1], moves) && WfPen(p, text, FirstPen(p)) && WfMove(m)
    ensures 0 <= t.code < LastPen(p, text, FirstPen(p), moves).level.range
  {
    var pen := LastPen(p, text, FirstPen(p), moves);
    SettingFits(p, text, pen);
    MoveLevelWf(SettingOf(p, text, pen), m, pen.level);
    PutMove(SettingOf(p, text, pen), m, pen.level, Tape(0, []))
  }

  // The stream of a text and such a move.
  function EncodedThen(p: Props, text: seq<byte>, moves: seq<Move>, m: Move): seq<byte>
    requires WfProps(p) && Cutting(p.dicSize, text, 0, [1, 1, 1, 1], moves) && WfMove(m)
  {
    FirstPenWf(p, text);
    Stream(Written(p, text, FirstPen(p), moves, Tail(p, text, moves, m)))
  }

  /**
   Decoding gives the text back: for all properties, every text and every cutting of it into bytes and copies, one call with
   room for the text returns it, uses all of the stream, and says that it may end here.
   */
  lemma DecodedText(p: Props, text: seq<byte>, moves: seq<Move>, fin: bool)
    requires WfProps(p) && Cutting(p.dicSize, text, 0, [1, 1, 1, 1], moves)
    ensures match Call(p, Start([], []), Encoded(p, text, moves), |text|, fin)
            case DataError(_) => false
            case Returned(d, n, st) => HistOf(d) == text && n == |Encoded(p, text, moves)| && st == MaybeFinishedWithoutMark
  {
    hide WfLevel, Written, LastPen, Call;
    FirstPenWf(p, text);
    var d := CallReads(p, text, moves, Tape(0, []), |text|, fin);
  }

  // The decoder behind the text, and the symbol of the move that follows.
  lemma TailRead(p: Props, text: seq<byte>, moves: seq<Move>, m: Move, lim: int, fin: bool) returns (c: Core)
    requires WfProps(p) && Cutting(p.dicSize, text, 0, [1, 1, 1, 1], moves) && WfMove(m) && |text| <= lim
    ensures WfPen(p, text, FirstPen(p)) && Ready(p, c, lim) && c.hist == text && c.rem == 0
    ensures var t := Tail(p, text, moves, m);
            && Call(p, Start([], []), EncodedThen(p, text, moves, m), lim, fin)
               == Settle(Drive(p, c, t.bytes, lim, fin), |EncodedThen(p, text, moves, m)| - 5, 5)
            && c.code == t.code && Fetch(p, c, t.bytes).Fetched?
            && var f := Fetch(p, c, t.bytes);
               f.sym == SymbolOf(m) && f.rest == [] && f.c.code == 0 && f.c.hist == text && f.c.rem == 0 && MidCore(p, f.c)
  {
    hide WfLevel, Written, LastPen, FirstPen, Fetch, Raw, NumProbs, StateOf, SettingOf, Cutting, PutMove, Fresh, Call, Drive, Settle;
    FirstPenWf(p, text);
    FirstRange(p);
    var pen, t := LastPen(p, text, FirstPen(p), moves), Tail(p, text, moves, m);
    c := CallReads(p, text, moves, t, lim, fin);
    SettingFits(p, text, pen);
    MoveLevelWf(SettingOf(p, text, pen), m, pen.level);
    FetchRead(p, text, pen, c, m, Tape(0, []));
    FetchKeeps(p, c, t.bytes);
  }

  /** With an end mark, which is a copy from a distance of 2^32, a call with room for more says that it has finished. */
  lemma DecodedMarkedText(p: Props, text: seq<byte>, moves: seq<Move>, length: int, lim: int, fin: bool)
    requires WfProps(p) && Cutting(p.dicSize, text, 0, [1, 1, 1, 1], moves) && 2 <= length <= 273 && |text| < lim
    ensures var s := EncodedThen(p, text, moves, Copy(0x1_0000_0000, length));
            match Call(p, Start([], []), s, lim, fin)
            case DataError(_) => false
            case Returned(d, n, st) => HistOf(d) == text && n == |s| && st == FinishedWithMark
  {
    hide WfLevel, Fetch, Raw, NumProbs, Call, EncodedThen, Tail, Cutting, Fresh;
    var m := Copy(0x1_0000_0000, length);
    var c := TailRead(p, text, moves, m, lim, fin);
    var inp := Tail(p, text, moves, m).bytes;
    if c.hist == [] {
      BadRepIsExact(p, c, inp);
    }
    FetchKeeps(p, c, inp);
    DriveOn(p, c, inp, lim, fin);
  }

  /** The move looks back behind the beginning of the text, or further than the dictionary. */
  predicate Unfounded(p: Props, text: seq<byte>, m: Move)
    requires WfMove(m)
  {
    match m
    case Literal(_) => false
    case Copy(distance, _) => distance != 0x1_0000_0000 && (distance > |text| || distance > p.dicSize)
    case _ => text == []
  }

  /** A stream that goes on with such a move is refused, whatever the limit beyond the text. */
  lemma UnfoundedRefused(p: Props, text: seq<byte>, moves: seq<Move>, m: Move, lim: int, fin: bool)
    requires WfProps(p) && Cutting(p.dicSize, text, 0, [1, 1, 1, 1], moves) && WfMove(m) && |text| < lim && Unfounded(p, text, m)
    ensures Call(p, Start([], []), EncodedThen(p, text, moves, m), lim, fin) == DataError(NotSpecified)
  {
    hide WfLevel, Fetch, Raw, NumProbs, Call, EncodedThen, Tail, Cutting, Fresh;
    var c := TailRead(p, text, moves, m, lim, fin);
    if c.hist == [] {
      BadRepIsExact(p, c, Tail(p, text, moves, m).bytes);
    }
    WindowReach(p, text);
  }

  /**
   At the end of the room, and asked to finish there, the decoder lets the text end with its code at zero; else just an end mark
   may follow.
   */
  lemma EndDemanded(p: Props, text: seq<byte>, moves: seq<Move>, m: Move)
    requires WfProps(p) && Cutting(p.dicSize, text, 0, [1, 1, 1, 1], moves) && WfMove(m)
    ensures WfPen(p, text, FirstPen(p))
    ensures match Call(p, Start([], []), EncodedThen(p, text, moves, m), |text|, true)
            case DataError(why) =>
              && Tail(p, text, moves, m).code != 0 && !(m.Copy? && m.distance == 0x1_0000_0000)
              && why == if m.Copy? then NotSpecified else NotFinished
            case Returned(d, _, st) =>
              HistOf(d) == text && if Tail(p, text, moves, m).code == 0 then st == MaybeFinishedWithoutMark
                                   else st == FinishedWithMark && m.Copy? && m.distance == 0x1_0000_0000
  {
    hide WfLevel, Fetch, Raw, NumProbs, Call, EncodedThen, Tail, Cutting, Fresh;
    var c := TailRead(p, text, moves, m, |text|, true);
    var inp := Tail(p, text, moves, m).bytes;
    if c.hist == [] {
      BadRepIsExact(p, c, inp);
    }
    FetchKeeps(p, c, inp);
    WindowReach(p, text);
    if Advance(p, c, inp, |text|, true).Again? {
      DriveOn(p, c, inp, |text|, true);
    }
  }

  /** A stream is refused at once if its first byte is not zero; if it is, nothing happens before there are five bytes. */
  lemma FirstByteZero(p: Props, src: seq<byte>, lim: int, fin: bool)
    requires WfProps(p) && 0 <= lim && src != []
    ensures src[0] != 0 ==> Call(p, Start([], []), src, lim, fin) == DataError(NotSpecified)
    ensures src[0] == 0 && |src| < 5 ==> Call(p, Start([], []), src, lim, fin) == Returned(Start([], src), |src|, NeedsMoreInput)
  {
    var k := Min(5, |src|);
    assert [] + src[..k] == src[..k] && src[..k][0] == src[0] && (|src| < 5 ==> src[..k] == src);
  }

  /** Every text has a stream: cut into single bytes, if in no other way. */
  function Bytewise(text: seq<byte>): (moves: seq<Move>)
    ensures |moves| == |text|
  {
    seq(|text|, k requires 0 <= k < |text| => Literal(text[k]))
  }

  lemma {:induction false} BytewiseCuts(dicSize: int, text: seq<byte>, pos: nat, recent: seq<int>)
    requires pos <= |text| && |recent| == 4
    ensures Cutting(dicSize, text, pos, recent, Bytewise(text)[pos..])
    decreases |text| - pos
  {
    if pos < |text| {
      var moves := Bytewise(text)[pos..];
      BytewiseCuts(dicSize, text, pos + 1, recent);
      assert moves[1..] == Bytewise(text)[pos + 1..] && moves[0] == Literal(text[pos]);
    }
  }

  /** With less room a call returns just the beginning of the text that there is room for. */
  lemma DecodedBeginning(p: Props, text: seq<byte>, moves: seq<Move>, lim: int)
    requires WfProps(p) && Cutting(p.dicSize, text, 0, [1, 1, 1, 1], moves) && 0 <= lim <= |text|
    ensures match Call(p, Start([], []), Encoded(p, text, moves), lim, false)
            case DataError(_) => false
            case Returned(d, _, _) => HistOf(d) == text[..lim]
  {
    hide WfLevel, Encoded, Call, ValidDec;
    StartValid(p);
    var d0, src := Start([], []), Encoded(p, text, moves);
    DecodedText(p, text, moves, false);
    CallLimits(p, d0, src, lim, |text|, false);
    CallShort(p, d0, src, lim, |text|, false);
    match Call(p, d0, src, lim, false)
    case DataError(_) =>
    case Returned(e, n, _) => CallGrows(p, e, src[n..], |text|, false);
  }

  lemma StartValid(p: Props)
    requires WfProps(p)
    ensures ValidDec(p, Start([], [])) && HistOf(Start([], [])) == []
  {
  }

  /** From a beginning of the stream a call returns a beginning of the text. */
  lemma DecodedPrefix(p: Props, text: seq<byte>, moves: seq<Move>, k: nat)
    requires WfProps(p) && Cutting(p.dicSize, text, 0, [1, 1, 1, 1], moves) && k <= |Encoded(p, text, moves)|
    ensures match Call(p, Start([], []), Encoded(p, text, moves)[..k], |text|, false)
            case DataError(_) => false
            case Returned(d, _, _) => HistOf(d) <= text
  {
    hide WfLevel, Encoded, Call, ValidDec;
    StartValid(p);
    var d0, src := Start([], []), Encoded(p, text, moves);
    DecodedText(p, text, moves, false);
    CallSplit(p, d0, src[..k], src[k..], |text|, false);
    assert src[..k] + src[k..] == src;
    match Call(p, d0, src[..k], |text|, false)
    case DataError(_) =>
    case Returned(e, n, _) => CallGrows(p, e, src[..k][n..] + src[k..], |text|, false);
  }

  // ---------- the limit-free replay ----------

  function SymbolsOf(moves: seq<Move>): (s: seq<Symbol>)
    ensures |s| == |moves| && forall k :: 0 <= k < |s| ==> s[k] == SymbolOf(moves[k])
  {
    seq(|moves|, k requires 0 <= k < |moves| => SymbolOf(moves[k]))
  }

  lemma {:induction false} CuttingWf(dicSize: int, text: seq<byte>, pos: nat, recent: seq<int>, moves: seq<Move>)
    requires |recent| == 4 && Cutting(dicSize, text, pos, recent, moves)
    ensures forall m :: m in moves ==> WfMove(m)
    ensures forall s :: s in SymbolsOf(moves) ==> WfSymbol(s)
    decreases |moves|
  {
    hide Reach, Fitting, SymbolOf;
    if moves != [] {
      FittingMove(dicSize, text, pos, recent, moves[0]);
      MoveSymbol(moves[0]);
      CuttingWf(dicSize, text, pos + Span(moves[0]), Recent(recent, moves[0]), moves[1..]);
      assert SymbolsOf(moves)[1..] == SymbolsOf(moves[1..]);
      assert moves == [moves[0]] + moves[1..];
      assert SymbolsOf(moves) == [SymbolOf(moves[0])] + SymbolsOf(moves)[1..];
    }
  }

  lemma MoveSymbol(m: Move)
    requires WfMove(m)
    ensures WfSymbol(SymbolOf(m))
  {
  }

  // What the symbol of a move does to a replay.
  lemma SymbolReplayed(z: Lz, m: Move)
    requires WfLz(z) && WfMove(m)
    requires m.Literal? || (1 <= Reach([z.rep0, z.rep1, z.rep2, z.rep3], m) <= |z.out| && Reach([z.rep0, z.rep1, z.rep2, z.rep3], m) < TWO32)
    ensures WfSymbol(SymbolOf(m))
    ensures var recent, y := [z.rep0, z.rep1, z.rep2, z.rep3], Replay1(z, SymbolOf(m));
            && [y.rep0, y.rep1, y.rep2, y.rep3] == Recent(recent, m)
            && y.out == if m.Literal? then z.out + [m.b] else CopyMatch(z.out, Reach(recent, m), Span(m))
  {
    hide CopyMatch;
    if m.Repeat? {
      RecentIs([z.rep0, z.rep1, z.rep2, z.rep3], m.r, m.length);
    }
  }

  lemma MoveReplayed(dicSize: int, text: seq<byte>, z: Lz, pos: nat, m: Move)
    requires WfLz(z) && dicSize < TWO32 && pos <= |text| && z.out == text[..pos]
    requires Fitting(dicSize, text, pos, [z.rep0, z.rep1, z.rep2, z.rep3], m)
    ensures WfSymbol(SymbolOf(m))
    ensures var y := Replay1(z, SymbolOf(m));
            y.out == text[..pos + Span(m)] && [y.rep0, y.rep1, y.rep2, y.rep3] == Recent([z.rep0, z.rep1, z.rep2, z.rep3], m)
  {
    hide Extends, CopyMatch, Replay1, Recent, Reach, SymbolOf;
    SymbolReplayed(z, m);
    if !m.Literal? {
      var d := Reach([z.rep0, z.rep1, z.rep2, z.rep3], m);
      CopyExtends(z.out, d, Span(m));
      ExtendsText(text, pos, CopyMatch(z.out, d, Span(m)), Span(m), d);
    }
  }

  /** The symbols of a cutting replay to just the text that was cut. */
  lemma {:induction false} TextReplayed(dicSize: int, text: seq<byte>, z: Lz, pos: nat, moves: seq<Move>)
    requires WfLz(z) && dicSize < TWO32 && pos <= |text| && z.out == text[..pos]
    requires Cutting(dicSize, text, pos, [z.rep0, z.rep1, z.rep2, z.rep3], moves)
    ensures (forall s :: s in SymbolsOf(moves) ==> WfSymbol(s)) && Replay(z, SymbolsOf(moves)).out == text
    decreases |moves|
  {
    hide Replay1, Fitting;
    var recent := [z.rep0, z.rep1, z.rep2, z.rep3];
    CuttingWf(dicSize, text, pos, recent, moves);
    if moves == [] {
      assert text[..pos] == text;
    } else {
      MoveReplayed(dicSize, text, z, pos, moves[0]);
      FittingMove(dicSize, text, pos, recent, moves[0]);
      TextReplayed(dicSize, text, Replay1(z, SymbolOf(moves[0])), pos + Span(moves[0]), moves[1..]);
      assert SymbolsOf(moves)[1..] == SymbolsOf(moves[1..]);
    }
  }

  lemma FittingMove(dicSize: int, text: seq<byte>, pos: nat, recent: seq<int>, m: Move)
    requires |recent| == 4 && Fitting(dicSize, text, pos, recent, m)
    ensures WfMove(m) && pos + Span(m) <= |text|
  {
  }
}
