/**
 Bytes for given answers: since the decoder halves a range, the code before an answer can be worked out from the code after it,
 and the bytes of a stream from its end to its beginning.
 */
module RangeEncoder {
  import opened Primitives
  import opened RangeCoder
  import opened SymbolCode
  import opened SymbolRun
  import opened SymbolCoder
  import opened SymbolQuestions

  /** What decoder and encoder both know before an answer. */
  datatype Level = Level(range: int, probs: seq<int>)

  /** The code before an answer, less than the range, and the bytes that are still to be read. */
  datatype Tape = Tape(code: int, bytes: seq<byte>)

  predicate WfLevel(l: Level) {
    0x1_0000 <= l.range < TWO32 && forall i :: 0 <= i < |l.probs| ==> 31 <= l.probs[i] <= 2017
  }

  function Refilled(range: int): int {
    if range < 0x100_0000 then range * 256 else range
  }

  // The part of the range that stands for a zero.
  function ZeroPart(l: Level, q: Query): int
    requires q.Model? ==> 0 <= q.i < |l.probs|
  {
    if q.Model? then Refilled(l.range) / 2048 * l.probs[q.i] else Refilled(l.range) / 2
  }

  function After(l: Level, q: Query, bit: bool): (r: Level)
    requires q.Model? ==> 0 <= q.i < |l.probs|
    ensures |r.probs| == |l.probs|
  {
    match q
    case Model(i) =>
      var p := l.probs[i];
      if bit then Level(Refilled(l.range) - ZeroPart(l, q), l.probs[i := p - p / 32])
      else Level(ZeroPart(l, q), l.probs[i := p + (2048 - p) / 32])
    case _ => Level(ZeroPart(l, q), l.probs)
  }

  // A byte is written where the decoder reads one.
  function Shifted(range: int, t: Tape): Tape
    requires 0 <= t.code
  {
    if range < 0x100_0000 then Tape(t.code / 256, [t.code % 256] + t.bytes) else t
  }

  function Put(l: Level, q: Query, bit: bool, t: Tape): Tape
    requires 0 <= t.code && (q.Model? ==> 0 <= q.i < |l.probs|) && 0 <= ZeroPart(l, q)
  {
    Shifted(l.range, t.(code := t.code + if bit then ZeroPart(l, q) else 0))
  }

  predicate Answerable(l: Level, qs: seq<Query>) {
    forall k :: 0 <= k < |qs| ==> !qs[k].Nothing? && (qs[k].Model? ==> 0 <= qs[k].i < |l.probs|)
  }

  function LevelAfter(l: Level, qs: seq<Query>, bits: seq<bool>): (r: Level)
    requires |qs| == |bits| && Answerable(l, qs)
    ensures |r.probs| == |l.probs|
    decreases |qs|
  {
    if qs == [] then l else LevelAfter(After(l, qs[0], bits[0]), qs[1..], bits[1..])
  }

  lemma AfterWf(l: Level, q: Query, bit: bool)
    requires WfLevel(l) && !q.Nothing? && (q.Model? ==> 0 <= q.i < |l.probs|)
    ensures WfLevel(After(l, q, bit)) && 0 < ZeroPart(l, q)
    ensures After(l, q, bit).range + (if bit then ZeroPart(l, q) else 0) <= Refilled(l.range) < TWO32
  {
    if q.Model? {
      BoundBounds(Refilled(l.range), l.probs[q.i]);
      ProbBandClosed(l.probs[q.i]);
    }
  }

  /** All answers, in front of what is to follow. */
  function PutAll(l: Level, qs: seq<Query>, bits: seq<bool>, t: Tape): (r: Tape)
    requires |qs| == |bits| && Answerable(l, qs) && WfLevel(l) && 0 <= t.code < LevelAfter(l, qs, bits).range
    ensures 0 <= r.code < l.range
    decreases |qs|
  {
    if qs == [] then t
    else
      AfterWf(l, qs[0], bits[0]);
      Put(l, qs[0], bits[0], PutAll(After(l, qs[0], bits[0]), qs[1..], bits[1..], t))
  }

  function CoderAtTape(l: Level, t: Tape): Coder {
    Coder(l.range, t.code, l.probs, t.bytes)
  }

  /** The decoder finds the answer that was put, and goes on with the rest. */
  lemma PutFound(cx: Ctx, pc: Pc, l: Level, bit: bool, t: Tape)
    requires WfCtx(cx, |l.probs|) && WfPc(cx, pc) && !pc.Done? && WfLevel(l)
    requires var q := SlotQuery(cx, pc); (q.Model? ==> 0 <= q.i < |l.probs|) && 0 <= t.code < After(l, q, bit).range
    ensures var q := SlotQuery(cx, pc);
            && 0 <= ZeroPart(l, q)
            && Ask(cx, pc, CoderAtTape(l, Put(l, q, bit, t))) == Decoded(bit, CoderAtTape(After(l, q, bit), t))
  {
    hide WfPc, SlotQuery, Put, After, ZeroPart;
    QueryFits(cx, pc, |l.probs|);
    if SlotQuery(cx, pc).Fair? {
      FairFound(l, bit, t);
    } else {
      ModelFound(l, SlotQuery(cx, pc).i, bit, t);
    }
  }

  lemma FairFound(l: Level, bit: bool, t: Tape)
    requires WfLevel(l) && 0 <= t.code < After(l, Fair, bit).range
    ensures 0 <= ZeroPart(l, Fair) && DirectBit(CoderAtTape(l, Put(l, Fair, bit, t))) == Decoded(bit, CoderAtTape(After(l, Fair, bit), t))
  {
    hide Shifted;
    AfterWf(l, Fair, bit);
    var x := t.code + if bit then ZeroPart(l, Fair) else 0;
    ShiftUndone(l, t.(code := x));
    DirectStepIsCompare(Refilled(l.range) / 2, x);
  }

  lemma ModelFound(l: Level, i: int, bit: bool, t: Tape)
    requires WfLevel(l) && 0 <= i < |l.probs| && 0 <= t.code < After(l, Model(i), bit).range
    ensures 0 <= ZeroPart(l, Model(i))
    ensures ModelBit(CoderAtTape(l, Put(l, Model(i), bit, t)), i) == Decoded(bit, CoderAtTape(After(l, Model(i), bit), t))
  {
    hide Shifted;
    AfterWf(l, Model(i), bit);
    ShiftUndone(l, t.(code := t.code + if bit then ZeroPart(l, Model(i)) else 0));
  }

  lemma ShiftUndone(l: Level, t: Tape)
    requires WfLevel(l) && 0 <= t.code < Refilled(l.range) < TWO32
    ensures Normalize(CoderAtTape(l, Shifted(l.range, t))) == Normal(Coder(Refilled(l.range), t.code, l.probs, t.bytes))
  {
    if l.range < TOP {
      var s := Shifted(l.range, t);
      assert s.code * 256 + s.bytes[0] == t.code && s.bytes[1..] == t.bytes;
      assert 0 <= t.code < TWO32;
    }
  }

  lemma ByteFits(cx: Ctx, numProbs: int)
    requires WfCtx(cx, numProbs)
    ensures 0 <= cx.matchByte
  {
  }

  lemma RunEnd(cx: Ctx, pc: Pc, rc: Coder)
    requires WfCtx(cx, |rc.probs|) && WfPc(cx, pc) && pc.Done?
    ensures Run(cx, pc, rc) == Complete(pc.symbol, rc)
  {
  }

  lemma RunOn(cx: Ctx, pc: Pc, rc: Coder)
    requires WfCtx(cx, |rc.probs|) && WfPc(cx, pc) && !pc.Done? && Ask(cx, pc, rc).Decoded?
    ensures var d := Ask(cx, pc, rc); WfPc(cx, Step(cx, pc, d.bit)) && Run(cx, pc, rc) == Run(cx, Step(cx, pc, d.bit), d.rc)
  {
    StepWf(cx, pc, Ask(cx, pc, rc).bit);
    StepCheaper(cx, pc, Ask(cx, pc, rc).bit);
  }

  /** Decoding finds all the answers that were put, and what follows. */
  lemma {:induction false} PutAllFound(cx: Ctx, pc: Pc, l: Level, qs: seq<Query>, bits: seq<bool>, t: Tape, s: Symbol)
    requires WfCtx(cx, |l.probs|) && WfPc(cx, pc) && WfLevel(l) && |qs| == |bits| && Answerable(l, qs)
    requires 0 <= t.code < LevelAfter(l, qs, bits).range && Asks(cx, pc, bits, qs) && Spells(cx, pc, bits, s)
    ensures Run(cx, pc, CoderAtTape(l, PutAll(l, qs, bits, t))) == Complete(s, CoderAtTape(LevelAfter(l, qs, bits), t))
    decreases |qs|
  {
    hide SlotQuery, Asks, Step, Put, After, WfLevel, WfCtx, Run, Ask, Spells;
    ByteFits(cx, |l.probs|);
    if pc.Done? {
      SpellsEnd(cx, pc, bits, s);
      RunEnd(cx, pc, CoderAtTape(l, t));
    } else {
      SpellsOn(cx, pc, bits, s);
      AsksOn(cx, pc, bits, qs);
      AfterWf(l, qs[0], bits[0]);
      var l1 := After(l, qs[0], bits[0]);
      var t1 := PutAll(l1, qs[1..], bits[1..], t);
      PutFound(cx, pc, l, bits[0], t1);
      RunOn(cx, pc, CoderAtTape(l, PutAll(l, qs, bits, t)));
      PutAllFound(cx, Step(cx, pc, bits[0]), l1, qs[1..], bits[1..], t, s);
    }
  }

  // ---------- one move ----------

  lemma QuestionsFit(x: Setting, m: Move, numProbs: int)
    requires WfSetting(x) && WfMove(m) && WfCtx(CtxIn(x), numProbs)
    ensures |Questions(x, m)| == |Answers(m)|
    ensures forall k :: 0 <= k < |Questions(x, m)| ==>
                          !Questions(x, m)[k].Nothing? && (Questions(x, m)[k].Model? ==> 0 <= Questions(x, m)[k].i < numProbs)
  {
    hide Questions, Answers, At, SlotQuery, Asks;
    var cx, qs, bits := CtxIn(x), Questions(x, m), Answers(m);
    MoveAsks(x, m);
    MoveSpells(cx, m);
    AsksLength(cx, IsMatch, bits, qs);
    forall k | 0 <= k < |qs|
      ensures !qs[k].Nothing? && (qs[k].Model? ==> 0 <= qs[k].i < numProbs)
    {
      AskAt(cx, IsMatch, bits, qs, k);
      NotYetDone(cx, IsMatch, bits, SymbolOf(m), k);
      QueryFits(cx, At(cx, IsMatch, bits[..k]), numProbs);
    }
  }

  lemma {:induction false} NotYetDone(cx: Ctx, pc: Pc, bits: seq<bool>, s: Symbol, k: nat)
    requires WfPc(cx, pc) && 0 <= cx.matchByte && Spells(cx, pc, bits, s) && k < |bits|
    ensures !At(cx, pc, bits[..k]).Done?
    decreases k
  {
    hide Step;
    if k != 0 {
      StepWf(cx, pc, bits[0]);
      NotYetDone(cx, Step(cx, pc, bits[0]), bits[1..], s, k - 1);
      assert [bits[0]] + bits[1..][..k - 1] == bits[..k];
      AtJoin(cx, pc, [bits[0]], bits[1..][..k - 1]);
      AtOne(cx, pc, bits[0]);
    }
  }

  /** The level between symbols, with the range refilled. */
  function MoveLevel(x: Setting, m: Move, l: Level): (r: Level)
    requires WfSetting(x) && WfMove(m) && WfCtx(CtxIn(x), |l.probs|)
    ensures |r.probs| == |l.probs|
  {
    QuestionsFit(x, m, |l.probs|);
    var r := LevelAfter(l, Questions(x, m), Answers(m));
    r.(range := Refilled(r.range))
  }

  lemma {:induction false} LevelAfterWf(l: Level, qs: seq<Query>, bits: seq<bool>)
    requires |qs| == |bits| && Answerable(l, qs) && WfLevel(l)
    ensures WfLevel(LevelAfter(l, qs, bits))
    decreases |qs|
  {
    hide WfLevel, After;
    if qs != [] {
      AfterWf(l, qs[0], bits[0]);
      LevelAfterWf(After(l, qs[0], bits[0]), qs[1..], bits[1..]);
    }
  }

  lemma MoveLevelWf(x: Setting, m: Move, l: Level)
    requires WfSetting(x) && WfMove(m) && WfCtx(CtxIn(x), |l.probs|) && WfLevel(l)
    ensures WfLevel(MoveLevel(x, m, l)) && 0x100_0000 <= MoveLevel(x, m, l).range
  {
    hide Questions, Answers, WfCtx, LevelAfter;
    QuestionsFit(x, m, |l.probs|);
    LevelAfterWf(l, Questions(x, m), Answers(m));
  }

  /** The bytes of a move in front of those that follow. */
  function PutMove(x: Setting, m: Move, l: Level, t: Tape): (r: Tape)
    requires WfSetting(x) && WfMove(m) && WfCtx(CtxIn(x), |l.probs|) && WfLevel(l) && 0 <= t.code < MoveLevel(x, m, l).range
    ensures 0 <= r.code < l.range
  {
    QuestionsFit(x, m, |l.probs|);
    PutAll(l, Questions(x, m), Answers(m), Shifted(LevelAfter(l, Questions(x, m), Answers(m)).range, t))
  }

  /**
   From every table of probabilities, every setting and every move: the decoder reads the move's symbol from these bytes, and
   after it has refilled its range it is where the encoder says.
   */
  lemma MoveFound(x: Setting, m: Move, l: Level, t: Tape)
    requires WfSetting(x) && WfMove(m) && WfCtx(CtxIn(x), |l.probs|) && WfLevel(l) && 0 <= t.code < MoveLevel(x, m, l).range
    ensures var r := Run(CtxIn(x), IsMatch, CoderAtTape(l, PutMove(x, m, l, t)));
            && r.Complete? && r.sym == SymbolOf(m) && Normalize(r.rc) == Normal(CoderAtTape(MoveLevel(x, m, l), t))
  {
    hide Questions, Answers, Asks, Spells, WfCtx, LevelAfter, PutAll;
    var cx, qs, bits := CtxIn(x), Questions(x, m), Answers(m);
    MoveAsks(x, m);
    MoveSpells(cx, m);
    QuestionsFit(x, m, |l.probs|);
    LevelAfterWf(l, qs, bits);
    var r := LevelAfter(l, qs, bits);
    PutAllFound(cx, IsMatch, l, qs, bits, Shifted(r.range, t), SymbolOf(m));
    ShiftUndone(r, t);
  }
}
