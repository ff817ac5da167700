/**
 The bit macros of the decoder as methods over the probability array. Each carries, as ghost state, the point of
 the symbol grammar it has reached and the outcome the grammar promises, and leads on to the next point of the same outcome.
 */
module BitReader {
  import opened Primitives
  import opened RangeCoder
  import opened SymbolCode
  import opened SymbolRun

  /** The cached registers of the range decoder: range, code, and the position of the next input byte. */
  datatype Regs = Regs(range: int, code: int, pos: int)

  ghost function CoderAt(probs: seq<int>, input: seq<byte>, r: Regs): Coder
    requires 0 <= r.pos <= |input|
  {
    Coder(r.range, r.code, probs, input[r.pos..])
  }

  // Decoding on from pc with these registers completes with the given outcome.
  ghost predicate Going(probs: seq<int>, input: seq<byte>, r: Regs, cx: Ctx, pc: Pc, goal: Outcome) {
    && 0 <= r.pos <= |input|
    && Raw(CoderAt(probs, input, r)) && WfCtx(cx, |probs|) && WfPc(cx, pc)
    && goal.Complete? && Run(cx, pc, CoderAt(probs, input, r)) == goal
  }

  lemma GoingAsk(probs: seq<int>, input: seq<byte>, r: Regs, cx: Ctx, pc: Pc, goal: Outcome)
    requires Going(probs, input, r, cx, pc, goal) && !pc.Done?
    ensures var d := Ask(cx, pc, CoderAt(probs, input, r));
            && d.Decoded? && WfPc(cx, Step(cx, pc, d.bit)) && Raw(d.rc) && |d.rc.probs| == |probs|
            && Run(cx, Step(cx, pc, d.bit), d.rc) == goal
  {
    var rc := CoderAt(probs, input, r);
    AskKeeps(cx, pc, rc);
    var d := Ask(cx, pc, rc);
    StepWf(cx, pc, d.bit);
    StepCheaper(cx, pc, d.bit);
  }

  /** Shift in one byte when the range has become small. */
  method Renormalize(ghost probs: seq<int>, input: seq<byte>, r: Regs) returns (n: Regs)
    requires 0 <= r.pos <= |input| && Raw(CoderAt(probs, input, r)) && Normalize(CoderAt(probs, input, r)).Normal?
    ensures r.pos <= n.pos <= |input| && n.pos <= r.pos + 1
    ensures Normalize(CoderAt(probs, input, r)) == Normal(CoderAt(probs, input, n))
    ensures Canonical(CoderAt(probs, input, n))
  {
    n := r;
    NormalizeOnce(CoderAt(probs, input, r));
    if n.range < TOP {
      assert input[r.pos..][1..] == input[r.pos + 1..];
      n := Regs(n.range * 256 % TWO32, (n.code * 256 + input[n.pos]) % TWO32, n.pos + 1);
    }
  }

  /** Decode one bit with an adapting probability. */
  method GetBit(probs: array<int>, p: int, input: seq<byte>, r: Regs, ghost cx: Ctx, ghost pc: Pc, ghost goal: Outcome)
    returns (bit: bool, n: Regs)
    requires Going(probs[..], input, r, cx, pc, goal) && SlotQuery(cx, pc) == Model(p)
    modifies probs
    ensures Going(probs[..], input, n, cx, Step(cx, pc, bit), goal)
  {
    hide Run, Step, SlotQuery;
    ghost var old_probs := probs[..];
    QueryFits(cx, pc, probs.Length);
    assert !pc.Done?;
    GoingAsk(probs[..], input, r, cx, pc, goal);
    var ttt := probs[p];
    n := Renormalize(probs[..], input, r);
    var bound := (n.range / 2048) * ttt;
    if n.code < bound {
      n := Regs(bound, n.code, n.pos);
      probs[p] := ttt + (BIT_MODEL_TOTAL - ttt) / 32;
      bit := false;
    } else {
      n := Regs(n.range - bound, n.code - bound, n.pos);
      probs[p] := ttt - ttt / 32;
      bit := true;
    }
    assert probs[..] == old_probs[p := probs[p]];
  }

  /** Decode one fair bit, without a branch on it. */
  method GetDirectBit(ghost probs: seq<int>, input: seq<byte>, r: Regs, distance: int, ghost cx: Ctx, ghost pc: Pc,
      ghost goal: Outcome)
    returns (d: int, n: Regs)
    requires Going(probs, input, r, cx, pc, goal) && pc.Direct? && distance == pc.dist
    ensures 2 * distance <= d <= 2 * distance + 1 && Going(probs, input, n, cx, Step(cx, pc, d == 2 * distance + 1), goal)
  {
    hide Run, Step, Pow, And, DirectStep;
    GoingAsk(probs, input, r, cx, pc, goal);
    DirectFits(cx, pc);
    n := Renormalize(probs, input, r);
    var range := n.range / 2;
    var code := (n.code - range) % TWO32;
    var t := (0 - code / 0x8000_0000) % TWO32;
    d := (distance * 2 % TWO32 + (t + 1)) % TWO32;
    code := (code + And(range, t)) % TWO32;
    SignedAddBack(range, n.code, t);
    AndMask(range, t);
    ghost var bit := t == 0;
    n := Regs(range, code, n.pos);
    assert Ask(cx, pc, CoderAt(probs, input, r)) == Decoded(bit, CoderAt(probs, input, n));
  }

  lemma SignedAddBack(range: int, code: int, t: int)
    requires t == (0 - (code - range) % TWO32 / 0x8000_0000) % TWO32
    ensures t == 0 || t == TWO32 - 1
    ensures DirectStep(range, code) == (t == 0, ((code - range) % TWO32 + if t == 0 then 0 else range) % TWO32)
  {
  }

  lemma DirectFits(cx: Ctx, pc: Pc)
    requires WfPc(cx, pc) && pc.Direct?
    ensures 0 <= pc.dist < 0x800_0000
  {
    PowMonotone(2, 28 - pc.n, 27);
    PowTwo28();
  }

  // A mask of all zeros or all ones.
  lemma AndMask(x: nat, t: nat)
    requires x < 0x8000_0000 && (t == 0 || t == TWO32 - 1)
    ensures And(x, t) == if t == 0 then 0 else x
  {
    if t != 0 {
      AndAllBits(x);
    }
  }

  lemma AndAllBits(x: nat)
    requires x < TWO32
    ensures And(x, TWO32 - 1) == x
  {
    hide And, Pow;
    PowTwo32();
    AndAll(x, 32);
  }
}
