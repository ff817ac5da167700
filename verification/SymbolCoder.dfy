/**
 The other direction of the symbol grammar: the answers that stand for a move of the text, written down from the move's
 length and distance alone. They are the only answers that lead through the grammar.
 */
module SymbolCoder {
  import opened Primitives
  import opened SymbolCode

  /** A byte, a byte from the last distance, and runs of bytes from one of the last four distances or from a new one. */
  datatype Move =
    | Literal(b: int)
    | Again
    | Repeat(r: int, length: int)
    | Copy(distance: int, length: int)

  // Lengths and distances count bytes; a copy from a distance of 2^32 is the end mark.
  predicate WfMove(m: Move) {
    match m
    case Literal(b) => 0 <= b < 256
    case Again => true
    case Repeat(r, length) => 0 <= r < 4 && 2 <= length <= 273
    case Copy(distance, length) => 1 <= distance <= 0x1_0000_0000 && 2 <= length <= 273
  }

  function SymbolOf(m: Move): Symbol {
    match m
    case Literal(b) => Lit(b)
    case Again => ShortRep
    case Repeat(r, length) => Rep(r, length - 2)
    case Copy(distance, length) => Match(distance - 1, length - 2)
  }

  // ---------- numbers as answers ----------

  /** The n low bits of v, highest first. */
  function High(v: nat, n: nat): (s: seq<bool>)
    ensures |s| == n
  {
    if n == 0 then [] else High(v / 2, n - 1) + [v % 2 == 1]
  }

  /** The n low bits of v, lowest first. */
  function Low(v: nat, n: nat): (s: seq<bool>)
    ensures |s| == n
    decreases n
  {
    if n == 0 then [] else [v % 2 == 1] + Low(v / 2, n - 1)
  }

  // The number whose highest bit comes first.
  function HighValue(s: seq<bool>): nat {
    if s == [] then 0 else 2 * HighValue(s[..|s| - 1]) + if s[|s| - 1] then 1 else 0
  }

  function LowValue(s: seq<bool>): nat {
    if s == [] then 0 else (if s[0] then 1 else 0) + 2 * LowValue(s[1..])
  }

  // The place of the highest bit.
  function TopBit(v: nat): nat
    requires 1 <= v
  {
    if v == 1 then 0 else 1 + TopBit(v / 2)
  }

  // ---------- the answers of a move ----------

  function LengthAnswers(length: int): seq<bool>
    requires 2 <= length <= 273
  {
    if length < 10 then [false] + High(length - 2, 3)
    else if length < 18 then [true, false] + High(length - 10, 3)
    else [true, true] + High(length - 18, 8)
  }

  /** Six bits say where the highest bit of the distance is and what the next one is; the others follow. */
  function DistanceAnswers(distance: int): seq<bool>
    requires 1 <= distance <= 0x1_0000_0000
  {
    var v := distance - 1;
    if v < 4 then High(v, 6)
    else
      var n := TopBit(v) - 1;
      PowPositive(2, n);
      var rest := v % Pow(2, n);
      High(2 * n + v / Pow(2, n), 6) + TailAnswers(n, rest)
  }

  // Fewer than six bits come lowest first; of more, the high ones come highest first, and then the last four lowest first.
  function TailAnswers(n: nat, rest: nat): (t: seq<bool>)
    ensures |t| == n
  {
    if n < 6 then Low(rest, n) else High(rest / 16, n - 4) + Low(rest % 16, 4)
  }

  function Answers(m: Move): seq<bool>
    requires WfMove(m)
  {
    match m
    case Literal(b) => [false] + High(b, 8)
    case Again => [true, true, false, false]
    case Repeat(r, length) =>
      [true, true]
      + (if r == 0 then [false, true] else if r == 1 then [true, false] else if r == 2 then [true, true, false] else [true, true, true])
      + LengthAnswers(length)
    case Copy(distance, length) => [true, false] + LengthAnswers(length) + DistanceAnswers(distance)
  }

  // ---------- numbers and bits ----------

  lemma {:induction false} HighOfValue(s: seq<bool>)
    ensures HighValue(s) < Pow(2, |s|) && High(HighValue(s), |s|) == s
  {
    if s != [] {
      HighOfValue(s[..|s| - 1]);
    }
  }

  lemma {:induction false} ValueOfHigh(v: nat, n: nat)
    ensures 0 < Pow(2, n) && HighValue(High(v, n)) == v % Pow(2, n)
    decreases n
  {
    PowPositive(2, n);
    if n != 0 {
      ValueOfHigh(v / 2, n - 1);
      assert High(v, n)[..n - 1] == High(v / 2, n - 1);
      HalfMod(v, Pow(2, n - 1));
    }
  }

  lemma {:induction false} LowOfValue(s: seq<bool>)
    ensures LowValue(s) < Pow(2, |s|) && Low(LowValue(s), |s|) == s
  {
    if s != [] {
      LowOfValue(s[1..]);
    }
  }

  lemma {:induction false} ValueOfLow(v: nat, n: nat)
    ensures 0 < Pow(2, n) && LowValue(Low(v, n)) == v % Pow(2, n)
    decreases n
  {
    PowPositive(2, n);
    if n != 0 {
      ValueOfLow(v / 2, n - 1);
      assert Low(v, n)[1..] == Low(v / 2, n - 1);
      HalfMod(v, Pow(2, n - 1));
    }
  }

  lemma {:induction false} HighFront(s: seq<bool>)
    requires s != []
    ensures HighValue(s) == HighValue(s[1..]) + (if s[0] then Pow(2, |s| - 1) else 0)
    decreases |s|
  {
    if |s| > 1 {
      HighFront(s[..|s| - 1]);
      assert s[..|s| - 1][1..] == s[1..][..|s| - 2];
    }
  }

  lemma {:induction false} TopBitIs(v: nat, n: nat)
    requires 1 <= v
    ensures Pow(2, TopBit(v)) <= v < Pow(2, TopBit(v) + 1)
    ensures Pow(2, n) <= v < Pow(2, n + 1) ==> TopBit(v) == n
    decreases v
  {
    if v == 1 {
      if n != 0 {
        PowPositive(2, n - 1);
      }
    } else {
      TopBitIs(v / 2, if n == 0 then 0 else n - 1);
    }
  }

  // ---------- walking the grammar ----------

  /** From this point the answers lead to the end of the grammar, not a step too early, and to this symbol. */
  predicate Spells(cx: Ctx, pc: Pc, bits: seq<bool>, s: Symbol)
    requires WfPc(cx, pc) && 0 <= cx.matchByte
    decreases |bits|
  {
    if pc.Done? then bits == [] && pc.symbol == s
    else bits != [] && (StepWf(cx, pc, bits[0]); Spells(cx, Step(cx, pc, bits[0]), bits[1..], s))
  }

  lemma SpellsOn(cx: Ctx, pc: Pc, bits: seq<bool>, s: Symbol)
    requires WfPc(cx, pc) && 0 <= cx.matchByte && !pc.Done?
    ensures bits == [] ==> !Spells(cx, pc, bits, s)
    ensures bits != [] ==>
              && WfPc(cx, Step(cx, pc, bits[0]))
              && (Spells(cx, pc, bits, s) <==> Spells(cx, Step(cx, pc, bits[0]), bits[1..], s))
  {
    if bits != [] {
      StepWf(cx, pc, bits[0]);
    }
  }

  lemma SpellsEnd(cx: Ctx, pc: Pc, bits: seq<bool>, s: Symbol)
    requires WfPc(cx, pc) && 0 <= cx.matchByte && pc.Done?
    ensures Spells(cx, pc, bits, s) <==> bits == [] && pc.symbol == s
    ensures bits == [] ==> HighValue(bits) == 0 && LowValue(bits) == 0
  {
  }

  // Node i of a tree with so many leaves has n levels to go.
  predicate InTree(i: int, n: nat, leaves: int) {
    1 <= i && leaves <= i * Pow(2, n) && (i + 1) * Pow(2, n) <= 2 * leaves
  }

  lemma NodeSplit(i: int, h: int, leaves: int, bit: bool)
    requires 1 <= i && 1 <= h && leaves <= i * (2 * h) && (i + 1) * (2 * h) <= 2 * leaves
    ensures var j := 2 * i + B(bit);
            && j * h == i * (2 * h) + (if bit then h else 0) && leaves <= j * h && (j + 1) * h <= 2 * leaves
    ensures i < leaves
  {
    var p := i * h;
    assert i * (2 * h) == 2 * p && (i + 1) * (2 * h) == 2 * p + 2 * h;
    assert (2 * i) * h == 2 * p && (2 * i + 1) * h == 2 * p + h && (2 * i + 2) * h == 2 * p + 2 * h;
    MulMonotone(i, 1, i, h);
  }

  lemma NodeWhole(j: int, h: int, leaves: int)
    requires 1 <= j && 1 <= h && leaves <= j * h && (j + 1) * h <= 2 * leaves
    ensures h == 1 ==> leaves <= j < 2 * leaves
    ensures 2 <= h ==> j < leaves
  {
    if 2 <= h {
      MulMonotone(j + 1, 2, j + 1, h);
    }
  }

  // Its children have one level less, and are leaves if it was the last.
  lemma TreeNode(i: int, n: nat, leaves: int, bit: bool)
    requires 1 <= n && InTree(i, n, leaves)
    ensures var j := 2 * i + B(bit);
            && InTree(j, n - 1, leaves) && (n == 1 <==> leaves <= j) && i < leaves && j < 2 * leaves
            && j * Pow(2, n - 1) == i * Pow(2, n) + if bit then Pow(2, n - 1) else 0
  {
    hide Pow;
    PowPositive(2, n - 1);
    PowHalf(n);
    NodeSplit(i, Pow(2, n - 1), leaves, bit);
    NodeWhole(2 * i + B(bit), Pow(2, n - 1), leaves);
    if n == 1 {
      PowHalf(0);
    } else {
      PowHalf(n - 1);
      PowPositive(2, n - 2);
    }
  }

  lemma {:induction false} LiteralWalk(cx: Ctx, pc: Pc, bits: seq<bool>, n: nat, s: Symbol)
    requires WfPc(cx, pc) && 0 <= cx.matchByte && (pc.Plain? || pc.Matched?) && 1 <= n && InTree(pc.sym, n, 256)
    ensures Spells(cx, pc, bits, s) <==> |bits| == n && s == Lit(pc.sym * Pow(2, n) + HighValue(bits) - 256)
    decreases n
  {
    hide Pow, InTree, HighValue, Spells;
    SpellsOn(cx, pc, bits, s);
    if bits != [] {
      HighFront(bits);
      var bit := bits[0];
      TreeNode(pc.sym, n, 256, bit);
      var q := Step(cx, pc, bit);
      if n == 1 {
        PowHalf(0);
        SpellsEnd(cx, q, bits[1..], s);
      } else {
        LiteralWalk(cx, q, bits[1..], n - 1, s);
      }
    }
  }

  // The first n answers and the others, one answer on.
  lemma Onward(bits: seq<bool>, n: nat)
    requires 1 <= n <= |bits|
    ensures bits[1..][n - 1..] == bits[n..] && bits[1..][..n - 1] == bits[..n][1..] && bits[..n][0] == bits[0]
    ensures HighValue(bits[..n]) == HighValue(bits[1..][..n - 1]) + if bits[0] then Pow(2, n - 1) else 0
    ensures LowValue(bits[..n]) == 2 * LowValue(bits[1..][..n - 1]) + if bits[0] then 1 else 0
  {
    hide Pow;
    HighFront(bits[..n]);
  }

  lemma Whole(bits: seq<bool>)
    ensures bits[0..] == bits && HighValue(bits[..0]) == 0 && LowValue(bits[..0]) == 0 && Pow(2, 0) == 1
  {
  }

  // What a leaf of a length tree stands for.
  lemma LeafFits(bits: seq<bool>, n: nat, i: int, leaves: int)
    requires n <= |bits| && InTree(i, n, leaves)
    ensures leaves <= i * Pow(2, n) + HighValue(bits[..n]) < 2 * leaves
  {
    hide Pow, HighValue;
    HighOfValue(bits[..n]);
    assert (i + 1) * Pow(2, n) == i * Pow(2, n) + Pow(2, n);
  }

  lemma LengthFits(cx: Ctx, pc: Pc, leaf: int)
    requires WfPc(cx, pc) && pc.LenTree? && pc.lim <= leaf < 2 * pc.lim
    ensures WfPc(cx, AfterLen(pc.k, leaf - pc.lim + pc.add))
  {
  }

  lemma LengthStep(cx: Ctx, pc: Pc, bit: bool)
    requires WfPc(cx, pc) && pc.LenTree?
    ensures var j := 2 * pc.i + B(bit);
            Step(cx, pc, bit) == if j < pc.lim then LenTree(pc.k, pc.off, pc.lim, pc.add, j) else AfterLen(pc.k, j - pc.lim + pc.add)
  {
  }

  lemma {:induction false} LengthTree(cx: Ctx, pc: Pc, bits: seq<bool>, n: nat, s: Symbol)
    requires WfPc(cx, pc) && 0 <= cx.matchByte && pc.LenTree? && 1 <= n && InTree(pc.i, n, pc.lim)
    ensures n <= |bits| ==> WfPc(cx, AfterLen(pc.k, pc.i * Pow(2, n) + HighValue(bits[..n]) - pc.lim + pc.add))
    ensures Spells(cx, pc, bits, s) <==>
              n <= |bits| && Spells(cx, AfterLen(pc.k, pc.i * Pow(2, n) + HighValue(bits[..n]) - pc.lim + pc.add), bits[n..], s)
    decreases n
  {
    hide Pow, InTree, HighValue, LowValue, AfterLen, Spells, Step;
    SpellsOn(cx, pc, bits, s);
    if n <= |bits| {
      LeafFits(bits, n, pc.i, pc.lim);
      LengthFits(cx, pc, pc.i * Pow(2, n) + HighValue(bits[..n]));
    }
    if bits != [] {
      TreeNode(pc.i, n, pc.lim, bits[0]);
      LengthStep(cx, pc, bits[0]);
      if n <= |bits| {
        Onward(bits, n);
      }
      if n == 1 {
        Whole(bits[1..]);
      } else {
        LengthTree(cx, Step(cx, pc, bits[0]), bits[1..], n - 1, s);
      }
    }
  }

  lemma SlotStep(cx: Ctx, len: int, i: int, bit: bool)
    requires WfPc(cx, Slot(len, i))
    ensures Step(cx, Slot(len, i), bit) == if 2 * i + B(bit) < 64 then Slot(len, 2 * i + B(bit)) else AfterSlot(len, 2 * i + B(bit) - 64)
  {
  }

  lemma {:induction false} SlotTree(cx: Ctx, pc: Pc, bits: seq<bool>, n: nat, s: Symbol)
    requires WfPc(cx, pc) && 0 <= cx.matchByte && pc.Slot? && 1 <= n && InTree(pc.i, n, 64)
    ensures n <= |bits| ==>
              var slot := pc.i * Pow(2, n) + HighValue(bits[..n]) - 64; 0 <= slot < 64 && WfPc(cx, AfterSlot(pc.len, slot))
    ensures Spells(cx, pc, bits, s) <==>
              n <= |bits| && Spells(cx, AfterSlot(pc.len, pc.i * Pow(2, n) + HighValue(bits[..n]) - 64), bits[n..], s)
    decreases n
  {
    hide Pow, InTree, HighValue, LowValue, AfterSlot, Spells, Step;
    SpellsOn(cx, pc, bits, s);
    if n <= |bits| {
      LeafFits(bits, n, pc.i, 64);
      AfterSlotOk(cx, pc.len, pc.i * Pow(2, n) + HighValue(bits[..n]) - 64);
    }
    if bits != [] {
      TreeNode(pc.i, n, 64, bits[0]);
      SlotStep(cx, pc.len, pc.i, bits[0]);
      if n <= |bits| {
        Onward(bits, n);
      }
      if n == 1 {
        Whole(bits[1..]);
      } else {
        SlotTree(cx, Step(cx, pc, bits[0]), bits[1..], n - 1, s);
      }
    }
  }

  lemma SpecialStep(cx: Ctx, pc: Pc, bit: bool)
    requires WfPc(cx, pc) && pc.Special?
    ensures var i := pc.i + pc.m + if bit then pc.m else 0;
            Step(cx, pc, bit) == if 1 < pc.n then Special(pc.len, pc.base, 2 * pc.m, i, pc.n - 1) else Done(Match(pc.base + i - 2 * pc.m, pc.len))
  {
  }

  /** The low bits of a near distance come lowest first. */
  lemma {:induction false} SpecialWalk(cx: Ctx, pc: Pc, bits: seq<bool>, s: Symbol)
    requires WfPc(cx, pc) && 0 <= cx.matchByte && pc.Special?
    ensures Spells(cx, pc, bits, s) <==>
              |bits| == pc.n && s == Match(pc.base + pc.i - pc.m + pc.m * LowValue(bits), pc.len)
    decreases |bits|
  {
    hide Pow, LowValue, Spells, Step;
    SpellsOn(cx, pc, bits, s);
    if bits != [] {
      LowFront(bits);
      SpecialStep(cx, pc, bits[0]);
      LowDigit(pc.m, LowValue(bits[1..]), bits[0]);
      var q := Step(cx, pc, bits[0]);
      if pc.n == 1 {
        SpellsEnd(cx, q, bits[1..], s);
      } else {
        SpecialWalk(cx, q, bits[1..], s);
      }
    }
  }

  lemma LowFront(s: seq<bool>)
    requires s != []
    ensures LowValue(s) == 2 * LowValue(s[1..]) + if s[0] then 1 else 0
  {
  }

  lemma LowDigit(m: int, low: int, bit: bool)
    ensures m * (2 * low + if bit then 1 else 0) == (2 * m) * low + if bit then m else 0
  {
  }

  lemma {:induction false} AlignWalk(cx: Ctx, pc: Pc, bits: seq<bool>, n: nat, s: Symbol)
    requires WfPc(cx, pc) && 0 <= cx.matchByte && pc.AlignBits? && 1 <= n && pc.m * Pow(2, n) == 16
    ensures Spells(cx, pc, bits, s) <==> |bits| == n && s == Match(pc.dist + pc.i - pc.m + pc.m * LowValue(bits), pc.len)
    decreases n
  {
    hide Pow, LowValue, Spells;
    SpellsOn(cx, pc, bits, s);
    PowHalf(n);
    MulAssoc(pc.m, 2, Pow(2, n - 1));
    PowHalf(0);
    if n != 1 {
      PowHalf(n - 1);
      PowPositive(2, n - 2);
    }
    if bits != [] {
      LowFront(bits);
      var q := Step(cx, pc, bits[0]);
      if n == 1 {
        assert pc.m == 8;
        SpellsEnd(cx, q, bits[1..], s);
      } else {
        AlignShort(pc.m, Pow(2, n - 1));
        AlignWalk(cx, q, bits[1..], n - 1, s);
        LowDigit(pc.m, LowValue(bits[1..]), bits[0]);
      }
    }
  }

  lemma AlignShort(m: int, h: int)
    requires m * (2 * h) == 16 && 2 <= h && 1 <= m
    ensures m < 8
  {
    MulMonotone(m, 4, m, 2 * h);
  }

  /** The middle bits of a far distance come highest first, and four low ones lowest first behind them. */
  lemma {:induction false} DirectWalk(cx: Ctx, pc: Pc, bits: seq<bool>, s: Symbol)
    requires WfPc(cx, pc) && 0 <= cx.matchByte && pc.Direct?
    ensures Spells(cx, pc, bits, s) <==>
              |bits| == pc.n + 4
              && s == Match(16 * (pc.dist * Pow(2, pc.n) + HighValue(bits[..pc.n])) + LowValue(bits[pc.n..]), pc.len)
    decreases pc.n
  {
    hide Pow, HighValue, LowValue, Spells;
    SpellsOn(cx, pc, bits, s);
    if bits != [] {
      if pc.n <= |bits| {
        Onward(bits, pc.n);
      }
      PowHalf(pc.n);
      var q := Step(cx, pc, bits[0]);
      DirectDigit(pc.dist, B(bits[0]), Pow(2, pc.n - 1));
      if pc.n == 1 {
        Whole(bits[1..]);
        AlignSteps();
        AlignWalk(cx, q, bits[1..], 4, s);
      } else {
        DirectWalk(cx, q, bits[1..], s);
      }
    }
  }

  lemma AlignSteps()
    ensures Pow(2, 4) == 16
  {
  }

  lemma DirectDigit(d: int, b: int, h: int)
    ensures (2 * d + b) * h == d * (2 * h) + b * h
  {
  }

  // ---------- lengths ----------

  lemma RootTree()
    ensures InTree(1, 3, 8) && InTree(1, 8, 256) && InTree(1, 6, 64) && Pow(2, 3) == 8 && Pow(2, 8) == 256 && Pow(2, 6) == 64
  {
    assert Pow(2, 6) == 64 && Pow(2, 8) == 256;
  }

  /** A length is spelt by its answers, and by no others. */
  lemma LengthSpells(cx: Ctx, k: Kind, bits: seq<bool>, s: Symbol)
    requires WfKind(k) && 0 <= cx.matchByte
    ensures Spells(cx, LenChoice(k), bits, s) <==>
              if bits == [] then false
              else if !bits[0] then 4 <= |bits| && LeafSpells(cx, k, HighValue(bits[1..][..3]), bits[1..][3..], s)
              else if |bits| == 1 then false
              else if !bits[1] then 5 <= |bits| && LeafSpells(cx, k, HighValue(bits[1..][1..][..3]) + 8, bits[1..][1..][3..], s)
              else 10 <= |bits| && LeafSpells(cx, k, HighValue(bits[1..][1..][..8]) + 16, bits[1..][1..][8..], s)
  {
    hide Pow, InTree, HighValue, Spells, AfterLen;
    RootTree();
    SpellsOn(cx, LenChoice(k), bits, s);
    if bits != [] {
      if !bits[0] {
        LengthRoot(cx, LenTree(k, cx.posState, 8, 0, 1), bits[1..], 3, s);
      } else {
        SpellsOn(cx, LenChoice2(k), bits[1..], s);
        if |bits| > 1 {
          if !bits[1] {
            LengthRoot(cx, LenTree(k, cx.posState + 8, 8, 8, 1), bits[1..][1..], 3, s);
          } else {
            LengthRoot(cx, LenTree(k, LEN_HIGH, 256, 16, 1), bits[1..][1..], 8, s);
          }
        }
      }
    }
  }

  lemma LengthRoot(cx: Ctx, pc: Pc, bits: seq<bool>, n: nat, s: Symbol)
    requires WfPc(cx, pc) && 0 <= cx.matchByte && pc.LenTree? && pc.i == 1 && 1 <= n && Pow(2, n) == pc.lim
    ensures Spells(cx, pc, bits, s) <==> n <= |bits| && LeafSpells(cx, pc.k, HighValue(bits[..n]) + pc.add, bits[n..], s)
  {
    hide Pow, HighValue, Spells, AfterLen;
    LengthTree(cx, pc, bits, n, s);
    if n <= |bits| {
      HighOfValue(bits[..n]);
    }
  }

  predicate LeafSpells(cx: Ctx, k: Kind, len: int, bits: seq<bool>, s: Symbol)
    requires WfKind(k) && 0 <= cx.matchByte
  {
    0 <= len < 272 && Spells(cx, AfterLen(k, len), bits, s)
  }

  lemma LengthForward(cx: Ctx, k: Kind, length: int, rest: seq<bool>, s: Symbol)
    requires WfKind(k) && 0 <= cx.matchByte && 2 <= length <= 273
    ensures Spells(cx, LenChoice(k), LengthAnswers(length) + rest, s) <==> Spells(cx, AfterLen(k, length - 2), rest, s)
  {
    hide Pow, HighValue, Spells, AfterLen, High;
    var bits := LengthAnswers(length) + rest;
    LengthSpells(cx, k, bits, s);
    RootTree();
    if length < 10 {
      ValueOfHigh(length - 2, 3);
      assert bits[1..][..3] == High(length - 2, 3) && bits[1..][3..] == rest;
    } else if length < 18 {
      ValueOfHigh(length - 10, 3);
      assert bits[1..][1..][..3] == High(length - 10, 3) && bits[1..][1..][3..] == rest;
    } else {
      ValueOfHigh(length - 18, 8);
      assert bits[1..][1..][..8] == High(length - 18, 8) && bits[1..][1..][8..] == rest;
    }
  }

  lemma LengthBack(cx: Ctx, k: Kind, bits: seq<bool>, s: Symbol) returns (length: int)
    requires WfKind(k) && 0 <= cx.matchByte && Spells(cx, LenChoice(k), bits, s)
    ensures 2 <= length <= 273 && |LengthAnswers(length)| <= |bits|
    ensures bits == LengthAnswers(length) + bits[|LengthAnswers(length)|..]
  {
    hide Pow, HighValue, Spells, AfterLen, High;
    LengthSpells(cx, k, bits, s);
    RootTree();
    if !bits[0] {
      HighOfValue(bits[1..][..3]);
      length := HighValue(bits[1..][..3]) + 2;
      assert bits == [bits[0]] + bits[1..][..3] + bits[4..];
    } else if !bits[1] {
      HighOfValue(bits[1..][1..][..3]);
      length := HighValue(bits[1..][1..][..3]) + 10;
      assert bits == [bits[0], bits[1]] + bits[1..][1..][..3] + bits[5..];
    } else {
      HighOfValue(bits[1..][1..][..8]);
      length := HighValue(bits[1..][1..][..8]) + 18;
      assert bits == [bits[0], bits[1]] + bits[1..][1..][..8] + bits[10..];
    }
  }

  // ---------- distances ----------

  /** What answers from the first question about the distance on spell. */
  lemma SlotSpells(cx: Ctx, len: int, bits: seq<bool>, s: Symbol)
    requires 0 <= len < 272 && 0 <= cx.matchByte
    ensures Spells(cx, Slot(len, 1), bits, s) <==>
              && 6 <= |bits|
              && var slot, rest := HighValue(bits[..6]), bits[6..];
                 if slot < 4 then rest == [] && s == Match(slot, len)
                 else
                   var n := slot / 2 - 1;
                   && |rest| == n
                   && if n < 6 then s == Match((2 + slot % 2) * Pow(2, n) + LowValue(rest), len)
                      else s == Match(16 * ((2 + slot % 2) * Pow(2, n - 4) + HighValue(rest[..n - 4])) + LowValue(rest[n - 4..]), len)
  {
    hide Pow, InTree, HighValue, LowValue, Spells;
    RootTree();
    SlotTree(cx, Slot(len, 1), bits, 6, s);
    if 6 <= |bits| {
      var slot := HighValue(bits[..6]);
      var q := AfterSlot(len, slot);
      if slot < 4 {
        SpellsEnd(cx, q, bits[6..], s);
      } else if slot < 14 {
        ScaleIs(2 + slot % 2, slot / 2 - 1);
        SpecialWalk(cx, q, bits[6..], s);
      } else {
        DirectWalk(cx, q, bits[6..], s);
      }
    }
  }

  lemma ScaleIs(x: int, n: int)
    requires 1 <= n <= 5
    ensures Scale(x, n) == x * Pow(2, n)
  {
    assert Pow(2, 1) == 2 && Pow(2, 2) == 4 && Pow(2, 3) == 8 && Pow(2, 4) == 16 && Pow(2, 5) == 32;
  }

  // The two highest bits of a number and the others.
  lemma DistanceParts(v: nat)
    requires 4 <= v < 0x1_0000_0000
    ensures 1 <= TopBit(v) - 1 <= 30
    ensures var n := TopBit(v) - 1; 0 < Pow(2, n) && 2 <= v / Pow(2, n) <= 3 && v == v / Pow(2, n) * Pow(2, n) + v % Pow(2, n)
  {
    hide Pow, TopBit;
    TopBitIs(v, 0);
    PowTwo32();
    PowHalf(0);
    PowHalf(1);
    PowHalf(2);
    var t := TopBit(v);
    if t > 31 {
      PowMonotone(2, 32, t);
    }
    if t < 2 {
      PowMonotone(2, t + 1, 2);
    }
    PowHalf(t);
    PowHalf(t + 1);
    PowPositive(2, t - 1);
    QuotientBetween(v, Pow(2, t - 1));
  }

  lemma QuotientBetween(v: nat, h: nat)
    requires 0 < h && 2 * h <= v < 4 * h
    ensures 2 <= v / h <= 3 && v == v / h * h + v % h
  {
    if v < 3 * h {
      ModUnique(v, h, 2, v - 2 * h);
    } else {
      ModUnique(v, h, 3, v - 3 * h);
    }
  }

  lemma DistanceJoin(n: nat, top: nat, rest: nat)
    requires 1 <= n <= 30 && 2 <= top <= 3 && rest < Pow(2, n)
    ensures 0 < Pow(2, n)
    ensures var v := top * Pow(2, n) + rest; 4 <= v < 0x1_0000_0000 && TopBit(v) - 1 == n && v / Pow(2, n) == top && v % Pow(2, n) == rest
  {
    hide Pow, TopBit;
    PowPositive(2, n);
    PowTwo32();
    PowHalf(0);
    PowMonotone(2, 1, n);
    PowHalf(1);
    PowMonotone(2, n + 2, 32);
    PowHalf(n + 1);
    PowHalf(n + 2);
    var v := top * Pow(2, n) + rest;
    ModUnique(v, Pow(2, n), top, rest);
    TopBitIs(v, n + 1);
  }

  lemma DistanceForward(cx: Ctx, len: int, distance: int, s: Symbol)
    requires 0 <= len < 272 && 0 <= cx.matchByte && 1 <= distance <= 0x1_0000_0000
    ensures Spells(cx, Slot(len, 1), DistanceAnswers(distance), s) <==> s == Match(distance - 1, len)
  {
    hide Pow, HighValue, LowValue, Spells, High, Low, TopBit;
    var bits, v := DistanceAnswers(distance), distance - 1;
    if v < 4 {
      SlotSpells(cx, len, bits, s);
      RootTree();
      ValueOfHigh(v, 6);
      assert bits[..6] == High(v, 6) && bits[6..] == [];
    } else {
      DistanceParts(v);
      var n := TopBit(v) - 1;
      SlotForward(cx, len, n, v / Pow(2, n), v % Pow(2, n), s);
    }
  }

  lemma SlotForward(cx: Ctx, len: int, n: nat, top: nat, rest: nat, s: Symbol)
    requires 0 <= len < 272 && 0 <= cx.matchByte && 1 <= n <= 30 && 2 <= top <= 3 && rest < Pow(2, n)
    ensures Spells(cx, Slot(len, 1), High(2 * n + top, 6) + TailAnswers(n, rest), s) <==> s == Match(top * Pow(2, n) + rest, len)
  {
    hide Pow, HighValue, LowValue, Spells, High, Low, TailAnswers;
    var slot, tail := 2 * n + top, TailAnswers(n, rest);
    var bits := High(slot, 6) + tail;
    RootTree();
    ValueOfHigh(slot, 6);
    assert bits[..6] == High(slot, 6) && bits[6..] == tail;
    SlotSpells(cx, len, bits, s);
    SlotParts(n, top);
    TailValue(n, top, rest);
  }

  lemma SlotParts(n: nat, top: nat)
    requires 1 <= n <= 30 && 2 <= top <= 3
    ensures var slot := 2 * n + top; 4 <= slot < 64 && slot % 64 == slot && slot / 2 - 1 == n && 2 + slot % 2 == top
  {
  }

  lemma TailValue(n: nat, top: nat, rest: nat)
    requires 1 <= n && rest < Pow(2, n)
    ensures var tail := TailAnswers(n, rest);
            if n < 6 then LowValue(tail) == rest
            else 16 * (top * Pow(2, n - 4) + HighValue(tail[..n - 4])) + LowValue(tail[n - 4..]) == top * Pow(2, n) + rest
  {
    hide Pow, HighValue, LowValue, High, Low;
    var tail := TailAnswers(n, rest);
    if n < 6 {
      ValueOfLow(rest, n);
      ModUnique(rest, Pow(2, n), 0, rest);
    } else {
      FarParts(top, n, rest);
      ValueOfHigh(rest / 16, n - 4);
      ValueOfLow(rest % 16, 4);
      assert tail[..n - 4] == High(rest / 16, n - 4) && tail[n - 4..] == Low(rest % 16, 4);
    }
  }

  // The low bits of a far distance in two parts.
  lemma FarParts(top: nat, n: nat, rest: nat)
    requires 6 <= n && rest < Pow(2, n)
    ensures 0 < Pow(2, n - 4) && rest / 16 % Pow(2, n - 4) == rest / 16 && rest % 16 % Pow(2, 4) == rest % 16
    ensures 16 * (top * Pow(2, n - 4) + rest / 16) + rest % 16 == top * Pow(2, n) + rest
  {
    hide Pow;
    PowPositive(2, n - 4);
    PowAdd(2, 4, n - 4);
    AlignSteps();
    ModUnique(rest / 16, Pow(2, n - 4), 0, rest / 16);
    MulSwap(16, top, Pow(2, n - 4));
  }

  lemma DistanceBack(cx: Ctx, len: int, bits: seq<bool>, s: Symbol) returns (distance: int)
    requires 0 <= len < 272 && 0 <= cx.matchByte && Spells(cx, Slot(len, 1), bits, s)
    ensures 1 <= distance <= 0x1_0000_0000 && bits == DistanceAnswers(distance) && s == Match(distance - 1, len)
  {
    hide Pow, HighValue, LowValue, Spells, High, Low, TopBit;
    SlotSpells(cx, len, bits, s);
    RootTree();
    var slot, rest := HighValue(bits[..6]), bits[6..];
    HighOfValue(bits[..6]);
    assert bits == bits[..6] + rest;
    if slot < 4 {
      distance := slot + 1;
    } else {
      var n, top := slot / 2 - 1, 2 + slot % 2;
      if n < 6 {
        LowOfValue(rest);
        DistanceJoin(n, top, LowValue(rest));
        distance := top * Pow(2, n) + LowValue(rest) + 1;
      } else {
        HighOfValue(rest[..n - 4]);
        LowOfValue(rest[n - 4..]);
        assert rest == rest[..n - 4] + rest[n - 4..];
        FarJoin(n, top, HighValue(rest[..n - 4]), LowValue(rest[n - 4..]));
        distance := top * Pow(2, n) + 16 * HighValue(rest[..n - 4]) + LowValue(rest[n - 4..]) + 1;
      }
    }
  }

  lemma FarJoin(n: nat, top: nat, high: nat, low: nat)
    requires 6 <= n <= 30 && 2 <= top <= 3 && high < Pow(2, n - 4) && low < Pow(2, 4)
    ensures 0 < Pow(2, n)
    ensures var v := top * Pow(2, n) + 16 * high + low;
            && 4 <= v < 0x1_0000_0000 && TopBit(v) - 1 == n && v / Pow(2, n) == top && v % Pow(2, n) == 16 * high + low
            && (16 * high + low) / 16 == high && (16 * high + low) % 16 == low
            && v == 16 * (top * Pow(2, n - 4) + high) + low
  {
    hide Pow, TopBit;
    PowAdd(2, 4, n - 4);
    AlignSteps();
    DistanceJoin(n, top, 16 * high + low);
    MulSwap(16, top, Pow(2, n - 4));
  }

  // ---------- moves ----------

  /** For every context, the answers of a move lead through the grammar to its symbol, not a step too early. */
  lemma MoveSpells(cx: Ctx, m: Move)
    requires WfMove(m) && 0 <= cx.matchByte
    ensures Spells(cx, IsMatch, Answers(m), SymbolOf(m))
  {
    hide Pow, HighValue, High, LengthAnswers, DistanceAnswers, InTree, Spells;
    RootTree();
    var bits, s := Answers(m), SymbolOf(m);
    HeadSpells(cx, bits, s);
    match m
    case Literal(b) =>
      ValueOfHigh(b, 8);
      assert bits[1..] == High(b, 8);
    case Again =>
    case Repeat(r, length) =>
      var head := RepeatHead(r);
      assert bits == head + LengthAnswers(length) && bits[|head|..] == LengthAnswers(length) == LengthAnswers(length) + [];
      LengthForward(cx, AsRep(r), length, [], s);
      SpellsEnd(cx, AfterLen(AsRep(r), length - 2), [], s);
    case Copy(distance, length) =>
      assert bits[2..] == LengthAnswers(length) + DistanceAnswers(distance);
      LengthForward(cx, AsMatch, length, DistanceAnswers(distance), s);
      DistanceForward(cx, length - 2, distance, s);
  }

  function RepeatHead(r: int): seq<bool> {
    [true, true] + if r == 0 then [false, true] else if r == 1 then [true, false] else if r == 2 then [true, true, false] else [true, true, true]
  }

  // What the first answers choose.
  lemma HeadSpells(cx: Ctx, bits: seq<bool>, s: Symbol)
    requires 0 <= cx.matchByte
    ensures |bits| < 2 ==> !Spells(cx, IsMatch, bits, s)
    ensures 2 <= |bits| && !bits[0] ==> (Spells(cx, IsMatch, bits, s) <==> |bits| == 9 && s == Lit(HighValue(bits[1..])))
    ensures 2 <= |bits| && bits[0] && !bits[1] ==> (Spells(cx, IsMatch, bits, s) <==> Spells(cx, LenChoice(AsMatch), bits[2..], s))
    ensures 2 <= |bits| && bits[0] && bits[1] ==> (Spells(cx, IsMatch, bits, s) <==> Spells(cx, IsRepG0, bits[2..], s))
    ensures 2 <= |bits| && bits[0] && bits[1] ==>
              (Spells(cx, IsMatch, bits, s) <==>
                 if |bits| < 4 then false
                 else if !bits[2] && !bits[3] then |bits| == 4 && s == ShortRep
                 else if !bits[2] then Spells(cx, LenChoice(AsRep(0)), bits[4..], s)
                 else if !bits[3] then Spells(cx, LenChoice(AsRep(1)), bits[4..], s)
                 else if |bits| < 5 then false
                 else Spells(cx, LenChoice(AsRep(if bits[4] then 3 else 2)), bits[5..], s))
  {
    hide Pow, InTree, HighValue, Spells;
    RootTree();
    SpellsOn(cx, IsMatch, bits, s);
    if bits != [] {
      if !bits[0] {
        LiteralWalk(cx, Step(cx, IsMatch, false), bits[1..], 8, s);
      } else {
        SpellsOn(cx, IsRep, bits[1..], s);
        if |bits| >= 2 {
          assert bits[1..][1..] == bits[2..];
          if bits[1] {
            RepSpells(cx, bits[2..], s);
          }
        }
      }
    }
  }

  lemma RepSpells(cx: Ctx, bits: seq<bool>, s: Symbol)
    requires 0 <= cx.matchByte
    ensures Spells(cx, IsRepG0, bits, s) <==>
              if |bits| < 2 then false
              else if !bits[0] && !bits[1] then |bits| == 2 && s == ShortRep
              else if !bits[0] then Spells(cx, LenChoice(AsRep(0)), bits[2..], s)
              else if !bits[1] then Spells(cx, LenChoice(AsRep(1)), bits[2..], s)
              else if |bits| < 3 then false
              else Spells(cx, LenChoice(AsRep(if bits[2] then 3 else 2)), bits[3..], s)
  {
    hide Spells;
    SpellsOn(cx, IsRepG0, bits, s);
    if bits != [] {
      var q := Step(cx, IsRepG0, bits[0]);
      SpellsOn(cx, q, bits[1..], s);
      if |bits| >= 2 {
        assert bits[1..][1..] == bits[2..];
        var u := Step(cx, q, bits[1]);
        if u.Done? {
          SpellsEnd(cx, u, bits[2..], s);
        } else if u.IsRepG2? {
          SpellsOn(cx, u, bits[2..], s);
          if |bits| >= 3 {
            assert bits[2..][1..] == bits[3..];
          }
        }
      }
    }
  }

  /** Whatever leads through the grammar is the answers of a move, and leads to its symbol. */
  lemma SpelledMove(cx: Ctx, bits: seq<bool>, s: Symbol) returns (m: Move)
    requires 0 <= cx.matchByte && Spells(cx, IsMatch, bits, s)
    ensures WfMove(m) && bits == Answers(m) && s == SymbolOf(m)
  {
    hide Pow, HighValue, High, LengthAnswers, DistanceAnswers, InTree, Spells;
    RootTree();
    HeadSpells(cx, bits, s);
    if !bits[0] {
      HighOfValue(bits[1..]);
      m := Literal(HighValue(bits[1..]));
      assert bits == [bits[0]] + bits[1..];
    } else if !bits[1] {
      m := SpelledCopy(cx, bits[2..], s);
      assert bits == [true, false] + bits[2..];
    } else if !bits[2] && !bits[3] {
      m := Again;
      assert bits == [true, true, false, false];
    } else {
      var r := if !bits[2] then 0 else if !bits[3] then 1 else if bits[4] then 3 else 2;
      var n := |RepeatHead(r)|;
      assert bits == RepeatHead(r) + bits[n..];
      m := SpelledRepeat(cx, r, bits[n..], s);
    }
  }

  lemma SpelledCopy(cx: Ctx, bits: seq<bool>, s: Symbol) returns (m: Move)
    requires 0 <= cx.matchByte && Spells(cx, LenChoice(AsMatch), bits, s)
    ensures WfMove(m) && [true, false] + bits == Answers(m) && s == SymbolOf(m)
  {
    hide Pow, LengthAnswers, DistanceAnswers, Spells;
    var length := LengthBack(cx, AsMatch, bits, s);
    var rest := bits[|LengthAnswers(length)|..];
    LengthForward(cx, AsMatch, length, rest, s);
    var distance := DistanceBack(cx, length - 2, rest, s);
    m := Copy(distance, length);
    assert [true, false] + (LengthAnswers(length) + rest) == [true, false] + LengthAnswers(length) + rest;
  }

  lemma SpelledRepeat(cx: Ctx, r: int, bits: seq<bool>, s: Symbol) returns (m: Move)
    requires 0 <= cx.matchByte && 0 <= r < 4 && Spells(cx, LenChoice(AsRep(r)), bits, s)
    ensures WfMove(m) && RepeatHead(r) + bits == Answers(m) && s == SymbolOf(m)
  {
    hide Pow, LengthAnswers, Spells;
    var length := LengthBack(cx, AsRep(r), bits, s);
    var rest := bits[|LengthAnswers(length)|..];
    LengthForward(cx, AsRep(r), length, rest, s);
    SpellsEnd(cx, AfterLen(AsRep(r), length - 2), rest, s);
    m := Repeat(r, length);
    assert LengthAnswers(length) + [] == LengthAnswers(length);
  }

  /** The grammar and the coder agree on every context: answers spell a symbol exactly when they are those of its move. */
  lemma GrammarIsCoder(cx: Ctx, bits: seq<bool>, s: Symbol)
    requires 0 <= cx.matchByte
    ensures Spells(cx, IsMatch, bits, s) <==> exists m :: WfMove(m) && bits == Answers(m) && s == SymbolOf(m)
  {
    hide Spells, Answers;
    if Spells(cx, IsMatch, bits, s) {
      var m := SpelledMove(cx, bits, s);
    }
    forall m | WfMove(m) && bits == Answers(m) && s == SymbolOf(m)
      ensures Spells(cx, IsMatch, bits, s)
    {
      MoveSpells(cx, m);
    }
  }
}
