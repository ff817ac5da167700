/**
 Which probability each answer of a move belongs to, by the place of the answer in the move and by the setting of the move:
 written down without the grammar, and shown to be what the grammar asks.
 */
module SymbolQuestions {
  import opened Primitives
  import opened RangeCoder
  import opened SymbolCode
  import opened SymbolCoder

  /** The state of the last moves, the position, the literal table, and the byte that a literal after a copy is likely to be. */
  datatype Setting = Setting(state: int, position: int, table: int, expected: int)

  predicate WfSetting(x: Setting) {
    0 <= x.state < 12 && 0 <= x.position < 16 && 0 <= x.table && 0 <= x.expected < 256
  }

  function CtxIn(x: Setting): Ctx {
    Ctx(x.state, 16 * x.position, 1984 + 768 * x.table, x.expected)
  }

  // ---------- the questions of a move ----------

  /** A tree that branches on the answers given so far, highest bit first. */
  function Tree(base: int, bits: seq<bool>): seq<Query> {
    seq(|bits|, k requires 0 <= k < |bits| => Model(base + Pow(2, k) + HighValue(bits[..k])))
  }

  // Likewise, lowest bit first.
  function LowTree(base: int, bits: seq<bool>): seq<Query> {
    seq(|bits|, k requires 0 <= k < |bits| => Model(base + Pow(2, k) + LowValue(bits[..k])))
  }

  /** As long as the answers are those of the expected byte, its next bit chooses between two trees; then a third one is used. */
  function ExpectedTree(base: int, bits: seq<bool>, expected: seq<bool>): seq<Query>
    requires |bits| == |expected|
  {
    seq(|bits|, k requires 0 <= k < |bits| =>
      Model(base + (if bits[..k] != expected[..k] then 0 else if expected[k] then 512 else 256) + Pow(2, k) + HighValue(bits[..k])))
  }

  function LengthQuestions(base: int, position: int, length: int): seq<Query>
    requires 2 <= length <= 273
  {
    if length < 10 then [Model(base)] + Tree(base + 16 * position, High(length - 2, 3))
    else if length < 18 then [Model(base), Model(base + 8)] + Tree(base + 16 * position + 8, High(length - 10, 3))
    else [Model(base), Model(base + 8)] + Tree(base + 256, High(length - 18, 8))
  }

  /** Short copies have a tree each for the first six answers; near distances have trees of their own, far ones share one for the last four. */
  function DistanceQuestions(length: int, distance: int): seq<Query>
    requires 2 <= length <= 273 && 1 <= distance <= 0x1_0000_0000
  {
    var v, first := distance - 1, 1728 + 64 * (if length < 5 then length - 2 else 3);
    if v < 4 then Tree(first, High(v, 6))
    else
      var n := TopBit(v) - 1;
      PowPositive(2, n);
      var top, rest := v / Pow(2, n), v % Pow(2, n);
      Tree(first, High(2 * n + top, 6)) + TailQuestions(n, top, rest)
  }

  function TailQuestions(n: nat, top: nat, rest: nat): seq<Query> {
    if n < 6 then LowTree(top * Pow(2, n), Low(rest, n)) else seq(n - 4, _ => Fair) + LowTree(1664, Low(rest % 16, 4))
  }

  function RepeatQuestions(x: Setting, r: int): seq<Query> {
    if r == 0 then [Model(1692 + x.state), Model(128 + 16 * x.position + x.state)]
    else [Model(1692 + x.state), Model(1704 + x.state)] + if r == 1 then [] else [Model(1716 + x.state)]
  }

  function Questions(x: Setting, m: Move): seq<Query>
    requires WfMove(m) && WfSetting(x)
  {
    [Model(1408 + 16 * x.position + x.state)]
    + match m
      case Literal(b) =>
        var base := 1984 + 768 * x.table;
        if x.state < 7 then Tree(base, High(b, 8)) else ExpectedTree(base, High(b, 8), High(x.expected, 8))
      case Again => [Model(1680 + x.state)] + RepeatQuestions(x, 0)
      case Repeat(r, length) => [Model(1680 + x.state)] + RepeatQuestions(x, r) + LengthQuestions(384, x.position, length)
      case Copy(distance, length) =>
        [Model(1680 + x.state)] + LengthQuestions(896, x.position, length) + DistanceQuestions(length, distance)
  }

  // ---------- what the grammar asks ----------

  // The point after these answers.
  function At(cx: Ctx, pc: Pc, bits: seq<bool>): (q: Pc)
    requires WfPc(cx, pc) && 0 <= cx.matchByte
    ensures WfPc(cx, q)
  {
    if bits == [] then pc
    else
      var was := At(cx, pc, bits[..|bits| - 1]);
      StepWf(cx, was, bits[|bits| - 1]);
      Step(cx, was, bits[|bits| - 1])
  }

  lemma AtNext(cx: Ctx, pc: Pc, bits: seq<bool>, k: nat)
    requires WfPc(cx, pc) && 0 <= cx.matchByte && k < |bits|
    ensures At(cx, pc, bits[..k + 1]) == Step(cx, At(cx, pc, bits[..k]), bits[k])
    ensures HighValue(bits[..k + 1]) == 2 * HighValue(bits[..k]) + B(bits[k])
    ensures LowValue(bits[..k + 1]) == LowValue(bits[..k]) + if bits[k] then Pow(2, k) else 0
    ensures Pow(2, k + 1) == 2 * Pow(2, k)
  {
    hide Pow;
    PowHalf(k + 1);
    assert bits[..k + 1][..k] == bits[..k];
    LowBack(bits[..k + 1]);
  }

  lemma {:induction false} LowBack(s: seq<bool>)
    requires s != []
    ensures LowValue(s) == LowValue(s[..|s| - 1]) + if s[|s| - 1] then Pow(2, |s| - 1) else 0
    decreases |s|
  {
    if |s| > 1 {
      LowBack(s[1..]);
      assert s[1..][..|s| - 2] == s[..|s| - 1][1..];
    }
  }

  lemma {:induction false} AtJoin(cx: Ctx, pc: Pc, a: seq<bool>, b: seq<bool>)
    requires WfPc(cx, pc) && 0 <= cx.matchByte
    ensures At(cx, pc, a + b) == At(cx, At(cx, pc, a), b)
    decreases |b|
  {
    hide Step;
    if b == [] {
      assert a + b == a;
    } else {
      AtJoin(cx, pc, a, b[..|b| - 1]);
      assert (a + b)[..|a + b| - 1] == a + b[..|b| - 1];
    }
  }

  /** Along these answers the grammar asks these questions. */
  predicate Asks(cx: Ctx, pc: Pc, bits: seq<bool>, qs: seq<Query>)
    requires WfPc(cx, pc) && 0 <= cx.matchByte
  {
    |qs| == |bits| && forall k :: 0 <= k < |qs| ==> SlotQuery(cx, At(cx, pc, bits[..k])) == qs[k]
  }

  lemma AskAt(cx: Ctx, pc: Pc, bits: seq<bool>, qs: seq<Query>, k: nat)
    requires WfPc(cx, pc) && 0 <= cx.matchByte && Asks(cx, pc, bits, qs) && k < |qs|
    ensures |bits| == |qs| && SlotQuery(cx, At(cx, pc, bits[..k])) == qs[k]
  {
  }

  lemma AsksLength(cx: Ctx, pc: Pc, bits: seq<bool>, qs: seq<Query>)
    requires WfPc(cx, pc) && 0 <= cx.matchByte && Asks(cx, pc, bits, qs)
    ensures |bits| == |qs|
  {
  }

  lemma AskJoined(cx: Ctx, pc: Pc, a: seq<bool>, x: seq<Query>, b: seq<bool>, y: seq<Query>, k: nat)
    requires WfPc(cx, pc) && 0 <= cx.matchByte && Asks(cx, pc, a, x) && Asks(cx, At(cx, pc, a), b, y) && k < |x + y|
    ensures |x| == |a| && |y| == |b| && SlotQuery(cx, At(cx, pc, (a + b)[..k])) == (x + y)[k]
  {
    hide Step, SlotQuery, At, Asks;
    AsksLength(cx, pc, a, x);
    AsksLength(cx, At(cx, pc, a), b, y);
    if k < |x| {
      AskAt(cx, pc, a, x, k);
      assert (a + b)[..k] == a[..k];
    } else {
      AskAt(cx, At(cx, pc, a), b, y, k - |x|);
      assert (a + b)[..k] == a + b[..k - |a|];
      AtJoin(cx, pc, a, b[..k - |a|]);
    }
  }

  lemma AsksJoin(cx: Ctx, pc: Pc, a: seq<bool>, x: seq<Query>, b: seq<bool>, y: seq<Query>)
    requires WfPc(cx, pc) && 0 <= cx.matchByte && Asks(cx, pc, a, x) && Asks(cx, At(cx, pc, a), b, y)
    ensures Asks(cx, pc, a + b, x + y)
  {
    hide Step, SlotQuery, At;
    forall k | 0 <= k < |x + y|
      ensures SlotQuery(cx, At(cx, pc, (a + b)[..k])) == (x + y)[k]
    {
      AskJoined(cx, pc, a, x, b, y, k);
    }
  }

  lemma AsksOn(cx: Ctx, pc: Pc, bits: seq<bool>, qs: seq<Query>)
    requires WfPc(cx, pc) && 0 <= cx.matchByte && Asks(cx, pc, bits, qs) && bits != []
    ensures SlotQuery(cx, pc) == qs[0] && WfPc(cx, Step(cx, pc, bits[0])) && Asks(cx, Step(cx, pc, bits[0]), bits[1..], qs[1..])
  {
    hide SlotQuery, Step;
    assert bits[..0] == [];
    StepWf(cx, pc, bits[0]);
    var q := Step(cx, pc, bits[0]);
    forall k | 0 <= k < |qs[1..]|
      ensures SlotQuery(cx, At(cx, q, bits[1..][..k])) == qs[1..][k]
    {
      assert [bits[0]] + bits[1..][..k] == bits[..k + 1];
      AtJoin(cx, pc, [bits[0]], bits[1..][..k]);
      AtOne(cx, pc, bits[0]);
    }
  }

  lemma AtOne(cx: Ctx, pc: Pc, bit: bool)
    requires WfPc(cx, pc) && 0 <= cx.matchByte
    ensures At(cx, pc, [bit]) == Step(cx, pc, bit)
  {
    assert [bit][..0] == [];
    assert At(cx, pc, [bit][..0]) == pc;
  }

  lemma AsksOne(cx: Ctx, pc: Pc, bit: bool)
    requires WfPc(cx, pc) && 0 <= cx.matchByte
    ensures Asks(cx, pc, [bit], [SlotQuery(cx, pc)]) && At(cx, pc, [bit]) == Step(cx, pc, bit)
  {
    AtOne(cx, pc, bit);
    assert [bit][..0] == [];
  }

  // ---------- trees ----------

  lemma NodeBound(bits: seq<bool>, k: nat, n: nat)
    requires k <= |bits| && k < n
    ensures 1 <= Pow(2, k) <= Pow(2, k) + HighValue(bits[..k]) < Pow(2, k + 1) <= Pow(2, n)
  {
    HighOfValue(bits[..k]);
    PowPositive(2, k);
    PowMonotone(2, k + 1, n);
  }

  lemma {:induction false} LengthAt(cx: Ctx, pc: Pc, bits: seq<bool>, k: nat, n: nat)
    requires WfPc(cx, pc) && 0 <= cx.matchByte && pc.LenTree? && pc.i == 1 && pc.lim == Pow(2, n) && k <= |bits| && k < n
    ensures At(cx, pc, bits[..k]) == LenTree(pc.k, pc.off, pc.lim, pc.add, Pow(2, k) + HighValue(bits[..k]))
    decreases k
  {
    hide Pow, HighValue;
    if k == 0 {
      Whole(bits);
    } else {
      LengthAt(cx, pc, bits, k - 1, n);
      AtNext(cx, pc, bits, k - 1);
      NodeBound(bits, k, n);
    }
  }

  lemma LengthAsked(cx: Ctx, pc: Pc, bits: seq<bool>, n: nat)
    requires WfPc(cx, pc) && 0 <= cx.matchByte && pc.LenTree? && pc.i == 1 && pc.lim == Pow(2, n) && |bits| == n && 1 <= n
    ensures Asks(cx, pc, bits, Tree(LenBase(pc.k) + pc.off, bits))
    ensures 0 <= HighValue(bits) < pc.lim && At(cx, pc, bits) == AfterLen(pc.k, HighValue(bits) + pc.add)
  {
    hide Pow, HighValue, At, Step;
    forall k | 0 <= k < n
      ensures SlotQuery(cx, At(cx, pc, bits[..k])) == Tree(LenBase(pc.k) + pc.off, bits)[k]
    {
      LengthAt(cx, pc, bits, k, n);
    }
    LengthEnd(cx, pc, bits, n);
  }

  lemma LengthEnd(cx: Ctx, pc: Pc, bits: seq<bool>, n: nat)
    requires WfPc(cx, pc) && 0 <= cx.matchByte && pc.LenTree? && pc.i == 1 && pc.lim == Pow(2, n) && |bits| == n && 1 <= n
    ensures 0 <= HighValue(bits) < pc.lim && At(cx, pc, bits) == AfterLen(pc.k, HighValue(bits) + pc.add)
  {
    hide Pow, HighValue, At, Step, SlotQuery, AfterLen, WfPc;
    LengthAt(cx, pc, bits, n - 1, n);
    AtNext(cx, pc, bits, n - 1);
    assert bits[..n] == bits;
    HighOfValue(bits);
    LengthLast(cx, pc, Pow(2, n - 1) + HighValue(bits[..n - 1]), bits[n - 1], HighValue(bits));
  }

  lemma LengthLast(cx: Ctx, pc: Pc, i: int, bit: bool, v: nat)
    requires pc.LenTree? && WfPc(cx, LenTree(pc.k, pc.off, pc.lim, pc.add, i)) && 2 * i + B(bit) == pc.lim + v
    ensures Step(cx, LenTree(pc.k, pc.off, pc.lim, pc.add, i), bit) == AfterLen(pc.k, v + pc.add)
  {
    hide AfterLen;
    LengthStep(cx, LenTree(pc.k, pc.off, pc.lim, pc.add, i), bit);
  }

  lemma {:induction false} SlotAt(cx: Ctx, len: int, bits: seq<bool>, k: nat)
    requires 0 <= len < 272 && 0 <= cx.matchByte && k <= |bits| && k < 6
    ensures At(cx, Slot(len, 1), bits[..k]) == Slot(len, Pow(2, k) + HighValue(bits[..k]))
    decreases k
  {
    hide Pow, HighValue;
    RootTree();
    if k == 0 {
      Whole(bits);
    } else {
      SlotAt(cx, len, bits, k - 1);
      AtNext(cx, Slot(len, 1), bits, k - 1);
      NodeBound(bits, k, 6);
    }
  }

  lemma SlotAsked(cx: Ctx, len: int, bits: seq<bool>)
    requires 0 <= len < 272 && 0 <= cx.matchByte && |bits| == 6
    ensures Asks(cx, Slot(len, 1), bits, Tree(1728 + 64 * Min(len, 3), bits))
    ensures 0 <= HighValue(bits) < 64 && At(cx, Slot(len, 1), bits) == AfterSlot(len, HighValue(bits))
  {
    hide Pow, HighValue, AfterSlot, At, Step;
    forall k | 0 <= k < 6
      ensures SlotQuery(cx, At(cx, Slot(len, 1), bits[..k])) == Tree(1728 + 64 * Min(len, 3), bits)[k]
    {
      SlotAt(cx, len, bits, k);
    }
    SlotEnd(cx, len, bits);
  }

  lemma SlotEnd(cx: Ctx, len: int, bits: seq<bool>)
    requires 0 <= len < 272 && 0 <= cx.matchByte && |bits| == 6
    ensures 0 <= HighValue(bits) < 64 && At(cx, Slot(len, 1), bits) == AfterSlot(len, HighValue(bits))
  {
    hide Pow, HighValue, AfterSlot, At, Step, SlotQuery;
    RootTree();
    SlotAt(cx, len, bits, 5);
    NodeBound(bits, 5, 6);
    AtNext(cx, Slot(len, 1), bits, 5);
    SlotStep(cx, len, Pow(2, 5) + HighValue(bits[..5]), bits[5]);
    PowHalf(6);
    assert bits[..6] == bits;
    HighOfValue(bits);
  }

  lemma {:induction false} SpecialAt(cx: Ctx, len: int, base: int, n: nat, bits: seq<bool>, k: nat)
    requires WfPc(cx, Special(len, base, 1, 1, n)) && 0 <= cx.matchByte && k <= |bits| && k < n
    ensures At(cx, Special(len, base, 1, 1, n), bits[..k]) == Special(len, base, Pow(2, k), Pow(2, k) + LowValue(bits[..k]), n - k)
    decreases k
  {
    hide Pow, LowValue, Step, At;
    if k == 0 {
      AtStart(cx, Special(len, base, 1, 1, n), bits);
    } else {
      SpecialAt(cx, len, base, n, bits, k - 1);
      AtNext(cx, Special(len, base, 1, 1, n), bits, k - 1);
      SpecialStep(cx, At(cx, Special(len, base, 1, 1, n), bits[..k - 1]), bits[k - 1]);
    }
  }

  lemma AtStart(cx: Ctx, pc: Pc, bits: seq<bool>)
    requires WfPc(cx, pc) && 0 <= cx.matchByte
    ensures At(cx, pc, bits[..0]) == pc && HighValue(bits[..0]) == 0 && LowValue(bits[..0]) == 0 && Pow(2, 0) == 1
  {
  }

  lemma SpecialAsked(cx: Ctx, len: int, base: int, n: nat, bits: seq<bool>)
    requires WfPc(cx, Special(len, base, 1, 1, n)) && 0 <= cx.matchByte && |bits| == n
    ensures Asks(cx, Special(len, base, 1, 1, n), bits, LowTree(base, bits))
  {
    hide Pow, LowValue, At, Step;
    forall k | 0 <= k < n
      ensures SlotQuery(cx, At(cx, Special(len, base, 1, 1, n), bits[..k])) == LowTree(base, bits)[k]
    {
      SpecialAt(cx, len, base, n, bits, k);
    }
  }

  lemma {:induction false} AlignAt(cx: Ctx, len: int, dist: int, bits: seq<bool>, k: nat)
    requires WfPc(cx, AlignBits(len, dist, 1, 1)) && 0 <= cx.matchByte && k <= |bits| && k < 4
    ensures At(cx, AlignBits(len, dist, 1, 1), bits[..k]) == AlignBits(len, dist, Pow(2, k), Pow(2, k) + LowValue(bits[..k]))
    decreases k
  {
    hide LowValue, Pow, Step;
    if k == 0 {
      Whole(bits);
    } else {
      AlignAt(cx, len, dist, bits, k - 1);
      AtNext(cx, AlignBits(len, dist, 1, 1), bits, k - 1);
      SmallPowers(k - 1);
      AlignStep(cx, len, dist, Pow(2, k - 1), Pow(2, k - 1) + LowValue(bits[..k - 1]), bits[k - 1]);
    }
  }

  lemma AlignStep(cx: Ctx, len: int, dist: int, m: int, i: int, bit: bool)
    requires WfPc(cx, AlignBits(len, dist, m, i)) && m < 8
    ensures Step(cx, AlignBits(len, dist, m, i), bit) == AlignBits(len, dist, 2 * m, i + m + if bit then m else 0)
  {
  }

  lemma SmallPowers(k: nat)
    requires k < 3
    ensures Pow(2, k) == if k == 0 then 1 else if k == 1 then 2 else 4
  {
  }

  lemma AlignAsked(cx: Ctx, len: int, dist: int, bits: seq<bool>)
    requires WfPc(cx, AlignBits(len, dist, 1, 1)) && 0 <= cx.matchByte && |bits| == 4
    ensures Asks(cx, AlignBits(len, dist, 1, 1), bits, LowTree(1664, bits))
  {
    hide Pow, LowValue, At, Step;
    forall k | 0 <= k < 4
      ensures SlotQuery(cx, At(cx, AlignBits(len, dist, 1, 1), bits[..k])) == LowTree(1664, bits)[k]
    {
      AlignAt(cx, len, dist, bits, k);
    }
  }

  lemma {:induction false} DirectAsked(cx: Ctx, pc: Pc, bits: seq<bool>)
    requires WfPc(cx, pc) && 0 <= cx.matchByte && pc.Direct? && |bits| == pc.n
    ensures Asks(cx, pc, bits, seq(pc.n, _ => Fair)) && At(cx, pc, bits).AlignBits? && At(cx, pc, bits).m == 1 && At(cx, pc, bits).i == 1
    ensures At(cx, pc, bits).len == pc.len
    decreases pc.n
  {
    hide Pow;
    var q := Step(cx, pc, bits[0]);
    AsksOne(cx, pc, bits[0]);
    assert bits == [bits[0]] + bits[1..];
    AtJoin(cx, pc, [bits[0]], bits[1..]);
    if pc.n > 1 {
      DirectAsked(cx, q, bits[1..]);
      AsksJoin(cx, pc, [bits[0]], [Fair], bits[1..], seq(pc.n - 1, _ => Fair));
      assert [Fair] + seq(pc.n - 1, _ => Fair) == seq(pc.n, _ => Fair);
    } else {
      assert [Fair] == seq(1, _ => Fair);
    }
  }

  // ---------- literals ----------

  lemma {:induction false} PlainAt(cx: Ctx, bits: seq<bool>, k: nat)
    requires 0 <= cx.matchByte && k <= |bits| && k < 8
    ensures At(cx, Plain(1), bits[..k]) == Plain(Pow(2, k) + HighValue(bits[..k]))
    decreases k
  {
    hide Pow, HighValue;
    RootTree();
    if k == 0 {
      Whole(bits);
    } else {
      PlainAt(cx, bits, k - 1);
      AtNext(cx, Plain(1), bits, k - 1);
      NodeBound(bits, k, 8);
    }
  }

  lemma PlainAsked(cx: Ctx, bits: seq<bool>)
    requires 0 <= cx.matchByte && |bits| == 8
    ensures Asks(cx, Plain(1), bits, Tree(cx.lit, bits))
  {
    hide Pow, HighValue;
    forall k | 0 <= k < 8
      ensures SlotQuery(cx, At(cx, Plain(1), bits[..k])) == Tree(cx.lit, bits)[k]
    {
      PlainAt(cx, bits, k);
    }
  }

  lemma {:induction false} HighAt(v: nat, n: nat, k: nat)
    requires k < n
    ensures 0 < Pow(2, n - 1 - k) && (High(v, n)[k] <==> v / Pow(2, n - 1 - k) % 2 == 1)
    decreases n
  {
    PowPositive(2, n - 1 - k);
    if k == n - 1 {
      PowHalf(0);
    } else {
      HighAt(v / 2, n - 1, k);
      HalfQuotient(v, Pow(2, n - 2 - k));
    }
  }

  lemma HalfQuotient(v: nat, d: nat)
    requires 0 < d
    ensures v / (2 * d) == v / 2 / d
  {
    var q, r := v / 2 / d, v / 2 % d;
    assert v / 2 == d * q + r;
    MulSwap(2, d, q);
    assert v == 2 * (d * q + r) + v % 2;
    ModUnique(v, 2 * d, q, 2 * r + v % 2);
  }

  // The bit that is tested of the shifted byte is its next one.
  lemma ShiftedBit(mb: nat, k: nat)
    requires mb < 256 && k < 8
    ensures MatchBit(mb * Pow(2, k), 256) == if High(mb, 8)[k] then 256 else 0
  {
    hide Pow, High;
    HighAt(mb, 8, k);
    PowHalf(k + 1);
    PowAdd(2, k + 1, 7 - k);
    RootTree();
    PowPositive(2, k + 1);
    MulSwap(2, mb, Pow(2, k));
    ScaledQuotient(mb, Pow(2, k + 1), Pow(2, 7 - k));
  }

  lemma ScaledQuotient(v: nat, a: nat, d: nat)
    requires 0 < a && 0 < d
    ensures 0 < a * d && (v * a) / (a * d) == v / d
  {
    var q, r := v / d, v % d;
    assert v == d * q + r;
    MulAssoc(a, d, q);
    assert v * a == (a * d) * q + a * r;
    MulMonotone(a, r + 1, a, d);
    assert a * r + a == a * (r + 1);
    ModUnique(v * a, a * d, q, a * r);
  }

  lemma {:induction false} MatchedAt(cx: Ctx, bits: seq<bool>, k: nat)
    requires 0 <= cx.matchByte < 256 && |bits| == 8 && k < 8
    ensures At(cx, Matched(1, cx.matchByte, 256), bits[..k])
            == Matched(Pow(2, k) + HighValue(bits[..k]), cx.matchByte * Pow(2, k), if bits[..k] == High(cx.matchByte, 8)[..k] then 256 else 0)
    decreases k
  {
    hide Pow, HighValue, High, MatchBit;
    RootTree();
    if k == 0 {
      Whole(bits);
      assert bits[..0] == High(cx.matchByte, 8)[..0];
    } else {
      var e := High(cx.matchByte, 8);
      MatchedAt(cx, bits, k - 1);
      AtNext(cx, Matched(1, cx.matchByte, 256), bits, k - 1);
      NodeBound(bits, k, 8);
      ShiftedBit(cx.matchByte, k - 1);
      NoBit(cx.matchByte * Pow(2, k - 1));
      PrefixOn(bits, e, k - 1);
      MulSwap(2, cx.matchByte, Pow(2, k - 1));
    }
  }

  lemma NoBit(mb: int)
    ensures MatchBit(mb, 0) == 0
  {
  }

  lemma PrefixOn(a: seq<bool>, b: seq<bool>, k: nat)
    requires k < |a| && |a| == |b|
    ensures a[..k + 1] == b[..k + 1] <==> a[..k] == b[..k] && a[k] == b[k]
  {
    assert a[..k + 1] == a[..k] + [a[k]] && b[..k + 1] == b[..k] + [b[k]];
  }

  lemma MatchedAsked(cx: Ctx, bits: seq<bool>)
    requires 0 <= cx.matchByte < 256 && |bits| == 8
    ensures Asks(cx, Matched(1, cx.matchByte, 256), bits, ExpectedTree(cx.lit, bits, High(cx.matchByte, 8)))
  {
    hide Pow, HighValue, High, MatchBit, At;
    forall k | 0 <= k < 8
      ensures SlotQuery(cx, At(cx, Matched(1, cx.matchByte, 256), bits[..k])) == ExpectedTree(cx.lit, bits, High(cx.matchByte, 8))[k]
    {
      MatchedAt(cx, bits, k);
      ShiftedBit(cx.matchByte, k);
      NoBit(cx.matchByte * Pow(2, k));
    }
  }

  // ---------- moves ----------

  lemma LengthAsks(cx: Ctx, x: Setting, k: Kind, length: int)
    requires WfSetting(x) && cx == CtxIn(x) && WfKind(k) && 2 <= length <= 273
    ensures Asks(cx, LenChoice(k), LengthAnswers(length), LengthQuestions(LenBase(k), x.position, length))
    ensures At(cx, LenChoice(k), LengthAnswers(length)) == AfterLen(k, length - 2)
  {
    hide Pow, HighValue, High, At, Asks, Tree, AfterLen;
    RootTree();
    var b := LenBase(k);
    if length < 10 {
      var bits := High(length - 2, 3);
      ValueOfHigh(length - 2, 3);
      LengthAsked(cx, LenTree(k, 16 * x.position, 8, 0, 1), bits, 3);
      AsksOne(cx, LenChoice(k), false);
      AsksJoin(cx, LenChoice(k), [false], [Model(b)], bits, Tree(b + 16 * x.position, bits));
      AtJoin(cx, LenChoice(k), [false], bits);
    } else if length < 18 {
      var bits := High(length - 10, 3);
      ValueOfHigh(length - 10, 3);
      LengthAsked(cx, LenTree(k, 16 * x.position + 8, 8, 8, 1), bits, 3);
      LongAsks(cx, x, k, false, bits, Tree(b + 16 * x.position + 8, bits));
    } else {
      var bits := High(length - 18, 8);
      ValueOfHigh(length - 18, 8);
      LengthAsked(cx, LenTree(k, LEN_HIGH, 256, 16, 1), bits, 8);
      LongAsks(cx, x, k, true, bits, Tree(b + 256, bits));
    }
  }

  // The answers of a longer length begin with two choices.
  lemma LongAsks(cx: Ctx, x: Setting, k: Kind, far: bool, bits: seq<bool>, qs: seq<Query>)
    requires WfSetting(x) && cx == CtxIn(x) && WfKind(k) && WfPc(cx, Step(cx, LenChoice2(k), far))
    requires Asks(cx, Step(cx, LenChoice2(k), far), bits, qs)
    ensures Asks(cx, LenChoice(k), [true, far] + bits, [Model(LenBase(k)), Model(LenBase(k) + 8)] + qs)
    ensures At(cx, LenChoice(k), [true, far] + bits) == At(cx, Step(cx, LenChoice2(k), far), bits)
  {
    hide Pow, At, Asks;
    var b := LenBase(k);
    AsksOne(cx, LenChoice(k), true);
    AsksOne(cx, LenChoice2(k), far);
    AsksJoin(cx, LenChoice(k), [true], [Model(b)], [far], [Model(b + 8)]);
    AtJoin(cx, LenChoice(k), [true], [far]);
    assert [true] + [far] == [true, far] && [Model(b)] + [Model(b + 8)] == [Model(b), Model(b + 8)];
    AsksJoin(cx, LenChoice(k), [true, far], [Model(b), Model(b + 8)], bits, qs);
    AtJoin(cx, LenChoice(k), [true, far], bits);
  }

  lemma DistanceAsks(cx: Ctx, length: int, distance: int)
    requires 0 <= cx.matchByte && 2 <= length <= 273 && 1 <= distance <= 0x1_0000_0000
    ensures Asks(cx, Slot(length - 2, 1), DistanceAnswers(distance), DistanceQuestions(length, distance))
  {
    hide Pow, HighValue, High, At, Asks, Tree, TopBit, TailAnswers, TailQuestions;
    var v := distance - 1;
    if v < 4 {
      SlotAsked(cx, length - 2, High(v, 6));
    } else {
      DistanceParts(v);
      var n := TopBit(v) - 1;
      FarAsks(cx, length, n, v / Pow(2, n), v % Pow(2, n));
    }
  }

  lemma FarAsks(cx: Ctx, length: int, n: nat, top: nat, rest: nat)
    requires 0 <= cx.matchByte && 2 <= length <= 273 && 1 <= n <= 30 && 2 <= top <= 3
    ensures var first, bits := 1728 + 64 * (if length < 5 then length - 2 else 3), High(2 * n + top, 6);
            Asks(cx, Slot(length - 2, 1), bits + TailAnswers(n, rest), Tree(first, bits) + TailQuestions(n, top, rest))
  {
    hide Pow, HighValue, High, At, Asks, Tree, TailAnswers, TailQuestions, AfterSlot;
    var bits := High(2 * n + top, 6);
    RootTree();
    ValueOfHigh(2 * n + top, 6);
    SlotAsked(cx, length - 2, bits);
    TailAsks(cx, length - 2, n, top, rest);
    AsksJoin(cx, Slot(length - 2, 1), bits, Tree(1728 + 64 * Min(length - 2, 3), bits), TailAnswers(n, rest), TailQuestions(n, top, rest));
  }

  lemma TailAsks(cx: Ctx, len: int, n: nat, top: nat, rest: nat)
    requires 0 <= cx.matchByte && 0 <= len < 272 && 1 <= n <= 30 && 2 <= top <= 3
    ensures WfPc(cx, AfterSlot(len, 2 * n + top)) && Asks(cx, AfterSlot(len, 2 * n + top), TailAnswers(n, rest), TailQuestions(n, top, rest))
  {
    hide Pow, LowValue, Low, High, At, Asks, LowTree;
    AfterSlotOk(cx, len, 2 * n + top);
    var q := AfterSlot(len, 2 * n + top);
    if n < 6 {
      ScaleIs(top, n);
      SpecialAsked(cx, len, top * Pow(2, n), n, Low(rest, n));
    } else {
      var a, b := High(rest / 16, n - 4), Low(rest % 16, 4);
      DirectAsked(cx, q, a);
      AlignAsked(cx, len, At(cx, q, a).dist, b);
      AsksJoin(cx, q, a, seq(n - 4, _ => Fair), b, LowTree(1664, b));
    }
  }

  lemma HeadAsks(cx: Ctx, x: Setting, bits: seq<bool>, qs: seq<Query>, q: Pc)
    requires WfSetting(x) && cx == CtxIn(x) && 1 <= |bits| <= 2
    requires q == At(cx, IsMatch, bits)
    requires qs == [Model(1408 + 16 * x.position + x.state)] + if |bits| == 2 then [Model(1680 + x.state)] else []
    requires |bits| == 2 ==> bits[0]
    ensures Asks(cx, IsMatch, bits, qs)
    ensures q == if !bits[0] then (if x.state < 7 then Plain(1) else Matched(1, x.expected, 256))
                 else if |bits| == 1 then IsRep else if bits[1] then IsRepG0 else LenChoice(AsMatch)
  {
    hide At, Asks;
    AsksOne(cx, IsMatch, bits[0]);
    if |bits| == 2 {
      AsksOne(cx, IsRep, bits[1]);
      AsksJoin(cx, IsMatch, [true], [qs[0]], [bits[1]], [qs[1]]);
      AtJoin(cx, IsMatch, [true], [bits[1]]);
      assert [true] + [bits[1]] == bits && [qs[0]] + [qs[1]] == qs;
    } else {
      assert bits == [bits[0]] && qs == [SlotQuery(cx, IsMatch)];
    }
  }

  lemma RepeatAsks(cx: Ctx, x: Setting, r: int, long: bool)
    requires WfSetting(x) && cx == CtxIn(x) && 0 <= r < 4 && (r != 0 ==> long)
    ensures var bits := if r == 0 then [false, long] else if r == 1 then [true, false]
                        else if r == 2 then [true, true, false] else [true, true, true];
            && Asks(cx, IsRepG0, bits, RepeatQuestions(x, r))
            && At(cx, IsRepG0, bits) == if long then LenChoice(AsRep(r)) else Done(ShortRep)
  {
    hide At, Asks;
    var g0 := Model(1692 + x.state);
    AsksOne(cx, IsRepG0, r != 0);
    if r == 0 {
      AsksOne(cx, IsRep0Long, long);
      AsksJoin(cx, IsRepG0, [false], [g0], [long], [Model(128 + 16 * x.position + x.state)]);
      AtJoin(cx, IsRepG0, [false], [long]);
      assert [false] + [long] == [false, long];
      assert [g0] + [Model(128 + 16 * x.position + x.state)] == RepeatQuestions(x, 0);
    } else {
      var g1 := Model(1704 + x.state);
      AsksOne(cx, IsRepG1, r != 1);
      AsksJoin(cx, IsRepG0, [true], [g0], [r != 1], [g1]);
      AtJoin(cx, IsRepG0, [true], [r != 1]);
      assert [true] + [r != 1] == [true, r != 1] && [g0] + [g1] == [g0, g1];
      if r != 1 {
        var g2 := Model(1716 + x.state);
        AsksOne(cx, IsRepG2, r == 3);
        AsksJoin(cx, IsRepG0, [true, true], [g0, g1], [r == 3], [g2]);
        AtJoin(cx, IsRepG0, [true, true], [r == 3]);
        assert [true, true] + [r == 3] == [true, true, r == 3];
        assert [g0, g1] + [g2] == RepeatQuestions(x, r);
      } else {
        assert [g0, g1] + [] == [g0, g1] == RepeatQuestions(x, r);
      }
    }
  }

  /** In every setting the grammar asks just these questions along the answers of a move. */
  lemma MoveAsks(x: Setting, m: Move)
    requires WfSetting(x) && WfMove(m)
    ensures Asks(CtxIn(x), IsMatch, Answers(m), Questions(x, m))
  {
    hide Pow, HighValue, High, At, Asks, Tree, ExpectedTree, LengthQuestions, DistanceQuestions, LengthAnswers, DistanceAnswers, RepeatQuestions;
    var cx, first := CtxIn(x), Model(1408 + 16 * x.position + x.state);
    match m
    case Literal(b) =>
      var bits := High(b, 8);
      HeadAsks(cx, x, [false], [first], At(cx, IsMatch, [false]));
      PlainAsked(cx, bits);
      MatchedAsked(cx, bits);
      AsksJoin(cx, IsMatch, [false], [first], bits,
               if x.state < 7 then Tree(cx.lit, bits) else ExpectedTree(cx.lit, bits, High(x.expected, 8)));
    case Again =>
      AgainAsks(cx, x);
    case Repeat(r, length) =>
      RepeatMoveAsks(cx, x, r, length);
    case Copy(distance, length) =>
      CopyAsks(cx, x, distance, length);
  }

  lemma AgainAsks(cx: Ctx, x: Setting)
    requires WfSetting(x) && cx == CtxIn(x)
    ensures Asks(cx, IsMatch, Answers(Again), Questions(x, Again))
  {
    hide At, Asks, RepeatQuestions;
    var head := [Model(1408 + 16 * x.position + x.state), Model(1680 + x.state)];
    HeadAsks(cx, x, [true, true], head, At(cx, IsMatch, [true, true]));
    RepeatAsks(cx, x, 0, false);
    AsksJoin(cx, IsMatch, [true, true], head, [false, false], RepeatQuestions(x, 0));
    assert [true, true] + [false, false] == Answers(Again);
    assert head + RepeatQuestions(x, 0) == Questions(x, Again);
  }

  lemma RepeatMoveAsks(cx: Ctx, x: Setting, r: int, length: int)
    requires WfSetting(x) && cx == CtxIn(x) && 0 <= r < 4 && 2 <= length <= 273
    ensures Asks(cx, IsMatch, Answers(Repeat(r, length)), Questions(x, Repeat(r, length)))
  {
    hide At, Asks, RepeatQuestions, LengthAnswers, LengthQuestions;
    var head := [Model(1408 + 16 * x.position + x.state), Model(1680 + x.state)];
    var which := if r == 0 then [false, true] else if r == 1 then [true, false] else if r == 2 then [true, true, false] else [true, true, true];
    HeadAsks(cx, x, [true, true], head, At(cx, IsMatch, [true, true]));
    RepeatAsks(cx, x, r, true);
    LengthAsks(cx, x, AsRep(r), length);
    AsksJoin(cx, IsMatch, [true, true], head, which, RepeatQuestions(x, r));
    AtJoin(cx, IsMatch, [true, true], which);
    AsksJoin(cx, IsMatch, [true, true] + which, head + RepeatQuestions(x, r), LengthAnswers(length), LengthQuestions(384, x.position, length));
    assert Questions(x, Repeat(r, length)) == head + RepeatQuestions(x, r) + LengthQuestions(384, x.position, length);
  }

  lemma CopyAsks(cx: Ctx, x: Setting, distance: int, length: int)
    requires WfSetting(x) && cx == CtxIn(x) && 1 <= distance <= 0x1_0000_0000 && 2 <= length <= 273
    ensures Asks(cx, IsMatch, Answers(Copy(distance, length)), Questions(x, Copy(distance, length)))
  {
    hide At, Asks, LengthAnswers, DistanceAnswers, LengthQuestions, DistanceQuestions;
    var head := [Model(1408 + 16 * x.position + x.state), Model(1680 + x.state)];
    HeadAsks(cx, x, [true, false], head, At(cx, IsMatch, [true, false]));
    LengthAsks(cx, x, AsMatch, length);
    DistanceAsks(cx, length, distance);
    AsksJoin(cx, IsMatch, [true, false], head, LengthAnswers(length), LengthQuestions(896, x.position, length));
    AtJoin(cx, IsMatch, [true, false], LengthAnswers(length));
    AsksJoin(cx, IsMatch, [true, false] + LengthAnswers(length), head + LengthQuestions(896, x.position, length),
             DistanceAnswers(distance), DistanceQuestions(length, distance));
    assert Questions(x, Copy(distance, length)) == head + LengthQuestions(896, x.position, length) + DistanceQuestions(length, distance);
  }
}
