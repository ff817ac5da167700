/**
 The state of the match finder as a value, and what one step of it does: the heads that a place has in the hash table,
 the links it gets, and the moves of positions and limits that follow. The input is direct: all of it lies in memory.
 */
module FinderState {
  import opened Primitives
  import opened LzHash
  import opened MatchText
  import opened SearchTree
  import opened SonTree
  import opened SonMoves
  import opened SonChain

  const MAX_POS: int := 0xFFFF_FFFF
  const NORMALIZE_STEP: int := 0x400
  const MAX_HISTORY: int := 0xE000_0000

  /** The finders by hash length, and whether they link places in trees or in chains. */
  datatype Kind = Bt2 | Bt3 | Bt4 | Hc4

  datatype Config = Config(kind: Kind, text: seq<byte>, crc: seq<u32>, cyc: int, matchMaxLen: int, keepAfter: int, mask: nat, cut: nat)

  function MinLen(k: Kind): int {
    if k.Bt2? then 2 else if k.Bt3? then 3 else 4
  }

  function FixedSize(k: Kind): int {
    if k.Bt2? then 0 else if k.Bt3? then FIX3 else FIX4
  }

  // What MatchFinder_Create establishes.
  predicate WfConfig(g: Config) {
    && WfCrc(g.crc) && 1 <= g.cyc <= MAX_HISTORY + 1 && MinLen(g.kind) <= g.matchMaxLen <= g.keepAfter < MAX_POS && g.cut < TWO32
    && (g.kind.Bt2? ==> g.mask == 0xFFFF)
  }

  datatype Finder = Finder(hash: seq<int>, son: seq<int>, buffer: int, pos: int, posLimit: int, streamPos: int,
                           lenLimit: int, cpos: int, ended: bool, rem: int)

  function WindowOf(g: Config, f: Finder): Window {
    Window(g.text, f.buffer, f.pos, g.cyc, f.cpos, MinLen(g.kind))
  }

  // Bytes between the current and the stream position, in 32-bit arithmetic.
  function Avail(f: Finder): int {
    (f.streamPos - f.pos) % TWO32
  }

  // ---------- limits ----------

  function ReadBlock(f: Finder): Finder {
    if f.ended then f
    else
      var size := Min(MAX_POS - Avail(f), f.rem);
      f.(rem := f.rem - size, streamPos := (f.streamPos + size) % TWO32, ended := f.rem - size == 0)
  }

  function SetLimits(g: Config, f: Finder): Finder {
    var a := Avail(f);
    var byStream := if a <= g.keepAfter then (if a > 0 then 1 else a) else a - g.keepAfter;
    var limit := Min(Min(MAX_POS - f.pos, g.cyc - f.cpos), byStream);
    f.(lenLimit := Min(a, g.matchMaxLen), posLimit := f.pos + limit)
  }

  // (pos - historySize - 1) & kNormalizeMask
  function SubValue(g: Config, f: Finder): int {
    var d := (f.pos - g.cyc) % TWO32;
    d - d % NORMALIZE_STEP
  }

  function Normalize(g: Config, f: Finder): Finder {
    var sub := SubValue(g, f);
    f.(hash := NormRefs(sub, f.hash), son := NormRefs(sub, f.son), pos := (f.pos - sub) % TWO32,
       posLimit := (f.posLimit - sub) % TWO32, streamPos := (f.streamPos - sub) % TWO32)
  }

  function CheckLimits(g: Config, f: Finder): Finder {
    var a := if f.pos == MAX_POS then Normalize(g, f) else f;
    var b := if !a.ended && g.keepAfter == Avail(a) then ReadBlock(a) else a;
    var c := if b.cpos == g.cyc then b.(cpos := 0) else b;
    SetLimits(g, c)
  }

  function MovePos(g: Config, f: Finder): Finder {
    var m := f.(cpos := f.cpos + 1, buffer := f.buffer + 1, pos := (f.pos + 1) % TWO32);
    if m.pos == m.posLimit then CheckLimits(g, m) else m
  }

  // ---------- the invariant ----------

  /** Positions, limits and the unread rest of the input fit together. */
  predicate Placed(g: Config, f: Finder) {
    && WfConfig(g) && WfWindow(WindowOf(g, f)) && f.cpos == f.buffer % g.cyc && f.pos < MAX_POS
    && 0 <= f.streamPos < TWO32 && 0 <= f.rem && f.buffer + Avail(f) + f.rem == |g.text|
    && (f.ended <==> f.rem == 0) && (!f.ended ==> g.keepAfter < Avail(f))
    && f.lenLimit == Min(g.matchMaxLen, |g.text| - f.buffer)
    && (if Avail(f) <= g.keepAfter then f.posLimit == f.pos + Min(1, Avail(f))
        else f.pos < f.posLimit <= Min(MAX_POS, Min(f.pos + g.cyc - f.cpos, f.pos + Avail(f) - g.keepAfter)))
  }

  function TableSize(g: Config): int {
    FixedSize(g.kind) + g.mask + 1
  }

  predicate LinksFit(g: Config, w: Window, hash: seq<int>, son: seq<int>)
    requires WfWindow(w)
  {
    && |hash| == TableSize(g) && (forall e :: 0 <= e < |hash| ==> GoodRef(w, hash[e]))
    && if g.kind.Hc4? then GoodChain(w, son) else GoodSon(w, son)
  }

  predicate Valid(g: Config, f: Finder) {
    Placed(g, f) && LinksFit(g, WindowOf(g, f), f.hash, f.son)
  }

  // ---------- one step ----------

  /** The entries of the hash table that belong to place i, the one whose list is searched last. */
  function Heads(g: Config, i: int): (h: seq<int>)
    requires WfConfig(g) && Fits(g.text, i, MinLen(g.kind))
    ensures |h| >= 1 && forall k :: 0 <= k < |h| ==> 0 <= h[k] < TableSize(g)
    ensures FixedSize(g.kind) <= h[|h| - 1] && forall k :: 0 <= k < |h| - 1 ==> h[k] < FixedSize(g.kind)
  {
    var t := g.text;
    match g.kind
    case Bt2 => [Pair(t[i], t[i + 1])]
    case Bt3 => [Head2(g.crc, t[i], t[i + 1]), FIX3 + Main3(g.crc, g.mask, t[i], t[i + 1], t[i + 2])]
    case _ => [Head2(g.crc, t[i], t[i + 1]), FIX3 + Head3(g.crc, t[i], t[i + 1], t[i + 2]),
               FIX4 + Main4(g.crc, g.mask, t[i], t[i + 1], t[i + 2], t[i + 3])]
  }

  function MainHead(g: Config, i: int): (h: int)
    requires WfConfig(g) && Fits(g.text, i, MinLen(g.kind))
    ensures FixedSize(g.kind) <= h < TableSize(g)
  {
    var h := Heads(g, i);
    h[|h| - 1]
  }

  function SetAll(hash: seq<int>, heads: seq<int>, pos: int): (out: seq<int>)
    requires forall k :: 0 <= k < |heads| ==> 0 <= heads[k] < |hash|
    ensures |out| == |hash|
    ensures forall e :: 0 <= e < |hash| ==> out[e] == if e in heads then pos else hash[e]
  {
    if heads == [] then hash else SetAll(hash, heads[..|heads| - 1], pos)[heads[|heads| - 1] := pos]
  }

  /** The links after the current place has been entered. */
  function Linked(g: Config, f: Finder): seq<int>
    requires Valid(g, f) && MinLen(g.kind) <= f.lenLimit
  {
    var r := f.hash[MainHead(g, f.buffer)];
    if g.kind.Hc4? then f.son[f.cpos := r]
    else SonLoop(WindowOf(g, f), f.lenLimit, f.son, 2 * f.cpos + 1, 2 * f.cpos, r, 0, 0, g.cut)
  }

  // The current place entered, before the move.
  function Entered(g: Config, f: Finder): Finder
    requires Valid(g, f)
  {
    if f.lenLimit < MinLen(g.kind) then f
    else f.(hash := SetAll(f.hash, Heads(g, f.buffer), f.pos), son := Linked(g, f))
  }

  /** One step of the finder, searching or skipping. */
  function Step(g: Config, f: Finder): Finder
    requires Valid(g, f)
  {
    MovePos(g, Entered(g, f))
  }

  // ---------- the invariant is kept ----------

  lemma AvailSmall(f: Finder)
    requires 0 <= f.pos < TWO32 && 0 <= f.streamPos < TWO32
    ensures 0 <= Avail(f) < TWO32
    ensures (f.streamPos - f.pos - 1) % TWO32 == if Avail(f) == 0 then MAX_POS else Avail(f) - 1
  {
  }

  lemma ModShift(a: int, b: int, sub: int)
    ensures ((a - sub) % TWO32 - (b - sub) % TWO32) % TWO32 == (a - b) % TWO32
  {
  }

  lemma ModAdd(a: int, b: int, n: int)
    ensures ((a + n) % TWO32 - b) % TWO32 == ((a - b) % TWO32 + n) % TWO32
  {
  }

  /** The subtrahend leaves the whole window above zero and makes room for more positions. */
  lemma SubValueFits(g: Config, f: Finder)
    requires WfConfig(g) && f.pos == MAX_POS
    ensures 0 < SubValue(g, f) <= f.pos - g.cyc && f.pos - SubValue(g, f) < g.cyc + NORMALIZE_STEP
    ensures SubValue(g, f) % NORMALIZE_STEP == 0
  {
  }

  // Between the move and the check of the limits: nothing but the limits themselves may be out of date.
  predicate Moved(g: Config, f: Finder) {
    && WfConfig(g) && g.cyc <= f.pos <= MAX_POS && 0 < f.cpos <= g.cyc && f.cpos % g.cyc == f.buffer % g.cyc
    && 0 < f.buffer <= |g.text| && 0 <= f.streamPos < TWO32 && 0 <= f.rem && f.buffer + Avail(f) + f.rem == |g.text|
    && (f.ended <==> f.rem == 0) && (!f.ended ==> g.keepAfter <= Avail(f))
  }

  lemma SetLimitsPlaces(g: Config, f: Finder)
    requires WfConfig(g) && WfWindow(WindowOf(g, f)) && f.cpos == f.buffer % g.cyc && f.pos < MAX_POS
    requires 0 <= f.streamPos < TWO32 && 0 <= f.rem && f.buffer + Avail(f) + f.rem == |g.text|
    requires (f.ended <==> f.rem == 0) && (!f.ended ==> g.keepAfter < Avail(f))
    ensures Placed(g, SetLimits(g, f))
  {
  }

  lemma ReadBlockKeeps(g: Config, f: Finder)
    requires WfConfig(g) && 0 <= f.pos < TWO32 && 0 <= f.streamPos < TWO32 && 0 <= f.rem && !f.ended && f.rem != 0
    ensures var h := ReadBlock(f);
            && h == f.(rem := h.rem, streamPos := h.streamPos, ended := h.ended)
            && 0 <= h.rem && 0 <= h.streamPos < TWO32 && Avail(h) + h.rem == Avail(f) + f.rem
            && (h.ended <==> h.rem == 0) && (!h.ended ==> Avail(h) == MAX_POS)
  {
    AvailSmall(f);
    AvailGrows(f, Min(MAX_POS - Avail(f), f.rem));
    hide Avail;
  }

  lemma AvailGrows(f: Finder, size: int)
    requires 0 <= size && Avail(f) + size < TWO32
    ensures Avail(f.(streamPos := (f.streamPos + size) % TWO32)) == Avail(f) + size
  {
    ModAdd(f.streamPos, f.pos, size);
  }

  // What is available depends on the two positions only.
  lemma AvailSame(f: Finder, h: Finder)
    requires f.pos == h.pos && f.streamPos == h.streamPos
    ensures Avail(f) == Avail(h)
  {
  }

  lemma NormalizeKeeps(g: Config, f: Finder)
    requires WfConfig(g) && f.pos == MAX_POS
    ensures var h := Normalize(g, f);
            && h.pos == f.pos - SubValue(g, f) && g.cyc <= h.pos < MAX_POS && Avail(h) == Avail(f) && 0 <= h.streamPos < TWO32
            && h == f.(hash := NormRefs(SubValue(g, f), f.hash), son := NormRefs(SubValue(g, f), f.son),
                       pos := h.pos, posLimit := h.posLimit, streamPos := h.streamPos)
  {
    SubValueFits(g, f);
    ModShift(f.streamPos, f.pos, SubValue(g, f));
  }

  /** CheckLimits puts positions and limits back in order, and keeps all the distances between them. */
  lemma CheckLimitsPlaces(g: Config, f: Finder)
    requires Moved(g, f)
    ensures Placed(g, CheckLimits(g, f))
    ensures var h := CheckLimits(g, f);
            && h.buffer == f.buffer && h.pos == (if f.pos == MAX_POS then f.pos - SubValue(g, f) else f.pos)
            && h.cpos == f.cpos % g.cyc && Avail(h) + h.rem == Avail(f) + f.rem
            && h.hash == (if f.pos == MAX_POS then NormRefs(SubValue(g, f), f.hash) else f.hash)
            && h.son == (if f.pos == MAX_POS then NormRefs(SubValue(g, f), f.son) else f.son)
  {
    hide Avail, Normalize, ReadBlock, NormRefs;
    var a := if f.pos == MAX_POS then Normalize(g, f) else f;
    if f.pos == MAX_POS {
      NormalizeKeeps(g, f);
    }
    var b := if !a.ended && g.keepAfter == Avail(a) then ReadBlock(a) else a;
    if !a.ended && g.keepAfter == Avail(a) {
      ReadBlockKeeps(g, a);
    }
    WrapCpos(g, f);
    var c := if b.cpos == g.cyc then b.(cpos := 0) else b;
    AvailSame(b, c);
    SetLimitsPlaces(g, c);
    AvailSame(c, SetLimits(g, c));
  }

  lemma WrapCpos(g: Config, f: Finder)
    requires Moved(g, f)
    ensures (if f.cpos == g.cyc then 0 else f.cpos) == f.cpos % g.cyc == f.buffer % g.cyc
    ensures 0 <= f.cpos % g.cyc < g.cyc
  {
    if f.cpos == g.cyc {
      ModUnique(f.cpos, g.cyc, 1, 0);
    } else {
      ModUnique(f.cpos, g.cyc, 0, f.cpos);
    }
  }

  lemma CposNext(c: int, b: int, cyc: int)
    requires 0 <= c < cyc && 0 <= b && c == b % cyc
    ensures (c + 1) % cyc == (b + 1) % cyc == if c + 1 == cyc then 0 else c + 1
  {
    var q := b / cyc;
    assert b == cyc * q + c;
    if c + 1 == cyc {
      assert cyc * (q + 1) == cyc * q + cyc;
      ModUnique(b + 1, cyc, q + 1, 0);
      ModUnique(c + 1, cyc, 1, 0);
    } else {
      ModUnique(b + 1, cyc, q, c + 1);
      ModUnique(c + 1, cyc, 0, c + 1);
    }
  }

  // What the move takes off all positions.
  function MoveSub(g: Config, f: Finder): int {
    if f.pos + 1 == MAX_POS then SubValue(g, f.(pos := f.pos + 1)) else 0
  }

  lemma NormNothing(refs: seq<int>)
    requires forall k :: 0 <= k < |refs| ==> 0 <= refs[k]
    ensures NormRefs(0, refs) == refs
  {
  }

  // There is input left, so there is some available.
  lemma SomeAvail(g: Config, f: Finder)
    requires Placed(g, f) && f.buffer < |g.text|
    ensures 0 < Avail(f) && (Avail(f) <= g.keepAfter ==> f.posLimit == f.pos + 1)
  {
  }

  // The current place left behind, the limits not yet looked at.
  function Ahead(f: Finder): Finder {
    f.(cpos := f.cpos + 1, buffer := f.buffer + 1, pos := (f.pos + 1) % TWO32)
  }

  lemma AheadAvail(f: Finder)
    requires 0 <= f.pos < MAX_POS && 0 <= f.streamPos < TWO32 && 0 < Avail(f)
    ensures Ahead(f).pos == f.pos + 1 && Avail(Ahead(f)) == Avail(f) - 1
  {
    AvailSmall(f);
  }

  lemma AheadMoved(g: Config, f: Finder)
    requires Placed(g, f) && f.buffer < |g.text|
    ensures Moved(g, Ahead(f)) && Ahead(f).pos == f.pos + 1 && Avail(Ahead(f)) == Avail(f) - 1
  {
    hide Avail;
    SomeAvail(g, f);
    AheadAvail(f);
    CposNext(f.cpos, f.buffer, g.cyc);
  }

  lemma AheadPlaced(g: Config, f: Finder)
    requires Placed(g, f) && f.buffer < |g.text| && f.pos + 1 != f.posLimit
    ensures Placed(g, Ahead(f)) && f.pos + 1 < MAX_POS && WindowOf(g, Ahead(f)) == Later(WindowOf(g, f))
  {
    hide Avail;
    SomeAvail(g, f);
    AheadMoved(g, f);
    CposNext(f.cpos, f.buffer, g.cyc);
  }

  /** Moving on is one place further in the window, with all references renormalised when positions run out. */
  lemma MovePosIs(g: Config, f: Finder)
    requires Placed(g, f) && f.buffer < |g.text|
    requires (forall e :: 0 <= e < |f.hash| ==> 0 <= f.hash[e]) && (forall k :: 0 <= k < |f.son| ==> 0 <= f.son[k])
    ensures var h, sub := MovePos(g, f), MoveSub(g, f);
            && Placed(g, h) && 0 <= sub <= f.pos + 1 - g.cyc
            && WindowOf(g, h) == Lowered(Later(WindowOf(g, f)), sub)
            && h.hash == NormRefs(sub, f.hash) && h.son == NormRefs(sub, f.son)
  {
    hide Avail, NormRefs, CheckLimits, SubValue, Placed, Moved;
    var m := Ahead(f);
    AheadMoved(g, f);
    NormNothing(f.hash);
    NormNothing(f.son);
    PlacedBounds(g, f);
    if m.pos == m.posLimit {
      CheckLimitsPlaces(g, m);
      CposNext(f.cpos, f.buffer, g.cyc);
      if m.pos == MAX_POS {
        SubValueFits(g, m);
        SubValueSame(g, m, f.(pos := f.pos + 1));
      }
    } else {
      AheadPlaced(g, f);
    }
  }

  lemma PlacedBounds(g: Config, f: Finder)
    requires Placed(g, f)
    ensures WfConfig(g) && 0 <= f.cpos < g.cyc <= f.pos && 0 <= f.buffer && f.cpos == f.buffer % g.cyc
  {
  }

  lemma SubValueSame(g: Config, f: Finder, h: Finder)
    requires f.pos == h.pos
    ensures SubValue(g, f) == SubValue(g, h)
  {
  }

  /** Entering a place keeps all references good, those to the new position included once the window has moved. */
  lemma EnteredGood(g: Config, f: Finder)
    requires Valid(g, f) && f.buffer < |g.text|
    ensures var e, w := Entered(g, f), Later(WindowOf(g, f));
            && WfWindow(w) && LinksFit(g, w, e.hash, e.son) && e == f.(hash := e.hash, son := e.son)
            && (forall k :: 0 <= k < |e.hash| ==> 0 <= e.hash[k]) && (forall k :: 0 <= k < |e.son| ==> 0 <= e.son[k])
  {
    hide Avail, Heads, GoodSon, GoodChain, SonLoop;
    var e, w := Entered(g, f), WindowOf(g, f);
    SonEntered(g, f);
    if f.lenLimit < MinLen(g.kind) {
      HashLater(w, f.hash);
    } else {
      forall k | 0 <= k < |e.hash|
        ensures GoodRef(Later(w), e.hash[k])
      {
        RefLaterOrCur(w, f.hash[k]);
      }
    }
  }

  lemma HashLater(w: Window, refs: seq<int>)
    requires WfWindow(w) && WfWindow(Later(w)) && forall k :: 0 <= k < |refs| ==> GoodRef(w, refs[k])
    ensures forall k :: 0 <= k < |refs| ==> GoodRef(Later(w), refs[k])
  {
    forall k | 0 <= k < |refs|
      ensures GoodRef(Later(w), refs[k])
    {
      RefLater(w, refs[k]);
    }
  }

  lemma RefLaterOrCur(w: Window, r: int)
    requires WfWindow(w) && WfWindow(Later(w)) && GoodRef(w, r)
    ensures GoodRef(Later(w), r) && (Fits(w.text, w.cur, w.min) ==> GoodRef(Later(w), w.pos))
  {
  }

  lemma SonEntered(g: Config, f: Finder)
    requires Valid(g, f) && f.buffer < |g.text|
    ensures var e, w := Entered(g, f), Later(WindowOf(g, f));
            && WfWindow(w) && (if g.kind.Hc4? then GoodChain(w, e.son) else GoodSon(w, e.son))
            && forall k :: 0 <= k < |e.son| ==> 0 <= e.son[k]
  {
    hide Avail, Heads, SonLoop, GoodRef;
    var w := WindowOf(g, f);
    if MinLen(g.kind) <= f.lenLimit {
      var r := f.hash[MainHead(g, f.buffer)];
      if g.kind.Hc4? {
        PutLink(w, f.son, r);
        ChainLater(w, Linked(g, f));
      } else {
        GoodLater(w, Linked(g, f));
      }
    } else if g.kind.Hc4? {
      ChainLater(w, f.son);
    } else {
      GoodLater(w, f.son);
    }
  }

  lemma NormFit(g: Config, w: Window, sub: int, hash: seq<int>, son: seq<int>)
    requires WfWindow(w) && 0 <= sub <= w.pos - w.cyc && LinksFit(g, w, hash, son)
    ensures WfWindow(Lowered(w, sub)) && LinksFit(g, Lowered(w, sub), NormRefs(sub, hash), NormRefs(sub, son))
  {
    hide GoodRef, GoodSon, GoodChain;
    forall k | 0 <= k < |hash|
      ensures GoodRef(Lowered(w, sub), NormRefs(sub, hash)[k])
    {
      NormKeeps(w, sub, hash[k]);
    }
    if g.kind.Hc4? {
      ChainNorm(w, sub, son);
    } else {
      GoodNorm(w, sub, son);
    }
  }

  /** Every step keeps the invariant and moves on by one place. */
  lemma StepValid(g: Config, f: Finder)
    requires Valid(g, f) && f.buffer < |g.text|
    ensures Valid(g, Step(g, f)) && Step(g, f).buffer == f.buffer + 1
    ensures WindowOf(g, Step(g, f)) == Lowered(Later(WindowOf(g, f)), MoveSub(g, f)) && 0 <= MoveSub(g, f) <= f.pos + 1 - g.cyc
    ensures Step(g, f).hash == NormRefs(MoveSub(g, f), Entered(g, f).hash) && Step(g, f).son == NormRefs(MoveSub(g, f), Entered(g, f).son)
  {
    hide Entered, MovePos, Avail, MoveSub, NormRefs, LinksFit;
    EnteredGood(g, f);
    var e := Entered(g, f);
    PlacedSame(g, f, e);
    MovePosIs(g, e);
    MoveSubSame(g, f, e);
    NormFit(g, Later(WindowOf(g, f)), MoveSub(g, f), e.hash, e.son);
  }

  lemma MoveSubSame(g: Config, f: Finder, h: Finder)
    requires f.pos == h.pos
    ensures MoveSub(g, f) == MoveSub(g, h)
  {
    SubValueSame(g, f.(pos := f.pos + 1), h.(pos := h.pos + 1));
  }

  lemma PlacedSame(g: Config, f: Finder, h: Finder)
    requires Placed(g, f) && h == f.(hash := h.hash, son := h.son)
    ensures Placed(g, h)
  {
    AvailSame(f, h);
  }
}
