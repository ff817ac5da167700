/** Position numbers, and with them every renormalisation, cannot be observed: finders that differ in them alone report the same for ever. */
module FinderTwins {
  import opened Primitives
  import opened LzHash
  import opened MatchText
  import opened SearchTree
  import opened SonTree
  import opened SonMoves
  import opened SonChain
  import opened FinderState
  import opened FinderReports

  predicate SameHash(w: Window, v: Window, hash: seq<int>, table: seq<int>) {
    |hash| == |table| && forall e :: 0 <= e < |hash| ==> SameRef(w, v, hash[e], table[e])
  }

  predicate SameTables(g: Config, w: Window, v: Window, hash: seq<int>, son: seq<int>, table: seq<int>, out: seq<int>)
    requires Twin(w, v) && LinksFit(g, w, hash, son) && LinksFit(g, v, table, out)
  {
    && SameHash(w, v, hash, table)
    && if g.kind.Hc4? then SameChain(w, v, son, out) else SameSon(w, v, son, out)
  }

  /** The two finders are at the same place, and all their references are to the same places. */
  predicate Twins(g: Config, f: Finder, h: Finder) {
    && Valid(g, f) && Valid(g, h) && f.buffer == h.buffer && Twin(WindowOf(g, f), WindowOf(g, h))
    && SameTables(g, WindowOf(g, f), WindowOf(g, h), f.hash, f.son, h.hash, h.son)
  }

  lemma TwinLimits(g: Config, f: Finder, h: Finder)
    requires Placed(g, f) && Placed(g, h) && f.buffer == h.buffer
    ensures f.lenLimit == h.lenLimit && f.cpos == h.cpos
  {
  }

  // ---------- the same reports ----------

  lemma SameCandidate(g: Config, f: Finder, h: Finder, e: int)
    requires Twins(g, f, h) && Searching(g, f) && Searching(g, h) && 0 <= e < |f.hash|
    ensures |f.hash| == |h.hash| && Candidate(g, f, e) == Candidate(g, h, e)
    ensures Candidate(g, f, e) ==>
              f.pos - f.hash[e] == h.pos - h.hash[e] && forall len :: 0 <= len <= f.lenLimit ==> MatchOf(g, f, e, len) == MatchOf(g, h, e, len)
  {
    hide Avail, SameSon, SameChain, GoodSon, GoodChain, Extend;
    TwinLimits(g, f, h);
    assert SameRef(WindowOf(g, f), WindowOf(g, h), f.hash[e], h.hash[e]);
  }

  lemma SameSeeds(g: Config, f: Finder, h: Finder)
    requires Twins(g, f, h) && Searching(g, f) && Searching(g, h)
    ensures Seeds(g, f) == Seeds(g, h) && StartLen(g, f) == StartLen(g, h)
  {
    hide Twins, Candidate, MatchOf, Heads, LinksFit, Avail;
    SameSize(g, f, h);
    if !g.kind.Bt2? {
      var hd := Heads(g, f.buffer);
      ShortHeads(g, f);
      SameCandidate(g, f, h, hd[0]);
      if !g.kind.Bt3? {
        SameCandidate(g, f, h, hd[1]);
        if Candidate(g, f, hd[1]) {
          SameDiffers(g, f, h, hd[0], hd[1]);
        }
      }
    }
  }

  lemma SameSize(g: Config, f: Finder, h: Finder)
    requires Twins(g, f, h)
    ensures |f.hash| == |h.hash| == TableSize(g) && f.buffer == h.buffer && f.lenLimit == h.lenLimit && f.cpos == h.cpos
  {
    TwinLimits(g, f, h);
  }

  // Whether two entries are different places does not depend on the numbering.
  lemma SameDiffers(g: Config, f: Finder, h: Finder, a: int, b: int)
    requires Twins(g, f, h) && Searching(g, f) && Searching(g, h) && 0 <= a < |f.hash| && 0 <= b < |f.hash| && Candidate(g, f, b)
    ensures |f.hash| == |h.hash| && (f.hash[a] != f.hash[b] <==> h.hash[a] != h.hash[b])
  {
    hide Avail, SameSon, SameChain, GoodSon, GoodChain;
    assert SameRef(WindowOf(g, f), WindowOf(g, h), f.hash[a], h.hash[a]) && SameRef(WindowOf(g, f), WindowOf(g, h), f.hash[b], h.hash[b]);
  }

  lemma MainPre(g: Config, f: Finder)
    requires Searching(g, f)
    ensures var r := f.hash[MainHead(g, f.buffer)];
            && GoodRef(WindowOf(g, f), r)
            && (!g.kind.Hc4? ==> LoopPre(WindowOf(g, f), f.lenLimit, f.son, 2 * f.cpos + 1, 2 * f.cpos, r, 0, 0))
            && (g.kind.Hc4? ==> GoodChain(WindowOf(g, f), f.son) && GoodChain(WindowOf(g, f), f.son[f.cpos := r]))
  {
    hide Avail, Heads;
    if g.kind.Hc4? {
      PutLink(WindowOf(g, f), f.son, f.hash[MainHead(g, f.buffer)]);
    }
  }

  lemma SameMain(g: Config, f: Finder, h: Finder)
    requires Twins(g, f, h) && Searching(g, f) && Searching(g, h)
    ensures StartLen(g, f) == StartLen(g, h)
    ensures StartLen(g, f) < f.lenLimit ==> MainSearch(g, f) == MainSearch(g, h)
    ensures Twin(WindowOf(g, f), WindowOf(g, h))
    ensures !g.kind.Hc4? ==>
              TwinDone(WindowOf(g, f), WindowOf(g, h), f.son, h.son, Linked(g, f), Linked(g, h), 2 * f.cpos + 1, 2 * f.cpos)
    ensures g.kind.Hc4? ==>
              && GoodChain(WindowOf(g, f), Linked(g, f)) && GoodChain(WindowOf(g, h), Linked(g, h))
              && SameChain(WindowOf(g, f), WindowOf(g, h), Linked(g, f), Linked(g, h))
              && SameRef(WindowOf(g, f), WindowOf(g, h), Linked(g, f)[f.cpos], Linked(g, h)[f.cpos])
  {
    hide Avail, Heads, Seeds, SonLoop, FoundLoop, ChainLoop, GoodSon, GoodChain, GoodRef, SameSon, SameChain, StartLen, TwinDone;
    SameSeeds(g, f, h);
    SameSize(g, f, h);
    MainPre(g, f);
    MainPre(g, h);
    var w, v := WindowOf(g, f), WindowOf(g, h);
    var m := MainHead(g, f.buffer);
    var start := StartLen(g, f);
    StartPositive(g, f);
    if g.kind.Hc4? {
      PutSameLink(w, v, f.son, h.son, f.hash[m], h.hash[m]);
      ChainSize(w, v, f.son, h.son);
      if start < f.lenLimit {
        ChainSame(w, v, f.lenLimit, f.son[f.cpos := f.hash[m]], h.son[f.cpos := h.hash[m]], f.hash[m], h.hash[m], Visits(g.cut), start);
      }
    } else {
      TwinLength(w, v, f.son, h.son);
      LoopSame(w, v, f.lenLimit, f.son, h.son, 2 * f.cpos + 1, 2 * f.cpos, f.hash[m], h.hash[m], 0, 0, g.cut, start);
    }
  }

  lemma StartPositive(g: Config, f: Finder)
    requires Searching(g, f)
    ensures 1 <= StartLen(g, f)
  {
  }

  lemma ChainSize(w: Window, v: Window, son: seq<int>, out: seq<int>)
    requires Twin(w, v) && GoodChain(w, son) && GoodChain(v, out)
    ensures |son| == |out| == w.cyc
  {
  }

  /** Twins report the same matches. */
  lemma TwinReports(g: Config, f: Finder, h: Finder)
    requires Twins(g, f, h) && f.buffer < |g.text|
    ensures Report(g, f) == Report(g, h)
  {
    hide Seeds, MainSearch, StartLen, Linked, Twins, TwinDone, SameChain, GoodChain, LinksFit;
    SameSize(g, f, h);
    TwinValid(g, f, h);
    if MinLen(g.kind) <= f.lenLimit {
      SearchingNow(g, f);
      SearchingNow(g, h);
      SameSeeds(g, f, h);
      SameMain(g, f, h);
    }
  }

  lemma TwinValid(g: Config, f: Finder, h: Finder)
    requires Twins(g, f, h)
    ensures Valid(g, f) && Valid(g, h)
  {
  }

  lemma SearchingNow(g: Config, f: Finder)
    requires Valid(g, f) && MinLen(g.kind) <= f.lenLimit
    ensures Searching(g, f)
  {
  }

  // ---------- the same steps ----------

  lemma SameLater(w: Window, v: Window, r: int, q: int)
    requires Twin(w, v) && SameRef(w, v, r, q) && WfWindow(Later(w)) && WfWindow(Later(v))
    ensures Twin(Later(w), Later(v)) && SameRef(Later(w), Later(v), r, q) && SameRef(Later(w), Later(v), w.pos, v.pos)
  {
  }

  lemma SameLowered(w: Window, v: Window, a: int, b: int, r: int, q: int)
    requires Twin(w, v) && SameRef(w, v, r, q) && GoodRef(w, r) && GoodRef(v, q) && 0 <= a <= w.pos - w.cyc && 0 <= b <= v.pos - v.cyc
    ensures Twin(Lowered(w, a), Lowered(v, b)) && SameRef(Lowered(w, a), Lowered(v, b), NormRef(a, r), NormRef(b, q))
  {
    NormKeeps(w, a, r);
    NormKeeps(v, b, q);
  }

  lemma HashSame(g: Config, f: Finder, h: Finder)
    requires Twins(g, f, h) && f.buffer < |g.text|
    ensures WfWindow(Later(WindowOf(g, f))) && WfWindow(Later(WindowOf(g, h)))
    ensures SameHash(Later(WindowOf(g, f)), Later(WindowOf(g, h)), Entered(g, f).hash, Entered(g, h).hash)
  {
    hide Avail, Heads, Linked, SameSon, SameChain, GoodSon, GoodChain, GoodRef;
    SameSize(g, f, h);
    LaterWf(g, f);
    LaterWf(g, h);
    var w, v := WindowOf(g, f), WindowOf(g, h);
    forall e | 0 <= e < |f.hash|
      ensures SameRef(Later(w), Later(v), Entered(g, f).hash[e], Entered(g, h).hash[e])
    {
      SameLater(w, v, f.hash[e], h.hash[e]);
    }
  }

  lemma SonSameLater(w: Window, v: Window, son: seq<int>, out: seq<int>)
    requires Twin(w, v) && WfWindow(Later(w)) && WfWindow(Later(v)) && GoodSon(w, son) && GoodSon(v, out) && SameSon(w, v, son, out)
    requires CurGood(w, son) && CurGood(v, out)
    requires Fits(w.text, w.cur, w.min) ==>
               SameRef(w, v, son[2 * w.cpos], out[2 * w.cpos]) && SameRef(w, v, son[2 * w.cpos + 1], out[2 * w.cpos + 1])
    ensures Twin(Later(w), Later(v)) && GoodSon(Later(w), son) && GoodSon(Later(v), out) && SameSon(Later(w), Later(v), son, out)
  {
    hide GoodRef, SameRef;
    GoodLater(w, son);
    GoodLater(v, out);
    forall i | 0 <= i < w.cur + 1 && Known(Later(w), i)
      ensures SameRef(Later(w), Later(v), son[2 * SlotAt(Later(w), i)], out[2 * SlotAt(Later(w), i)])
      ensures SameRef(Later(w), Later(v), son[2 * SlotAt(Later(w), i) + 1], out[2 * SlotAt(Later(w), i) + 1])
    {
      SlotLater(w, i);
      assert i < w.cur ==> Known(w, i);
      var s := 2 * SlotAt(w, i);
      SameLater(w, v, son[s], out[s]);
      SameLater(w, v, son[s + 1], out[s + 1]);
    }
  }

  lemma ChainSameLater(w: Window, v: Window, son: seq<int>, out: seq<int>)
    requires Twin(w, v) && WfWindow(Later(w)) && WfWindow(Later(v)) && GoodChain(w, son) && GoodChain(v, out) && SameChain(w, v, son, out)
    requires Fits(w.text, w.cur, w.min) ==> GoodRef(w, son[w.cpos]) && GoodRef(v, out[w.cpos]) && SameRef(w, v, son[w.cpos], out[w.cpos])
    ensures Twin(Later(w), Later(v)) && GoodChain(Later(w), son) && GoodChain(Later(v), out) && SameChain(Later(w), Later(v), son, out)
  {
    hide GoodRef, SameRef;
    ChainLater(w, son);
    ChainLater(v, out);
    forall i | 0 <= i < w.cur + 1 && Known(Later(w), i)
      ensures SameRef(Later(w), Later(v), son[SlotAt(Later(w), i)], out[SlotAt(Later(w), i)])
    {
      SlotLater(w, i);
      assert i < w.cur ==> Known(w, i);
      SameLater(w, v, son[SlotAt(w, i)], out[SlotAt(w, i)]);
    }
  }

  // The links of twins once the current place is entered.
  lemma SonEnteredSame(g: Config, f: Finder, h: Finder)
    requires Twins(g, f, h) && f.buffer < |g.text|
    ensures var w, v := Later(WindowOf(g, f)), Later(WindowOf(g, h));
            && Twin(w, v)
            && if g.kind.Hc4? then
                 GoodChain(w, Entered(g, f).son) && GoodChain(v, Entered(g, h).son) && SameChain(w, v, Entered(g, f).son, Entered(g, h).son)
               else GoodSon(w, Entered(g, f).son) && GoodSon(v, Entered(g, h).son) && SameSon(w, v, Entered(g, f).son, Entered(g, h).son)
  {
    hide Avail, Heads, GoodSon, GoodChain, GoodRef, SameSon, SameChain, SonLoop, SameHash, SameRef, Linked, TwinDone, SetAll;
    var w, v := WindowOf(g, f), WindowOf(g, h);
    SameSize(g, f, h);
    LaterWf(g, f);
    LaterWf(g, h);
    if MinLen(g.kind) <= f.lenLimit {
      LinkedSame(g, f, h);
    } else {
      UnenteredFits(g, f);
      if g.kind.Hc4? {
        ChainSameLater(w, v, f.son, h.son);
      } else {
        TwinLength(w, v, f.son, h.son);
        SonSizes(w, f.son);
        SonSameLater(w, v, f.son, h.son);
      }
    }
  }

  lemma UnenteredFits(g: Config, f: Finder)
    requires Placed(g, f) && f.buffer < |g.text| && f.lenLimit < MinLen(g.kind)
    ensures !Fits(g.text, f.buffer, MinLen(g.kind))
  {
  }

  lemma SonSizes(w: Window, son: seq<int>)
    requires WfWindow(w) && GoodSon(w, son)
    ensures |son| == 2 * w.cyc
  {
  }

  lemma LinkedSame(g: Config, f: Finder, h: Finder)
    requires Twins(g, f, h) && f.buffer < |g.text| && MinLen(g.kind) <= f.lenLimit
    ensures Searching(g, f) && Searching(g, h)
    ensures var w, v := Later(WindowOf(g, f)), Later(WindowOf(g, h));
            && Twin(w, v)
            && if g.kind.Hc4? then GoodChain(w, Linked(g, f)) && GoodChain(v, Linked(g, h)) && SameChain(w, v, Linked(g, f), Linked(g, h))
               else GoodSon(w, Linked(g, f)) && GoodSon(v, Linked(g, h)) && SameSon(w, v, Linked(g, f), Linked(g, h))
  {
    hide Avail, Heads, GoodSon, GoodChain, GoodRef, SameSon, SameChain, SonLoop, SameHash, SameRef, Linked, TwinDone;
    var w, v := WindowOf(g, f), WindowOf(g, h);
    LaterWf(g, f);
    LaterWf(g, h);
    SearchingNow(g, f);
    SearchingNow(g, h);
    if g.kind.Hc4? {
      SameSize(g, f, h);
      SameMain(g, f, h);
      LinkedCur(g, f);
      LinkedCur(g, h);
      ChainSameLater(w, v, Linked(g, f), Linked(g, h));
    } else {
      LinkedSameSon(g, f, h);
    }
  }

  lemma LinkedSameSon(g: Config, f: Finder, h: Finder)
    requires Twins(g, f, h) && f.buffer < |g.text| && MinLen(g.kind) <= f.lenLimit && !g.kind.Hc4? && Searching(g, f) && Searching(g, h)
    ensures var w, v := Later(WindowOf(g, f)), Later(WindowOf(g, h));
            Twin(w, v) && GoodSon(w, Linked(g, f)) && GoodSon(v, Linked(g, h)) && SameSon(w, v, Linked(g, f), Linked(g, h))
  {
    hide Avail, Heads, GoodSon, GoodRef, SameSon, SonLoop, SameHash, SameRef, Linked, TwinDone;
    var w, v := WindowOf(g, f), WindowOf(g, h);
    SameSize(g, f, h);
    LaterWf(g, f);
    LaterWf(g, h);
    SameMain(g, f, h);
    LinkedCur(g, f);
    LinkedCur(g, h);
    SonSizes(w, f.son);
    SonSizes(v, h.son);
    SonSizes(w, Linked(g, f));
    SonSizes(v, Linked(g, h));
    TwinCur(g, f, h);
    SonSame(w, v, f.son, h.son, Linked(g, f), Linked(g, h), 2 * f.cpos + 1, 2 * f.cpos);
    SonSameLater(w, v, Linked(g, f), Linked(g, h));
  }

  lemma SonSame(w: Window, v: Window, son: seq<int>, out: seq<int>, son': seq<int>, out': seq<int>, p0: int, p1: int)
    requires Twin(w, v) && |son| == |out| == |son'| == |out'| && TwinDone(w, v, son, out, son', out', p0, p1)
    ensures GoodSon(w, son') && GoodSon(v, out') && SameSon(w, v, son', out')
  {
  }

  /** What twins have entered is the same, in the windows moved on. */
  lemma EnteredSame(g: Config, f: Finder, h: Finder)
    requires Twins(g, f, h) && f.buffer < |g.text|
    ensures var w, v := Later(WindowOf(g, f)), Later(WindowOf(g, h));
            && Twin(w, v) && LinksFit(g, w, Entered(g, f).hash, Entered(g, f).son) && LinksFit(g, v, Entered(g, h).hash, Entered(g, h).son)
            && SameTables(g, w, v, Entered(g, f).hash, Entered(g, f).son, Entered(g, h).hash, Entered(g, h).son)
  {
    hide Avail, Heads, GoodSon, GoodChain, GoodRef, SameSon, SameChain, SameHash, SameRef, Entered;
    EnteredGood(g, f);
    EnteredGood(g, h);
    HashSame(g, f, h);
    SonEnteredSame(g, f, h);
  }

  lemma LinkedCur(g: Config, f: Finder)
    requires Searching(g, f)
    ensures var w := WindowOf(g, f);
            if g.kind.Hc4? then GoodChain(w, Linked(g, f)) && GoodRef(w, Linked(g, f)[w.cpos])
            else GoodSon(w, Linked(g, f)) && CurGood(w, Linked(g, f))
  {
    hide Avail, Heads;
    MainPre(g, f);
  }

  lemma TwinCur(g: Config, f: Finder, h: Finder)
    requires Twins(g, f, h) && Searching(g, f) && Searching(g, h) && !g.kind.Hc4?
    requires var w, v := WindowOf(g, f), WindowOf(g, h);
             && |f.son| == |h.son| == |Linked(g, f)| == |Linked(g, h)| == 2 * g.cyc
             && TwinDone(w, v, f.son, h.son, Linked(g, f), Linked(g, h), 2 * f.cpos + 1, 2 * f.cpos)
    ensures var w, v := WindowOf(g, f), WindowOf(g, h);
            && 0 <= 2 * f.cpos < 2 * f.cpos + 1 < |Linked(g, f)| == |Linked(g, h)|
            && SameRef(w, v, Linked(g, f)[2 * f.cpos], Linked(g, h)[2 * f.cpos])
            && SameRef(w, v, Linked(g, f)[2 * f.cpos + 1], Linked(g, h)[2 * f.cpos + 1])
  {
    hide Linked, GoodSon, SameSon, Avail, SameRef;
  }

  lemma NormSame(g: Config, w: Window, v: Window, hash: seq<int>, son: seq<int>, table: seq<int>, out: seq<int>, a: int, b: int)
    requires Twin(w, v) && LinksFit(g, w, hash, son) && LinksFit(g, v, table, out) && SameTables(g, w, v, hash, son, table, out)
    requires 0 <= a <= w.pos - w.cyc && 0 <= b <= v.pos - v.cyc
    ensures Twin(Lowered(w, a), Lowered(v, b))
    ensures LinksFit(g, Lowered(w, a), NormRefs(a, hash), NormRefs(a, son)) && LinksFit(g, Lowered(v, b), NormRefs(b, table), NormRefs(b, out))
    ensures SameTables(g, Lowered(w, a), Lowered(v, b), NormRefs(a, hash), NormRefs(a, son), NormRefs(b, table), NormRefs(b, out))
  {
    hide GoodRef, SameRef;
    NormFit(g, w, a, hash, son);
    NormFit(g, v, b, table, out);
    var w', v' := Lowered(w, a), Lowered(v, b);
    assert Twin(w', v');
    forall e | 0 <= e < |hash|
      ensures SameRef(w', v', NormRefs(a, hash)[e], NormRefs(b, table)[e])
    {
      SameLowered(w, v, a, b, hash[e], table[e]);
    }
    forall i | 0 <= i < w.cur && Known(w', i)
      ensures if g.kind.Hc4? then SameRef(w', v', NormRefs(a, son)[SlotAt(w', i)], NormRefs(b, out)[SlotAt(w', i)])
              else SameRef(w', v', NormRefs(a, son)[2 * SlotAt(w', i)], NormRefs(b, out)[2 * SlotAt(w', i)])
                   && SameRef(w', v', NormRefs(a, son)[2 * SlotAt(w', i) + 1], NormRefs(b, out)[2 * SlotAt(w', i) + 1])
    {
      assert Known(w, i) && Known(v, i) && SlotAt(w', i) == SlotAt(w, i) == SlotAt(v, i);
      SlotInjective(w, i, i);
      var s := SlotAt(w, i);
      if g.kind.Hc4? {
        SameLowered(w, v, a, b, son[s], out[s]);
      } else {
        SameLowered(w, v, a, b, son[2 * s], out[2 * s]);
        SameLowered(w, v, a, b, son[2 * s + 1], out[2 * s + 1]);
      }
    }
  }

  /** Twins stay twins. */
  lemma TwinSteps(g: Config, f: Finder, h: Finder)
    requires Twins(g, f, h) && f.buffer < |g.text|
    ensures Twins(g, Step(g, f), Step(g, h)) && Step(g, f).buffer == f.buffer + 1
  {
    hide LinksFit, SameTables, Step, Entered, MoveSub, NormRefs, Placed;
    TwinValid(g, f, h);
    StepValid(g, f);
    StepValid(g, h);
    EnteredSame(g, f, h);
    NormSame(g, Later(WindowOf(g, f)), Later(WindowOf(g, h)), Entered(g, f).hash, Entered(g, f).son,
             Entered(g, h).hash, Entered(g, h).son, MoveSub(g, f), MoveSub(g, h));
  }
}
