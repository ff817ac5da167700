/**
 What the tables of the chain finder stand for: from every main head, a chain of the places of the window that have
 it, newest first, none left out. A search therefore misses only what lies beyond its budget.
 */
module ChainIndex {
  import opened Primitives
  import opened MatchText
  import opened SearchTree
  import opened SonTree
  import opened SonMoves
  import opened SonChain
  import opened FinderState
  import opened FinderIndex
  import opened FinderReports
  import opened FinderRuns

  /** Among the places before i, r refers to the newest one with main head h, or the window holds none. */
  ghost predicate Newest(g: Config, w: Window, r: int, i: int, h: int)
    requires Views(g, w) && GoodRef(w, r)
  {
    && (InWindow(w, r) ==> IndexOf(w, r) < i && MainHead(g, IndexOf(w, r)) == h)
    && forall j :: Known(w, j) && j < i && MainHead(g, j) == h ==> InWindow(w, r) && j <= IndexOf(w, r)
  }

  // Every place in the window is linked to the newest one before it with its head.
  ghost predicate Chained(g: Config, w: Window, son: seq<int>)
    requires Views(g, w) && GoodChain(w, son)
  {
    forall i :: Known(w, i) ==> Newest(g, w, son[SlotAt(w, i)], i, MainHead(g, i))
  }

  /** The heads refer to the newest places that have them. */
  ghost predicate Headed(g: Config, w: Window, hash: seq<int>)
    requires Views(g, w) && |hash| == TableSize(g) && forall e :: 0 <= e < |hash| ==> GoodRef(w, hash[e])
  {
    forall h :: FixedSize(g.kind) <= h < |hash| ==> Newest(g, w, hash[h], w.cur, h)
  }

  ghost predicate Linear(g: Config, w: Window, hash: seq<int>, son: seq<int>)
    requires Views(g, w) && LinksFit(g, w, hash, son) && g.kind.Hc4?
  {
    Headed(g, w, hash) && Chained(g, w, son)
  }

  // ---------- every step keeps the chains ----------

  lemma NewestLater(g: Config, w: Window, r: int, i: int, h: int)
    requires Views(g, w) && WfWindow(Later(w)) && GoodRef(w, r) && Newest(g, w, r, i, h) && i <= w.cur
    ensures GoodRef(Later(w), r) && Newest(g, Later(w), r, i, h)
  {
    hide MainHead;
    forall j | Known(Later(w), j) && j < i && MainHead(g, j) == h
      ensures InWindow(Later(w), r) && j <= IndexOf(Later(w), r)
    {
      assert Known(w, j);
    }
  }

  lemma NewestPast(g: Config, w: Window, r: int, h: int)
    requires Views(g, w) && WfWindow(Later(w)) && GoodRef(w, r) && Newest(g, w, r, w.cur, h)
    requires Fits(w.text, w.cur, w.min) ==> MainHead(g, w.cur) != h
    ensures GoodRef(Later(w), r) && Newest(g, Later(w), r, w.cur + 1, h)
  {
    hide MainHead;
    NewestLater(g, w, r, w.cur, h);
  }

  lemma NewestCur(g: Config, w: Window)
    requires Views(g, w) && WfWindow(Later(w)) && Fits(w.text, w.cur, w.min)
    ensures GoodRef(Later(w), w.pos) && Newest(g, Later(w), w.pos, w.cur + 1, MainHead(g, w.cur))
  {
    hide MainHead;
  }

  lemma NewestNorm(g: Config, w: Window, sub: int, r: int, i: int, h: int)
    requires Views(g, w) && 0 <= sub <= w.pos - w.cyc && GoodRef(w, r) && Newest(g, w, r, i, h)
    ensures Views(g, Lowered(w, sub)) && GoodRef(Lowered(w, sub), NormRef(sub, r))
    ensures Newest(g, Lowered(w, sub), NormRef(sub, r), i, h)
  {
    hide MainHead, NormRef;
    NormKeeps(w, sub, r);
    forall j | Known(Lowered(w, sub), j)
      ensures Known(w, j)
    {
    }
  }

  lemma HeadedEnter(g: Config, f: Finder)
    requires Valid(g, f) && f.buffer < |g.text| && Headed(g, WindowOf(g, f), f.hash)
    ensures var w := Later(WindowOf(g, f));
            && Views(g, w) && (forall e :: 0 <= e < |Entered(g, f).hash| ==> GoodRef(w, Entered(g, f).hash[e]))
            && Headed(g, w, Entered(g, f).hash)
  {
    hide Newest, Heads, GoodRef, Linked, Avail, GoodChain, GoodSon;
    EnteredGood(g, f);
    var w, hash := WindowOf(g, f), Entered(g, f).hash;
    EnteredWhen(g, f);
    forall h | FixedSize(g.kind) <= h < |hash|
      ensures Newest(g, Later(w), hash[h], w.cur + 1, h)
    {
      if MinLen(g.kind) <= f.lenLimit {
        SetAllMain(f.hash, Heads(g, f.buffer), f.pos, FixedSize(g.kind));
      }
      if MinLen(g.kind) <= f.lenLimit && h == MainHead(g, f.buffer) {
        NewestCur(g, w);
      } else {
        NewestPast(g, w, f.hash[h], h);
      }
    }
  }

  lemma ChainedEnter(g: Config, f: Finder)
    requires Valid(g, f) && f.buffer < |g.text| && g.kind.Hc4? && Linear(g, WindowOf(g, f), f.hash, f.son)
    ensures var w := Later(WindowOf(g, f));
            Views(g, w) && GoodChain(w, Entered(g, f).son) && Chained(g, w, Entered(g, f).son)
  {
    hide Newest, Heads, GoodRef, Avail, GoodChain, SetAll;
    EnteredGood(g, f);
    EnteredWhen(g, f);
    var w, son := WindowOf(g, f), Entered(g, f).son;
    forall i | Known(Later(w), i)
      ensures 0 <= SlotAt(Later(w), i) < |son| && GoodRef(Later(w), son[SlotAt(Later(w), i)])
      ensures Newest(g, Later(w), son[SlotAt(Later(w), i)], i, MainHead(g, i))
    {
      LinkEnter(g, f, i);
    }
  }

  lemma LinkEnter(g: Config, f: Finder, i: int)
    requires Valid(g, f) && f.buffer < |g.text| && g.kind.Hc4? && Linear(g, WindowOf(g, f), f.hash, f.son)
    requires Known(Later(WindowOf(g, f)), i)
    ensures var w := Later(WindowOf(g, f));
            && Views(g, w) && 0 <= SlotAt(w, i) < |Entered(g, f).son| && GoodRef(w, Entered(g, f).son[SlotAt(w, i)])
            && Newest(g, w, Entered(g, f).son[SlotAt(w, i)], i, MainHead(g, i))
  {
    hide Newest, Heads, GoodRef, Avail, SetAll;
    EnteredGood(g, f);
    EnteredWhen(g, f);
    var w := WindowOf(g, f);
    SlotLater(w, i);
    SlotInjective(w, i, w.cur);
    if i == w.cur {
      NewestLater(g, w, f.hash[MainHead(g, i)], i, MainHead(g, i));
    } else {
      assert Known(w, i);
      NewestLater(g, w, f.son[SlotAt(w, i)], i, MainHead(g, i));
    }
  }

  lemma LinearNorm(g: Config, w: Window, sub: int, hash: seq<int>, son: seq<int>)
    requires Views(g, w) && LinksFit(g, w, hash, son) && g.kind.Hc4? && Linear(g, w, hash, son) && 0 <= sub <= w.pos - w.cyc
    ensures Views(g, Lowered(w, sub)) && LinksFit(g, Lowered(w, sub), NormRefs(sub, hash), NormRefs(sub, son))
    ensures Linear(g, Lowered(w, sub), NormRefs(sub, hash), NormRefs(sub, son))
  {
    hide Newest, GoodRef, Heads;
    NormFit(g, w, sub, hash, son);
    var v := Lowered(w, sub);
    forall h | FixedSize(g.kind) <= h < |hash|
      ensures Newest(g, v, NormRefs(sub, hash)[h], v.cur, h)
    {
      NewestNorm(g, w, sub, hash[h], w.cur, h);
    }
    forall i | Known(v, i)
      ensures Newest(g, v, NormRefs(sub, son)[SlotAt(v, i)], i, MainHead(g, i))
    {
      assert Known(w, i) && SlotAt(v, i) == SlotAt(w, i);
      SlotInjective(w, i, i);
      NewestNorm(g, w, sub, son[SlotAt(w, i)], i, MainHead(g, i));
    }
  }

  /** The chain finder with nothing missing from its chains. */
  ghost predicate Whole(g: Config, f: Finder) {
    Valid(g, f) && g.kind.Hc4? && Linear(g, WindowOf(g, f), f.hash, f.son)
  }

  /** No step of the chain finder loses a place, whatever its budget. */
  lemma StepWhole(g: Config, f: Finder)
    requires Whole(g, f) && f.buffer < |g.text|
    ensures Whole(g, Step(g, f)) && Step(g, f).buffer == f.buffer + 1
  {
    hide Step, Entered, MoveSub, NormRefs, Avail, Headed, Chained, LinksFit;
    StepValid(g, f);
    EnteredGood(g, f);
    HeadedEnter(g, f);
    ChainedEnter(g, f);
    LinearNorm(g, Later(WindowOf(g, f)), MoveSub(g, f), Entered(g, f).hash, Entered(g, f).son);
  }

  lemma InitWhole(g: Config, son: seq<int>)
    requires WfConfig(g) && FreshSon(g, son) && g.kind.Hc4?
    ensures Whole(g, InitOf(g, son)) && InitOf(g, son).buffer == 0
  {
    hide Avail, MainHead;
    InitPlaced(g, son);
    InitValid(g, son);
  }

  lemma {:induction false} RunWhole(g: Config, f: Finder, n: nat)
    requires Whole(g, f) && f.buffer + n <= |g.text|
    ensures Valid(g, f) && Whole(g, Run(g, f, n)) && Run(g, f, n).buffer == f.buffer + n
    decreases n
  {
    hide Linear, Step, Valid;
    if n != 0 {
      StepValid(g, f);
      StepWhole(g, f);
      RunWhole(g, Step(g, f), n - 1);
    }
  }

  // ---------- what a search reaches ----------

  /** How many places from j up to i, itself excluded, have main head h: so many visits lead from i back to j. */
  ghost function Steps(g: Config, j: int, i: int, h: int): (n: nat)
    requires WfConfig(g) && 0 <= j && (j < i ==> Fits(g.text, i - 1, MinLen(g.kind)))
    ensures j <= i ==> n <= i - j
    decreases i - j
  {
    if i <= j then 0 else Steps(g, j, i - 1, h) + if MainHead(g, i - 1) == h then 1 else 0
  }

  // Places without the head do not count.
  lemma {:induction false} StepsSkip(g: Config, j: int, k: int, i: int, h: int)
    requires WfConfig(g) && 0 <= j <= k < i && Fits(g.text, i - 1, MinLen(g.kind)) && MainHead(g, k) == h
    requires forall m :: k < m < i ==> MainHead(g, m) != h
    ensures Steps(g, j, i, h) == Steps(g, j, k, h) + 1
    decreases i
  {
    hide MainHead;
    if k < i - 1 {
      StepsSkip(g, j, k, i - 1, h);
    }
  }

  /** A chain walk is as good as comparing with all the places it has visits for. */
  lemma {:induction false} ChainFinds(g: Config, w: Window, limit: int, son: seq<int>, r: int, i: int, visits: nat, maxLen: int, j: int)
    requires Views(g, w) && Fits(w.text, w.cur, limit) && GoodChain(w, son) && GoodRef(w, r) && 0 <= maxLen < limit
    requires i <= w.cur && Known(w, j) && j < i && Fits(g.text, i - 1, MinLen(g.kind))
    requires Chained(g, w, son) && Newest(g, w, r, i, MainHead(g, j)) && Steps(g, j, i, MainHead(g, j)) <= visits
    ensures Fits(w.text, j, limit)
    ensures Lcp(w.text, j, w.cur, limit) <= LastLen(maxLen, ChainLoop(w, limit, son, r, visits, maxLen))
    decreases visits
  {
    hide GoodChain, Lcp, MainHead, ChainLoop, LastLen;
    var k := IndexOf(w, r);
    assert InWindow(w, r) && j <= k && MainHead(g, k) == MainHead(g, j) && Known(w, k);
    StepsSkipped(g, w, r, i, j);
    ChainTurn(w, limit, son, r, visits, maxLen);
    var more := Max(maxLen, Lcp(w.text, k, w.cur, limit));
    if j < k && more < limit {
      ChainFinds(g, w, limit, son, son[SlotAt(w, k)], k, visits - 1, more, j);
    }
  }

  // A visit raises the longest length to the agreement with the place visited, and the walk goes on from there.
  lemma ChainTurn(w: Window, limit: int, son: seq<int>, r: int, visits: nat, maxLen: int)
    requires WfWindow(w) && Fits(w.text, w.cur, limit) && GoodChain(w, son) && GoodRef(w, r) && 0 <= maxLen < limit
    requires 0 < visits && InWindow(w, r)
    ensures 0 <= SlotAt(w, IndexOf(w, r)) < |son| && GoodRef(w, son[SlotAt(w, IndexOf(w, r))]) && Fits(w.text, IndexOf(w, r), limit)
    ensures var more := Max(maxLen, Lcp(w.text, IndexOf(w, r), w.cur, limit));
            && more <= LastLen(maxLen, ChainLoop(w, limit, son, r, visits, maxLen))
            && (more < limit ==>
                  LastLen(maxLen, ChainLoop(w, limit, son, r, visits, maxLen))
                  == LastLen(more, ChainLoop(w, limit, son, son[SlotAt(w, IndexOf(w, r))], visits - 1, more)))
  {
    hide GoodChain, Lcp, InOrder;
    LinkGood(w, son, r);
    LcpAt(w.text, IndexOf(w, r), w.cur, maxLen, limit);
    var more := Max(maxLen, Lcp(w.text, IndexOf(w, r), w.cur, limit));
    if more < limit {
      var next := son[SlotAt(w, IndexOf(w, r))];
      ChainTruthful(w, limit, son, next, visits - 1, more);
      LastGrows(w, limit, more, ChainLoop(w, limit, son, next, visits - 1, more));
    }
  }

  lemma StepsSkipped(g: Config, w: Window, r: int, i: int, j: int)
    requires Views(g, w) && GoodRef(w, r) && i <= w.cur && Known(w, j) && j < i && Fits(g.text, i - 1, MinLen(g.kind))
    requires Newest(g, w, r, i, MainHead(g, j))
    ensures Steps(g, j, i, MainHead(g, j)) == Steps(g, j, IndexOf(w, r), MainHead(g, j)) + 1
  {
    hide MainHead;
    forall m | IndexOf(w, r) < m < i
      ensures MainHead(g, m) != MainHead(g, j)
    {
      assert Known(w, m);
    }
    StepsSkip(g, j, IndexOf(w, r), i, MainHead(g, j));
  }

  // The one compared byte excludes no longer agreement.
  lemma LcpAt(text: seq<byte>, i: int, c: int, at: int, limit: int)
    requires Fits(text, i, limit) && Fits(text, c, limit) && 0 <= at < limit
    ensures Sym(text, c, at) != Sym(text, i, at) ==> Lcp(text, i, c, limit) <= at
  {
  }

  lemma LastGrows(w: Window, limit: int, maxLen: int, found: seq<Found>)
    requires Fits(w.text, w.cur, limit) && InOrder(w, limit, maxLen, found)
    ensures maxLen <= LastLen(maxLen, found)
  {
  }

  // ---------- the longest match ----------

  lemma ChainReportCovers(g: Config, f: Finder, j: int)
    requires Whole(g, f) && Searching(g, f) && f.buffer < |g.text| && Earlier(g, f.buffer, j)
    requires Steps(g, j, f.buffer, MainHead(g, j)) <= Visits(g.cut)
    ensures Fits(g.text, j, f.lenLimit)
    ensures MinLen(g.kind) <= Lcp(g.text, j, f.buffer, f.lenLimit) ==>
              Report(g, f) != [] && Lcp(g.text, j, f.buffer, f.lenLimit) <= LastLen(0, Report(g, f))
  {
    hide Seeds, Avail, Heads, Lcp, ChainLoop, Newest, Steps;
    if MinLen(g.kind) <= Lcp(g.text, j, f.buffer, f.lenLimit) {
      LcpAgree(g.text, j, f.buffer, MinLen(g.kind), f.lenLimit);
      SameHeads(g, j, f.buffer);
      var w, start, r := WindowOf(g, f), StartLen(g, f), f.hash[MainHead(g, f.buffer)];
      if start < f.lenLimit {
        PutLink(w, f.son, r);
        PutChained(g, w, f.son, r);
        ChainFinds(g, w, f.lenLimit, f.son[f.cpos := r], r, f.buffer, Visits(g.cut), start, j);
        LastOfSum(Seeds(g, f), MainSearch(g, f), MinLen(g.kind) - 1);
      } else {
        assert Seeds(g, f) + [] == Seeds(g, f);
      }
    }
  }

  lemma PutChained(g: Config, w: Window, son: seq<int>, r: int)
    requires Views(g, w) && GoodChain(w, son) && Chained(g, w, son) && GoodRef(w, r)
    ensures GoodChain(w, son[w.cpos := r]) && Chained(g, w, son[w.cpos := r])
  {
    hide Newest, GoodRef, MainHead;
    PutLink(w, son, r);
    forall i | Known(w, i)
      ensures Newest(g, w, son[w.cpos := r][SlotAt(w, i)], i, MainHead(g, i))
    {
      SlotInjective(w, i, w.cur);
    }
  }

  /**
   Whatever its budget, the chain finder is as good as comparing with all the places that the budget has visits for:
   if an earlier place in the window agrees in at least the hashed bytes, and no more places with its head than there
   are visits come after it, then the last report is at least as long as that agreement.
   */
  lemma EveryChainReportCovers(g: Config, son: seq<int>, n: nat, j: int)
    requires WfConfig(g) && FreshSon(g, son) && g.kind.Hc4? && n < |g.text| && Earlier(g, n, j)
    ensures Valid(g, InitOf(g, son)) && InitOf(g, son).buffer == 0
    ensures var f := Run(g, InitOf(g, son), n);
            && Valid(g, f) && f.buffer == n && Fits(g.text, n, f.lenLimit) && Fits(g.text, j, f.lenLimit)
            && TrueReport(g, f, Report(g, f))
            && (MinLen(g.kind) <= Lcp(g.text, j, n, f.lenLimit) && Steps(g, j, n, MainHead(g, j)) <= Visits(g.cut) ==>
                  Report(g, f) != [] && Lcp(g.text, j, n, f.lenLimit) <= LastLen(0, Report(g, f)))
  {
    hide Valid, InitOf, Report, Lcp, TrueReport, Linear, MainHead, Steps;
    InitWhole(g, son);
    RunWhole(g, InitOf(g, son), n);
    EveryReportTrue(g, son, n);
    var f := Run(g, InitOf(g, son), n);
    LimitFits(g, f);
    if MinLen(g.kind) <= Lcp(g.text, j, n, f.lenLimit) && Steps(g, j, n, MainHead(g, j)) <= Visits(g.cut) {
      ChainReportCovers(g, f, j);
    }
  }

  /** With a visit for every place of the window the chain finder is the naive search. */
  lemma FullChainIsNaive(g: Config, son: seq<int>, n: nat, j: int)
    requires WfConfig(g) && FreshSon(g, son) && g.kind.Hc4? && n < |g.text| && Earlier(g, n, j) && g.cyc - 1 <= Visits(g.cut)
    ensures Valid(g, InitOf(g, son)) && InitOf(g, son).buffer == 0
    ensures var f := Run(g, InitOf(g, son), n);
            && Valid(g, f) && f.buffer == n && Fits(g.text, n, f.lenLimit) && Fits(g.text, j, f.lenLimit)
            && TrueReport(g, f, Report(g, f))
            && (MinLen(g.kind) <= Lcp(g.text, j, n, f.lenLimit) ==>
                  Report(g, f) != [] && Lcp(g.text, j, n, f.lenLimit) <= LastLen(0, Report(g, f)))
  {
    hide Valid, InitOf, Report, Lcp, TrueReport;
    EveryChainReportCovers(g, son, n, j);
  }
}
