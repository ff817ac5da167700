/** Whole runs of the match finder from its initial state, whatever the fresh link array holds. */
module FinderRuns {
  import opened Primitives
  import opened LzHash
  import opened MatchText
  import opened SearchTree
  import opened SonTree
  import opened SonSplit
  import opened SonMoves
  import opened SonChain
  import opened FinderState
  import opened FinderIndex
  import opened FinderReports
  import opened FinderTwins

  /** The links of a new finder are whatever the memory held. */
  predicate FreshSon(g: Config, son: seq<int>) {
    |son| == (if g.kind.Hc4? then g.cyc else 2 * g.cyc) && forall k :: 0 <= k < |son| ==> 0 <= son[k] < TWO32
  }

  /** MatchFinder_Init: empty heads, the first position, the first block and its limits. */
  function InitOf(g: Config, son: seq<int>): Finder
    requires WfConfig(g)
  {
    var hash := seq(TableSize(g), _ => 0);
    SetLimits(g, ReadBlock(Finder(hash, son, 0, g.cyc, 0, g.cyc, 0, 0, false, |g.text|)))
  }

  function NoTrees(g: Config): seq<Tree> {
    seq(g.mask + 1, _ => Leaf)
  }

  lemma InitPlaced(g: Config, son: seq<int>)
    requires WfConfig(g)
    ensures var f := InitOf(g, son);
            && Placed(g, f) && f.buffer == 0 && f.pos == g.cyc && f.son == son
            && |f.hash| == TableSize(g) && forall e :: 0 <= e < |f.hash| ==> f.hash[e] == 0
  {
    var base := Finder(seq(TableSize(g), _ => 0), son, 0, g.cyc, 0, g.cyc, 0, 0, false, |g.text|);
    assert Avail(base) == 0;
    ReadEmpty(base);
    CyclicZero(g);
    hide Avail;
    SetLimitsPlaces(g, ReadBlock(base));
  }

  lemma CyclicZero(g: Config)
    requires WfConfig(g)
    ensures 0 == 0 % g.cyc
  {
  }

  lemma ReadEmpty(f: Finder)
    requires 0 <= f.pos < TWO32 && f.streamPos == f.pos && 0 <= f.rem && !f.ended
    ensures var h := ReadBlock(f);
            && h == f.(rem := h.rem, streamPos := h.streamPos, ended := h.ended) && 0 <= h.streamPos < TWO32 && 0 <= h.rem
            && Avail(h) + h.rem == f.rem && (h.ended <==> h.rem == 0) && (!h.ended ==> Avail(h) == MAX_POS)
  {
    assert Avail(f) == 0;
    AvailGrows(f, Min(MAX_POS, f.rem));
    hide Avail;
  }

  /** A new finder is valid and, as a tree finder, indexes nothing yet. */
  lemma InitValid(g: Config, son: seq<int>)
    requires WfConfig(g) && FreshSon(g, son)
    ensures Valid(g, InitOf(g, son)) && Sound(g, InitOf(g, son), NoTrees(g))
  {
    hide Avail, Heads;
    InitPlaced(g, son);
    var f := InitOf(g, son);
    var w := WindowOf(g, f);
    assert forall e :: 0 <= e < |f.hash| ==> GoodRef(w, f.hash[e]) && !InWindow(w, f.hash[e]);
    assert Keyed(g, w, f.hash);
    if !g.kind.Hc4? {
      assert forall k :: 0 <= k < |NoTrees(g)| ==>
                           HasTree(g, w, f.son, f.hash[FixedSize(g.kind) + k], NoTrees(g)[k], FixedSize(g.kind) + k, f.lenLimit);
    }
  }

  // ---------- many steps ----------

  function Run(g: Config, f: Finder, n: nat): Finder
    requires Valid(g, f) && f.buffer + n <= |g.text|
    decreases n
  {
    if n == 0 then f
    else
      StepValid(g, f);
      Run(g, Step(g, f), n - 1)
  }

  /** The trees after n steps. */
  function RunTrees(g: Config, f: Finder, trees: seq<Tree>, n: nat): seq<Tree>
    requires Valid(g, f) && f.buffer + n <= |g.text|
    decreases n
  {
    if n == 0 then trees
    else
      StepValid(g, f);
      RunTrees(g, Step(g, f), Grown(g, f, trees), n - 1)
  }

  lemma StepSound(g: Config, f: Finder, trees: seq<Tree>)
    requires Valid(g, f) && f.buffer < |g.text| && Sound(g, f, trees)
    ensures Valid(g, Step(g, f)) && Sound(g, Step(g, f), Grown(g, f, trees))
  {
    hide Step, Entered, Grown, Indexed, LinksFit, MoveSub, NormRefs, Avail, Heads;
    if g.kind.Hc4? {
      StepValid(g, f);
      EnteredGood(g, f);
      KeyedEnter(g, f);
      KeyedNorm(g, Later(WindowOf(g, f)), MoveSub(g, f), Entered(g, f).hash);
    } else {
      StepIndexed(g, f, trees);
    }
  }

  lemma KeyedNorm(g: Config, w: Window, sub: int, hash: seq<int>)
    requires WfConfig(g) && WfWindow(w) && w.text == g.text && w.min == MinLen(g.kind) && 0 <= sub <= w.pos - w.cyc
    requires (forall e :: 0 <= e < |hash| ==> GoodRef(w, hash[e])) && Keyed(g, w, hash)
    ensures WfWindow(Lowered(w, sub)) && (forall e :: 0 <= e < |hash| ==> GoodRef(Lowered(w, sub), NormRefs(sub, hash)[e]))
    ensures Keyed(g, Lowered(w, sub), NormRefs(sub, hash))
  {
    hide Heads, GoodRef;
    forall e | 0 <= e < |hash|
      ensures GoodRef(Lowered(w, sub), NormRefs(sub, hash)[e]) && KeyedAt(g, Lowered(w, sub), NormRefs(sub, hash)[e], e)
    {
      NormKeeps(w, sub, hash[e]);
      assert KeyedAt(g, w, hash[e], e);
    }
  }

  /** The finder stays valid and sound for the length of the text. */
  lemma {:induction false} RunSound(g: Config, f: Finder, trees: seq<Tree>, n: nat)
    requires Valid(g, f) && f.buffer + n <= |g.text| && Sound(g, f, trees)
    ensures var h := Run(g, f, n); Valid(g, h) && h.buffer == f.buffer + n && Sound(g, h, RunTrees(g, f, trees, n))
    decreases n
  {
    hide Valid, Sound, Step, Grown;
    if n != 0 {
      NotAtEnd(g, f);
      StepValid(g, f);
      StepSound(g, f, trees);
      RunSound(g, Step(g, f), Grown(g, f, trees), n - 1);
    }
  }

  lemma NotAtEnd(g: Config, f: Finder)
    requires Valid(g, f)
    ensures 0 <= f.buffer <= |g.text|
  {
  }

  /** At every place of every text, each of the four finders reports only true matches. */
  lemma EveryReportTrue(g: Config, son: seq<int>, n: nat)
    requires WfConfig(g) && FreshSon(g, son) && n < |g.text|
    ensures Valid(g, InitOf(g, son)) && InitOf(g, son).buffer == 0
    ensures var f := Run(g, InitOf(g, son), n); f.buffer == n && Valid(g, f) && TrueReport(g, f, Report(g, f))
  {
    hide Valid, Sound, TrueReport, Report, InitOf;
    InitPlaced(g, son);
    InitValid(g, son);
    RunSound(g, InitOf(g, son), NoTrees(g), n);
    ReportIsTrue(g, Run(g, InitOf(g, son), n), RunTrees(g, InitOf(g, son), NoTrees(g), n));
  }

  // ---------- the longest match ----------

  // Everything known of a tree finder that has lost nothing.
  ghost predicate Flawless(g: Config, f: Finder, trees: seq<Tree>) {
    && Valid(g, f) && !g.kind.Hc4? && Indexed(g, WindowOf(g, f), f.hash, f.son, trees, f.lenLimit)
    && Fits(g.text, f.buffer, f.lenLimit) && AllFitTrees(g.text, trees, f.lenLimit) && Complete(g, f.buffer, trees, f.lenLimit)
  }

  lemma InitFlawless(g: Config, son: seq<int>)
    requires WfConfig(g) && FreshSon(g, son) && !g.kind.Hc4?
    ensures Flawless(g, InitOf(g, son), NoTrees(g)) && InitOf(g, son).buffer == 0
  {
    hide Avail, Heads, LinksFit, HasTree, Keyed;
    InitPlaced(g, son);
    InitValid(g, son);
  }

  lemma StepFlawless(g: Config, f: Finder, trees: seq<Tree>)
    requires Flawless(g, f, trees) && f.buffer < |g.text| && WithinBudget(g, f, trees)
    ensures Flawless(g, Step(g, f), Grown(g, f, trees)) && Step(g, f).buffer == f.buffer + 1
  {
    hide Avail, Heads, LinksFit, HasTree, Keyed, Step, Grown, Complete, WithinBudget, AllFitTrees, Placed;
    StepValid(g, f);
    StepIndexed(g, f, trees);
    StepComplete(g, f, trees);
  }

  /** None of the next n searches runs out of its budget. */
  ghost predicate RunWithin(g: Config, f: Finder, trees: seq<Tree>, n: nat)
    requires Flawless(g, f, trees) && f.buffer + n <= |g.text|
    decreases n
  {
    n == 0 || (WithinBudget(g, f, trees) && (StepFlawless(g, f, trees); RunWithin(g, Step(g, f), Grown(g, f, trees), n - 1)))
  }

  lemma {:induction false} RunFlawless(g: Config, f: Finder, trees: seq<Tree>, n: nat)
    requires Flawless(g, f, trees) && f.buffer + n <= |g.text| && RunWithin(g, f, trees, n)
    ensures Valid(g, f) && Flawless(g, Run(g, f, n), RunTrees(g, f, trees, n)) && Run(g, f, n).buffer == f.buffer + n
    decreases n
  {
    hide Valid, Flawless, Step, Grown, WithinBudget;
    FlawlessValid(g, f, trees);
    if n != 0 {
      StepFlawless(g, f, trees);
      FlawlessValid(g, Step(g, f), Grown(g, f, trees));
      RunFlawless(g, Step(g, f), Grown(g, f, trees), n - 1);
    }
  }

  lemma FlawlessValid(g: Config, f: Finder, trees: seq<Tree>)
    requires Flawless(g, f, trees)
    ensures Valid(g, f) && 0 <= f.buffer <= |g.text|
  {
  }

  // None of the first n searches of a fresh finder runs out of its budget.
  ghost predicate BudgetLasts(g: Config, son: seq<int>, n: nat)
    requires WfConfig(g) && FreshSon(g, son) && !g.kind.Hc4? && n <= |g.text|
  {
    InitFlawless(g, son);
    RunWithin(g, InitOf(g, son), NoTrees(g), n)
  }

  /**
   The index agrees with the naive search: while no search has run out of its budget, at every place of every text
   the last report is as long as the longest agreement with any earlier place in the window, if that covers the hashed bytes.
   */
  lemma EveryReportLongest(g: Config, son: seq<int>, n: nat, j: int)
    requires WfConfig(g) && FreshSon(g, son) && !g.kind.Hc4? && n < |g.text| && Earlier(g, n, j)
    requires BudgetLasts(g, son, n + 1)
    ensures Valid(g, InitOf(g, son)) && InitOf(g, son).buffer == 0
    ensures var f := Run(g, InitOf(g, son), n);
            && Valid(g, f) && f.buffer == n && Fits(g.text, n, f.lenLimit) && Fits(g.text, j, f.lenLimit)
            && (MinLen(g.kind) <= Lcp(g.text, j, n, f.lenLimit) ==>
                  Report(g, f) != [] && Lcp(g.text, j, n, f.lenLimit) <= LastLen(0, Report(g, f)))
  {
    hide Valid, Flawless, InitOf, Report, Lcp, WithinBudget;
    var f0, t0 := InitOf(g, son), NoTrees(g);
    InitFlawless(g, son);
    FlawlessValid(g, f0, t0);
    WithinPrefix(g, f0, t0, n);
    RunFlawless(g, f0, t0, n);
    LongestHere(g, Run(g, f0, n), RunTrees(g, f0, t0, n), j);
  }

  /** With a budget of the window's size a tree finder is the naive search: true matches only, and none longer is missed. */
  lemma FullSearchIsNaive(g: Config, son: seq<int>, n: nat, j: int)
    requires WfConfig(g) && FreshSon(g, son) && !g.kind.Hc4? && n < |g.text| && g.cyc - 1 <= g.cut && Earlier(g, n, j)
    ensures Valid(g, InitOf(g, son)) && InitOf(g, son).buffer == 0
    ensures var f := Run(g, InitOf(g, son), n);
            && Valid(g, f) && f.buffer == n && Fits(g.text, n, f.lenLimit) && Fits(g.text, j, f.lenLimit)
            && TrueReport(g, f, Report(g, f))
            && (MinLen(g.kind) <= Lcp(g.text, j, n, f.lenLimit) ==>
                  Report(g, f) != [] && Lcp(g.text, j, n, f.lenLimit) <= LastLen(0, Report(g, f)))
  {
    hide Valid, Flawless, InitOf, Report, Lcp, WithinBudget, TrueReport, RunWithin;
    InitFlawless(g, son);
    LargeCutSuffices(g, InitOf(g, son), NoTrees(g), n + 1);
    EveryReportLongest(g, son, n, j);
    EveryReportTrue(g, son, n);
  }

  lemma {:induction false} WithinPrefix(g: Config, f: Finder, trees: seq<Tree>, n: nat)
    requires Flawless(g, f, trees) && f.buffer + n < |g.text| && RunWithin(g, f, trees, n + 1)
    ensures RunWithin(g, f, trees, n) && Valid(g, f)
    ensures Flawless(g, Run(g, f, n), RunTrees(g, f, trees, n)) && WithinBudget(g, Run(g, f, n), RunTrees(g, f, trees, n))
    decreases n
  {
    hide Valid, Flawless, Step, Grown, WithinBudget;
    FlawlessValid(g, f, trees);
    if n != 0 {
      StepFlawless(g, f, trees);
      FlawlessValid(g, Step(g, f), Grown(g, f, trees));
      WithinPrefix(g, Step(g, f), Grown(g, f, trees), n - 1);
    }
  }

  lemma LongestHere(g: Config, f: Finder, trees: seq<Tree>, j: int)
    requires Flawless(g, f, trees) && WithinBudget(g, f, trees) && f.buffer < |g.text| && Earlier(g, f.buffer, j)
    ensures Valid(g, f) && Fits(g.text, f.buffer, f.lenLimit) && Fits(g.text, j, f.lenLimit)
    ensures MinLen(g.kind) <= Lcp(g.text, j, f.buffer, f.lenLimit) ==>
              Report(g, f) != [] && Lcp(g.text, j, f.buffer, f.lenLimit) <= LastLen(0, Report(g, f))
  {
    hide Report, Lcp, Complete, Indexed, WithinBudget, AllFitTrees, Avail, LinksFit;
    if MinLen(g.kind) <= f.lenLimit {
      ReportIsLongest(g, f, trees, j);
    }
  }

  // ---------- a budget that always suffices ----------

  /** A walk goes from newer to older places, so it meets no more nodes than there are places. */
  lemma {:induction false} PathShort(text: seq<byte>, t: Tree, c: int, limit: int, low: int)
    requires Fits(text, c, limit) && Sorted(text, t, limit) && AllFit(text, Nodes(t), limit) && t.Node? && forall i :: i in Nodes(t) ==> low <= i
    ensures Path(text, t, c, limit) <= t.at - low + 1
    decreases t
  {
    hide Lcp, Le;
    assert t.at in Nodes(t);
    var n := Lcp(text, t.at, c, limit);
    if n < limit {
      var u := if Sym(text, t.at, n) < Sym(text, c, n) then t.hi else t.lo;
      if u.Node? {
        assert u.at in Nodes(u);
        PathShort(text, u, c, limit, low);
      }
    }
  }

  lemma CutSuffices(g: Config, f: Finder, trees: seq<Tree>)
    requires Flawless(g, f, trees) && f.buffer < |g.text| && g.cyc - 1 <= g.cut
    ensures WithinBudget(g, f, trees)
  {
    hide Path, Avail, LinksFit, Complete, Rep, Sorted, Heads, Lcp;
    if MinLen(g.kind) <= f.lenLimit {
      var k := MainHead(g, f.buffer) - FixedSize(g.kind);
      TreeBefore(g, f, trees, k);
      if trees[k].Node? {
        assert trees[k].at in Nodes(trees[k]);
        PathShort(g.text, trees[k], f.buffer, f.lenLimit, f.buffer - g.cyc + 1);
      } else {
        PathOfLeaf(g.text, trees[k], f.buffer, f.lenLimit);
      }
    }
  }

  lemma PathOfLeaf(text: seq<byte>, t: Tree, c: int, limit: int)
    requires Fits(text, c, limit) && t.Leaf?
    ensures AllFit(text, Nodes(t), limit) && Path(text, t, c, limit) == 0
  {
  }

  /** With a budget of as many visits as the window has places, no search ever runs out of it. */
  lemma {:induction false} LargeCutSuffices(g: Config, f: Finder, trees: seq<Tree>, n: nat)
    requires Flawless(g, f, trees) && f.buffer + n <= |g.text| && g.cyc - 1 <= g.cut
    ensures RunWithin(g, f, trees, n)
    decreases n
  {
    hide Valid, Flawless, Step, Grown, WithinBudget;
    FlawlessValid(g, f, trees);
    if n != 0 {
      CutSuffices(g, f, trees);
      StepFlawless(g, f, trees);
      LargeCutSuffices(g, Step(g, f), Grown(g, f, trees), n - 1);
    }
  }

  // ---------- renormalisation is invisible ----------

  /** The finder with all positions lowered, as renormalisation lowers them. */
  function Renumbered(f: Finder, sub: int): Finder {
    f.(hash := NormRefs(sub, f.hash), son := NormRefs(sub, f.son), pos := f.pos - sub,
       posLimit := f.posLimit - sub, streamPos := (f.streamPos - sub) % TWO32)
  }

  lemma RenumberedTwin(g: Config, f: Finder, sub: int)
    requires Valid(g, f) && 0 <= sub <= f.pos - g.cyc
    ensures Twins(g, f, Renumbered(f, sub))
  {
    hide GoodRef, Heads, NormRefs;
    var h, w := Renumbered(f, sub), WindowOf(g, f);
    RenumberedPlaced(g, f, sub);
    NormFit(g, w, sub, f.hash, f.son);
    SelfSame(g, w, f.hash, f.son);
    NormNothing2(g, w, f.hash, f.son, sub);
  }

  lemma RenumberedPlaced(g: Config, f: Finder, sub: int)
    requires Placed(g, f) && 0 <= sub <= f.pos - g.cyc
    ensures Placed(g, Renumbered(f, sub)) && WindowOf(g, Renumbered(f, sub)) == Lowered(WindowOf(g, f), sub)
  {
    hide Avail, NormRefs;
    RenumberedAvail(f, sub);
  }

  lemma RenumberedAvail(f: Finder, sub: int)
    requires 0 <= sub <= f.pos < TWO32
    ensures Avail(Renumbered(f, sub)) == Avail(f) && 0 <= Renumbered(f, sub).streamPos < TWO32
  {
    hide NormRefs;
    ModShift(f.streamPos, f.pos, sub);
  }

  lemma SelfSame(g: Config, w: Window, hash: seq<int>, son: seq<int>)
    requires WfWindow(w) && LinksFit(g, w, hash, son)
    ensures Twin(w, w) && SameTables(g, w, w, hash, son, hash, son)
  {
  }

  // Lowering one of two equal tables leaves twins.
  lemma NormNothing2(g: Config, w: Window, hash: seq<int>, son: seq<int>, sub: int)
    requires WfWindow(w) && LinksFit(g, w, hash, son) && Twin(w, w) && SameTables(g, w, w, hash, son, hash, son) && 0 <= sub <= w.pos - w.cyc
    ensures Twin(w, Lowered(w, sub)) && LinksFit(g, Lowered(w, sub), NormRefs(sub, hash), NormRefs(sub, son))
    ensures SameTables(g, w, Lowered(w, sub), hash, son, NormRefs(sub, hash), NormRefs(sub, son))
  {
    LinksNonNegative(g, w, hash, son);
    NormNothing(hash);
    NormNothing(son);
    hide LinksFit, SameTables, NormRefs;
    NormSame(g, w, w, hash, son, hash, son, 0, sub);
    assert Lowered(w, 0) == w;
  }

  lemma LinksNonNegative(g: Config, w: Window, hash: seq<int>, son: seq<int>)
    requires WfWindow(w) && LinksFit(g, w, hash, son)
    ensures (forall e :: 0 <= e < |hash| ==> 0 <= hash[e]) && (forall k :: 0 <= k < |son| ==> 0 <= son[k])
  {
  }

  /** However positions are renumbered at some point of a run, from there on all reports are the same. */
  lemma {:induction false} RenumberingInvisible(g: Config, f: Finder, h: Finder, n: nat)
    requires Twins(g, f, h) && f.buffer + n < |g.text|
    ensures Valid(g, f) && Valid(g, h) && f.buffer == h.buffer
    ensures Twins(g, Run(g, f, n), Run(g, h, n))
    ensures var a, b := Run(g, f, n), Run(g, h, n);
            Valid(g, a) && Valid(g, b) && a.buffer == b.buffer == f.buffer + n && Report(g, a) == Report(g, b)
    decreases n
  {
    hide Valid, Twins, Step, Report;
    TwinValid(g, f, h);
    SameSize(g, f, h);
    if n == 0 {
      NotAtEnd(g, f);
      TwinReports(g, f, h);
    } else {
      NotAtEnd(g, f);
      TwinSteps(g, f, h);
      RenumberingInvisible(g, Step(g, f), Step(g, h), n - 1);
    }
  }
}
