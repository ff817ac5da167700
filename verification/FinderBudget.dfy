/**
 Tree finders whose budget runs out: what a search does not enter it loses, and all that is lost is older than what it has
 met. Its reports are the best among the places it keeps.
 */
module FinderBudget {
  import opened Primitives
  import opened MatchText
  import opened SearchTree
  import opened SonTree
  import opened SonMoves
  import opened FinderState
  import opened FinderIndex
  import opened FinderReports
  import opened FinderRuns

  // The tree that the search at the current place walks.
  function Own(g: Config, f: Finder, trees: seq<Tree>): Tree
    requires Searching(g, f) && |trees| == g.mask + 1
  {
    trees[MainHead(g, f.buffer) - FixedSize(g.kind)]
  }

  // A place that the search has not come to when its budget runs out.
  predicate Missed(g: Config, f: Finder, trees: seq<Tree>, j: int)
    requires Searching(g, f) && |trees| == g.mask + 1 && AllFit(g.text, Nodes(Own(g, f, trees)), f.lenLimit)
  {
    j in Nodes(Unreached(g.text, Own(g, f, trees), f.buffer, f.lenLimit, g.cut))
  }

  // A place that the search meets and that the current one repeats as far as it is compared.
  predicate Repeated(g: Config, f: Finder, trees: seq<Tree>, j: int)
    requires Searching(g, f) && |trees| == g.mask + 1 && AllFit(g.text, Nodes(Own(g, f, trees)), f.lenLimit)
  {
    && j in Walk(g.text, Own(g, f, trees), f.buffer, f.lenLimit, g.cut)
    && Fits(g.text, j, f.lenLimit) && Lcp(g.text, j, f.buffer, f.lenLimit) == f.lenLimit
  }

  lemma OwnSorted(g: Config, f: Finder, trees: seq<Tree>)
    requires Searching(g, f) && f.buffer < |g.text| && !g.kind.Hc4? && Indexed(g, WindowOf(g, f), f.hash, f.son, trees, f.lenLimit)
    ensures Sorted(g.text, Own(g, f, trees), f.lenLimit) && AllFit(g.text, Nodes(Own(g, f, trees)), f.lenLimit)
    ensures forall i :: i in Nodes(Own(g, f, trees)) ==> i < f.buffer
  {
    hide Avail, LinksFit, Sorted, Heads;
    TreeBefore(g, f, trees, MainHead(g, f.buffer) - FixedSize(g.kind));
  }

  /**
   One step, whatever the budget: of the tree that is searched just those places are lost that leave the window, that the
   current place repeats, or that the search does not come to; and these are older than all it meets.
   */
  lemma StepLoses(g: Config, f: Finder, trees: seq<Tree>, j: int)
    requires Searching(g, f) && f.buffer < |g.text| && !g.kind.Hc4? && Indexed(g, WindowOf(g, f), f.hash, f.son, trees, f.lenLimit)
    requires AllFit(g.text, Nodes(Own(g, f, trees)), f.lenLimit) && j in Nodes(Own(g, f, trees))
    ensures j in Nodes(Own(g, f, Grown(g, f, trees))) <==>
              FirstLater(WindowOf(g, f)) <= j && !Missed(g, f, trees, j) && !Repeated(g, f, trees, j)
    ensures Missed(g, f, trees, j) ==>
              forall i :: i in Walk(g.text, Own(g, f, trees), f.buffer, f.lenLimit, g.cut) ==> j < i
  {
    hide Avail, LinksFit, Sorted, Heads, Split, Unreached, Walk, Lcp, Keyed, HasTree;
    var t := Own(g, f, trees);
    OwnSorted(g, f, trees);
    SplitExact(g.text, t, f.buffer, f.lenLimit, g.cut, j);
    WalkOlder(g.text, t, f.buffer, f.lenLimit, g.cut);
    InsertSorted(g.text, t, f.buffer, f.lenLimit, g.cut);
    PruneSorted(g.text, Insert(g.text, t, f.buffer, f.lenLimit, g.cut), FirstLater(WindowOf(g, f)), f.lenLimit, f.lenLimit);
  }

  /** Whatever the budget, the last report is as long as the agreement with any place of the tree that the search comes to. */
  lemma ReportIsBest(g: Config, f: Finder, trees: seq<Tree>, j: int)
    requires Searching(g, f) && f.buffer < |g.text| && !g.kind.Hc4? && Indexed(g, WindowOf(g, f), f.hash, f.son, trees, f.lenLimit)
    requires AllFit(g.text, Nodes(Own(g, f, trees)), f.lenLimit) && j in Nodes(Own(g, f, trees)) && !Missed(g, f, trees, j)
    ensures Fits(g.text, j, f.lenLimit)
    ensures MinLen(g.kind) <= Lcp(g.text, j, f.buffer, f.lenLimit) ==>
              Report(g, f) != [] && Lcp(g.text, j, f.buffer, f.lenLimit) <= LastLen(0, Report(g, f))
  {
    hide Seeds, MainSearch, Avail, LinksFit, Sorted, Heads, Lcp, Search, Unreached, Keyed, HasTree;
    var start := StartLen(g, f);
    if start < f.lenLimit {
      OwnSorted(g, f, trees);
      MainInOrder(g, f, trees);
      SearchReaches(g.text, Own(g, f, trees), f.buffer, f.lenLimit, g.cut, start);
      LastOfSum(Seeds(g, f), MainSearch(g, f), MinLen(g.kind) - 1);
    } else {
      assert Seeds(g, f) + [] == Seeds(g, f);
    }
  }

  /**
   At every place of every text, whatever the budget: the reports are true, and the last one is as long as the agreement with
   any place still in the tree that the search comes to, if that covers the hashed bytes.
   */
  lemma EveryReportBest(g: Config, son: seq<int>, n: nat, j: int)
    requires WfConfig(g) && FreshSon(g, son) && !g.kind.Hc4? && n < |g.text|
    ensures Valid(g, InitOf(g, son)) && InitOf(g, son).buffer == 0
    ensures var f, trees := Run(g, InitOf(g, son), n), RunTrees(g, InitOf(g, son), NoTrees(g), n);
            && Valid(g, f) && f.buffer == n && TrueReport(g, f, Report(g, f)) && Fits(g.text, n, f.lenLimit)
            && (Searching(g, f) ==>
                  && |trees| == g.mask + 1 && AllFit(g.text, Nodes(Own(g, f, trees)), f.lenLimit)
                  && (j in Nodes(Own(g, f, trees)) && !Missed(g, f, trees, j) ==>
                        && Fits(g.text, j, f.lenLimit)
                        && (MinLen(g.kind) <= Lcp(g.text, j, n, f.lenLimit) ==>
                              Report(g, f) != [] && Lcp(g.text, j, n, f.lenLimit) <= LastLen(0, Report(g, f)))))
  {
    hide Valid, InitOf, Report, Lcp, TrueReport, Own, Missed, LastLen;
    InitPlaced(g, son);
    InitValid(g, son);
    RunSound(g, InitOf(g, son), NoTrees(g), n);
    EveryReportTrue(g, son, n);
    var f, trees := Run(g, InitOf(g, son), n), RunTrees(g, InitOf(g, son), NoTrees(g), n);
    LimitFits(g, f);
    if Searching(g, f) {
      OwnSorted(g, f, trees);
      if j in Nodes(Own(g, f, trees)) && !Missed(g, f, trees, j) {
        ReportIsBest(g, f, trees, j);
      }
    }
  }
}
