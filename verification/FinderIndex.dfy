/**
 What the tables of a tree finder stand for: one search tree for every hash value, of the places entered under it.
 A step keeps that up, and while no search runs out of its budget no place of the window is lost.
 */
module FinderIndex {
  import opened Primitives
  import opened LzHash
  import opened MatchText
  import opened SearchTree
  import opened SonTree
  import opened SonSplit
  import opened SonMoves
  import opened SonChain
  import opened FinderState

  predicate Tables(g: Config, w: Window, hash: seq<int>, son: seq<int>) {
    && WfConfig(g) && !g.kind.Hc4? && WfWindow(w) && w.text == g.text && w.cyc == g.cyc && w.min == MinLen(g.kind)
    && LinksFit(g, w, hash, son)
  }

  // A window on the text of the configuration.
  predicate Views(g: Config, w: Window) {
    WfConfig(g) && WfWindow(w) && w.text == g.text && w.min == MinLen(g.kind)
  }

  // An entry of the hash table that refers into the window is one of the heads of the place it refers to.
  predicate KeyedAt(g: Config, w: Window, r: int, e: int)
    requires WfConfig(g) && WfWindow(w) && w.text == g.text && w.min == MinLen(g.kind) && GoodRef(w, r)
  {
    InWindow(w, r) ==> e in Heads(g, IndexOf(w, r))
  }

  predicate Keyed(g: Config, w: Window, hash: seq<int>)
    requires WfConfig(g) && WfWindow(w) && w.text == g.text && w.min == MinLen(g.kind)
    requires forall e :: 0 <= e < |hash| ==> GoodRef(w, hash[e])
  {
    forall e :: 0 <= e < |hash| ==> KeyedAt(g, w, hash[e], e)
  }

  // All nodes are places whose main head is e.
  predicate OfHead(g: Config, nodes: set<int>, e: int)
    requires WfConfig(g)
  {
    forall j :: j in nodes ==> Fits(g.text, j, MinLen(g.kind)) && MainHead(g, j) == e
  }

  /** The links from r are the tree t, sorted up to limit, of places with main head e. */
  predicate HasTree(g: Config, w: Window, son: seq<int>, r: int, t: Tree, e: int, limit: int)
    requires WfConfig(g) && WfWindow(w) && GoodSon(w, son) && GoodRef(w, r)
  {
    Rep(w, son, r, t) && Sorted(w.text, t, limit) && OfHead(g, Nodes(t), e)
  }

  /** For every main head there is a tree. */
  predicate Indexed(g: Config, w: Window, hash: seq<int>, son: seq<int>, trees: seq<Tree>, limit: int)
    requires Tables(g, w, hash, son)
  {
    && |trees| == g.mask + 1 && Keyed(g, w, hash)
    && forall k :: 0 <= k < |trees| ==> HasTree(g, w, son, hash[FixedSize(g.kind) + k], trees[k], FixedSize(g.kind) + k, limit)
  }

  // ---------- entering a place ----------

  // The current place is entered exactly when it is long enough.
  lemma EnteredWhen(g: Config, f: Finder)
    requires Placed(g, f)
    ensures Fits(g.text, f.buffer, MinLen(g.kind)) <==> MinLen(g.kind) <= f.lenLimit
  {
  }

  // The tree of head k after the current place has been entered and the window has moved on.
  function GrownAt(g: Config, f: Finder, t: Tree, k: int): Tree
    requires Valid(g, f)
  {
    var low := FirstLater(WindowOf(g, f));
    if MinLen(g.kind) <= f.lenLimit && FixedSize(g.kind) + k == MainHead(g, f.buffer) && AllFit(g.text, Nodes(t), f.lenLimit) then
      Prune(Insert(g.text, t, f.buffer, f.lenLimit, g.cut), low)
    else
      Prune(t, low)
  }

  function Grown(g: Config, f: Finder, trees: seq<Tree>): (out: seq<Tree>)
    requires Valid(g, f)
    ensures |out| == |trees|
  {
    seq(|trees|, k requires 0 <= k < |trees| => GrownAt(g, f, trees[k], k))
  }

  lemma PruneHas(g: Config, w: Window, son: seq<int>, r: int, t: Tree, e: int, limit: int, short: int)
    requires WfConfig(g) && WfWindow(w) && WfWindow(Later(w)) && GoodSon(w, son) && CurGood(w, son) && GoodRef(w, r) && 0 <= short <= limit
    requires HasTree(g, w, son, r, t, e, limit)
    ensures GoodSon(Later(w), son) && GoodRef(Later(w), r)
    ensures HasTree(g, Later(w), son, r, Prune(t, FirstLater(w)), e, short)
  {
    hide Rep, Sorted;
    RepLater(w, son, r, t);
    PruneSorted(w.text, t, FirstLater(w), short, limit);
  }

  // The tree of another head.
  lemma OtherHas(g: Config, w: Window, son: seq<int>, out: seq<int>, nodes: set<int>, h: int, r: int, t: Tree, e: int,
      limit: int, short: int)
    requires WfConfig(g) && WfWindow(w) && WfWindow(Later(w)) && GoodSon(w, son) && GoodSon(w, out) && CurGood(w, out)
    requires GoodRef(w, r) && HasTree(g, w, son, r, t, e, limit) && 0 <= short <= limit && e != h
    requires Near(w, nodes) && OfHead(g, nodes, h) && Untouched(w, nodes, son, out, 2 * w.cpos + 1, 2 * w.cpos)
    ensures GoodSon(Later(w), out) && GoodRef(Later(w), r)
    ensures HasTree(g, Later(w), out, r, Prune(t, FirstLater(w)), e, short)
  {
    hide Rep, Sorted;
    assert Nodes(t) !! nodes by {
      forall j | j in Nodes(t)
        ensures j !in nodes
      {
        assert MainHead(g, j) == e;
      }
    }
    OtherRep(w, son, out, nodes, r, t);
    PruneSorted(w.text, t, FirstLater(w), short, limit);
  }

  // The tree of the head that the current place is entered under.
  lemma OwnHas(g: Config, w: Window, limit: int, son: seq<int>, r: int, t: Tree, e: int, short: int)
    requires WfConfig(g) && WfWindow(w) && WfWindow(Later(w)) && w.text == g.text && w.min == MinLen(g.kind) && GoodSon(w, son) && GoodRef(w, r)
    requires HasTree(g, w, son, r, t, e, limit) && 0 < limit && 0 <= short <= limit
    requires Fits(w.text, w.cur, limit) && Fits(w.text, w.cur, w.min) && MainHead(g, w.cur) == e
    ensures AllFit(w.text, Nodes(t), limit) && Near(w, Nodes(t)) && LoopPre(w, limit, son, 2 * w.cpos + 1, 2 * w.cpos, r, 0, 0)
    ensures var out := SonLoop(w, limit, son, 2 * w.cpos + 1, 2 * w.cpos, r, 0, 0, g.cut);
            && GoodSon(w, out) && CurGood(w, out) && GoodSon(Later(w), out) && GoodRef(Later(w), w.pos)
            && Untouched(w, Nodes(t), son, out, 2 * w.cpos + 1, 2 * w.cpos)
            && HasTree(g, Later(w), out, w.pos, Prune(Insert(w.text, t, w.cur, limit, g.cut), FirstLater(w)), e, short)
  {
    hide Rep, Sorted, SonLoop, FoundLoop, Search, Insert;
    RepNear(w, son, r, t);
    InsertRep(w, limit, son, r, t, g.cut, 0);
    InsertSorted(w.text, t, w.cur, limit, g.cut);
    PruneSorted(w.text, Insert(w.text, t, w.cur, limit, g.cut), FirstLater(w), short, limit);
  }

  lemma SetAllMain(hash: seq<int>, heads: seq<int>, pos: int, fix: int)
    requires |heads| >= 1 && 0 <= fix && (forall k :: 0 <= k < |heads| ==> 0 <= heads[k] < |hash|)
    requires fix <= heads[|heads| - 1] && forall k :: 0 <= k < |heads| - 1 ==> heads[k] < fix
    ensures forall e :: fix <= e < |hash| ==> SetAll(hash, heads, pos)[e] == if e == heads[|heads| - 1] then pos else hash[e]
  {
  }

  lemma KeyedLater(g: Config, w: Window, r: int, e: int)
    requires WfConfig(g) && WfWindow(w) && WfWindow(Later(w)) && w.text == g.text && w.min == MinLen(g.kind) && GoodRef(w, r) && KeyedAt(g, w, r, e)
    ensures GoodRef(Later(w), r) && KeyedAt(g, Later(w), r, e)
  {
  }

  lemma KeyedEnter(g: Config, f: Finder)
    requires Valid(g, f) && f.buffer < |g.text| && Keyed(g, WindowOf(g, f), f.hash)
    ensures var w := Later(WindowOf(g, f));
            && WfWindow(w) && (forall e :: 0 <= e < |Entered(g, f).hash| ==> GoodRef(w, Entered(g, f).hash[e]))
            && Keyed(g, w, Entered(g, f).hash)
  {
    hide Heads, GoodRef, Linked, KeyedAt;
    EnteredGood(g, f);
    var w, hash := WindowOf(g, f), Entered(g, f).hash;
    forall e | 0 <= e < |hash|
      ensures KeyedAt(g, Later(w), hash[e], e)
    {
      KeyedLater(g, w, f.hash[e], e);
      if MinLen(g.kind) <= f.lenLimit && e in Heads(g, f.buffer) {
        KeyedNew(g, w, e);
      }
    }
  }

  lemma KeyedNew(g: Config, w: Window, e: int)
    requires WfConfig(g) && WfWindow(w) && WfWindow(Later(w)) && w.text == g.text && w.min == MinLen(g.kind)
    requires Fits(w.text, w.cur, w.min) && e in Heads(g, w.cur)
    ensures GoodRef(Later(w), w.pos) && KeyedAt(g, Later(w), w.pos, e)
  {
  }

  /** Entering the current place and moving on keeps the index. */
  lemma IndexedEnter(g: Config, f: Finder, trees: seq<Tree>, short: int)
    requires Valid(g, f) && f.buffer < |g.text| && !g.kind.Hc4? && 0 <= short <= f.lenLimit
    requires Indexed(g, WindowOf(g, f), f.hash, f.son, trees, f.lenLimit)
    ensures var e, w := Entered(g, f), Later(WindowOf(g, f));
            Tables(g, w, e.hash, e.son) && Indexed(g, w, e.hash, e.son, Grown(g, f, trees), short)
  {
    hide GoodRef, GoodSon, HasTree, Keyed, Prune, GrownAt, SonLoop, Heads, Avail;
    var e, w := Entered(g, f), WindowOf(g, f);
    EnteredGood(g, f);
    KeyedEnter(g, f);
    forall k | 0 <= k < |trees|
      ensures HasTree(g, Later(w), e.son, e.hash[FixedSize(g.kind) + k], Grown(g, f, trees)[k], FixedSize(g.kind) + k, short)
    {
      TreeEnter(g, f, trees, k, short);
    }
  }

  lemma TreeEnter(g: Config, f: Finder, trees: seq<Tree>, k: int, short: int)
    requires Valid(g, f) && f.buffer < |g.text| && !g.kind.Hc4? && 0 <= short <= f.lenLimit
    requires Indexed(g, WindowOf(g, f), f.hash, f.son, trees, f.lenLimit) && 0 <= k < |trees|
    ensures var e, w, fix := Entered(g, f), Later(WindowOf(g, f)), FixedSize(g.kind);
            && Tables(g, w, e.hash, e.son)
            && HasTree(g, w, e.son, e.hash[fix + k], GrownAt(g, f, trees[k], k), fix + k, short)
  {
    hide GoodRef, GoodSon, HasTree, Keyed, Prune, SonLoop, Heads, Avail, Insert;
    var e, w, fix := Entered(g, f), WindowOf(g, f), FixedSize(g.kind);
    EnteredGood(g, f);
    if f.lenLimit < MinLen(g.kind) {
      PruneHas(g, w, f.son, f.hash[fix + k], trees[k], fix + k, f.lenLimit, short);
    } else {
      var h := MainHead(g, f.buffer);
      SetAllMain(f.hash, Heads(g, f.buffer), f.pos, fix);
      OwnHas(g, w, f.lenLimit, f.son, f.hash[h], trees[h - fix], h, short);
      if fix + k != h {
        HeadNodes(g, w, f.son, f.hash[h], trees[h - fix], h, f.lenLimit);
        OtherHas(g, w, f.son, e.son, Nodes(trees[h - fix]), h, f.hash[fix + k], trees[k], fix + k, f.lenLimit, short);
      }
    }
  }

  lemma HeadNodes(g: Config, w: Window, son: seq<int>, r: int, t: Tree, e: int, limit: int)
    requires WfConfig(g) && WfWindow(w) && GoodSon(w, son) && GoodRef(w, r) && HasTree(g, w, son, r, t, e, limit)
    ensures OfHead(g, Nodes(t), e) && Near(w, Nodes(t)) && Sorted(w.text, t, limit) && AllFit(w.text, Nodes(t), limit)
  {
    RepNear(w, son, r, t);
    SortedFits(w.text, t, limit);
  }

  // ---------- renormalising ----------

  lemma IndexedNorm(g: Config, w: Window, sub: int, hash: seq<int>, son: seq<int>, trees: seq<Tree>, limit: int)
    requires Tables(g, w, hash, son) && Indexed(g, w, hash, son, trees, limit) && 0 <= sub <= w.pos - w.cyc
    ensures Tables(g, Lowered(w, sub), NormRefs(sub, hash), NormRefs(sub, son))
    ensures Indexed(g, Lowered(w, sub), NormRefs(sub, hash), NormRefs(sub, son), trees, limit)
  {
    hide GoodRef, GoodSon, Sorted, Heads, Rep;
    NormFit(g, w, sub, hash, son);
    var v, fix := Lowered(w, sub), FixedSize(g.kind);
    forall e | 0 <= e < |hash|
      ensures KeyedAt(g, v, NormRefs(sub, hash)[e], e)
    {
      NormKeeps(w, sub, hash[e]);
    }
    forall k | 0 <= k < |trees|
      ensures HasTree(g, v, NormRefs(sub, son), NormRefs(sub, hash)[fix + k], trees[k], fix + k, limit)
    {
      RepNorm(w, sub, son, hash[fix + k], trees[k]);
    }
  }

  lemma LimitShrinks(g: Config, f: Finder)
    requires Valid(g, f) && f.buffer < |g.text|
    ensures Valid(g, Step(g, f)) && 0 <= Step(g, f).lenLimit <= f.lenLimit && f.buffer + f.lenLimit <= |g.text|
  {
    hide LinksFit, Step, Entered, Avail;
    StepValid(g, f);
  }

  /** One step of a tree finder keeps the index, with the new tree grown and the old places cut off. */
  lemma StepIndexed(g: Config, f: Finder, trees: seq<Tree>)
    requires Valid(g, f) && f.buffer < |g.text| && !g.kind.Hc4? && Indexed(g, WindowOf(g, f), f.hash, f.son, trees, f.lenLimit)
    ensures Valid(g, Step(g, f))
    ensures var h := Step(g, f); Indexed(g, WindowOf(g, h), h.hash, h.son, Grown(g, f, trees), h.lenLimit)
  {
    hide LinksFit, Step, Entered, Avail, MoveSub, Indexed, Grown, NormRefs;
    StepValid(g, f);
    LimitShrinks(g, f);
    var e := Entered(g, f);
    IndexedEnter(g, f, trees, Step(g, f).lenLimit);
    IndexedNorm(g, Later(WindowOf(g, f)), MoveSub(g, f), e.hash, e.son, Grown(g, f, trees), Step(g, f).lenLimit);
  }

  // ---------- nothing is lost ----------

  // Place j is a node, or a newer node repeats it as far as the limit.
  predicate Stands(text: seq<byte>, t: Tree, j: int, limit: int)
    requires AllFit(text, Nodes(t), limit) && Fits(text, j, limit)
  {
    exists i :: i in Nodes(t) && j <= i && Lcp(text, j, i, limit) == limit
  }

  predicate AllFitTrees(text: seq<byte>, trees: seq<Tree>, limit: int) {
    forall k :: 0 <= k < |trees| ==> AllFit(text, Nodes(trees[k]), limit)
  }

  // An earlier place in the window that is long enough to have been entered.
  predicate Earlier(g: Config, cur: int, j: int) {
    0 <= j < cur && cur - j < g.cyc && Fits(g.text, j, MinLen(g.kind))
  }

  /** Every place in the window stands in the tree of its head. */
  ghost predicate Complete(g: Config, cur: int, trees: seq<Tree>, limit: int)
    requires WfConfig(g) && Fits(g.text, cur, limit) && |trees| == g.mask + 1 && AllFitTrees(g.text, trees, limit)
  {
    forall j :: Earlier(g, cur, j) ==> Stands(g.text, trees[MainHead(g, j) - FixedSize(g.kind)], j, limit)
  }

  /** The search for the current place does not run out of its budget. */
  predicate WithinBudget(g: Config, f: Finder, trees: seq<Tree>)
    requires Valid(g, f) && |trees| == g.mask + 1 && Fits(g.text, f.buffer, f.lenLimit) && AllFitTrees(g.text, trees, f.lenLimit)
  {
    MinLen(g.kind) <= f.lenLimit ==>
      Path(g.text, trees[MainHead(g, f.buffer) - FixedSize(g.kind)], f.buffer, f.lenLimit) <= g.cut
  }

  lemma StandsPruned(text: seq<byte>, t: Tree, low: int, j: int, short: int, limit: int)
    requires Sorted(text, t, limit) && AllFit(text, Nodes(t), limit) && 0 <= short <= limit && low <= j && Fits(text, j, limit)
    requires Stands(text, t, j, limit)
    ensures AllFit(text, Nodes(Prune(t, low)), short) && Stands(text, Prune(t, low), j, short)
  {
    hide Sorted, Lcp;
    var i :| i in Nodes(t) && j <= i && Lcp(text, j, i, limit) == limit;
    PruneSorted(text, t, low, short, limit);
    LcpShorter(text, j, i, short, limit);
  }

  // A place that stood in the tree stands in it after the insertion, if the budget sufficed.
  lemma StandsInserted(text: seq<byte>, t: Tree, c: int, limit: int, cut: nat, j: int)
    requires Fits(text, c, limit) && AllFit(text, Nodes(t), limit) && Path(text, t, c, limit) <= cut && j <= c && Fits(text, j, limit)
    requires j == c || Stands(text, t, j, limit)
    ensures var u := Insert(text, t, c, limit, cut); AllFit(text, Nodes(u), limit) ==> Stands(text, u, j, limit)
  {
    hide Split, Path;
    var u := Insert(text, t, c, limit, cut);
    assert c in Nodes(u);
    if j == c {
      LcpSelf(text, c, limit);
    } else {
      var i :| i in Nodes(t) && j <= i && Lcp(text, j, i, limit) == limit;
      SplitComplete(text, t, c, limit, cut);
      if i !in Nodes(u) {
        LeEqual(text, j, i, c, limit);
      }
    }
  }

  lemma LcpSelf(text: seq<byte>, c: int, limit: int)
    requires Fits(text, c, limit)
    ensures Lcp(text, c, c, limit) == limit
  {
  }

  lemma GrownFits(g: Config, f: Finder, trees: seq<Tree>)
    requires Valid(g, f) && f.buffer < |g.text| && !g.kind.Hc4? && Indexed(g, WindowOf(g, f), f.hash, f.son, trees, f.lenLimit)
    ensures AllFitTrees(g.text, trees, f.lenLimit)
    ensures Valid(g, Step(g, f)) && Fits(g.text, Step(g, f).buffer, Step(g, f).lenLimit)
    ensures AllFitTrees(g.text, Grown(g, f, trees), Step(g, f).lenLimit)
  {
    hide LinksFit, Step, Entered, Avail, Grown, Rep;
    StepIndexed(g, f, trees);
    StepValid(g, f);
    forall k | 0 <= k < |trees|
      ensures AllFit(g.text, Nodes(trees[k]), f.lenLimit) && AllFit(g.text, Nodes(Grown(g, f, trees)[k]), Step(g, f).lenLimit)
    {
      SortedFits(g.text, trees[k], f.lenLimit);
      SortedFits(g.text, Grown(g, f, trees)[k], Step(g, f).lenLimit);
    }
  }

  /** A step whose search keeps within its budget loses no place of the window. */
  lemma StepComplete(g: Config, f: Finder, trees: seq<Tree>)
    requires Valid(g, f) && f.buffer < |g.text| && !g.kind.Hc4? && Indexed(g, WindowOf(g, f), f.hash, f.son, trees, f.lenLimit)
    requires AllFitTrees(g.text, trees, f.lenLimit) && Fits(g.text, f.buffer, f.lenLimit)
    requires Complete(g, f.buffer, trees, f.lenLimit) && WithinBudget(g, f, trees)
    ensures Valid(g, Step(g, f)) && Fits(g.text, Step(g, f).buffer, Step(g, f).lenLimit)
    ensures AllFitTrees(g.text, Grown(g, f, trees), Step(g, f).lenLimit)
    ensures Complete(g, Step(g, f).buffer, Grown(g, f, trees), Step(g, f).lenLimit)
  {
    hide LinksFit, Step, Entered, Avail, Rep, Grown, Keyed, HasTree, Stands, AllFitTrees, AllFit, Heads;
    GrownFits(g, f, trees);
    StepValid(g, f);
    forall j | Earlier(g, f.buffer + 1, j)
      ensures var t := Grown(g, f, trees)[MainHead(g, j) - FixedSize(g.kind)];
              && Fits(g.text, j, Step(g, f).lenLimit) && AllFit(g.text, Nodes(t), Step(g, f).lenLimit)
              && Stands(g.text, t, j, Step(g, f).lenLimit)
    {
      PlaceStays(g, f, trees, j);
    }
  }

  lemma PlaceStays(g: Config, f: Finder, trees: seq<Tree>, j: int)
    requires Valid(g, f) && f.buffer < |g.text| && !g.kind.Hc4? && Indexed(g, WindowOf(g, f), f.hash, f.son, trees, f.lenLimit)
    requires AllFitTrees(g.text, trees, f.lenLimit) && Fits(g.text, f.buffer, f.lenLimit)
    requires Complete(g, f.buffer, trees, f.lenLimit) && WithinBudget(g, f, trees) && Earlier(g, f.buffer + 1, j)
    ensures Valid(g, Step(g, f)) && Fits(g.text, j, Step(g, f).lenLimit)
    ensures var t := Grown(g, f, trees)[MainHead(g, j) - FixedSize(g.kind)];
            AllFit(g.text, Nodes(t), Step(g, f).lenLimit) && Stands(g.text, t, j, Step(g, f).lenLimit)
  {
    hide LinksFit, Step, Entered, Avail, Rep, Sorted, Heads, Stands, Path, Insert;
    LimitShrinks(g, f);
    var k := MainHead(g, j) - FixedSize(g.kind);
    var t, low, short := trees[k], FirstLater(WindowOf(g, f)), Step(g, f).lenLimit;
    if MinLen(g.kind) <= f.lenLimit && MainHead(g, f.buffer) == MainHead(g, j) {
      TreeBefore(g, f, trees, k);
      StandsInserted(g.text, t, f.buffer, f.lenLimit, g.cut, j);
      InsertSorted(g.text, t, f.buffer, f.lenLimit, g.cut);
      SortedFits(g.text, Insert(g.text, t, f.buffer, f.lenLimit, g.cut), f.lenLimit);
      StandsPruned(g.text, Insert(g.text, t, f.buffer, f.lenLimit, g.cut), low, j, short, f.lenLimit);
    } else {
      ShortPlace(g, f, j);
      StandsPruned(g.text, t, low, j, short, f.lenLimit);
    }
  }

  // The current place is entered exactly when it is long enough.
  lemma ShortPlace(g: Config, f: Finder, j: int)
    requires Placed(g, f) && f.buffer < |g.text| && Earlier(g, f.buffer + 1, j) && 0 <= f.lenLimit
    requires f.lenLimit < MinLen(g.kind) || MainHead(g, f.buffer) != MainHead(g, j)
    ensures j < f.buffer
  {
  }

  lemma TreeBefore(g: Config, f: Finder, trees: seq<Tree>, k: int)
    requires Valid(g, f) && f.buffer < |g.text| && !g.kind.Hc4? && Indexed(g, WindowOf(g, f), f.hash, f.son, trees, f.lenLimit)
    requires 0 <= k < |trees|
    ensures Sorted(g.text, trees[k], f.lenLimit) && AllFit(g.text, Nodes(trees[k]), f.lenLimit)
    ensures (forall i :: i in Nodes(trees[k]) ==> i < f.buffer) && Near(WindowOf(g, f), Nodes(trees[k]))
    ensures OfHead(g, Nodes(trees[k]), FixedSize(g.kind) + k)
  {
    hide Sorted, Rep, Avail;
    HeadNodes(g, WindowOf(g, f), f.son, f.hash[FixedSize(g.kind) + k], trees[k], FixedSize(g.kind) + k, f.lenLimit);
  }
}
