/** The insertion loop over the son array splits and searches exactly the tree that the links stand for. */
module SonSplit {
  import opened Primitives
  import opened MatchText
  import opened SearchTree
  import opened SonTree

  // The nodes lie between places lo and hi, where there are such; the loop's lengths are how far these agree with cur.
  predicate Guard(w: Window, limit: int, nodes: set<int>, lo: int, hi: int, len0: int, len1: int)
    requires Fits(w.text, w.cur, limit) && AllFit(w.text, nodes, limit)
  {
    && (if lo < 0 then len1 == 0
        else Fits(w.text, lo, limit) && Lcp(w.text, lo, w.cur, limit) == len1 && forall j :: j in nodes ==> Le(w.text, lo, j, limit))
    && (if hi < 0 then len0 == 0
        else Fits(w.text, hi, limit) && Lcp(w.text, hi, w.cur, limit) == len0 && forall j :: j in nodes ==> Le(w.text, j, hi, limit))
  }

  /** Skipping the first min(len0, len1) bytes is sound: every node that can still be met agrees that far. */
  lemma GuardShares(w: Window, limit: int, nodes: set<int>, lo: int, hi: int, len0: int, len1: int, j: int)
    requires Fits(w.text, w.cur, limit) && AllFit(w.text, nodes, limit) && Guard(w, limit, nodes, lo, hi, len0, len1)
    requires 0 <= len0 && 0 <= len1 && j in nodes
    ensures Min(len0, len1) <= Lcp(w.text, j, w.cur, limit)
  {
    if 0 <= lo && 0 <= hi {
      Sandwich(w.text, lo, j, hi, w.cur, limit);
    }
  }

  // The parts a and b hang where the loop was to put them, and nothing else has changed.
  predicate SplitDone(w: Window, nodes: set<int>, son: seq<int>, out: seq<int>, p0: int, p1: int, a: Tree, b: Tree) {
    && WfWindow(w) && GoodSon(w, son) && GoodSon(w, out) && 0 <= p0 < |out| && 0 <= p1 < |out|
    && GoodRef(w, out[p0]) && GoodRef(w, out[p1])
    && Rep(w, out, out[p1], a) && Rep(w, out, out[p0], b) && Untouched(w, nodes, son, out, p0, p1)
  }

  predicate Untouched(w: Window, nodes: set<int>, son: seq<int>, out: seq<int>, p0: int, p1: int)
    requires |son| == |out|
  {
    forall k :: 0 <= k < |out| && Free(w, nodes, k) && k != p0 && k != p1 ==> out[k] == son[k]
  }

  // The loop is about to split the tree t below r.
  predicate SplitPre(w: Window, limit: int, son: seq<int>, p0: int, p1: int, r: int, t: Tree) {
    && WfWindow(w) && GoodSon(w, son) && GoodRef(w, r) && Rep(w, son, r, t) && Sorted(w.text, t, limit)
    && 0 <= p0 < |son| && 0 <= p1 < |son| && p0 != p1 && Free(w, Nodes(t), p0) && Free(w, Nodes(t), p1)
  }

  // Links of nodes of a part are free of the other nodes.
  lemma FreeApart(w: Window, few: set<int>, others: set<int>, k: int)
    requires WfWindow(w) && Near(w, few) && Near(w, others) && few !! others && !Free(w, few, k)
    ensures Free(w, others, k)
  {
    var i :| i in few && SlotAt(w, i) == k / 2;
    forall j | j in others
      ensures SlotAt(w, j) != k / 2
    {
      SlotInjective(w, i, j);
    }
  }

  // Neither the links of the root nor those of one side belong to the other side.
  lemma Separate(w: Window, limit: int, son: seq<int>, p0: int, p1: int, r: int, t: Tree)
    requires SplitPre(w, limit, son, p0, p1, r, t) && t.Node?
    ensures var s := 2 * SlotAt(w, t.at);
            && t.at == IndexOf(w, r) && 0 <= s < s + 1 < |son| && p0 != s && p0 != s + 1 && p1 != s && p1 != s + 1
            && Free(w, Nodes(t.lo), s) && Free(w, Nodes(t.lo), s + 1) && Free(w, Nodes(t.hi), s) && Free(w, Nodes(t.hi), s + 1)
            && Near(w, Nodes(t.lo)) && Near(w, Nodes(t.hi))
            && Free(w, Nodes(t.lo), p0) && Free(w, Nodes(t.lo), p1) && Free(w, Nodes(t.hi), p0) && Free(w, Nodes(t.hi), p1)
  {
    RepNear(w, son, r, t);
    var s := 2 * SlotAt(w, t.at);
    SlotInjective(w, t.at, t.at);
    assert t.at in Nodes(t);
    assert s / 2 == SlotAt(w, t.at) && (s + 1) / 2 == SlotAt(w, t.at);
    forall j | j in Nodes(t.lo) + Nodes(t.hi)
      ensures j in Nodes(t) && SlotAt(w, j) != SlotAt(w, t.at)
    {
      SlotInjective(w, t.at, j);
    }
  }

  lemma RepOfNode(w: Window, son: seq<int>, r: int, l: Tree, g: Tree)
    requires WfWindow(w) && GoodSon(w, son) && GoodRef(w, r) && InWindow(w, r)
    ensures var s := 2 * SlotAt(w, IndexOf(w, r));
            && 0 <= s < s + 1 < |son|
            && (Rep(w, son, son[s], l) && Rep(w, son, son[s + 1], g) <==> Rep(w, son, r, Node(l, IndexOf(w, r), g)))
  {
    SlotInjective(w, IndexOf(w, r), IndexOf(w, r));
  }

  // The side that the loop left behind, other being the side it went on with and q the link it put there.
  lemma LeftBehind(w: Window, few: Tree, other: Tree, son: seq<int>, next: seq<int>, out: seq<int>, p: int, r: int, q0: int,
      q1: int, x: int)
    requires WfWindow(w) && GoodSon(w, son) && GoodSon(w, out) && 0 <= p < |son| && next == son[p := r]
    requires Near(w, Nodes(few)) && Near(w, Nodes(other)) && Nodes(few) !! Nodes(other)
    requires Untouched(w, Nodes(other), next, out, q0, q1)
    requires Free(w, Nodes(few), p) && Free(w, Nodes(few), q0) && Free(w, Nodes(few), q1)
    requires GoodRef(w, x) && Rep(w, son, x, few)
    ensures Rep(w, out, x, few)
  {
    hide Rep;
    assert SameLinks(w, Nodes(few), son, out) by {
      forall k | 0 <= k < |son| && !Free(w, Nodes(few), k)
        ensures out[k] == son[k]
      {
        FreeApart(w, Nodes(few), Nodes(other), k);
      }
    }
    RepFrame(w, son, out, x, few);
  }

  lemma UntouchedTurn(w: Window, t: Tree, part: Tree, son: seq<int>, out: seq<int>, p0: int, p1: int, p: int, r: int,
      q0: int, q1: int)
    requires t.Node? && (part == t.lo || part == t.hi) && |son| == |out| && 0 <= p < |son| && (p == p0 || p == p1)
    requires q0 == p0 || q0 == 2 * SlotAt(w, t.at) || q0 == 2 * SlotAt(w, t.at) + 1
    requires q1 == p1 || q1 == 2 * SlotAt(w, t.at) || q1 == 2 * SlotAt(w, t.at) + 1
    requires Untouched(w, Nodes(part), son[p := r], out, q0, q1)
    ensures Untouched(w, Nodes(t), son, out, p0, p1)
  {
    forall k | 0 <= k < |out| && Free(w, Nodes(t), k) && k != p0 && k != p1
      ensures out[k] == son[k]
    {
      SubFree(w, t, k);
    }
  }

  lemma JoinLess(w: Window, limit: int, son: seq<int>, out: seq<int>, p0: int, p1: int, r: int, t: Tree, a: Tree, b: Tree)
    requires SplitPre(w, limit, son, p0, p1, r, t) && t.Node?
    requires SplitDone(w, Nodes(t.hi), son[p1 := r], out, p0, 2 * SlotAt(w, t.at) + 1, a, b)
    ensures SplitDone(w, Nodes(t), son, out, p0, p1, Node(t.lo, t.at, a), b)
  {
    hide Le, Sorted, Rep, Free, Untouched;
    Separate(w, limit, son, p0, p1, r, t);
    RepLeaf(w, limit, son, p0, p1, r, t);
    var s := 2 * SlotAt(w, t.at);
    assert out[p1] == r && out[s] == son[s] by {
      UntouchedAt(w, Nodes(t.hi), son[p1 := r], out, p0, s + 1, p1);
      UntouchedAt(w, Nodes(t.hi), son[p1 := r], out, p0, s + 1, s);
    }
    Sides(w, limit, t);
    RepOfNode(w, son, r, t.lo, t.hi);
    LeftBehind(w, t.lo, t.hi, son, son[p1 := r], out, p1, r, p0, s + 1, son[s]);
    RepOfNode(w, out, r, t.lo, a);
    UntouchedTurn(w, t, t.hi, son, out, p0, p1, p1, r, p0, s + 1);
  }

  lemma UntouchedAt(w: Window, nodes: set<int>, son: seq<int>, out: seq<int>, p0: int, p1: int, k: int)
    requires |son| == |out| && Untouched(w, nodes, son, out, p0, p1) && 0 <= k < |out| && Free(w, nodes, k)
    ensures k != p0 && k != p1 ==> out[k] == son[k]
  {
  }

  lemma Sides(w: Window, limit: int, t: Tree)
    requires Sorted(w.text, t, limit) && t.Node?
    ensures Nodes(t.lo) !! Nodes(t.hi)
  {
  }

  lemma SubFree(w: Window, t: Tree, k: int)
    requires t.Node? && Free(w, Nodes(t), k)
    ensures Free(w, Nodes(t.lo), k) && Free(w, Nodes(t.hi), k) && k != 2 * SlotAt(w, t.at) && k != 2 * SlotAt(w, t.at) + 1
  {
    assert t.at in Nodes(t);
  }

  lemma JoinMore(w: Window, limit: int, son: seq<int>, out: seq<int>, p0: int, p1: int, r: int, t: Tree, a: Tree, b: Tree)
    requires SplitPre(w, limit, son, p0, p1, r, t) && t.Node?
    requires SplitDone(w, Nodes(t.lo), son[p0 := r], out, 2 * SlotAt(w, t.at), p1, a, b)
    ensures SplitDone(w, Nodes(t), son, out, p0, p1, a, Node(b, t.at, t.hi))
  {
    hide Le, Sorted, Rep, Free, Untouched;
    Separate(w, limit, son, p0, p1, r, t);
    RepLeaf(w, limit, son, p0, p1, r, t);
    var s := 2 * SlotAt(w, t.at);
    assert out[p0] == r && out[s + 1] == son[s + 1] by {
      UntouchedAt(w, Nodes(t.lo), son[p0 := r], out, s, p1, p0);
      UntouchedAt(w, Nodes(t.lo), son[p0 := r], out, s, p1, s + 1);
    }
    Sides(w, limit, t);
    RepOfNode(w, son, r, t.lo, t.hi);
    LeftBehind(w, t.hi, t.lo, son, son[p0 := r], out, p0, r, s, p1, son[s + 1]);
    RepOfNode(w, out, r, b, t.hi);
    UntouchedTurn(w, t, t.lo, son, out, p0, p1, p0, r, s, p1);
  }

  lemma JoinEqual(w: Window, limit: int, son: seq<int>, p0: int, p1: int, r: int, t: Tree)
    requires SplitPre(w, limit, son, p0, p1, r, t) && t.Node?
    ensures var s := 2 * SlotAt(w, t.at);
            && 0 <= s < s + 1 < |son|
            && SplitDone(w, Nodes(t), son, son[p1 := son[s]][p0 := son[s + 1]], p0, p1, t.lo, t.hi)
            && son[p1 := son[s]][s + 1] == son[s + 1]
  {
    hide Le, Sorted, Rep, GoodSon, GoodRef;
    Separate(w, limit, son, p0, p1, r, t);
    RepLeaf(w, limit, son, p0, p1, r, t);
    RepOfNode(w, son, r, t.lo, t.hi);
    var s := 2 * SlotAt(w, t.at);
    var out := son[p1 := son[s]][p0 := son[s + 1]];
    LinksGood(w, son, r);
    PutGood(w, son, p1, son[s]);
    PutGood(w, son[p1 := son[s]], p0, son[s + 1]);
    assert |out| == |son|;
    RepFrame(w, son, out, son[s], t.lo);
    RepFrame(w, son, out, son[s + 1], t.hi);
  }

  lemma JoinNothing(w: Window, limit: int, son: seq<int>, p0: int, p1: int, r: int, t: Tree)
    requires SplitPre(w, limit, son, p0, p1, r, t)
    ensures SplitDone(w, Nodes(t), son, son[p0 := 0][p1 := 0], p0, p1, Leaf, Leaf)
  {
  }

  // The precondition of the next turn of the loop, on the side of larger nodes.
  lemma TurnHigh(w: Window, limit: int, son: seq<int>, p0: int, p1: int, r: int, t: Tree)
    requires SplitPre(w, limit, son, p0, p1, r, t) && t.Node?
    ensures var s := 2 * SlotAt(w, t.at);
            && 0 <= s < s + 1 < |son| && son[p1 := r][s + 1] == son[s + 1]
            && SplitPre(w, limit, son[p1 := r], p0, s + 1, son[s + 1], t.hi)
  {
    hide Le;
    Separate(w, limit, son, p0, p1, r, t);
    RepFrame(w, son, son[p1 := r], son[2 * SlotAt(w, t.at) + 1], t.hi);
  }

  lemma TurnLow(w: Window, limit: int, son: seq<int>, p0: int, p1: int, r: int, t: Tree)
    requires SplitPre(w, limit, son, p0, p1, r, t) && t.Node?
    ensures var s := 2 * SlotAt(w, t.at);
            && 0 <= s < s + 1 < |son| && son[p0 := r][s] == son[s]
            && SplitPre(w, limit, son[p0 := r], s, p1, son[s], t.lo)
  {
    hide Le;
    Separate(w, limit, son, p0, p1, r, t);
    RepFrame(w, son, son[p0 := r], son[2 * SlotAt(w, t.at)], t.lo);
  }

  // The node at hand: the loop's skipped comparison finds the exact common prefix.
  lemma NodeMatch(w: Window, limit: int, son: seq<int>, r: int, t: Tree, lo: int, hi: int, len0: int, len1: int)
    requires WfWindow(w) && GoodSon(w, son) && GoodRef(w, r) && Rep(w, son, r, t) && t.Node? && Sorted(w.text, t, limit)
    requires Fits(w.text, w.cur, limit) && 0 <= len0 < limit && 0 <= len1 < limit
    requires AllFit(w.text, Nodes(t), limit) && Guard(w, limit, Nodes(t), lo, hi, len0, len1)
    ensures InWindow(w, r) && t.at == IndexOf(w, r)
    ensures MatchLen(w, limit, r, len0, len1) == Lcp(w.text, t.at, w.cur, limit)
    ensures var n := Lcp(w.text, t.at, w.cur, limit);
            n < limit ==>
              && AllFit(w.text, Nodes(t.hi), limit) && AllFit(w.text, Nodes(t.lo), limit)
              && (GoesHigh(w, limit, r, n) <==> Sym(w.text, t.at, n) < Sym(w.text, w.cur, n))
              && Guard(w, limit, Nodes(t.hi), t.at, hi, len0, n) && Guard(w, limit, Nodes(t.lo), lo, t.at, n, len1)
  {
    hide Le, Lcp;
    GuardShares(w, limit, Nodes(t), lo, hi, len0, len1, t.at);
    ExtendIsLcp(w.text, t.at, w.cur, Min(len0, len1), limit);
  }

  /** The loop over the array is the split of the tree, and its reports are those of the search. */
  lemma {:induction false} LoopSplits(w: Window, limit: int, son: seq<int>, p0: int, p1: int, r: int, t: Tree,
                                      lo: int, hi: int, len0: int, len1: int, cut: nat, maxLen: int)
    requires LoopPre(w, limit, son, p0, p1, r, len0, len1) && SplitPre(w, limit, son, p0, p1, r, t)
    requires AllFit(w.text, Nodes(t), limit) && Guard(w, limit, Nodes(t), lo, hi, len0, len1) && Max(len0, len1) <= maxLen
    ensures var (a, b) := Split(w.text, t, w.cur, limit, cut);
            SplitDone(w, Nodes(t), son, SonLoop(w, limit, son, p0, p1, r, len0, len1, cut), p0, p1, a, b)
    ensures FoundLoop(w, limit, son, p0, p1, r, len0, len1, cut, maxLen) == Search(w.text, t, w.cur, limit, cut, maxLen)
    decreases cut
  {
    hide Le, Lcp, SplitPre, SplitDone, Guard, Sorted, GoesHigh, MatchLen;
    if t.Leaf? || cut == 0 {
      JoinNothing(w, limit, son, p0, p1, r, t);
      RepLeaf(w, limit, son, p0, p1, r, t);
    } else {
      NodeAt(w, limit, son, p0, p1, r, t, lo, hi, len0, len1);
      var n := Lcp(w.text, t.at, w.cur, limit);
      if n == limit {
        JoinEqual(w, limit, son, p0, p1, r, t);
      } else if GoesHigh(w, limit, r, n) {
        TurnHigh(w, limit, son, p0, p1, r, t);
        var next, s := son[p1 := r], 2 * SlotAt(w, t.at);
        LoopSplits(w, limit, next, p0, s + 1, next[s + 1], t.hi, t.at, hi, len0, n, cut - 1, Max(maxLen, n));
        var (a, b) := Split(w.text, t.hi, w.cur, limit, cut - 1);
        JoinLess(w, limit, son, SonLoop(w, limit, next, p0, s + 1, next[s + 1], len0, n, cut - 1), p0, p1, r, t, a, b);
      } else {
        TurnLow(w, limit, son, p0, p1, r, t);
        var next, s := son[p0 := r], 2 * SlotAt(w, t.at);
        LoopSplits(w, limit, next, s, p1, next[s], t.lo, lo, t.at, n, len1, cut - 1, Max(maxLen, n));
        var (a, b) := Split(w.text, t.lo, w.cur, limit, cut - 1);
        JoinMore(w, limit, son, SonLoop(w, limit, next, s, p1, next[s], n, len1, cut - 1), p0, p1, r, t, a, b);
      }
    }
  }

  lemma RepLeaf(w: Window, limit: int, son: seq<int>, p0: int, p1: int, r: int, t: Tree)
    requires SplitPre(w, limit, son, p0, p1, r, t)
    ensures t.Leaf? <==> !InWindow(w, r)
  {
  }

  lemma NodeAt(w: Window, limit: int, son: seq<int>, p0: int, p1: int, r: int, t: Tree, lo: int, hi: int, len0: int, len1: int)
    requires LoopPre(w, limit, son, p0, p1, r, len0, len1) && SplitPre(w, limit, son, p0, p1, r, t) && t.Node?
    requires AllFit(w.text, Nodes(t), limit) && Guard(w, limit, Nodes(t), lo, hi, len0, len1)
    ensures InWindow(w, r) && t.at == IndexOf(w, r) && 0 <= 2 * SlotAt(w, t.at) < |son| - 1
    ensures MatchLen(w, limit, r, len0, len1) == Lcp(w.text, t.at, w.cur, limit)
    ensures AllFit(w.text, Nodes(t.hi), limit) && AllFit(w.text, Nodes(t.lo), limit)
    ensures var n := Lcp(w.text, t.at, w.cur, limit);
            n < limit ==>
              && LoopPre(w, limit, son[p1 := r], p0, 2 * SlotAt(w, t.at) + 1, son[p1 := r][2 * SlotAt(w, t.at) + 1], len0, n)
              && LoopPre(w, limit, son[p0 := r], 2 * SlotAt(w, t.at), p1, son[p0 := r][2 * SlotAt(w, t.at)], n, len1)
              && (GoesHigh(w, limit, r, n) <==> Sym(w.text, t.at, n) < Sym(w.text, w.cur, n))
              && Guard(w, limit, Nodes(t.hi), t.at, hi, len0, n) && Guard(w, limit, Nodes(t.lo), lo, t.at, n, len1)
  {
    hide Le, Lcp, Guard;
    SlotInjective(w, t.at, t.at);
    NodeMatch(w, limit, son, r, t, lo, hi, len0, len1);
  }
}
