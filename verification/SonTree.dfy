/**
 The search trees as they lie in the son array: two links per slot, slots reused cyclically. The loops of the
 match finder over that array are mirrored by functions and shown to split and search the trees they stand for.
 */
module SonTree {
  import opened Primitives
  import opened MatchText
  import opened SearchTree

  /**
   Where the finder stands: place cur of the text has position pos and slot cpos of a buffer of cyc slots.
   Places with fewer than min bytes after them are never entered.
   */
  datatype Window = Window(text: seq<byte>, cur: int, pos: int, cyc: int, cpos: int, min: int)

  predicate WfWindow(w: Window) {
    0 <= w.cpos < w.cyc <= w.pos < TWO32 && 0 <= w.cur <= |w.text|
  }

  predicate InWindow(w: Window, r: int) {
    w.pos - r < w.cyc
  }

  // A reference is to an earlier position, and if that is in the window it is a place that was entered.
  predicate GoodRef(w: Window, r: int) {
    0 <= r < w.pos && (InWindow(w, r) ==> w.pos - r <= w.cur && Fits(w.text, w.cur - (w.pos - r), w.min))
  }

  function IndexOf(w: Window, r: int): int {
    w.cur - (w.pos - r)
  }

  // An earlier place in the window that was entered.
  predicate Known(w: Window, i: int) {
    0 <= i < w.cur && w.cur - i < w.cyc && Fits(w.text, i, w.min)
  }

  // The links of all places that were entered are good; what other slots hold does not matter.
  predicate GoodSon(w: Window, son: seq<int>)
    requires WfWindow(w)
  {
    && |son| == 2 * w.cyc && (forall k :: 0 <= k < |son| ==> 0 <= son[k] < TWO32)
    && forall i :: 0 <= i < w.cur && Known(w, i) ==> GoodRef(w, son[2 * SlotAt(w, i)]) && GoodRef(w, son[2 * SlotAt(w, i) + 1])
  }

  // The slot delta positions behind the current one, once around.
  function SlotBack(w: Window, delta: int): int {
    w.cpos - delta + if delta > w.cpos then w.cyc else 0
  }

  function SlotAt(w: Window, i: int): int {
    SlotBack(w, w.cur - i)
  }

  /** The slot arithmetic addresses the slot of the referenced place: its number modulo the number of slots. */
  lemma SlotIsResidue(w: Window, i: int)
    requires WfWindow(w) && w.cpos == w.cur % w.cyc && 0 <= i <= w.cur && w.cur - i < w.cyc
    ensures SlotAt(w, i) == i % w.cyc
  {
    var q := w.cur / w.cyc;
    assert w.cur == w.cyc * q + w.cpos;
    if w.cur - i > w.cpos {
      assert w.cyc * (q - 1) == w.cyc * q - w.cyc;
      ModUnique(i, w.cyc, q - 1, SlotAt(w, i));
    } else {
      ModUnique(i, w.cyc, q, SlotAt(w, i));
    }
  }

  lemma SlotInjective(w: Window, i: int, j: int)
    requires WfWindow(w) && 0 <= w.cur - i < w.cyc && 0 <= w.cur - j < w.cyc
    ensures 0 <= SlotAt(w, i) < w.cyc
    ensures SlotAt(w, i) == SlotAt(w, j) <==> i == j
  {
  }

  lemma LinksGood(w: Window, son: seq<int>, r: int)
    requires WfWindow(w) && GoodSon(w, son) && GoodRef(w, r) && InWindow(w, r)
    ensures var s := 2 * SlotAt(w, IndexOf(w, r)); 0 <= s < s + 1 < |son| && GoodRef(w, son[s]) && GoodRef(w, son[s + 1])
  {
    SlotInjective(w, IndexOf(w, r), IndexOf(w, r));
    assert Known(w, IndexOf(w, r));
  }

  lemma PutGood(w: Window, son: seq<int>, k: int, v: int)
    requires WfWindow(w) && GoodSon(w, son) && 0 <= k < |son| && GoodRef(w, v)
    ensures GoodSon(w, son[k := v])
  {
    forall i | 0 <= i < w.cur && Known(w, i)
      ensures GoodRef(w, son[k := v][2 * SlotAt(w, i)]) && GoodRef(w, son[k := v][2 * SlotAt(w, i) + 1])
    {
      SlotInjective(w, i, i);
    }
  }

  // ---------- the loops, mirrored ----------

  predicate LoopPre(w: Window, limit: int, son: seq<int>, p0: int, p1: int, r: int, len0: int, len1: int) {
    && WfWindow(w) && Fits(w.text, w.cur, limit) && GoodSon(w, son) && GoodRef(w, r)
    && 0 <= p0 < |son| && 0 <= p1 < |son| && 0 <= len0 < limit && 0 <= len1 < limit
  }

  // How far the place of r agrees with the current one, the first min(len0, len1) bytes being skipped.
  function MatchLen(w: Window, limit: int, r: int, len0: int, len1: int): (n: int)
    requires WfWindow(w) && Fits(w.text, w.cur, limit) && GoodRef(w, r) && InWindow(w, r) && 0 <= len0 < limit && 0 <= len1 < limit
    ensures Min(len0, len1) <= n <= limit
  {
    Extend(w.text, IndexOf(w, r), w.cur, Min(len0, len1), limit)
  }

  predicate GoesHigh(w: Window, limit: int, r: int, n: int)
    requires WfWindow(w) && Fits(w.text, w.cur, limit) && GoodRef(w, r) && InWindow(w, r) && 0 <= n < limit
  {
    Sym(w.text, IndexOf(w, r), n) < Sym(w.text, w.cur, n)
  }

  /** What the insertion loop leaves of the son array: p0 and p1 are where the larger and the smaller part go. */
  function SonLoop(w: Window, limit: int, son: seq<int>, p0: int, p1: int, r: int, len0: int, len1: int,
      cut: nat): (out: seq<int>)
    requires LoopPre(w, limit, son, p0, p1, r, len0, len1)
    ensures GoodSon(w, out) && GoodRef(w, out[p0]) && GoodRef(w, out[p1])
    ensures forall k :: 0 <= k < |son| && GoodRef(w, son[k]) ==> GoodRef(w, out[k])
    decreases cut
  {
    if cut == 0 || !InWindow(w, r) then
      PutGood(w, son, p0, 0);
      PutGood(w, son[p0 := 0], p1, 0);
      son[p0 := 0][p1 := 0]
    else
      LinksGood(w, son, r);
      PutGood(w, son, p0, r);
      PutGood(w, son, p1, r);
      var s := 2 * SlotAt(w, IndexOf(w, r));
      var n := MatchLen(w, limit, r, len0, len1);
      if n == limit then
        PutGood(w, son, p1, son[s]);
        var next := son[p1 := son[s]];
        PutGood(w, next, p0, next[s + 1]);
        next[p0 := next[s + 1]]
      else if GoesHigh(w, limit, r, n) then
        var next := son[p1 := r];
        SonLoop(w, limit, next, p0, s + 1, next[s + 1], len0, n, cut - 1)
      else
        var next := son[p0 := r];
        SonLoop(w, limit, next, s, p1, next[s], n, len1, cut - 1)
  }

  /** The matches that the searching variant of the loop reports on the way. */
  function FoundLoop(w: Window, limit: int, son: seq<int>, p0: int, p1: int, r: int, len0: int, len1: int, cut: nat,
      maxLen: int): seq<Found>
    requires LoopPre(w, limit, son, p0, p1, r, len0, len1)
    decreases cut
  {
    if cut == 0 || !InWindow(w, r) then
      []
    else
      LinksGood(w, son, r);
      PutGood(w, son, p0, r);
      PutGood(w, son, p1, r);
      var s := 2 * SlotAt(w, IndexOf(w, r));
      var n := MatchLen(w, limit, r, len0, len1);
      var longer := Min(len0, len1) < n && maxLen < n;
      var here := if longer then [Found(n, w.pos - r - 1)] else [];
      var best := if longer then n else maxLen;
      if n == limit then
        here
      else if GoesHigh(w, limit, r, n) then
        var next := son[p1 := r];
        here + FoundLoop(w, limit, next, p0, s + 1, next[s + 1], len0, n, cut - 1, best)
      else
        var next := son[p0 := r];
        here + FoundLoop(w, limit, next, s, p1, next[s], n, len1, cut - 1, best)
  }

  // ---------- the turns of the loop, one by one ----------

  // What a turn of the loop adds to the reports, and the longest length after it.
  function Here(w: Window, r: int, low: int, n: int, maxLen: int): seq<Found> {
    if low < n && maxLen < n then [Found(n, w.pos - r - 1)] else []
  }

  function Best(low: int, n: int, maxLen: int): int {
    if low < n && maxLen < n then n else maxLen
  }

  lemma TurnStop(w: Window, limit: int, son: seq<int>, p0: int, p1: int, r: int, len0: int, len1: int, cut: nat, maxLen: int)
    requires LoopPre(w, limit, son, p0, p1, r, len0, len1) && (cut == 0 || !InWindow(w, r))
    ensures SonLoop(w, limit, son, p0, p1, r, len0, len1, cut) == son[p0 := 0][p1 := 0]
    ensures FoundLoop(w, limit, son, p0, p1, r, len0, len1, cut, maxLen) == []
  {
  }

  lemma TurnFull(w: Window, limit: int, son: seq<int>, p0: int, p1: int, r: int, len0: int, len1: int, cut: nat, maxLen: int)
    requires LoopPre(w, limit, son, p0, p1, r, len0, len1) && 0 < cut && InWindow(w, r)
    requires MatchLen(w, limit, r, len0, len1) == limit
    ensures var s := 2 * SlotAt(w, IndexOf(w, r));
            && 0 <= s < s + 1 < |son|
            && SonLoop(w, limit, son, p0, p1, r, len0, len1, cut) == son[p1 := son[s]][p0 := son[p1 := son[s]][s + 1]]
            && FoundLoop(w, limit, son, p0, p1, r, len0, len1, cut, maxLen) == Here(w, r, Min(len0, len1), limit, maxLen)
  {
  }

  lemma TurnHigher(w: Window, limit: int, son: seq<int>, p0: int, p1: int, r: int, len0: int, len1: int, cut: nat, maxLen: int)
    requires LoopPre(w, limit, son, p0, p1, r, len0, len1) && 0 < cut && InWindow(w, r)
    requires MatchLen(w, limit, r, len0, len1) < limit && GoesHigh(w, limit, r, MatchLen(w, limit, r, len0, len1))
    ensures var s, n, next := 2 * SlotAt(w, IndexOf(w, r)), MatchLen(w, limit, r, len0, len1), son[p1 := r];
            && 0 <= s < s + 1 < |son| && LoopPre(w, limit, next, p0, s + 1, next[s + 1], len0, n)
            && SonLoop(w, limit, son, p0, p1, r, len0, len1, cut) == SonLoop(w, limit, next, p0, s + 1, next[s + 1], len0, n, cut - 1)
            && FoundLoop(w, limit, son, p0, p1, r, len0, len1, cut, maxLen)
               == Here(w, r, Min(len0, len1), n, maxLen)
                  + FoundLoop(w, limit, next, p0, s + 1, next[s + 1], len0, n, cut - 1, Best(Min(len0, len1), n, maxLen))
  {
  }

  lemma TurnLower(w: Window, limit: int, son: seq<int>, p0: int, p1: int, r: int, len0: int, len1: int, cut: nat, maxLen: int)
    requires LoopPre(w, limit, son, p0, p1, r, len0, len1) && 0 < cut && InWindow(w, r)
    requires MatchLen(w, limit, r, len0, len1) < limit && !GoesHigh(w, limit, r, MatchLen(w, limit, r, len0, len1))
    ensures var s, n, next := 2 * SlotAt(w, IndexOf(w, r)), MatchLen(w, limit, r, len0, len1), son[p0 := r];
            && 0 <= s < s + 1 < |son| && LoopPre(w, limit, next, s, p1, next[s], n, len1)
            && SonLoop(w, limit, son, p0, p1, r, len0, len1, cut) == SonLoop(w, limit, next, s, p1, next[s], n, len1, cut - 1)
            && FoundLoop(w, limit, son, p0, p1, r, len0, len1, cut, maxLen)
               == Here(w, r, Min(len0, len1), n, maxLen)
                  + FoundLoop(w, limit, next, s, p1, next[s], n, len1, cut - 1, Best(Min(len0, len1), n, maxLen))
  {
  }

  // ---------- what the array stands for ----------

  /** Following the links from r yields the tree t of places in the window. */
  predicate Rep(w: Window, son: seq<int>, r: int, t: Tree)
    requires WfWindow(w) && GoodSon(w, son) && GoodRef(w, r)
    decreases t
  {
    match t
    case Leaf => !InWindow(w, r)
    case Node(l, i, g) =>
      && InWindow(w, r) && i == IndexOf(w, r)
      && Rep(w, son, son[2 * SlotAt(w, i)], l) && Rep(w, son, son[2 * SlotAt(w, i) + 1], g)
  }

  // All nodes are earlier places in the window.
  predicate Near(w: Window, nodes: set<int>) {
    forall j :: j in nodes ==> 0 <= j && 1 <= w.cur - j < w.cyc
  }

  // Entry k is not a link of any of the nodes.
  predicate Free(w: Window, nodes: set<int>, k: int) {
    forall j :: j in nodes ==> SlotAt(w, j) != k / 2
  }

  lemma {:induction false} RepNear(w: Window, son: seq<int>, r: int, t: Tree)
    requires WfWindow(w) && GoodSon(w, son) && GoodRef(w, r) && Rep(w, son, r, t)
    ensures Near(w, Nodes(t))
    decreases t
  {
    if t.Node? {
      var s := 2 * SlotAt(w, t.at);
      RepNear(w, son, son[s], t.lo);
      RepNear(w, son, son[s + 1], t.hi);
    }
  }

  predicate SameLinks(w: Window, nodes: set<int>, son: seq<int>, out: seq<int>) {
    |son| == |out| && forall k :: 0 <= k < |son| && !Free(w, nodes, k) ==> out[k] == son[k]
  }

  lemma LinksOf(w: Window, nodes: set<int>, son: seq<int>, out: seq<int>, i: int)
    requires WfWindow(w) && GoodSon(w, son) && SameLinks(w, nodes, son, out) && i in nodes && 0 <= w.cur - i < w.cyc
    ensures 0 <= SlotAt(w, i) < w.cyc
    ensures out[2 * SlotAt(w, i)] == son[2 * SlotAt(w, i)] && out[2 * SlotAt(w, i) + 1] == son[2 * SlotAt(w, i) + 1]
  {
    assert !Free(w, nodes, 2 * SlotAt(w, i)) && !Free(w, nodes, 2 * SlotAt(w, i) + 1);
  }

  /** A tree does not notice changes outside its own links. */
  lemma {:induction false} RepFrame(w: Window, son: seq<int>, out: seq<int>, r: int, t: Tree)
    requires WfWindow(w) && GoodSon(w, son) && GoodSon(w, out) && GoodRef(w, r)
    requires Rep(w, son, r, t) && SameLinks(w, Nodes(t), son, out)
    ensures Rep(w, out, r, t)
    decreases t
  {
    if t.Node? {
      var s := 2 * SlotAt(w, t.at);
      LinksOf(w, Nodes(t), son, out, t.at);
      FewerLinks(w, Nodes(t.lo), Nodes(t), son, out);
      FewerLinks(w, Nodes(t.hi), Nodes(t), son, out);
      RepFrame(w, son, out, son[s], t.lo);
      RepFrame(w, son, out, son[s + 1], t.hi);
    }
  }

  lemma FewerLinks(w: Window, few: set<int>, nodes: set<int>, son: seq<int>, out: seq<int>)
    requires few <= nodes && SameLinks(w, nodes, son, out)
    ensures SameLinks(w, few, son, out)
  {
    forall k | 0 <= k < |son| && !Free(w, few, k)
      ensures out[k] == son[k]
    {
      assert !Free(w, nodes, k);
    }
  }
}
