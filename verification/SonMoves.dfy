/** Trees under the two moves of the window: to the next place of the text, and to smaller position numbers. */
module SonMoves {
  import opened Primitives
  import opened MatchText
  import opened SearchTree
  import opened SonTree
  import opened SonSplit

  /** The window one place further on. */
  function Later(w: Window): Window {
    w.(cur := w.cur + 1, pos := w.pos + 1, cpos := if w.cpos + 1 == w.cyc then 0 else w.cpos + 1)
  }

  // The first place that is in the window after the move.
  function FirstLater(w: Window): int {
    w.cur + 2 - w.cyc
  }

  lemma SlotLater(w: Window, i: int)
    requires WfWindow(w) && 0 <= w.cur - i && w.cur + 1 - i < w.cyc
    ensures SlotAt(Later(w), i) == SlotAt(w, i)
  {
  }

  // The links of the current place are good, if it is one that is entered.
  predicate CurGood(w: Window, son: seq<int>)
    requires WfWindow(w) && |son| == 2 * w.cyc
  {
    Fits(w.text, w.cur, w.min) ==> GoodRef(w, son[2 * w.cpos]) && GoodRef(w, son[2 * w.cpos + 1])
  }

  lemma RefLater(w: Window, r: int)
    requires WfWindow(w) && WfWindow(Later(w)) && GoodRef(w, r)
    ensures GoodRef(Later(w), r)
  {
  }

  lemma GoodLater(w: Window, son: seq<int>)
    requires WfWindow(w) && WfWindow(Later(w)) && GoodSon(w, son) && CurGood(w, son)
    ensures GoodSon(Later(w), son)
  {
    hide GoodRef;
    forall i | 0 <= i < w.cur + 1 && Known(Later(w), i)
      ensures GoodRef(Later(w), son[2 * SlotAt(Later(w), i)]) && GoodRef(Later(w), son[2 * SlotAt(Later(w), i) + 1])
    {
      SlotLater(w, i);
      assert i < w.cur ==> Known(w, i);
      RefLater(w, son[2 * SlotAt(w, i)]);
      RefLater(w, son[2 * SlotAt(w, i) + 1]);
    }
  }

  /** Moving on forgets the place whose slot is used next, and keeps every tree otherwise. */
  lemma {:induction false} RepLater(w: Window, son: seq<int>, r: int, t: Tree)
    requires WfWindow(w) && WfWindow(Later(w)) && GoodSon(w, son) && GoodRef(w, r) && Rep(w, son, r, t) && CurGood(w, son)
    ensures GoodSon(Later(w), son) && GoodRef(Later(w), r) && Rep(Later(w), son, r, Prune(t, FirstLater(w)))
    decreases t
  {
    GoodLater(w, son);
    if t.Node? && FirstLater(w) <= t.at {
      SlotLater(w, t.at);
      var s := 2 * SlotAt(w, t.at);
      RepLater(w, son, son[s], t.lo);
      RepLater(w, son, son[s + 1], t.hi);
    }
  }

  /** After an insertion the current position is the root of the two parts. */
  lemma RepRoot(w: Window, out: seq<int>, a: Tree, b: Tree)
    requires WfWindow(w) && WfWindow(Later(w)) && GoodSon(w, out) && Fits(w.text, w.cur, w.min)
    requires GoodRef(w, out[2 * w.cpos]) && GoodRef(w, out[2 * w.cpos + 1])
    requires Rep(w, out, out[2 * w.cpos], a) && Rep(w, out, out[2 * w.cpos + 1], b)
    ensures GoodSon(Later(w), out) && GoodRef(Later(w), w.pos)
    ensures Rep(Later(w), out, w.pos, Prune(Node(a, w.cur, b), FirstLater(w)))
  {
    RepLater(w, out, out[2 * w.cpos], a);
    RepLater(w, out, out[2 * w.cpos + 1], b);
    if 1 < w.cyc {
      SlotLater(w, w.cur);
      assert SlotAt(w, w.cur) == w.cpos;
    }
  }

  /** Inserting the current place: the new tree hangs at its position, and trees of other places do not notice. */
  lemma InsertRep(w: Window, limit: int, son: seq<int>, r: int, t: Tree, cut: nat, maxLen: int)
    requires WfWindow(w) && WfWindow(Later(w)) && GoodSon(w, son) && GoodRef(w, r) && Rep(w, son, r, t)
    requires 0 < limit && Fits(w.text, w.cur, limit) && Sorted(w.text, t, limit) && 0 <= maxLen && Fits(w.text, w.cur, w.min)
    ensures LoopPre(w, limit, son, 2 * w.cpos + 1, 2 * w.cpos, r, 0, 0) && AllFit(w.text, Nodes(t), limit)
    ensures var out := SonLoop(w, limit, son, 2 * w.cpos + 1, 2 * w.cpos, r, 0, 0, cut);
            && GoodSon(w, out) && CurGood(w, out) && GoodSon(Later(w), out) && GoodRef(Later(w), w.pos)
            && Rep(Later(w), out, w.pos, Prune(Insert(w.text, t, w.cur, limit, cut), FirstLater(w)))
            && Untouched(w, Nodes(t), son, out, 2 * w.cpos + 1, 2 * w.cpos)
    ensures FoundLoop(w, limit, son, 2 * w.cpos + 1, 2 * w.cpos, r, 0, 0, cut, maxLen) == Search(w.text, t, w.cur, limit, cut, maxLen)
  {
    hide Le, SonLoop, FoundLoop, Rep, Sorted, Split, Search, Prune;
    SortedFits(w.text, t, limit);
    RepNear(w, son, r, t);
    forall j | j in Nodes(t)
      ensures SlotAt(w, j) != w.cpos
    {
      SlotInjective(w, w.cur, j);
    }
    LoopSplits(w, limit, son, 2 * w.cpos + 1, 2 * w.cpos, r, t, -1, -1, 0, 0, cut, maxLen);
    var (a, b) := Split(w.text, t, w.cur, limit, cut);
    RepRoot(w, SonLoop(w, limit, son, 2 * w.cpos + 1, 2 * w.cpos, r, 0, 0, cut), a, b);
  }

  /** A tree of other places survives the insertion. */
  lemma OtherRep(w: Window, son: seq<int>, out: seq<int>, nodes: set<int>, r: int, t: Tree)
    requires WfWindow(w) && WfWindow(Later(w)) && GoodSon(w, son) && GoodSon(w, out) && CurGood(w, out)
    requires GoodRef(w, r) && Rep(w, son, r, t)
    requires Near(w, nodes) && Nodes(t) !! nodes && Untouched(w, nodes, son, out, 2 * w.cpos + 1, 2 * w.cpos)
    ensures GoodSon(Later(w), out) && GoodRef(Later(w), r) && Rep(Later(w), out, r, Prune(t, FirstLater(w)))
  {
    hide Rep, Prune;
    RepNear(w, son, r, t);
    forall k | 0 <= k < |son| && !Free(w, Nodes(t), k)
      ensures out[k] == son[k]
    {
      FreeApart(w, Nodes(t), nodes, k);
      var j :| j in Nodes(t) && SlotAt(w, j) == k / 2;
      SlotInjective(w, w.cur, j);
    }
    RepFrame(w, son, out, r, t);
    RepLater(w, out, r, t);
  }

  // ---------- smaller position numbers ----------

  /** What renormalisation makes of a stored reference. */
  function NormRef(sub: int, r: int): int {
    if r <= sub then 0 else r - sub
  }

  function NormRefs(sub: int, refs: seq<int>): (out: seq<int>)
    ensures |out| == |refs| && forall k :: 0 <= k < |refs| ==> out[k] == NormRef(sub, refs[k])
  {
    seq(|refs|, k requires 0 <= k < |refs| => NormRef(sub, refs[k]))
  }

  function Lowered(w: Window, sub: int): Window {
    w.(pos := w.pos - sub)
  }

  /**
   Renormalisation is invisible: a reference into the window keeps its distance and its place, and one outside stays outside.
   The subtrahend must leave the whole window above zero.
   */
  lemma NormKeeps(w: Window, sub: int, r: int)
    requires WfWindow(w) && GoodRef(w, r) && 0 <= sub <= w.pos - w.cyc
    ensures WfWindow(Lowered(w, sub)) && GoodRef(Lowered(w, sub), NormRef(sub, r))
    ensures InWindow(Lowered(w, sub), NormRef(sub, r)) <==> InWindow(w, r)
    ensures InWindow(w, r) ==>
              Lowered(w, sub).pos - NormRef(sub, r) == w.pos - r && IndexOf(Lowered(w, sub), NormRef(sub, r)) == IndexOf(w, r)
  {
  }

  lemma {:induction false} RepNorm(w: Window, sub: int, son: seq<int>, r: int, t: Tree)
    requires WfWindow(w) && GoodSon(w, son) && GoodRef(w, r) && Rep(w, son, r, t) && 0 <= sub <= w.pos - w.cyc
    ensures WfWindow(Lowered(w, sub)) && GoodSon(Lowered(w, sub), NormRefs(sub, son)) && GoodRef(Lowered(w, sub), NormRef(sub, r))
    ensures Rep(Lowered(w, sub), NormRefs(sub, son), NormRef(sub, r), t)
    decreases t
  {
    hide GoodSon, GoodRef;
    GoodNorm(w, sub, son);
    NormKeeps(w, sub, r);
    if t.Node? {
      var s := 2 * SlotAt(w, t.at);
      LinksGood(w, son, r);
      RepNorm(w, sub, son, son[s], t.lo);
      RepNorm(w, sub, son, son[s + 1], t.hi);
    }
  }

  lemma GoodNorm(w: Window, sub: int, son: seq<int>)
    requires WfWindow(w) && GoodSon(w, son) && 0 <= sub <= w.pos - w.cyc
    ensures WfWindow(Lowered(w, sub)) && GoodSon(Lowered(w, sub), NormRefs(sub, son))
  {
    hide GoodRef;
    var v, out := Lowered(w, sub), NormRefs(sub, son);
    assert WfWindow(v);
    forall i | 0 <= i < w.cur && Known(v, i)
      ensures GoodRef(v, out[2 * SlotAt(v, i)]) && GoodRef(v, out[2 * SlotAt(v, i) + 1])
    {
      assert Known(w, i) && SlotAt(v, i) == SlotAt(w, i);
      SlotInjective(w, i, i);
      NormKeeps(w, sub, son[2 * SlotAt(w, i)]);
      NormKeeps(w, sub, son[2 * SlotAt(w, i) + 1]);
    }
  }

  // ---------- position numbers cannot be observed ----------

  /** The two windows differ at most in how positions are numbered. */
  predicate Twin(w: Window, v: Window) {
    WfWindow(w) && WfWindow(v) && v == w.(pos := v.pos)
  }

  // The references are to the same place, or both to none in the window.
  predicate SameRef(w: Window, v: Window, r: int, q: int) {
    (InWindow(w, r) <==> InWindow(v, q)) && (InWindow(w, r) ==> w.pos - r == v.pos - q)
  }

  predicate SameSon(w: Window, v: Window, son: seq<int>, out: seq<int>)
    requires Twin(w, v) && GoodSon(w, son) && GoodSon(v, out)
  {
    forall i :: 0 <= i < w.cur && Known(w, i) ==>
                  SameRef(w, v, son[2 * SlotAt(w, i)], out[2 * SlotAt(w, i)])
                  && SameRef(w, v, son[2 * SlotAt(w, i) + 1], out[2 * SlotAt(w, i) + 1])
  }

  lemma SameLinks2(w: Window, v: Window, son: seq<int>, out: seq<int>, r: int, q: int)
    requires Twin(w, v) && GoodSon(w, son) && GoodSon(v, out) && SameSon(w, v, son, out)
    requires GoodRef(w, r) && GoodRef(v, q) && SameRef(w, v, r, q) && InWindow(w, r)
    ensures var s := 2 * SlotAt(w, IndexOf(w, r));
            && s == 2 * SlotAt(v, IndexOf(v, q)) && 0 <= s < s + 1 < |son|
            && SameRef(w, v, son[s], out[s]) && SameRef(w, v, son[s + 1], out[s + 1])
  {
    SlotInjective(w, IndexOf(w, r), IndexOf(w, r));
    assert Known(w, IndexOf(w, r));
  }

  lemma PutSame(w: Window, v: Window, son: seq<int>, out: seq<int>, k: int, r: int, q: int)
    requires Twin(w, v) && GoodSon(w, son) && GoodSon(v, out) && SameSon(w, v, son, out) && 0 <= k < |son|
    requires GoodRef(w, r) && GoodRef(v, q) && SameRef(w, v, r, q)
    ensures GoodSon(w, son[k := r]) && GoodSon(v, out[k := q]) && SameSon(w, v, son[k := r], out[k := q])
  {
    PutGood(w, son, k, r);
    PutGood(v, out, k, q);
    forall i | 0 <= i < w.cur && Known(w, i)
      ensures SameRef(w, v, son[k := r][2 * SlotAt(w, i)], out[k := q][2 * SlotAt(w, i)])
      ensures SameRef(w, v, son[k := r][2 * SlotAt(w, i) + 1], out[k := q][2 * SlotAt(w, i) + 1])
    {
      SlotInjective(w, i, i);
    }
  }

  // A turn of the loop compares the same bytes.
  lemma SameTurn(w: Window, v: Window, limit: int, r: int, q: int, len0: int, len1: int)
    requires Twin(w, v) && Fits(w.text, w.cur, limit) && GoodRef(w, r) && GoodRef(v, q) && SameRef(w, v, r, q) && InWindow(w, r)
    requires 0 <= len0 < limit && 0 <= len1 < limit
    ensures IndexOf(v, q) == IndexOf(w, r) && v.pos - q == w.pos - r
    ensures MatchLen(v, limit, q, len0, len1) == MatchLen(w, limit, r, len0, len1)
    ensures forall n {:trigger GoesHigh(w, limit, r, n)} :: 0 <= n < limit ==> GoesHigh(v, limit, q, n) == GoesHigh(w, limit, r, n)
  {
  }

  // What the loops over twin arrays leave: twin arrays again, the links p0 and p1 among them.
  predicate TwinDone(w: Window, v: Window, son: seq<int>, out: seq<int>, son': seq<int>, out': seq<int>, p0: int, p1: int)
    requires Twin(w, v) && |son| == |out| == |son'| == |out'|
  {
    && GoodSon(w, son') && GoodSon(v, out') && SameSon(w, v, son', out')
    && forall k :: 0 <= k < |son| && (k == p0 || k == p1 || SameRef(w, v, son[k], out[k])) ==> SameRef(w, v, son'[k], out'[k])
  }

  /** The insertion loop does the same to twin arrays, and reports the same matches. */
  lemma {:induction false} LoopSame(w: Window, v: Window, limit: int, son: seq<int>, out: seq<int>, p0: int, p1: int, r: int,
      q: int,
                                    len0: int, len1: int, cut: nat, maxLen: int)
    requires LoopPre(w, limit, son, p0, p1, r, len0, len1) && LoopPre(v, limit, out, p0, p1, q, len0, len1)
    requires Twin(w, v) && SameSon(w, v, son, out) && SameRef(w, v, r, q)
    ensures TwinDone(w, v, son, out, SonLoop(w, limit, son, p0, p1, r, len0, len1, cut), SonLoop(v, limit, out, p0, p1, q, len0, len1, cut), p0, p1)
    ensures FoundLoop(w, limit, son, p0, p1, r, len0, len1, cut, maxLen) == FoundLoop(v, limit, out, p0, p1, q, len0, len1, cut, maxLen)
    decreases cut
  {
    hide SonLoop, FoundLoop, MatchLen, GoesHigh, GoodSon, SlotAt, GoodRef, SameSon, InWindow;
    TwinLength(w, v, son, out);
    if cut == 0 || !InWindow(w, r) {
      TurnStop(w, limit, son, p0, p1, r, len0, len1, cut, maxLen);
      TurnStop(v, limit, out, p0, p1, q, len0, len1, cut, maxLen);
      ZeroSame(w, v);
      PutSame(w, v, son, out, p0, 0, 0);
      PutSame(w, v, son[p0 := 0], out[p0 := 0], p1, 0, 0);
    } else {
      SameTurn(w, v, limit, r, q, len0, len1);
      SameLinks2(w, v, son, out, r, q);
      var n, low := MatchLen(w, limit, r, len0, len1), Min(len0, len1);
      var s, best := 2 * SlotAt(w, IndexOf(w, r)), Best(low, n, maxLen);
      PutSame(w, v, son, out, p0, r, q);
      PutSame(w, v, son, out, p1, r, q);
      if n == limit {
        TurnFull(w, limit, son, p0, p1, r, len0, len1, cut, maxLen);
        TurnFull(v, limit, out, p0, p1, q, len0, len1, cut, maxLen);
        LinksGood(w, son, r);
        LinksGood(v, out, q);
        PutSame(w, v, son, out, p1, son[s], out[s]);
        PutSame(w, v, son[p1 := son[s]], out[p1 := out[s]], p0, son[p1 := son[s]][s + 1], out[p1 := out[s]][s + 1]);
      } else if GoesHigh(w, limit, r, n) {
        TurnHigher(w, limit, son, p0, p1, r, len0, len1, cut, maxLen);
        TurnHigher(v, limit, out, p0, p1, q, len0, len1, cut, maxLen);
        LoopSame(w, v, limit, son[p1 := r], out[p1 := q], p0, s + 1, son[p1 := r][s + 1], out[p1 := q][s + 1], len0, n, cut - 1, best);
      } else {
        TurnLower(w, limit, son, p0, p1, r, len0, len1, cut, maxLen);
        TurnLower(v, limit, out, p0, p1, q, len0, len1, cut, maxLen);
        LoopSame(w, v, limit, son[p0 := r], out[p0 := q], s, p1, son[p0 := r][s], out[p0 := q][s], n, len1, cut - 1, best);
      }
    }
  }

  lemma TwinLength(w: Window, v: Window, son: seq<int>, out: seq<int>)
    requires Twin(w, v) && GoodSon(w, son) && GoodSon(v, out)
    ensures |son| == |out|
  {
  }

  lemma ZeroSame(w: Window, v: Window)
    requires Twin(w, v)
    ensures SameRef(w, v, 0, 0) && GoodRef(w, 0) && GoodRef(v, 0)
  {
  }
}
