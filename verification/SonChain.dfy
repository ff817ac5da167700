/** The same array used as chains: one link per slot, from each place to the one before it with the same hash. */
module SonChain {
  import opened Primitives
  import opened MatchText
  import opened SearchTree
  import opened SonTree
  import opened SonMoves

  predicate GoodChain(w: Window, son: seq<int>)
    requires WfWindow(w)
  {
    && |son| == w.cyc && (forall k :: 0 <= k < |son| ==> 0 <= son[k] < TWO32)
    && forall i :: 0 <= i < w.cur && Known(w, i) ==> GoodRef(w, son[SlotAt(w, i)])
  }

  lemma LinkGood(w: Window, son: seq<int>, r: int)
    requires WfWindow(w) && GoodChain(w, son) && GoodRef(w, r) && InWindow(w, r)
    ensures 0 <= SlotAt(w, IndexOf(w, r)) < |son| && GoodRef(w, son[SlotAt(w, IndexOf(w, r))])
  {
    SlotInjective(w, IndexOf(w, r), IndexOf(w, r));
    assert Known(w, IndexOf(w, r));
  }

  lemma PutLink(w: Window, son: seq<int>, v: int)
    requires WfWindow(w) && GoodChain(w, son) && GoodRef(w, v)
    ensures GoodChain(w, son[w.cpos := v])
  {
    forall i | 0 <= i < w.cur && Known(w, i)
      ensures GoodRef(w, son[w.cpos := v][SlotAt(w, i)])
    {
      SlotInjective(w, i, i);
    }
  }

  /** The matches reported along a chain, visiting at most the given number of places. */
  function ChainLoop(w: Window, limit: int, son: seq<int>, r: int, visits: nat, maxLen: int): seq<Found>
    requires WfWindow(w) && Fits(w.text, w.cur, limit) && GoodChain(w, son) && GoodRef(w, r) && 0 <= maxLen < limit
    decreases visits
  {
    if visits == 0 || !InWindow(w, r) then []
    else
      LinkGood(w, son, r);
      var next := son[SlotAt(w, IndexOf(w, r))];
      var n := Lcp(w.text, IndexOf(w, r), w.cur, limit);
      if Sym(w.text, w.cur, maxLen) != Sym(w.text, IndexOf(w, r), maxLen) then
        ChainLoop(w, limit, son, next, visits - 1, maxLen)
      else if n == limit then
        [Found(limit, w.pos - r - 1)]
      else if maxLen < n then
        [Found(n, w.pos - r - 1)] + ChainLoop(w, limit, son, next, visits - 1, n)
      else
        ChainLoop(w, limit, son, next, visits - 1, maxLen)
  }

  /** Every report along a chain is the exact common prefix with a place in the window, and the lengths increase. */
  lemma {:induction false} ChainTruthful(w: Window, limit: int, son: seq<int>, r: int, visits: nat, maxLen: int)
    requires WfWindow(w) && Fits(w.text, w.cur, limit) && GoodChain(w, son) && GoodRef(w, r) && 0 <= maxLen < limit
    ensures InOrder(w, limit, maxLen, ChainLoop(w, limit, son, r, visits, maxLen))
    decreases visits
  {
    hide GoodChain, InOrder, Exact, Lcp, GoodRef;
    if visits == 0 || !InWindow(w, r) {
      InOrderNone(w, limit, maxLen);
    } else {
      LinkGood(w, son, r);
      ExactHere(w, limit, r);
      var next := son[SlotAt(w, IndexOf(w, r))];
      var n := Lcp(w.text, IndexOf(w, r), w.cur, limit);
      if n == limit {
        ChainTruthful(w, limit, son, next, visits - 1, maxLen);
        InOrderNone(w, limit, n);
        InOrderCons(w, limit, maxLen, Found(n, w.pos - r - 1), []);
        assert [Found(n, w.pos - r - 1)] + [] == [Found(n, w.pos - r - 1)];
      } else if maxLen < n {
        ChainTruthful(w, limit, son, next, visits - 1, maxLen);
        ChainTruthful(w, limit, son, next, visits - 1, n);
        InOrderCons(w, limit, maxLen, Found(n, w.pos - r - 1), ChainLoop(w, limit, son, next, visits - 1, n));
      } else {
        ChainTruthful(w, limit, son, next, visits - 1, maxLen);
      }
    }
  }

  lemma ExactHere(w: Window, limit: int, r: int)
    requires WfWindow(w) && Fits(w.text, w.cur, limit) && GoodRef(w, r) && InWindow(w, r)
    ensures Fits(w.text, IndexOf(w, r), limit)
    ensures Exact(w, limit, Found(Lcp(w.text, IndexOf(w, r), w.cur, limit), w.pos - r - 1))
  {
  }

  lemma InOrderNone(w: Window, limit: int, maxLen: int)
    requires Fits(w.text, w.cur, limit)
    ensures InOrder(w, limit, maxLen, [])
  {
  }

  // The place a report speaks of is in the window, and the length is how far it agrees.
  predicate Exact(w: Window, limit: int, m: Found)
    requires Fits(w.text, w.cur, limit)
  {
    && 0 <= m.dist && m.dist + 1 < w.cyc && Fits(w.text, w.cur - m.dist - 1, limit)
    && m.len == Lcp(w.text, w.cur - m.dist - 1, w.cur, limit)
  }

  predicate InOrder(w: Window, limit: int, maxLen: int, found: seq<Found>)
    requires Fits(w.text, w.cur, limit)
  {
    && (forall k :: 0 <= k < |found| ==> Exact(w, limit, found[k]) && maxLen < found[k].len)
    && (forall j, k :: 0 <= j < k < |found| ==> found[j].len < found[k].len)
  }

  lemma InOrderCons(w: Window, limit: int, maxLen: int, m: Found, rest: seq<Found>)
    requires Fits(w.text, w.cur, limit) && Exact(w, limit, m) && maxLen < m.len && InOrder(w, limit, m.len, rest)
    ensures InOrder(w, limit, maxLen, [m] + rest)
  {
    hide Exact;
    var found := [m] + rest;
    assert forall k :: 1 <= k < |found| ==> found[k] == rest[k - 1];
  }

  lemma ChainLater(w: Window, son: seq<int>)
    requires WfWindow(w) && WfWindow(Later(w)) && GoodChain(w, son) && (Fits(w.text, w.cur, w.min) ==> GoodRef(w, son[w.cpos]))
    ensures GoodChain(Later(w), son)
  {
    hide GoodRef;
    forall i | 0 <= i < w.cur + 1 && Known(Later(w), i)
      ensures GoodRef(Later(w), son[SlotAt(Later(w), i)])
    {
      SlotLater(w, i);
      assert i < w.cur ==> Known(w, i);
      RefLater(w, son[SlotAt(w, i)]);
    }
  }

  lemma ChainNorm(w: Window, sub: int, son: seq<int>)
    requires WfWindow(w) && GoodChain(w, son) && 0 <= sub <= w.pos - w.cyc
    ensures WfWindow(Lowered(w, sub)) && GoodChain(Lowered(w, sub), NormRefs(sub, son))
  {
    hide GoodRef;
    var v, out := Lowered(w, sub), NormRefs(sub, son);
    assert WfWindow(v);
    forall i | 0 <= i < w.cur && Known(v, i)
      ensures GoodRef(v, out[SlotAt(v, i)])
    {
      assert Known(w, i) && SlotAt(v, i) == SlotAt(w, i);
      SlotInjective(w, i, i);
      NormKeeps(w, sub, son[SlotAt(w, i)]);
    }
  }

  predicate SameChain(w: Window, v: Window, son: seq<int>, out: seq<int>)
    requires Twin(w, v) && GoodChain(w, son) && GoodChain(v, out)
  {
    forall i :: 0 <= i < w.cur && Known(w, i) ==> SameRef(w, v, son[SlotAt(w, i)], out[SlotAt(w, i)])
  }

  lemma PutSameLink(w: Window, v: Window, son: seq<int>, out: seq<int>, r: int, q: int)
    requires Twin(w, v) && GoodChain(w, son) && GoodChain(v, out) && SameChain(w, v, son, out)
    requires GoodRef(w, r) && GoodRef(v, q) && SameRef(w, v, r, q)
    ensures GoodChain(w, son[w.cpos := r]) && GoodChain(v, out[w.cpos := q]) && SameChain(w, v, son[w.cpos := r], out[w.cpos := q])
  {
    PutLink(w, son, r);
    PutLink(v, out, q);
    forall i | 0 <= i < w.cur && Known(w, i)
      ensures SameRef(w, v, son[w.cpos := r][SlotAt(w, i)], out[w.cpos := q][SlotAt(w, i)])
    {
      SlotInjective(w, i, i);
    }
  }

  /** Twin chains report the same matches. */
  lemma {:induction false} ChainSame(w: Window, v: Window, limit: int, son: seq<int>, out: seq<int>, r: int, q: int,
      visits: nat, maxLen: int)
    requires Twin(w, v) && GoodChain(w, son) && GoodChain(v, out) && SameChain(w, v, son, out)
    requires GoodRef(w, r) && GoodRef(v, q) && SameRef(w, v, r, q) && Fits(w.text, w.cur, limit) && 0 <= maxLen < limit
    ensures ChainLoop(w, limit, son, r, visits, maxLen) == ChainLoop(v, limit, out, q, visits, maxLen)
    decreases visits
  {
    hide GoodChain, Lcp;
    if visits != 0 && InWindow(w, r) {
      var i := IndexOf(w, r);
      LinkGood(w, son, r);
      LinkGood(v, out, q);
      assert Known(w, i);
      var n := Lcp(w.text, i, w.cur, limit);
      ChainSame(w, v, limit, son, out, son[SlotAt(w, i)], out[SlotAt(v, i)], visits - 1, maxLen);
      if maxLen < n < limit {
        ChainSame(w, v, limit, son, out, son[SlotAt(w, i)], out[SlotAt(v, i)], visits - 1, n);
      }
    }
  }
}
