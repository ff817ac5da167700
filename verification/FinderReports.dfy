/**
 The matches that a search reports: first those found straight from the short hashes, then those met in the tree or
 along the chain. Every one is a true match, and a tree search misses none that is longer.
 */
module FinderReports {
  import opened Primitives
  import opened LzHash
  import opened MatchText
  import opened SearchTree
  import opened SonTree
  import opened SonSplit
  import opened SonMoves
  import opened SonChain
  import opened FinderState
  import opened FinderIndex

  // The finder is at a place that is searched.
  predicate Searching(g: Config, f: Finder) {
    Valid(g, f) && MinLen(g.kind) <= f.lenLimit && Fits(g.text, f.buffer, f.lenLimit)
  }

  lemma LimitFits(g: Config, f: Finder)
    requires Valid(g, f)
    ensures Fits(g.text, f.buffer, f.lenLimit) && (MinLen(g.kind) <= f.lenLimit ==> Searching(g, f))
  {
  }

  // A hash entry is worth a look: it refers into the window, to a place with the same first byte.
  predicate Candidate(g: Config, f: Finder, e: int)
    requires Searching(g, f) && 0 <= e < |f.hash|
  {
    InWindow(WindowOf(g, f), f.hash[e]) && g.text[IndexOf(WindowOf(g, f), f.hash[e])] == g.text[f.buffer]
  }

  // The match with the place of entry e, its first len bytes taken for granted.
  function MatchOf(g: Config, f: Finder, e: int, len: int): Found
    requires Searching(g, f) && 0 <= e < |f.hash| && Candidate(g, f, e) && 0 <= len <= f.lenLimit
  {
    Found(Extend(g.text, IndexOf(WindowOf(g, f), f.hash[e]), f.buffer, len, f.lenLimit), f.pos - f.hash[e] - 1)
  }

  /** What the short hashes give: matches of two and of three bytes, the last one extended as far as it goes. */
  function Seeds(g: Config, f: Finder): seq<Found>
    requires Searching(g, f)
  {
    var h := Heads(g, f.buffer);
    if g.kind.Bt2? then []
    else if g.kind.Bt3? then
      if Candidate(g, f, h[0]) then [MatchOf(g, f, h[0], 2)] else []
    else
      var two := Candidate(g, f, h[0]);
      var three := f.hash[h[0]] != f.hash[h[1]] && Candidate(g, f, h[1]);
      if three then (if two then [Found(2, f.pos - f.hash[h[0]] - 1)] else []) + [MatchOf(g, f, h[1], 3)]
      else if two then [MatchOf(g, f, h[0], 2)]
      else []
  }

  // Length from which on the main search reports.
  function StartLen(g: Config, f: Finder): int
    requires Searching(g, f)
  {
    Max(MinLen(g.kind) - 1, LastLen(0, Seeds(g, f)))
  }

  // How many places of a chain are visited: the counter is decremented before it is tested.
  function Visits(cut: nat): nat {
    if cut == 0 then TWO32 else cut
  }

  function MainSearch(g: Config, f: Finder): seq<Found>
    requires Searching(g, f) && StartLen(g, f) < f.lenLimit
  {
    var r := f.hash[MainHead(g, f.buffer)];
    if g.kind.Hc4? then
      PutLink(WindowOf(g, f), f.son, r);
      ChainLoop(WindowOf(g, f), f.lenLimit, f.son[f.cpos := r], r, Visits(g.cut), StartLen(g, f))
    else
      FoundLoop(WindowOf(g, f), f.lenLimit, f.son, 2 * f.cpos + 1, 2 * f.cpos, r, 0, 0, g.cut, StartLen(g, f))
  }

  /** All that a search at the current place reports. */
  function Report(g: Config, f: Finder): seq<Found>
    requires Valid(g, f) && f.buffer < |g.text|
  {
    if f.lenLimit < MinLen(g.kind) then []
    else Seeds(g, f) + if StartLen(g, f) < f.lenLimit then MainSearch(g, f) else []
  }

  // ---------- every report is true ----------

  // The place is in the window, the bytes agree, and the length is allowed.
  predicate TrueMatch(g: Config, f: Finder, m: Found) {
    && 0 <= m.dist && m.dist + 1 < g.cyc && m.dist + 1 <= f.buffer && 2 <= m.len <= f.lenLimit && f.buffer + f.lenLimit <= |g.text|
    && g.text[f.buffer - m.dist - 1..f.buffer - m.dist - 1 + m.len] == g.text[f.buffer..f.buffer + m.len]
  }

  // All are true, the lengths strictly increase, and the last one cannot be extended.
  predicate TrueReport(g: Config, f: Finder, found: seq<Found>) {
    && (forall k :: 0 <= k < |found| ==> TrueMatch(g, f, found[k]))
    && (forall j, k :: 0 <= j < k < |found| ==> found[j].len < found[k].len)
    && (found != [] ==> Fits(g.text, f.buffer, f.lenLimit) && Exact(WindowOf(g, f), f.lenLimit, found[|found| - 1]))
  }

  lemma ExactIsTrue(g: Config, f: Finder, m: Found)
    requires Searching(g, f) && Exact(WindowOf(g, f), f.lenLimit, m) && 2 <= m.len
    ensures TrueMatch(g, f, m)
  {
    var i := f.buffer - m.dist - 1;
    LcpAgree(g.text, i, f.buffer, m.len, f.lenLimit);
    AgreeSlices(g.text, i, f.buffer, m.len);
  }

  lemma TwoAgree(text: seq<byte>, i: int, c: int, limit: int)
    requires Fits(text, i, limit) && Fits(text, c, limit) && 2 <= limit && text[i] == text[c] && text[i + 1] == text[c + 1]
    ensures 2 <= Lcp(text, i, c, limit) && (3 <= limit && text[i + 2] == text[c + 2] ==> 3 <= Lcp(text, i, c, limit))
  {
    assert Sym(text, i, 0) == text[i] && Sym(text, i, 1) == text[i + 1] && Sym(text, c, 0) == text[c] && Sym(text, c, 1) == text[c + 1];
    if 3 <= limit {
      assert Sym(text, i, 2) == text[i + 2] && Sym(text, c, 2) == text[c + 2];
    }
  }

  /** The hash determines what is not compared: a candidate under the short hash of k bytes agrees in all k. */
  lemma CandidateAgrees(g: Config, f: Finder, e: int)
    requires Searching(g, f) && Keyed(g, WindowOf(g, f), f.hash) && 0 <= e < |f.hash| && Candidate(g, f, e)
    requires !g.kind.Bt2? && e in Heads(g, f.buffer) && e < FixedSize(g.kind)
    ensures var i := IndexOf(WindowOf(g, f), f.hash[e]);
            && Fits(g.text, i, f.lenLimit) && 0 <= i < f.buffer && f.buffer - i < g.cyc
            && (if e < FIX3 then 2 else 3) <= Lcp(g.text, i, f.buffer, f.lenLimit)
  {
    hide Head2, Head3, Main3, Main4, Avail, Lcp;
    var t, c, i := g.text, f.buffer, IndexOf(WindowOf(g, f), f.hash[e]);
    assert KeyedAt(g, WindowOf(g, f), f.hash[e], e);
    if e < FIX3 {
      assert e == Head2(g.crc, t[c], t[c + 1]) == Head2(g.crc, t[i], t[i + 1]);
      Head2Determines(g.crc, t[c], t[c + 1], t[i + 1]);
    } else {
      assert e - FIX3 == Head3(g.crc, t[c], t[c + 1], t[c + 2]) == Head3(g.crc, t[i], t[i + 1], t[i + 2]);
      Head3Determines(g.crc, t[c], t[c + 1], t[c + 2], t[i + 1], t[i + 2]);
    }
    TwoAgree(t, i, c, f.lenLimit);
  }

  lemma CandidateExact(g: Config, f: Finder, e: int)
    requires Searching(g, f) && Keyed(g, WindowOf(g, f), f.hash) && 0 <= e < |f.hash| && Candidate(g, f, e)
    requires !g.kind.Bt2? && e in Heads(g, f.buffer) && e < FixedSize(g.kind)
    ensures var from := if e < FIX3 then 2 else 3;
            var m := MatchOf(g, f, e, from);
            && from <= m.len && Exact(WindowOf(g, f), f.lenLimit, m) && TrueMatch(g, f, m) && TrueMatch(g, f, m.(len := from))
  {
    hide Heads, Avail, Lcp, Extend, Keyed;
    CandidateAgrees(g, f, e);
    var from := if e < FIX3 then 2 else 3;
    var i := IndexOf(WindowOf(g, f), f.hash[e]);
    ExtendIsLcp(g.text, i, f.buffer, from, f.lenLimit);
    var m := MatchOf(g, f, e, from);
    ExactIsTrue(g, f, m);
    LcpAgree(g.text, i, f.buffer, from, f.lenLimit);
    AgreeSlices(g.text, i, f.buffer, from);
  }

  lemma SeedsTrue(g: Config, f: Finder)
    requires Searching(g, f) && Keyed(g, WindowOf(g, f), f.hash)
    ensures TrueReport(g, f, Seeds(g, f))
  {
    hide TrueMatch, Exact, Keyed, MatchOf, Heads, Avail, LinksFit;
    if !g.kind.Bt2? {
      var h := Heads(g, f.buffer);
      ShortHeads(g, f);
      if Candidate(g, f, h[0]) {
        CandidateExact(g, f, h[0]);
        MatchDist(g, f, h[0], 2);
      }
      if !g.kind.Bt3? && Candidate(g, f, h[1]) {
        CandidateExact(g, f, h[1]);
        MatchDist(g, f, h[1], 3);
      }
    }
  }

  lemma ShortHeads(g: Config, f: Finder)
    requires Searching(g, f) && !g.kind.Bt2?
    ensures var h := Heads(g, f.buffer);
            && |h| >= 2 && 0 <= h[0] < FIX3 && h[0] < FixedSize(g.kind) && h[0] < |f.hash| && h[0] in h
            && (!g.kind.Bt3? ==> |h| == 3 && FIX3 <= h[1] < FixedSize(g.kind) && h[1] < |f.hash| && h[1] in h)
  {
  }

  lemma MatchDist(g: Config, f: Finder, e: int, len: int)
    requires Searching(g, f) && 0 <= e < |f.hash| && Candidate(g, f, e) && 0 <= len <= f.lenLimit
    ensures MatchOf(g, f, e, len).dist == f.pos - f.hash[e] - 1
  {
  }

  lemma Joined(g: Config, f: Finder, first: seq<Found>, rest: seq<Found>, start: int)
    requires Searching(g, f) && TrueReport(g, f, first) && 1 <= start && LastLen(0, first) <= start
    requires InOrder(WindowOf(g, f), f.lenLimit, start, rest)
    ensures TrueReport(g, f, first + rest)
  {
    hide Exact, TrueMatch, Valid;
    var found := first + rest;
    forall k | 0 <= k < |found|
      ensures TrueMatch(g, f, found[k]) && (|first| <= k ==> start < found[k].len)
    {
      if |first| <= k {
        assert found[k] == rest[k - |first|];
        ExactIsTrue(g, f, found[k]);
      }
    }
    forall j, k | 0 <= j < k < |found|
      ensures found[j].len < found[k].len
    {
      if |first| <= j {
        assert found[j] == rest[j - |first|] && found[k] == rest[k - |first|];
      } else {
        assert first[j].len <= start;
      }
    }
  }

  // The reports of a tree search in the terms of the window.
  lemma TruthfulInOrder(g: Config, w: Window, son: seq<int>, r: int, t: Tree, limit: int, maxLen: int, found: seq<Found>)
    requires WfWindow(w) && GoodSon(w, son) && GoodRef(w, r) && Rep(w, son, r, t) && Fits(w.text, w.cur, limit)
    requires AllFit(w.text, Nodes(t), limit) && Truthful(w.text, Nodes(t), w.cur, limit, maxLen, found)
    ensures InOrder(w, limit, maxLen, found)
  {
    hide Rep, GoodSon, Lcp;
    RepNear(w, son, r, t);
    forall k | 0 <= k < |found|
      ensures Exact(w, limit, found[k])
    {
      assert w.cur - found[k].dist - 1 in Nodes(t);
    }
  }

  /** What the tables must be for reports to be true: keyed hash entries, and for trees the index. */
  predicate Sound(g: Config, f: Finder, trees: seq<Tree>)
    requires Valid(g, f)
  {
    if g.kind.Hc4? then Keyed(g, WindowOf(g, f), f.hash)
    else Indexed(g, WindowOf(g, f), f.hash, f.son, trees, f.lenLimit)
  }

  lemma MainInOrder(g: Config, f: Finder, trees: seq<Tree>)
    requires Searching(g, f) && Sound(g, f, trees) && StartLen(g, f) < f.lenLimit && f.buffer < |g.text|
    ensures InOrder(WindowOf(g, f), f.lenLimit, StartLen(g, f), MainSearch(g, f))
    ensures !g.kind.Hc4? ==>
              var t := trees[MainHead(g, f.buffer) - FixedSize(g.kind)];
              && AllFit(g.text, Nodes(t), f.lenLimit)
              && MainSearch(g, f) == Search(g.text, t, f.buffer, f.lenLimit, g.cut, StartLen(g, f))
  {
    hide Seeds, Heads, Avail, InOrder, Sorted, Truthful, Keyed, GoodRef, GoodSon, SonLoop, FoundLoop, Insert, Search, Rep,
         ChainLoop;
    var w, h := WindowOf(g, f), MainHead(g, f.buffer);
    var r := f.hash[h];
    if g.kind.Hc4? {
      PutLink(w, f.son, r);
      ChainTruthful(w, f.lenLimit, f.son[f.cpos := r], r, Visits(g.cut), StartLen(g, f));
    } else {
      var t := trees[h - FixedSize(g.kind)];
      assert HasTree(g, w, f.son, r, t, h, f.lenLimit);
      LaterWf(g, f);
      InsertRep(w, f.lenLimit, f.son, r, t, g.cut, StartLen(g, f));
      SearchTruthful(g.text, t, f.buffer, f.lenLimit, g.cut, StartLen(g, f));
      TruthfulInOrder(g, w, f.son, r, t, f.lenLimit, StartLen(g, f), MainSearch(g, f));
    }
  }

  lemma LaterWf(g: Config, f: Finder)
    requires Valid(g, f) && f.buffer < |g.text|
    ensures WfWindow(Later(WindowOf(g, f)))
  {
  }

  /** Every search reports true matches only, in order of length, the last as long as it can be. */
  lemma ReportIsTrue(g: Config, f: Finder, trees: seq<Tree>)
    requires Valid(g, f) && f.buffer < |g.text| && Sound(g, f, trees)
    ensures TrueReport(g, f, Report(g, f))
  {
    hide Seeds, MainSearch, Heads, Avail, InOrder, LinksFit, TrueReport;
    if MinLen(g.kind) <= f.lenLimit {
      SeedsTrue(g, f);
      if StartLen(g, f) < f.lenLimit {
        MainInOrder(g, f, trees);
        Joined(g, f, Seeds(g, f), MainSearch(g, f), StartLen(g, f));
      } else {
        assert Seeds(g, f) + [] == Seeds(g, f);
      }
    } else {
      NothingIsTrue(g, f);
    }
  }

  lemma NothingIsTrue(g: Config, f: Finder)
    ensures TrueReport(g, f, [])
  {
  }

  // ---------- no longer match is missed ----------

  // Places that agree in the hashed bytes have the same heads.
  lemma SameHeads(g: Config, i: int, j: int)
    requires WfConfig(g) && Fits(g.text, i, MinLen(g.kind)) && Fits(g.text, j, MinLen(g.kind)) && Agree(g.text, i, j, MinLen(g.kind))
    ensures Heads(g, i) == Heads(g, j)
  {
    var t := g.text;
    assert Sym(t, i, 0) == t[i] && Sym(t, j, 0) == t[j] && Sym(t, i, 1) == t[i + 1] && Sym(t, j, 1) == t[j + 1];
    if 3 <= MinLen(g.kind) {
      assert Sym(t, i, 2) == t[i + 2] && Sym(t, j, 2) == t[j + 2];
    }
    if 4 <= MinLen(g.kind) {
      assert Sym(t, i, 3) == t[i + 3] && Sym(t, j, 3) == t[j + 3];
    }
  }

  // A place that stands in the tree agrees no further than the search reports.
  lemma StandsFound(text: seq<byte>, t: Tree, c: int, limit: int, cut: nat, maxLen: int, j: int)
    requires Fits(text, c, limit) && Sorted(text, t, limit) && AllFit(text, Nodes(t), limit) && Fits(text, j, limit)
    requires Path(text, t, c, limit) <= cut && Stands(text, t, j, limit)
    ensures Lcp(text, j, c, limit) <= LastLen(maxLen, Search(text, t, c, limit, cut, maxLen))
  {
    hide Search, Path, Sorted, Lcp;
    var i :| i in Nodes(t) && j <= i && Lcp(text, j, i, limit) == limit;
    SearchComplete(text, t, c, limit, cut, maxLen);
    LcpSymmetric(text, c, i, limit);
    LcpSymmetric(text, c, j, limit);
    LcpSymmetric(text, i, j, limit);
    LeEqual(text, c, i, j, limit);
  }

  lemma LastOfSum(first: seq<Found>, rest: seq<Found>, low: int)
    ensures var start := Max(low, LastLen(0, first));
            LastLen(start, rest) == if rest == [] then start else LastLen(0, first + rest)
    ensures rest == [] ==> first + rest == first
  {
  }

  /**
   The tree search is as good as comparing with every earlier place of the window: whenever one of them agrees in at
   least the hashed bytes, the last report is at least as long as that agreement.
   */
  lemma ReportIsLongest(g: Config, f: Finder, trees: seq<Tree>, j: int)
    requires Searching(g, f) && f.buffer < |g.text| && !g.kind.Hc4? && Indexed(g, WindowOf(g, f), f.hash, f.son, trees, f.lenLimit)
    requires AllFitTrees(g.text, trees, f.lenLimit) && Complete(g, f.buffer, trees, f.lenLimit) && WithinBudget(g, f, trees)
    requires Earlier(g, f.buffer, j)
    ensures Fits(g.text, j, f.lenLimit)
    ensures MinLen(g.kind) <= Lcp(g.text, j, f.buffer, f.lenLimit) ==>
              Report(g, f) != [] && Lcp(g.text, j, f.buffer, f.lenLimit) <= LastLen(0, Report(g, f))
  {
    hide Seeds, MainSearch, Avail, LinksFit, Sorted, Heads, Rep, Lcp, Search, Path, Stands, Keyed;
    var n := Lcp(g.text, j, f.buffer, f.lenLimit);
    if MinLen(g.kind) <= n {
      LcpAgree(g.text, j, f.buffer, MinLen(g.kind), f.lenLimit);
      SameHeads(g, j, f.buffer);
      var start := StartLen(g, f);
      if start < f.lenLimit {
        var k := MainHead(g, f.buffer) - FixedSize(g.kind);
        MainInOrder(g, f, trees);
        TreeBefore(g, f, trees, k);
        StandsFound(g.text, trees[k], f.buffer, f.lenLimit, g.cut, start, j);
        LastOfSum(Seeds(g, f), MainSearch(g, f), MinLen(g.kind) - 1);
      } else {
        assert Seeds(g, f) + [] == Seeds(g, f);
      }
    }
  }
}
