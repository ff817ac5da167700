/**
 The heads of the short hashes: each refers to the newest place of the window that has it. So a search reports that place, if
 it begins with the same byte, and nothing need be said of how the search finds it.
 */
module NewestHeads {
  import opened Primitives
  import opened LzHash
  import opened MatchText
  import opened SearchTree
  import opened SonTree
  import opened SonMoves
  import opened SonChain
  import opened FinderState
  import opened FinderIndex
  import opened FinderReports
  import opened FinderRuns

  /** Of all earlier places of the window, r refers to the newest one with head e, or there is none. */
  ghost predicate Latest(g: Config, w: Window, r: int, e: int)
    requires Views(g, w) && GoodRef(w, r)
  {
    && (InWindow(w, r) ==> e in Heads(g, IndexOf(w, r)))
    && forall j :: Known(w, j) && e in Heads(g, j) ==> InWindow(w, r) && j <= IndexOf(w, r)
  }

  ghost predicate AllLatest(g: Config, w: Window, hash: seq<int>)
    requires Views(g, w) && forall e :: 0 <= e < |hash| ==> GoodRef(w, hash[e])
  {
    forall e :: 0 <= e < |hash| ==> Latest(g, w, hash[e], e)
  }

  // ---------- every step keeps them ----------

  lemma LatestPast(g: Config, w: Window, r: int, e: int)
    requires Views(g, w) && WfWindow(Later(w)) && GoodRef(w, r) && Latest(g, w, r, e)
    requires Fits(w.text, w.cur, w.min) ==> e !in Heads(g, w.cur)
    ensures GoodRef(Later(w), r) && Latest(g, Later(w), r, e)
  {
    hide Heads;
    forall j | Known(Later(w), j) && e in Heads(g, j)
      ensures InWindow(Later(w), r) && j <= IndexOf(Later(w), r)
    {
      assert Known(w, j);
    }
  }

  lemma LatestCur(g: Config, w: Window, e: int)
    requires Views(g, w) && WfWindow(Later(w)) && Fits(w.text, w.cur, w.min) && e in Heads(g, w.cur)
    ensures GoodRef(Later(w), w.pos) && Latest(g, Later(w), w.pos, e)
  {
    hide Heads;
  }

  lemma LatestNorm(g: Config, w: Window, sub: int, r: int, e: int)
    requires Views(g, w) && 0 <= sub <= w.pos - w.cyc && GoodRef(w, r) && Latest(g, w, r, e)
    ensures Views(g, Lowered(w, sub)) && GoodRef(Lowered(w, sub), NormRef(sub, r)) && Latest(g, Lowered(w, sub), NormRef(sub, r), e)
  {
    hide Heads, NormRef;
    NormKeeps(w, sub, r);
    forall j | Known(Lowered(w, sub), j)
      ensures Known(w, j)
    {
    }
  }

  lemma EnterLatest(g: Config, f: Finder)
    requires Valid(g, f) && f.buffer < |g.text| && AllLatest(g, WindowOf(g, f), f.hash)
    ensures var w := Later(WindowOf(g, f));
            && Views(g, w) && (forall e :: 0 <= e < |Entered(g, f).hash| ==> GoodRef(w, Entered(g, f).hash[e]))
            && AllLatest(g, w, Entered(g, f).hash)
  {
    hide Latest, Heads, GoodRef, Linked, Avail;
    EnteredGood(g, f);
    EnteredWhen(g, f);
    var w, hash := WindowOf(g, f), Entered(g, f).hash;
    forall e | 0 <= e < |hash|
      ensures Latest(g, Later(w), hash[e], e)
    {
      if MinLen(g.kind) <= f.lenLimit && e in Heads(g, f.buffer) {
        LatestCur(g, w, e);
      } else {
        LatestPast(g, w, f.hash[e], e);
      }
    }
  }

  lemma StepLatest(g: Config, f: Finder)
    requires Valid(g, f) && f.buffer < |g.text| && AllLatest(g, WindowOf(g, f), f.hash)
    ensures Valid(g, Step(g, f)) && AllLatest(g, WindowOf(g, Step(g, f)), Step(g, f).hash)
  {
    hide Step, Entered, MoveSub, NormRefs, Avail, Latest, GoodRef;
    StepValid(g, f);
    EnterLatest(g, f);
    var w, hash, sub := Later(WindowOf(g, f)), Entered(g, f).hash, MoveSub(g, f);
    forall e | 0 <= e < |hash|
      ensures GoodRef(Lowered(w, sub), NormRefs(sub, hash)[e]) && Latest(g, Lowered(w, sub), NormRefs(sub, hash)[e], e)
    {
      LatestNorm(g, w, sub, hash[e], e);
    }
  }

  lemma InitLatest(g: Config, son: seq<int>)
    requires WfConfig(g) && FreshSon(g, son)
    ensures Valid(g, InitOf(g, son)) && InitOf(g, son).buffer == 0 && AllLatest(g, WindowOf(g, InitOf(g, son)), InitOf(g, son).hash)
  {
    hide Avail, Heads;
    InitPlaced(g, son);
    InitValid(g, son);
  }

  lemma {:induction false} RunLatest(g: Config, f: Finder, n: nat)
    requires Valid(g, f) && f.buffer + n <= |g.text| && AllLatest(g, WindowOf(g, f), f.hash)
    ensures Valid(g, Run(g, f, n)) && Run(g, f, n).buffer == f.buffer + n && AllLatest(g, WindowOf(g, Run(g, f, n)), Run(g, f, n).hash)
    decreases n
  {
    hide Valid, Step, AllLatest;
    if n != 0 {
      NotAtEnd(g, f);
      StepValid(g, f);
      StepLatest(g, f);
      RunLatest(g, Step(g, f), n - 1);
    }
  }

  // ---------- what is reported ----------

  // The places have the same hash of the first two bytes, or of the first three.
  predicate Alike2(g: Config, i: int, j: int)
    requires WfConfig(g) && Fits(g.text, i, 2) && Fits(g.text, j, 2)
  {
    Head2(g.crc, g.text[i], g.text[i + 1]) == Head2(g.crc, g.text[j], g.text[j + 1])
  }

  predicate Alike3(g: Config, i: int, j: int)
    requires WfConfig(g) && Fits(g.text, i, 3) && Fits(g.text, j, 3)
  {
    Head3(g.crc, g.text[i], g.text[i + 1], g.text[i + 2]) == Head3(g.crc, g.text[j], g.text[j + 1], g.text[j + 2])
  }

  // The report has a match with place j of at least so many bytes.
  predicate Reports(g: Config, f: Finder, j: int, least: int)
    requires Valid(g, f) && f.buffer < |g.text|
  {
    exists k :: 0 <= k < |Report(g, f)| && Report(g, f)[k].dist == f.buffer - j - 1 && least <= Report(g, f)[k].len
  }

  lemma SeedReported(g: Config, f: Finder, k: int, j: int, least: int)
    requires Searching(g, f) && f.buffer < |g.text| && 0 <= k < |Seeds(g, f)|
    requires Seeds(g, f)[k].dist == f.buffer - j - 1 && least <= Seeds(g, f)[k].len
    ensures Reports(g, f, j, least)
  {
    hide Seeds, MainSearch, Valid;
    var rest := if StartLen(g, f) < f.lenLimit then MainSearch(g, f) else [];
    assert Report(g, f) == Seeds(g, f) + rest && (Seeds(g, f) + rest)[k] == Seeds(g, f)[k];
  }

  lemma LatestAt(g: Config, f: Finder, e: int)
    requires Valid(g, f) && AllLatest(g, WindowOf(g, f), f.hash) && 0 <= e < |f.hash|
    ensures Views(g, WindowOf(g, f)) && GoodRef(WindowOf(g, f), f.hash[e]) && Latest(g, WindowOf(g, f), f.hash[e], e)
  {
  }

  // The short heads of a place, by number.
  lemma HeadNumbers(g: Config, i: int, e: int)
    requires WfConfig(g) && Fits(g.text, i, MinLen(g.kind)) && !g.kind.Bt2? && 0 <= e < FixedSize(g.kind)
    ensures var t := g.text;
            e in Heads(g, i) <==> if e < FIX3 then e == Head2(g.crc, t[i], t[i + 1]) else e == FIX3 + Head3(g.crc, t[i], t[i + 1], t[i + 2])
    ensures Heads(g, i)[0] == Head2(g.crc, g.text[i], g.text[i + 1]) && Heads(g, i)[0] < FIX3
    ensures !g.kind.Bt3? ==> Heads(g, i)[1] == FIX3 + Head3(g.crc, g.text[i], g.text[i + 1], g.text[i + 2]) < FIX4
  {
    hide Head2, Head3, Main3, Main4;
  }

  // Of the earlier places of the window, j is the newest with the same hash of two bytes as place n.
  ghost predicate Newest2(g: Config, n: int, j: int)
    requires WfConfig(g) && !g.kind.Bt2? && Fits(g.text, n, MinLen(g.kind))
  {
    Earlier(g, n, j) && Alike2(g, j, n) && forall i :: Earlier(g, n, i) && j < i ==> !Alike2(g, i, n)
  }

  // The same for three bytes, in the finders that have such a hash.
  ghost predicate Newest3(g: Config, n: int, j: int)
    requires WfConfig(g) && !g.kind.Bt2? && Fits(g.text, n, MinLen(g.kind))
  {
    !g.kind.Bt3? && Earlier(g, n, j) && Alike3(g, j, n) && forall i :: Earlier(g, n, i) && j < i ==> !Alike3(g, i, n)
  }

  // The short head of the current place refers to the newest place that is alike, if there is one.
  lemma HeadIsNewest2(g: Config, f: Finder, j: int)
    requires Searching(g, f) && f.buffer < |g.text| && !g.kind.Bt2? && AllLatest(g, WindowOf(g, f), f.hash)
    ensures var e := Heads(g, f.buffer)[0];
            && 0 <= e < FIX3 && e < |f.hash| && GoodRef(WindowOf(g, f), f.hash[e])
            && (Newest2(g, f.buffer, j) <==> InWindow(WindowOf(g, f), f.hash[e]) && IndexOf(WindowOf(g, f), f.hash[e]) == j)
  {
    hide Head2, Heads, Avail, LinksFit, AllLatest;
    FinderReports.ShortHeads(g, f);
    var w, e := WindowOf(g, f), Heads(g, f.buffer)[0];
    LatestAt(g, f, e);
    HeadNumbers(g, f.buffer, e);
    forall i | Earlier(g, f.buffer, i)
      ensures Known(w, i) && (e in Heads(g, i) <==> Alike2(g, i, f.buffer))
    {
      HeadNumbers(g, i, e);
    }
    assert InWindow(w, f.hash[e]) ==> Earlier(g, f.buffer, IndexOf(w, f.hash[e]));
  }

  lemma HeadIsNewest3(g: Config, f: Finder, j: int)
    requires Searching(g, f) && f.buffer < |g.text| && (g.kind.Bt4? || g.kind.Hc4?) && AllLatest(g, WindowOf(g, f), f.hash)
    ensures var e := Heads(g, f.buffer)[1];
            && FIX3 <= e < FIX4 && e < |f.hash| && GoodRef(WindowOf(g, f), f.hash[e])
            && (Newest3(g, f.buffer, j) <==> InWindow(WindowOf(g, f), f.hash[e]) && IndexOf(WindowOf(g, f), f.hash[e]) == j)
  {
    hide Head3, Heads, Avail, LinksFit, AllLatest;
    FinderReports.ShortHeads(g, f);
    var w, e := WindowOf(g, f), Heads(g, f.buffer)[1];
    LatestAt(g, f, e);
    HeadNumbers(g, f.buffer, e);
    forall i | Earlier(g, f.buffer, i)
      ensures Known(w, i) && (e in Heads(g, i) <==> Alike3(g, i, f.buffer))
    {
      HeadNumbers(g, i, e);
    }
    assert InWindow(w, f.hash[e]) ==> Earlier(g, f.buffer, IndexOf(w, f.hash[e]));
  }

  // A match that a short hash gives has its bytes.
  lemma CandidateLength(g: Config, f: Finder, e: int)
    requires Searching(g, f) && Keyed(g, WindowOf(g, f), f.hash) && 0 <= e < |f.hash| && Candidate(g, f, e)
    requires !g.kind.Bt2? && e in Heads(g, f.buffer) && e < FixedSize(g.kind)
    ensures MatchOf(g, f, e, 2).dist == f.buffer - IndexOf(WindowOf(g, f), f.hash[e]) - 1 && 2 <= MatchOf(g, f, e, 2).len
    ensures FIX3 <= e ==> 3 <= MatchOf(g, f, e, 2).len && 3 <= MatchOf(g, f, e, 3).len
    ensures FIX3 <= e ==> MatchOf(g, f, e, 3).dist == f.buffer - IndexOf(WindowOf(g, f), f.hash[e]) - 1
  {
    hide Heads, Avail, Extend, Lcp, Keyed, LinksFit;
    CandidateAgrees(g, f, e);
    var i := IndexOf(WindowOf(g, f), f.hash[e]);
    ExtendIsLcp(g.text, i, f.buffer, 2, f.lenLimit);
    if FIX3 <= e {
      ExtendIsLcp(g.text, i, f.buffer, 3, f.lenLimit);
    }
  }

  lemma ShortReported(g: Config, f: Finder, j: int)
    requires Searching(g, f) && f.buffer < |g.text| && !g.kind.Bt2? && AllLatest(g, WindowOf(g, f), f.hash) && Keyed(g, WindowOf(g, f), f.hash)
    requires 0 <= j < f.buffer && g.text[j] == g.text[f.buffer]
    ensures Newest2(g, f.buffer, j) ==> Reports(g, f, j, 2)
    ensures Newest3(g, f.buffer, j) ==> Reports(g, f, j, 3)
  {
    hide Heads, Avail, LinksFit, Keyed, AllLatest, Newest2, MatchOf, Reports, Alike3;
    FinderReports.ShortHeads(g, f);
    HeadIsNewest2(g, f, j);
    if Newest2(g, f.buffer, j) {
      CandidateLength(g, f, Heads(g, f.buffer)[0]);
      SeedReported(g, f, 0, j, 2);
    }
    if Newest3(g, f.buffer, j) {
      HeadIsNewest3(g, f, j);
      CandidateLength(g, f, Heads(g, f.buffer)[1]);
      ThirdReported(g, f, j);
    }
  }

  lemma ThirdReported(g: Config, f: Finder, j: int)
    requires Searching(g, f) && f.buffer < |g.text| && (g.kind.Bt4? || g.kind.Hc4?) && Keyed(g, WindowOf(g, f), f.hash)
    requires var e := Heads(g, f.buffer)[1];
             FIX3 <= e < FIX4 && e < |f.hash| && Candidate(g, f, e) && IndexOf(WindowOf(g, f), f.hash[e]) == j
    ensures Reports(g, f, j, 3)
  {
    hide Heads, Avail, LinksFit, Keyed, MatchOf, Reports;
    FinderReports.ShortHeads(g, f);
    var h := Heads(g, f.buffer);
    CandidateLength(g, f, h[1]);
    if f.hash[h[0]] == f.hash[h[1]] {
      SameMatch(g, f, h[0], h[1]);
      SeedReported(g, f, 0, j, 3);
    } else {
      SeedReported(g, f, |Seeds(g, f)| - 1, j, 3);
    }
  }

  lemma SameMatch(g: Config, f: Finder, a: int, b: int)
    requires Searching(g, f) && 0 <= a < |f.hash| && 0 <= b < |f.hash| && Candidate(g, f, b) && f.hash[a] == f.hash[b]
    ensures Candidate(g, f, a) && MatchOf(g, f, a, 2) == MatchOf(g, f, b, 2)
  {
  }

  /**
   At every place of every text, and for every budget: the newest earlier place of the window with the same hash of two bytes,
   and, where there is such a hash, with the same one of three, is reported with at least so many bytes if it begins with the
   same byte.
   */
  lemma EveryReportShort(g: Config, son: seq<int>, n: nat, j: int)
    requires WfConfig(g) && FreshSon(g, son) && !g.kind.Bt2? && n + MinLen(g.kind) <= |g.text| && 0 <= j < n && g.text[j] == g.text[n]
    ensures Valid(g, InitOf(g, son)) && InitOf(g, son).buffer == 0 && Valid(g, Run(g, InitOf(g, son), n)) && Run(g, InitOf(g, son), n).buffer == n
    ensures Newest2(g, n, j) ==> Reports(g, Run(g, InitOf(g, son), n), j, 2)
    ensures Newest3(g, n, j) ==> Reports(g, Run(g, InitOf(g, son), n), j, 3)
  {
    hide Valid, InitOf, Reports, AllLatest, Newest2, Newest3, Keyed;
    RunHeads(g, son, n);
    ShortReported(g, Run(g, InitOf(g, son), n), j);
  }

  // What is known of the hash table at every place that is searched.
  lemma RunHeads(g: Config, son: seq<int>, n: nat)
    requires WfConfig(g) && FreshSon(g, son) && n + MinLen(g.kind) <= |g.text|
    ensures Valid(g, InitOf(g, son)) && InitOf(g, son).buffer == 0
    ensures var f := Run(g, InitOf(g, son), n);
            && Searching(g, f) && f.buffer == n && AllLatest(g, WindowOf(g, f), f.hash) && Keyed(g, WindowOf(g, f), f.hash)
            && Sound(g, f, RunTrees(g, InitOf(g, son), NoTrees(g), n))
  {
    hide Valid, InitOf, AllLatest, Keyed, Sound;
    InitLatest(g, son);
    InitValid(g, son);
    RunLatest(g, InitOf(g, son), n);
    RunSound(g, InitOf(g, son), NoTrees(g), n);
    var f := Run(g, InitOf(g, son), n);
    LongEnough(g, f);
    SoundKeyed(g, f, RunTrees(g, InitOf(g, son), NoTrees(g), n));
  }

  // ---------- and what else may be ----------

  lemma {:induction false} TreeVisits(w: Window, limit: int, son: seq<int>, p0: int, p1: int, r: int, len0: int, len1: int, cut: nat,
      maxLen: int)
    requires LoopPre(w, limit, son, p0, p1, r, len0, len1)
    ensures |FoundLoop(w, limit, son, p0, p1, r, len0, len1, cut, maxLen)| <= cut
    decreases cut
  {
    hide MatchLen, GoesHigh, SonLoop, FoundLoop, GoodSon;
    if cut == 0 || !InWindow(w, r) {
      TurnStop(w, limit, son, p0, p1, r, len0, len1, cut, maxLen);
    } else {
      var n := MatchLen(w, limit, r, len0, len1);
      var s, best := 2 * SlotAt(w, IndexOf(w, r)), Best(Min(len0, len1), n, maxLen);
      if n >= limit {
        TurnFull(w, limit, son, p0, p1, r, len0, len1, cut, maxLen);
      } else if GoesHigh(w, limit, r, n) {
        TurnHigher(w, limit, son, p0, p1, r, len0, len1, cut, maxLen);
        TreeVisits(w, limit, son[p1 := r], p0, s + 1, son[p1 := r][s + 1], len0, n, cut - 1, best);
      } else {
        TurnLower(w, limit, son, p0, p1, r, len0, len1, cut, maxLen);
        TreeVisits(w, limit, son[p0 := r], s, p1, son[p0 := r][s], n, len1, cut - 1, best);
      }
    }
  }

  lemma {:induction false} ChainVisits(w: Window, limit: int, son: seq<int>, r: int, visits: nat, maxLen: int)
    requires WfWindow(w) && Fits(w.text, w.cur, limit) && GoodChain(w, son) && GoodRef(w, r) && 0 <= maxLen < limit
    ensures |ChainLoop(w, limit, son, r, visits, maxLen)| <= visits
    decreases visits
  {
    hide GoodChain, Lcp;
    if visits != 0 && InWindow(w, r) {
      LinkGood(w, son, r);
      var next, n := son[SlotAt(w, IndexOf(w, r))], Lcp(w.text, IndexOf(w, r), w.cur, limit);
      ChainVisits(w, limit, son, next, visits - 1, maxLen);
      if maxLen < n < limit {
        ChainVisits(w, limit, son, next, visits - 1, n);
      }
    }
  }

  // How many places a search may visit: the counter of the chain is decremented before it is tested.
  function Visited(g: Config): int {
    if g.kind.Hc4? && g.cut == 0 then 0x1_0000_0000 else g.cut
  }

  // How many short hashes there are.
  function Shorts(k: Kind): int {
    if k.Bt2? then 0 else if k.Bt3? then 1 else 2
  }

  // What the tree or the chain reports is long, and at most one match for each place that is visited.
  lemma MainLong(g: Config, f: Finder, trees: seq<Tree>)
    requires Searching(g, f) && Sound(g, f, trees) && StartLen(g, f) < f.lenLimit && f.buffer < |g.text|
    ensures |MainSearch(g, f)| <= Visited(g)
    ensures forall k :: 0 <= k < |MainSearch(g, f)| ==> MinLen(g.kind) <= MainSearch(g, f)[k].len
  {
    hide Seeds, Heads, Avail, Keyed, SonLoop, FoundLoop, ChainLoop, Exact, HasTree;
    MainInOrder(g, f, trees);
    var w, r := WindowOf(g, f), f.hash[MainHead(g, f.buffer)];
    if g.kind.Hc4? {
      PutLink(w, f.son, r);
      ChainVisits(w, f.lenLimit, f.son[f.cpos := r], r, Visits(g.cut), StartLen(g, f));
    } else {
      TreeVisits(w, f.lenLimit, f.son, 2 * f.cpos + 1, 2 * f.cpos, r, 0, 0, g.cut, StartLen(g, f));
    }
  }

  // The short hashes give the newest places.
  lemma SeedsNewest(g: Config, f: Finder)
    requires Searching(g, f) && f.buffer < |g.text| && AllLatest(g, WindowOf(g, f), f.hash)
    ensures |Seeds(g, f)| <= Shorts(g.kind)
    ensures forall k :: 0 <= k < |Seeds(g, f)| ==>
              var j := f.buffer - Seeds(g, f)[k].dist - 1; Newest2(g, f.buffer, j) || Newest3(g, f.buffer, j)
  {
    hide Heads, Avail, LinksFit, AllLatest, Newest2, Newest3, Extend;
    if !g.kind.Bt2? {
      FinderReports.ShortHeads(g, f);
      var w, h := WindowOf(g, f), Heads(g, f.buffer);
      HeadIsNewest2(g, f, 0);
      if InWindow(w, f.hash[h[0]]) {
        HeadIsNewest2(g, f, IndexOf(w, f.hash[h[0]]));
      }
      if !g.kind.Bt3? {
        HeadIsNewest3(g, f, 0);
        if InWindow(w, f.hash[h[1]]) {
          HeadIsNewest3(g, f, IndexOf(w, f.hash[h[1]]));
        }
      }
    }
  }

  /**
   And there is nothing else: at every place of every text, a match with fewer bytes than the main hash covers is one of a
   newest place, and there are no more matches than short hashes and visited places.
   */
  lemma EveryReportCounted(g: Config, son: seq<int>, n: nat)
    requires WfConfig(g) && FreshSon(g, son) && n + MinLen(g.kind) <= |g.text|
    ensures Valid(g, InitOf(g, son)) && InitOf(g, son).buffer == 0 && Valid(g, Run(g, InitOf(g, son), n)) && Run(g, InitOf(g, son), n).buffer == n
    ensures var found := Report(g, Run(g, InitOf(g, son), n));
            && |found| <= Shorts(g.kind) + Visited(g)
            && forall k :: 0 <= k < |found| && found[k].len < MinLen(g.kind) ==>
                             !g.kind.Bt2? && var j := n - found[k].dist - 1; Newest2(g, n, j) || Newest3(g, n, j)
  {
    hide Valid, InitOf, Run, RunTrees, Report, Seeds, MainSearch, StartLen, Sound, AllLatest, Keyed, Newest2, Newest3;
    RunHeads(g, son, n);
    var f := Run(g, InitOf(g, son), n);
    ReportParts(g, f);
    SeedsNewest(g, f);
    if StartLen(g, f) < f.lenLimit {
      MainLong(g, f, RunTrees(g, InitOf(g, son), NoTrees(g), n));
    }
  }

  lemma ReportParts(g: Config, f: Finder)
    requires Searching(g, f) && f.buffer < |g.text|
    ensures Report(g, f) == Seeds(g, f) + if StartLen(g, f) < f.lenLimit then MainSearch(g, f) else []
  {
    hide Seeds, StartLen, MainSearch, Valid;
  }

  lemma LongEnough(g: Config, f: Finder)
    requires Valid(g, f) && f.buffer + MinLen(g.kind) <= |g.text|
    ensures Searching(g, f)
  {
    EnteredWhen(g, f);
    LimitFits(g, f);
  }

  lemma SoundKeyed(g: Config, f: Finder, trees: seq<Tree>)
    requires Valid(g, f) && Sound(g, f, trees)
    ensures Keyed(g, WindowOf(g, f), f.hash)
  {
  }
}
