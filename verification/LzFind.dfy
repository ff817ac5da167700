/** The match finder in place: loops over the link and hash arrays, and the finder object with its positions and limits. */
module LzFind {
  import opened Primitives
  import opened LzHash
  import opened MatchText
  import opened SearchTree
  import opened SonTree
  import opened SonSplit
  import opened SonMoves
  import opened SonChain
  import opened FinderState
  import opened FinderReports
  import opened FinderTwins
  import opened FinderRuns

  lemma ExtendStep(text: seq<byte>, i: int, j: int, len: int, limit: int)
    requires Fits(text, i, limit) && Fits(text, j, limit) && 0 <= len < limit
    ensures Extend(text, i, j, len, limit) == if text[i + len] == text[j + len] then Extend(text, i, j, len + 1, limit) else len
    ensures Extend(text, i, j, limit, limit) == limit
  {
  }

  // The bytes at len agree: go on to the first that differ, or to the limit.
  method Scan(text: seq<byte>, pb: int, cur: int, len: int, lenLimit: int) returns (n: int)
    requires Fits(text, pb, lenLimit) && Fits(text, cur, lenLimit) && 0 <= len < lenLimit
    ensures n == Extend(text, pb, cur, len + 1, lenLimit)
  {
    n := len + 1;
    while n != lenLimit && text[pb + n] == text[cur + n]
      invariant len + 1 <= n <= lenLimit
      invariant Extend(text, pb, cur, len + 1, lenLimit) == Extend(text, pb, cur, n, lenLimit)
      decreases lenLimit - n
    {
      ExtendStep(text, pb, cur, n, lenLimit);
      n := n + 1;
    }
    if n < lenLimit {
      ExtendStep(text, pb, cur, n, lenLimit);
    } else {
      ExtendStep(text, pb, cur, len, lenLimit);
    }
  }

  // The loop is on its way from here to the links out and the reports found.
  ghost predicate Heading(w: Window, limit: int, son: seq<int>, p0: int, p1: int, r: int, len0: int, len1: int, cut: int,
      maxLen: int,
                          out: seq<int>, found: seq<Found>)
  {
    && LoopPre(w, limit, son, p0, p1, r, len0, len1) && 0 <= cut && 0 <= maxLen < limit
    && SonLoop(w, limit, son, p0, p1, r, len0, len1, cut) == out
    && FoundLoop(w, limit, son, p0, p1, r, len0, len1, cut, maxLen) == found
  }

  lemma HeadStart(w: Window, limit: int, son: seq<int>, p0: int, p1: int, r: int, cut: nat, maxLen: int)
    requires LoopPre(w, limit, son, p0, p1, r, 0, 0) && (maxLen == 0 || 0 <= maxLen < limit)
    ensures Heading(w, limit, son, p0, p1, r, 0, 0, cut, maxLen,
                    SonLoop(w, limit, son, p0, p1, r, 0, 0, cut), FoundLoop(w, limit, son, p0, p1, r, 0, 0, cut, maxLen))
  {
  }

  lemma HeadStop(w: Window, limit: int, son: seq<int>, p0: int, p1: int, r: int, len0: int, len1: int, cut: int, maxLen: int,
                 out: seq<int>, found: seq<Found>)
    requires Heading(w, limit, son, p0, p1, r, len0, len1, cut, maxLen, out, found) && (cut == 0 || !InWindow(w, r))
    ensures 0 <= p0 < |son| && 0 <= p1 < |son| && out == son[p1 := 0][p0 := 0] && found == []
  {
    TurnStop(w, limit, son, p0, p1, r, len0, len1, cut, maxLen);
    assert son[p0 := 0][p1 := 0] == son[p1 := 0][p0 := 0];
  }

  lemma HeadFull(w: Window, limit: int, son: seq<int>, p0: int, p1: int, r: int, len0: int, len1: int, cut: int, maxLen: int,
                 out: seq<int>, found: seq<Found>)
    requires Heading(w, limit, son, p0, p1, r, len0, len1, cut, maxLen, out, found) && 0 < cut && InWindow(w, r)
    requires MatchLen(w, limit, r, len0, len1) == limit
    ensures 0 <= 2 * SlotBack(w, w.pos - r) < 2 * SlotBack(w, w.pos - r) + 1 < |son| && 0 <= p0 < |son| && 0 <= p1 < |son|
    ensures var s, n, low := 2 * SlotBack(w, w.pos - r), MatchLen(w, limit, r, len0, len1), Min(len0, len1);
            out == son[p1 := son[s]][p0 := son[p1 := son[s]][s + 1]] && found == Here(w, r, low, n, maxLen)
  {
    hide SonLoop, FoundLoop, LoopPre, GoesHigh, MatchLen, Here;
    PreBounds(w, limit, son, p0, p1, r, len0, len1);
    TurnFull(w, limit, son, p0, p1, r, len0, len1, cut, maxLen);
  }

  lemma HeadHigh(w: Window, limit: int, son: seq<int>, p0: int, p1: int, r: int, len0: int, len1: int, cut: int, maxLen: int,
                 out: seq<int>, found: seq<Found>)
    requires Heading(w, limit, son, p0, p1, r, len0, len1, cut, maxLen, out, found) && 0 < cut && InWindow(w, r)
    requires MatchLen(w, limit, r, len0, len1) < limit && GoesHigh(w, limit, r, MatchLen(w, limit, r, len0, len1))
    ensures 0 <= 2 * SlotBack(w, w.pos - r) < 2 * SlotBack(w, w.pos - r) + 1 < |son| && 0 <= p0 < |son| && 0 <= p1 < |son|
    ensures var s, n, low := 2 * SlotBack(w, w.pos - r), MatchLen(w, limit, r, len0, len1), Min(len0, len1);
            && Here(w, r, low, n, maxLen) <= found
            && Heading(w, limit, son[p1 := r], p0, s + 1, son[p1 := r][s + 1], len0, n, cut - 1, Best(low, n, maxLen), out,
                       found[|Here(w, r, low, n, maxLen)|..])
  {
    hide SonLoop, FoundLoop, LoopPre, GoesHigh, MatchLen, Here;
    PreBounds(w, limit, son, p0, p1, r, len0, len1);
    TurnHigher(w, limit, son, p0, p1, r, len0, len1, cut, maxLen);
  }

  lemma HeadLow(w: Window, limit: int, son: seq<int>, p0: int, p1: int, r: int, len0: int, len1: int, cut: int, maxLen: int,
                 out: seq<int>, found: seq<Found>)
    requires Heading(w, limit, son, p0, p1, r, len0, len1, cut, maxLen, out, found) && 0 < cut && InWindow(w, r)
    requires MatchLen(w, limit, r, len0, len1) < limit && !GoesHigh(w, limit, r, MatchLen(w, limit, r, len0, len1))
    ensures 0 <= 2 * SlotBack(w, w.pos - r) < 2 * SlotBack(w, w.pos - r) + 1 < |son| && 0 <= p0 < |son| && 0 <= p1 < |son|
    ensures var s, n, low := 2 * SlotBack(w, w.pos - r), MatchLen(w, limit, r, len0, len1), Min(len0, len1);
            && Here(w, r, low, n, maxLen) <= found
            && Heading(w, limit, son[p0 := r], s, p1, son[p0 := r][s], n, len1, cut - 1, Best(low, n, maxLen), out,
                       found[|Here(w, r, low, n, maxLen)|..])
  {
    hide SonLoop, FoundLoop, LoopPre, GoesHigh, MatchLen, Here;
    PreBounds(w, limit, son, p0, p1, r, len0, len1);
    TurnLower(w, limit, son, p0, p1, r, len0, len1, cut, maxLen);
  }

  lemma HereIs(w: Window, r: int, low: int, n: int, maxLen: int)
    ensures Here(w, r, low, n, maxLen) == (if low < n && maxLen < n then [Found(n, w.pos - r - 1)] else [])
    ensures Best(low, n, maxLen) == if low < n && maxLen < n then n else maxLen
  {
  }

  lemma Regroup(done: seq<Found>, news: seq<Found>, rest: seq<Found>)
    requires news <= rest
    ensures done + rest == done + news + rest[|news|..]
  {
  }

  // *at = value; the next reference is what link holds then
  method Hang(son: array<int>, at: int, value: int, link: int) returns (next: int)
    requires 0 <= at < son.Length && 0 <= link < son.Length
    modifies son
    ensures son[..] == old(son[..])[at := value] && next == old(son[..])[at := value][link]
  {
    son[at] := value;
    next := son[link];
  }

  // *ptr1 = first; *ptr0 = what second then holds, or zero
  method Finish(son: array<int>, ptr0: int, ptr1: int, first: int, second: int)
    requires 0 <= ptr0 < son.Length && 0 <= ptr1 < son.Length && -1 <= second < son.Length
    modifies son
    ensures var next := old(son[..])[ptr1 := first]; son[..] == next[ptr0 := if second < 0 then 0 else next[second]]
  {
    son[ptr1] := first;
    son[ptr0] := if second < 0 then 0 else son[second];
  }

  // Hang the node on the side of the current place where it belongs, and go on below it on the other side.
  method Descend(son: array<int>, ptr0: int, ptr1: int, len0: int, len1: int, curMatch: int, pair: int, len: int, less: bool,
                 ghost w: Window, ghost limit: int, ghost cut: int, ghost maxLen: int, ghost out: seq<int>, ghost found: seq<Found>)
    returns (q0: int, q1: int, m0: int, m1: int, next: int)
    requires Heading(w, limit, son[..], ptr0, ptr1, curMatch, len0, len1, cut, maxLen, out, found) && 0 < cut && InWindow(w, curMatch)
    requires WfWindow(w) && Fits(w.text, w.cur, limit) && GoodRef(w, curMatch) && 0 <= len0 < limit && 0 <= len1 < limit
    requires len == MatchLen(w, limit, curMatch, len0, len1) < limit && less == GoesHigh(w, limit, curMatch, len)
    requires pair == 2 * SlotBack(w, w.pos - curMatch)
    modifies son
    ensures Here(w, curMatch, Min(len0, len1), len, maxLen) <= found
    ensures Heading(w, limit, son[..], q0, q1, next, m0, m1, cut - 1, Best(Min(len0, len1), len, maxLen), out,
                    found[|Here(w, curMatch, Min(len0, len1), len, maxLen)|..])
  {
    hide Heading, SonLoop, FoundLoop, LoopPre, GoodRef, MatchLen, GoesHigh, GoodSon, Here, Best, SlotBack;
    q0, q1, m0, m1 := ptr0, ptr1, len0, len1;
    if less {
      HeadHigh(w, limit, son[..], ptr0, ptr1, curMatch, len0, len1, cut, maxLen, out, found);
      next := Hang(son, ptr1, curMatch, pair + 1);
      q1, m1 := pair + 1, len;
    } else {
      HeadLow(w, limit, son[..], ptr0, ptr1, curMatch, len0, len1, cut, maxLen, out, found);
      next := Hang(son, ptr0, curMatch, pair);
      q0, m0 := pair, len;
    }
  }

  // One byte agrees; go on only if the next one does too.
  method ScanOn(text: seq<byte>, pb: int, cur: int, start: int, lenLimit: int) returns (len: int)
    requires Fits(text, pb, lenLimit) && Fits(text, cur, lenLimit) && 0 <= start < lenLimit
    ensures start < len <= lenLimit
    ensures len == if start + 1 == lenLimit || text[pb + start + 1] != text[cur + start + 1] then start + 1
                   else Extend(text, pb, cur, start + 2, lenLimit)
  {
    hide Extend;
    len := start + 1;
    if len != lenLimit && text[pb + len] == text[cur + len] {
      len := Scan(text, pb, cur, len, lenLimit);
    }
  }

  /** Insert the current place into the tree below start, reporting every longer match met on the way. */
  method GetMatchesSpec1(lenLimit: int, start: int, pos: int, text: seq<byte>, cur: int, son: array<int>,
                         cyclicBufferPos: int, cyclicBufferSize: int, cutValue: nat, longest: int, ghost w: Window)
    returns (distances: seq<Found>)
    requires w.text == text && w.cur == cur && w.pos == pos && w.cyc == cyclicBufferSize && w.cpos == cyclicBufferPos
    requires LoopPre(w, lenLimit, son[..], 2 * cyclicBufferPos + 1, 2 * cyclicBufferPos, start, 0, 0) && 0 <= longest < lenLimit
    modifies son
    ensures son[..] == SonLoop(w, lenLimit, old(son[..]), 2 * cyclicBufferPos + 1, 2 * cyclicBufferPos, start, 0, 0, cutValue)
    ensures distances == FoundLoop(w, lenLimit, old(son[..]), 2 * cyclicBufferPos + 1, 2 * cyclicBufferPos, start, 0, 0, cutValue, longest)
  {
    hide Heading, SonLoop, FoundLoop, LoopPre, GoodRef, SlotAt, MatchLen, GoesHigh, GoodSon, Here, Best, Extend, InWindow,
         IndexOf, WfWindow, Known, SlotBack;
    var ptr0, ptr1 := 2 * cyclicBufferPos + 1, 2 * cyclicBufferPos;
    var len0, len1, curMatch, cut, maxLen := 0, 0, start, cutValue, longest;
    ghost var out := SonLoop(w, lenLimit, son[..], ptr0, ptr1, start, 0, 0, cutValue);
    ghost var all := FoundLoop(w, lenLimit, son[..], ptr0, ptr1, start, 0, 0, cutValue, longest);
    ghost var rest := all;
    distances := [];
    HeadStart(w, lenLimit, son[..], ptr0, ptr1, start, cut, maxLen);
    while true
      invariant Heading(w, lenLimit, son[..], ptr0, ptr1, curMatch, len0, len1, cut, maxLen, out, rest) && distances + rest == all && 0 <= cut
      decreases cut
    {
      HeadBounds(w, lenLimit, son[..], ptr0, ptr1, curMatch, len0, len1, cut, maxLen, out, rest);
      var delta := (pos - curMatch) % TWO32;
      if cut == 0 || delta >= cyclicBufferSize {
        HeadStop(w, lenLimit, son[..], ptr0, ptr1, curMatch, len0, len1, cut, maxLen, out, rest);
        Finish(son, ptr0, ptr1, 0, -1);
        return;
      }
      MatchIs(w, lenLimit, curMatch, len0, len1);
      var pair := 2 * (cyclicBufferPos - delta + if delta > cyclicBufferPos then cyclicBufferSize else 0);
      var pb := cur - delta;
      var low := if len0 < len1 then len0 else len1;
      var len := low;
      var pair0 := son[pair];
      ghost var best, before := maxLen, distances;
      if text[pb + len] == text[cur + len] {
        len := ScanOn(text, pb, cur, len, lenLimit);
        if maxLen < len {
          distances := distances + [Found(len, delta - 1)];
          maxLen := len;
          if len == lenLimit {
            HereIs(w, curMatch, low, len, best);
            HeadFull(w, lenLimit, son[..], ptr0, ptr1, curMatch, len0, len1, cut, best, out, rest);
            Finish(son, ptr0, ptr1, pair0, pair + 1);
            return;
          }
        }
      }
      GoesHighIs(w, lenLimit, curMatch, len);
      HereIs(w, curMatch, low, len, best);
      ghost var news, was := Here(w, curMatch, low, len, best), rest;
      ghost var here := |news|;
      assert distances == before + news;
      ptr0, ptr1, len0, len1, curMatch := Descend(son, ptr0, ptr1, len0, len1, curMatch, pair, len, text[pb + len] < text[cur + len],
                                                  w, lenLimit, cut, best, out, rest);
      cut := cut - 1;
      rest := rest[here..];
      assert distances + rest == all by {
        Regroup(before, news, was);
      }
    }
  }

  lemma HeadBounds(w: Window, limit: int, son: seq<int>, p0: int, p1: int, r: int, len0: int, len1: int, cut: int, maxLen: int,
                   out: seq<int>, found: seq<Found>)
    requires Heading(w, limit, son, p0, p1, r, len0, len1, cut, maxLen, out, found)
    ensures WfWindow(w) && 0 <= p0 < |son| && 0 <= p1 < |son| && 0 <= len0 < limit && 0 <= len1 < limit && Fits(w.text, w.cur, limit) && GoodRef(w, r)
    ensures (w.pos - r) % TWO32 == w.pos - r && 0 <= maxLen < limit && 0 <= cut
    ensures InWindow(w, r) <==> w.pos - r < w.cyc
    ensures SlotBack(w, w.pos - r) == w.cpos - (w.pos - r) + if w.pos - r > w.cpos then w.cyc else 0
    ensures InWindow(w, r) ==>
              var s := 2 * SlotBack(w, w.pos - r); 0 <= s < s + 1 < |son| && Fits(w.text, w.cur - (w.pos - r), limit)
  {
    hide SonLoop, FoundLoop;
    PreBounds(w, limit, son, p0, p1, r, len0, len1);
  }

  lemma PreBounds(w: Window, limit: int, son: seq<int>, p0: int, p1: int, r: int, len0: int, len1: int)
    requires LoopPre(w, limit, son, p0, p1, r, len0, len1)
    ensures WfWindow(w) && 0 <= p0 < |son| && 0 <= p1 < |son| && 0 <= len0 < limit && 0 <= len1 < limit && Fits(w.text, w.cur, limit) && GoodRef(w, r)
    ensures (w.pos - r) % TWO32 == w.pos - r
    ensures InWindow(w, r) ==>
              var s := 2 * SlotBack(w, w.pos - r);
              && s == 2 * SlotAt(w, IndexOf(w, r)) && 0 <= s < s + 1 < |son| && Fits(w.text, w.cur - (w.pos - r), limit)
  {
    if InWindow(w, r) {
      SlotInjective(w, IndexOf(w, r), IndexOf(w, r));
    }
  }

  lemma MatchIs(w: Window, limit: int, r: int, len0: int, len1: int)
    requires WfWindow(w) && Fits(w.text, w.cur, limit) && GoodRef(w, r) && InWindow(w, r) && 0 <= len0 < limit && 0 <= len1 < limit
    ensures var low, i := Min(len0, len1), w.cur - (w.pos - r);
            && Fits(w.text, i, limit)
            && MatchLen(w, limit, r, len0, len1)
               == if w.text[i + low] != w.text[w.cur + low] then low
                  else if low + 1 == limit || w.text[i + low + 1] != w.text[w.cur + low + 1] then low + 1
                  else Extend(w.text, i, w.cur, low + 2, limit)
  {
    var low, i := Min(len0, len1), w.cur - (w.pos - r);
    assert MatchLen(w, limit, r, len0, len1) == Extend(w.text, i, w.cur, low, limit);
    hide Extend, MatchLen;
    ExtendStep(w.text, i, w.cur, low, limit);
    if low + 1 < limit {
      ExtendStep(w.text, i, w.cur, low + 1, limit);
    } else {
      ExtendStep(w.text, i, w.cur, low, limit);
    }
  }

  lemma GoesHighIs(w: Window, limit: int, r: int, n: int)
    requires WfWindow(w) && Fits(w.text, w.cur, limit) && GoodRef(w, r) && InWindow(w, r) && 0 <= n < limit
    ensures 0 <= w.cur - (w.pos - r)
    ensures GoesHigh(w, limit, r, n) <==> w.text[w.cur - (w.pos - r) + n] < w.text[w.cur + n]
  {
  }

  /** The same insertion without reports. */
  method SkipMatchesSpec(lenLimit: int, start: int, pos: int, text: seq<byte>, cur: int, son: array<int>,
                         cyclicBufferPos: int, cyclicBufferSize: int, cutValue: nat, ghost w: Window)
    requires w.text == text && w.cur == cur && w.pos == pos && w.cyc == cyclicBufferSize && w.cpos == cyclicBufferPos
    requires LoopPre(w, lenLimit, son[..], 2 * cyclicBufferPos + 1, 2 * cyclicBufferPos, start, 0, 0)
    modifies son
    ensures son[..] == SonLoop(w, lenLimit, old(son[..]), 2 * cyclicBufferPos + 1, 2 * cyclicBufferPos, start, 0, 0, cutValue)
  {
    hide Heading, SonLoop, FoundLoop, LoopPre, GoodRef, SlotAt, MatchLen, GoesHigh, GoodSon, Here, Best, Extend, InWindow,
         IndexOf, WfWindow, Known, SlotBack;
    var ptr0, ptr1 := 2 * cyclicBufferPos + 1, 2 * cyclicBufferPos;
    var len0, len1, curMatch, cut := 0, 0, start, cutValue;
    ghost var maxLen := 0;
    ghost var out := SonLoop(w, lenLimit, son[..], ptr0, ptr1, start, 0, 0, cutValue);
    ghost var rest := FoundLoop(w, lenLimit, son[..], ptr0, ptr1, start, 0, 0, cutValue, 0);
    HeadStart(w, lenLimit, son[..], ptr0, ptr1, start, cut, maxLen);
    while true
      invariant Heading(w, lenLimit, son[..], ptr0, ptr1, curMatch, len0, len1, cut, maxLen, out, rest) && 0 <= cut
      decreases cut
    {
      HeadBounds(w, lenLimit, son[..], ptr0, ptr1, curMatch, len0, len1, cut, maxLen, out, rest);
      var delta := (pos - curMatch) % TWO32;
      if cut == 0 || delta >= cyclicBufferSize {
        HeadStop(w, lenLimit, son[..], ptr0, ptr1, curMatch, len0, len1, cut, maxLen, out, rest);
        Finish(son, ptr0, ptr1, 0, -1);
        return;
      }
      SkipMatchIs(w, lenLimit, curMatch, len0, len1);
      var pair := 2 * (cyclicBufferPos - delta + if delta > cyclicBufferPos then cyclicBufferSize else 0);
      var pb := cur - delta;
      var low := if len0 < len1 then len0 else len1;
      var len := low;
      if text[pb + len] == text[cur + len] {
        len := Scan(text, pb, cur, len, lenLimit);
        if len == lenLimit {
          HeadFull(w, lenLimit, son[..], ptr0, ptr1, curMatch, len0, len1, cut, maxLen, out, rest);
          Finish(son, ptr0, ptr1, son[pair], pair + 1);
          return;
        }
      }
      GoesHighIs(w, lenLimit, curMatch, len);
      ghost var here := |Here(w, curMatch, low, len, maxLen)|;
      ptr0, ptr1, len0, len1, curMatch := Descend(son, ptr0, ptr1, len0, len1, curMatch, pair, len, text[pb + len] < text[cur + len],
                                                  w, lenLimit, cut, maxLen, out, rest);
      cut := cut - 1;
      rest := rest[here..];
      maxLen := Best(low, len, maxLen);
    }
  }

  lemma SkipMatchIs(w: Window, limit: int, r: int, len0: int, len1: int)
    requires WfWindow(w) && Fits(w.text, w.cur, limit) && GoodRef(w, r) && InWindow(w, r) && 0 <= len0 < limit && 0 <= len1 < limit
    ensures var low, i := Min(len0, len1), w.cur - (w.pos - r);
            && Fits(w.text, i, limit)
            && MatchLen(w, limit, r, len0, len1)
               == if w.text[i + low] != w.text[w.cur + low] then low else Extend(w.text, i, w.cur, low + 1, limit)
  {
    ExtendStep(w.text, w.cur - (w.pos - r), w.cur, Min(len0, len1), limit);
  }

  // Compare from the start: how far the place at distance delta agrees.
  method Compare(text: seq<byte>, cur: int, delta: int, lenLimit: int) returns (len: int)
    requires Fits(text, cur - delta, lenLimit) && Fits(text, cur, lenLimit)
    ensures len == Lcp(text, cur - delta, cur, lenLimit)
  {
    len := 0;
    while len != lenLimit && text[cur + len] == text[cur + len - delta]
      invariant 0 <= len <= lenLimit
      invariant Lcp(text, cur - delta, cur, lenLimit) == Extend(text, cur - delta, cur, len, lenLimit)
      decreases lenLimit - len
    {
      ExtendStep(text, cur - delta, cur, len, lenLimit);
      len := len + 1;
    }
  }

  /** Follow the chain from curMatch, reporting every longer match. */
  method HcGetMatchesSpec(lenLimit: int, start: int, pos: int, text: seq<byte>, cur: int, son: array<int>,
                          cyclicBufferPos: int, cyclicBufferSize: int, cutValue: nat, longest: int, ghost w: Window)
    returns (distances: seq<Found>)
    requires w.text == text && w.cur == cur && w.pos == pos && w.cyc == cyclicBufferSize && w.cpos == cyclicBufferPos
    requires WfWindow(w) && Fits(text, cur, lenLimit) && GoodChain(w, son[..]) && GoodRef(w, start) && 0 <= longest < lenLimit && cutValue < TWO32
    modifies son
    ensures GoodChain(w, old(son[..])[cyclicBufferPos := start]) && son[..] == old(son[..])[cyclicBufferPos := start]
    ensures distances == ChainLoop(w, lenLimit, son[..], start, Visits(cutValue), longest)
  {
    hide ChainLoop, GoodChain, Lcp, GoodRef, InWindow, IndexOf, SlotAt, SlotBack, Known, Sym;
    ghost var before := son[..];
    ChainLen(w, son[..]);
    PutLink(w, son[..], start);
    son[cyclicBufferPos] := start;
    assert son[..] == before[cyclicBufferPos := start];
    var curMatch, cut, maxLen := start, cutValue, longest;
    distances := [];
    ghost var links := son[..];
    ghost var all, left := ChainLoop(w, lenLimit, links, start, Visits(cutValue), longest), Visits(cutValue);
    while true
      modifies {}
      invariant GoodRef(w, curMatch) && 0 <= maxLen < lenLimit && 0 <= cut < TWO32 && 0 < left && left == Visits(cut)
      invariant distances + ChainLoop(w, lenLimit, links, curMatch, left, maxLen) == all
      decreases left
    {
      RefBounds(w, lenLimit, curMatch);
      var delta := (pos - curMatch) % TWO32;
      if delta >= cyclicBufferSize {
        ChainEnd(w, lenLimit, links, curMatch, left, maxLen);
        return;
      }
      ghost var r := curMatch;
      ChainTurn(w, lenLimit, links, r, left, maxLen);
      curMatch := son[cyclicBufferPos - delta + if delta > cyclicBufferPos then cyclicBufferSize else 0];
      if text[cur + maxLen] == text[cur + maxLen - delta] {
        var len := Compare(text, cur, delta, lenLimit);
        if len == lenLimit {
          distances := distances + [Found(lenLimit, delta - 1)];
          return;
        }
        if maxLen < len {
          maxLen := len;
          distances := distances + [Found(len, delta - 1)];
        }
      }
      cut := (cut - 1) % TWO32;
      left := left - 1;
      if cut == 0 {
        ChainEnd(w, lenLimit, links, curMatch, 0, maxLen);
        return;
      }
    }
  }

  lemma ChainLen(w: Window, son: seq<int>)
    requires WfWindow(w) && GoodChain(w, son)
    ensures |son| == w.cyc
  {
  }

  lemma RefBounds(w: Window, limit: int, r: int)
    requires WfWindow(w) && Fits(w.text, w.cur, limit) && GoodRef(w, r)
    ensures (w.pos - r) % TWO32 == w.pos - r
    ensures InWindow(w, r) <==> w.pos - r < w.cyc
  {
  }

  lemma ChainEnd(w: Window, limit: int, son: seq<int>, r: int, visits: nat, maxLen: int)
    requires WfWindow(w) && Fits(w.text, w.cur, limit) && GoodChain(w, son) && GoodRef(w, r) && 0 <= maxLen < limit
    requires visits == 0 || !InWindow(w, r)
    ensures ChainLoop(w, limit, son, r, visits, maxLen) == []
  {
  }

  lemma ChainTurn(w: Window, limit: int, son: seq<int>, r: int, visits: nat, maxLen: int)
    requires WfWindow(w) && Fits(w.text, w.cur, limit) && GoodChain(w, son) && GoodRef(w, r) && InWindow(w, r) && 0 < visits && 0 <= maxLen < limit
    ensures Fits(w.text, w.cur - (w.pos - r), limit)
    ensures var d := w.pos - r;
            var slot, i := w.cpos - d + (if d > w.cpos then w.cyc else 0), w.cur - d;
            && 0 <= slot < |son| && GoodRef(w, son[slot])
            && var next, n := son[slot], Lcp(w.text, i, w.cur, limit);
               ChainLoop(w, limit, son, r, visits, maxLen)
               == if w.text[w.cur + maxLen] != w.text[w.cur + maxLen - d] then ChainLoop(w, limit, son, next, visits - 1, maxLen)
                  else if n == limit then [Found(limit, d - 1)]
                  else if maxLen < n then [Found(n, d - 1)] + ChainLoop(w, limit, son, next, visits - 1, n)
                  else ChainLoop(w, limit, son, next, visits - 1, maxLen)
  {
    LinkGood(w, son, r);
  }

  lemma SetAllThree(hash: seq<int>, a: int, b: int, c: int, pos: int)
    requires 0 <= a < |hash| && 0 <= b < |hash| && 0 <= c < |hash|
    ensures hash[c := pos] == SetAll(hash, [c], pos)
    ensures hash[b := pos][c := pos] == SetAll(hash, [b, c], pos) && hash[b := pos][b := pos][c := pos] == SetAll(hash, [b, c], pos)
    ensures hash[a := pos][b := pos][c := pos] == SetAll(hash, [a, b, c], pos)
  {
    assert [c][..0] == [] && [b, c][..1] == [b] && [b][..0] == [] && [a, b, c][..2] == [a, b] && [a, b][..1] == [a] && [a][..0] == [];
    assert SetAll(hash, [a], pos) == SetAll(hash, [], pos)[a := pos];
    assert SetAll(hash, [a, b], pos) == SetAll(hash, [a], pos)[b := pos];
    assert SetAll(hash, [b], pos) == SetAll(hash, [], pos)[b := pos];
  }

  class MatchFinder {
    const g: Config
    const hash: array<int>
    const son: array<int>
    var buffer: int
    var pos: int
    var posLimit: int
    var streamPos: int
    var lenLimit: int
    var cyclicBufferPos: int
    var streamEndWasReached: bool
    var directInputRem: int

    ghost function State(): Finder
      reads this, hash, son
    {
      Finder(hash[..], son[..], buffer, pos, posLimit, streamPos, lenLimit, cyclicBufferPos, streamEndWasReached, directInputRem)
    }

    ghost predicate Good()
      reads this, hash, son
    {
      hash != son && Valid(g, State())
    }

    // ---------- positions and limits ----------

    method ReadMore()
      requires 0 <= directInputRem && 0 <= pos < TWO32 && 0 <= streamPos < TWO32
      modifies this`directInputRem, this`streamPos, this`streamEndWasReached
      ensures State() == ReadBlock(old(State()))
    {
      if streamEndWasReached {
        return;
      }
      var curSize := (0xFFFF_FFFF - (streamPos - pos)) % TWO32;
      FreeSize(State());
      if curSize > directInputRem {
        curSize := directInputRem;
      }
      directInputRem := directInputRem - curSize;
      streamPos := (streamPos + curSize) % TWO32;
      if directInputRem == 0 {
        streamEndWasReached := true;
      }
    }

    method UpdateLimits()
      requires 0 <= pos < TWO32 && 0 <= streamPos < TWO32
      modifies this`posLimit, this`lenLimit
      ensures State() == SetLimits(g, old(State()))
    {
      var limit := MAX_POS - pos;
      var limit2 := g.cyc - cyclicBufferPos;
      if limit2 < limit {
        limit := limit2;
      }
      limit2 := (streamPos - pos) % TWO32;
      if limit2 <= g.keepAfter {
        if limit2 > 0 {
          limit2 := 1;
        }
      } else {
        limit2 := limit2 - g.keepAfter;
      }
      if limit2 < limit {
        limit := limit2;
      }
      var len := (streamPos - pos) % TWO32;
      if len > g.matchMaxLen {
        len := g.matchMaxLen;
      }
      lenLimit := len;
      posLimit := pos + limit;
    }

    static method Normalize3(subValue: int, items: array<int>)
      modifies items
      ensures items[..] == NormRefs(subValue, old(items[..]))
    {
      ghost var was := items[..];
      var i := 0;
      while i < items.Length
        invariant 0 <= i <= items.Length
        invariant forall k :: 0 <= k < i ==> items[k] == NormRef(subValue, was[k])
        invariant forall k :: i <= k < items.Length ==> items[k] == was[k]
      {
        var value := items[i];
        if value <= subValue {
          value := 0;
        } else {
          value := value - subValue;
        }
        items[i] := value;
        i := i + 1;
      }
      assert items[..] == NormRefs(subValue, was);
    }

    method Renormalize()
      requires hash != son && 0 <= pos < TWO32
      modifies this`pos, this`posLimit, this`streamPos, hash, son
      ensures State() == Normalize(g, old(State()))
    {
      hide NormRefs, SubValue;
      var d := (pos - (g.cyc - 1) - 1) % TWO32;
      var subValue := d - And(d, NORMALIZE_STEP - 1);
      SubValueIs(g, State(), d);
      Normalize3(subValue, hash);
      Normalize3(subValue, son);
      posLimit := (posLimit - subValue) % TWO32;
      pos := (pos - subValue) % TWO32;
      streamPos := (streamPos - subValue) % TWO32;
    }

    method CheckAllLimits()
      requires hash != son && Moved(g, State())
      modifies this, hash, son
      ensures State() == CheckLimits(g, old(State()))
    {
      hide NormRefs;
      CheckBounds(g, State());
      if pos == MAX_POS {
        Renormalize();
      }
      if !streamEndWasReached && g.keepAfter == (streamPos - pos) % TWO32 {
        ReadMore();
      }
      if cyclicBufferPos == g.cyc {
        cyclicBufferPos := 0;
      }
      UpdateLimits();
    }

    // Leave the current place.
    method Move()
      requires hash != son && Placed(g, State()) && buffer < |g.text|
      modifies this, hash, son
      ensures State() == MovePos(g, old(State()))
    {
      AheadMoved(g, State());
      cyclicBufferPos := cyclicBufferPos + 1;
      buffer := buffer + 1;
      pos := pos + 1;
      if pos == posLimit {
        CheckAllLimits();
      }
    }

    // ---------- entering a place ----------

    // The heads are updated; what they held for the main hash is start.
    ghost predicate HeadsSet(f: Finder, start: int)
      reads this, hash, son
    {
      && hash != son && Searching(g, f) && f.buffer < |g.text|
      && State() == f.(hash := SetAll(f.hash, Heads(g, f.buffer), f.pos)) && start == f.hash[MainHead(g, f.buffer)]
    }

    /** Insert into the tree, with reports longer than maxLen, and move on. */
    method InsertAndMove(curMatch: int, maxLen: int, ghost f: Finder) returns (distances: seq<Found>)
      requires HeadsSet(f, curMatch) && !g.kind.Hc4? && maxLen == StartLen(g, f) < f.lenLimit
      modifies this, hash, son
      ensures State() == Step(g, f) && Good() && distances == MainSearch(g, f)
    {
      hide SonLoop, FoundLoop, Heads, SetAll, Avail, GoodSon, GoodRef, Seeds, MovePos, LinksFit;
      MainPre(g, f);
      StartPositive(g, f);
      distances := GetMatchesSpec1(lenLimit, curMatch, pos, g.text, buffer, son, cyclicBufferPos, g.cyc, g.cut, maxLen, WindowOf(g, f));
      assert State() == Entered(g, f);
      PlacedSame(g, f, State());
      StepValid(g, f);
      Move();
    }

    method SkipAndMove(curMatch: int, ghost f: Finder)
      requires HeadsSet(f, curMatch) && !g.kind.Hc4?
      modifies this, hash, son
      ensures State() == Step(g, f) && Good()
    {
      hide SonLoop, FoundLoop, Heads, SetAll, Avail, GoodSon, GoodRef, Seeds, MovePos, LinksFit;
      MainPre(g, f);
      SkipMatchesSpec(lenLimit, curMatch, pos, g.text, buffer, son, cyclicBufferPos, g.cyc, g.cut, WindowOf(g, f));
      assert State() == Entered(g, f);
      PlacedSame(g, f, State());
      StepValid(g, f);
      Move();
    }

    // Too close to the end to be entered.
    method PassBy()
      requires Good() && buffer < |g.text| && lenLimit < MinLen(g.kind)
      modifies this, hash, son
      ensures State() == Step(g, old(State())) && Good() && Report(g, old(State())) == []
    {
      hide MovePos, LinksFit, Avail;
      StepValid(g, State());
      Move();
    }

    // ---------- two bytes ----------

    method Bt2Heads() returns (curMatch: int)
      requires Good() && g.kind.Bt2? && 2 <= lenLimit && buffer < |g.text|
      modifies hash
      ensures HeadsSet(old(State()), curMatch)
    {
      hide LinksFit, Avail;
      ghost var f := State();
      HeadsNow(g, f);
      var c0: int, c1: int := g.text[buffer], g.text[buffer + 1];
      var hv := c0 + 0x100 * c1;
      SetAllThree(hash[..], hv, hv, hv, pos);
      curMatch := hash[hv];
      hash[hv] := pos;
      assert hash[..] == f.hash[hv := f.pos];
    }

    method Bt2GetMatches() returns (distances: seq<Found>)
      requires Good() && g.kind.Bt2? && buffer < |g.text|
      modifies this, hash, son
      ensures State() == Step(g, old(State())) && Good() && distances == Report(g, old(State()))
    {
      hide Step, Avail, LinksFit, Heads, MainSearch;
      ghost var f := State();
      if lenLimit < 2 {
        PassBy();
        return [];
      }
      SearchingNow(g, f);
      var curMatch := Bt2Heads();
      distances := InsertAndMove(curMatch, 1, f);
      assert [] + distances == distances;
    }

    // ---------- three and four bytes ----------

    // HASH3_CALC
    method Hash3() returns (h2: int, hv: int)
      requires Searching(g, State()) && g.kind.Bt3?
      ensures Heads(g, buffer) == [h2, FIX3 + hv] && |hash[..]| == TableSize(g)
      ensures 0 <= h2 < hash.Length && 0 <= FIX3 + hv < hash.Length
    {
      hide LinksFit, Avail, Xor, And;
      HeadsNow(g, State());
      var c2: int := g.text[buffer + 2];
      var temp := Xor(g.crc[g.text[buffer]], g.text[buffer + 1]);
      h2 := And(temp, HASH2_SIZE - 1);
      hv := And(Xor(temp, c2 * 0x100), g.mask);
      assert Heads(g, buffer)[0] == h2 && Heads(g, buffer)[1] == FIX3 + hv;
    }

    // HASH4_CALC
    method Hash4() returns (h2: int, h3: int, hv: int)
      requires Searching(g, State()) && (g.kind.Bt4? || g.kind.Hc4?)
      ensures Heads(g, buffer) == [h2, FIX3 + h3, FIX4 + hv] && |hash[..]| == TableSize(g)
      ensures 0 <= h2 < hash.Length && 0 <= FIX3 + h3 < hash.Length && 0 <= FIX4 + hv < hash.Length
    {
      hide LinksFit, Avail, Xor, And;
      HeadsNow(g, State());
      var c2: int := g.text[buffer + 2];
      var temp := Xor(g.crc[g.text[buffer]], g.text[buffer + 1]);
      h2 := And(temp, HASH2_SIZE - 1);
      temp := Xor(temp, c2 * 0x100);
      h3 := And(temp, HASH3_SIZE - 1);
      var c3: int := g.crc[g.text[buffer + 3]];
      hv := And(Xor(temp, c3 * 32 % TWO32), g.mask);
      assert Heads(g, buffer)[0] == h2 && Heads(g, buffer)[1] == FIX3 + h3 && Heads(g, buffer)[2] == FIX4 + hv;
    }

    // Enter the current position under each head, and hand over what the heads held.
    method SetHeads(h2: int, h3: int, hv: int, ghost heads: seq<int>) returns (r2: int, r3: int, curMatch: int)
      requires 0 <= h2 < hash.Length && 0 <= h3 < hash.Length && 0 <= hv < hash.Length && (heads == [h2, h3, hv] || (h2 == h3 && heads == [h3, hv]))
      modifies hash
      ensures r2 == old(hash[h2]) && r3 == old(hash[h3]) && curMatch == old(hash[hv])
      ensures (forall k :: 0 <= k < |heads| ==> 0 <= heads[k] < hash.Length) && hash[..] == SetAll(old(hash[..]), heads, pos)
    {
      hide SetAll;
      ghost var was := hash[..];
      SetAllThree(hash[..], h2, h3, hv, pos);
      r2, r3, curMatch := hash[h2], hash[h3], hash[hv];
      hash[h2] := pos;
      hash[h3] := pos;
      hash[hv] := pos;
      assert hash[..] == was[h2 := pos][h3 := pos][hv := pos];
    }

    method Bt3Heads() returns (d2: int, curMatch: int)
      requires Good() && g.kind.Bt3? && 3 <= lenLimit && buffer < |g.text|
      modifies hash
      ensures HeadsSet(old(State()), curMatch) && |Heads(g, buffer)| == 2 && 0 <= Heads(g, buffer)[0] < hash.Length
      ensures d2 == pos - old(hash[..])[Heads(g, buffer)[0]]
    {
      hide LinksFit, Avail, Heads, SetAll;
      ghost var f := State();
      SearchingNow(g, f);
      var h2, hv := Hash3();
      SmallDelta(g, f, h2);
      var r2, r3;
      r2, r3, curMatch := SetHeads(h2, h2, FIX3 + hv, Heads(g, buffer));
      d2 := (pos - r2) % TWO32;
    }

    method Bt4Heads() returns (d2: int, d3: int, curMatch: int)
      requires Good() && (g.kind.Bt4? || g.kind.Hc4?) && 4 <= lenLimit && buffer < |g.text|
      modifies hash
      ensures HeadsSet(old(State()), curMatch) && |Heads(g, buffer)| == 3
      ensures 0 <= Heads(g, buffer)[0] < hash.Length && 0 <= Heads(g, buffer)[1] < hash.Length
      ensures d2 == pos - old(hash[..])[Heads(g, buffer)[0]] && d3 == pos - old(hash[..])[Heads(g, buffer)[1]]
    {
      hide LinksFit, Avail, Heads, SetAll;
      ghost var f := State();
      SearchingNow(g, f);
      var h2, h3, hv := Hash4();
      SmallDelta(g, f, h2);
      SmallDelta(g, f, FIX3 + h3);
      var r2, r3;
      r2, r3, curMatch := SetHeads(h2, FIX3 + h3, FIX4 + hv, Heads(g, buffer));
      d2 := (pos - r2) % TWO32;
      d3 := (pos - r3) % TWO32;
    }

    // How far the place at the distance agrees, len bytes being known to.
    method UpdateMaxLen(delta: int, len: int) returns (maxLen: int)
      requires Fits(g.text, buffer - delta, lenLimit) && Fits(g.text, buffer, lenLimit) && 0 <= len <= lenLimit
      ensures maxLen == Extend(g.text, buffer - delta, buffer, len, lenLimit)
    {
      hide Extend;
      maxLen := len;
      while maxLen != lenLimit && g.text[buffer - delta + maxLen] == g.text[buffer + maxLen]
        invariant len <= maxLen <= lenLimit
        invariant Extend(g.text, buffer - delta, buffer, len, lenLimit) == Extend(g.text, buffer - delta, buffer, maxLen, lenLimit)
        decreases lenLimit - maxLen
      {
        ExtendStep(g.text, buffer - delta, buffer, maxLen, lenLimit);
        maxLen := maxLen + 1;
      }
      if maxLen < lenLimit {
        ExtendStep(g.text, buffer - delta, buffer, maxLen, lenLimit);
      } else if len < lenLimit {
        ExtendStep(g.text, buffer - delta, buffer, len, lenLimit);
      }
    }

    // The distance leads to a candidate.
    method IsCandidate(d: int, ghost f: Finder, ghost e: int) returns (yes: bool)
      requires Searching(g, f) && 0 <= e < |f.hash| && d == f.pos - f.hash[e] && buffer == f.buffer && lenLimit == f.lenLimit
      ensures yes == Candidate(g, f, e)
      ensures yes ==> Fits(g.text, buffer - d, lenLimit) && IndexOf(WindowOf(g, f), f.hash[e]) == buffer - d
    {
      hide Avail;
      yes := d < g.cyc && g.text[buffer - d] == g.text[buffer];
    }

    method Bt3GetMatches() returns (distances: seq<Found>)
      requires Good() && g.kind.Bt3? && buffer < |g.text|
      modifies this, hash, son
      ensures State() == Step(g, old(State())) && Good() && distances == Report(g, old(State()))
    {
      hide Step, Avail, LinksFit, Heads, MainSearch, SetAll, Candidate, MatchOf, GoodRef, WindowOf, IndexOf, Extend, WfConfig;
      ghost var f := State();
      if lenLimit < 3 {
        PassBy();
        return [];
      }
      SearchingNow(g, f);
      var d2, curMatch := Bt3Heads();
      ghost var e := Heads(g, f.buffer)[0];
      var maxLen := 2;
      distances := [];
      var two := IsCandidate(d2, f, e);
      if two {
        maxLen := UpdateMaxLen(d2, maxLen);
        distances := [Found(maxLen, d2 - 1)];
        MatchOfIs(g, f, e, 2);
        if maxLen == lenLimit {
          SkipAndMove(curMatch, f);
          assert distances + [] == distances;
          return;
        }
      }
      var more := InsertAndMove(curMatch, maxLen, f);
      distances := distances + more;
    }

    // The matches of two and three bytes, and how long the last of them is.
    method SeedMatches(delta2: int, d3: int, ghost f: Finder) returns (distances: seq<Found>, maxLen: int)
      requires Searching(g, f) && (g.kind.Bt4? || g.kind.Hc4?) && buffer == f.buffer && lenLimit == f.lenLimit
      requires |Heads(g, buffer)| == 3 && 0 <= Heads(g, buffer)[0] < |f.hash| && 0 <= Heads(g, buffer)[1] < |f.hash|
      requires delta2 == f.pos - f.hash[Heads(g, buffer)[0]] && d3 == f.pos - f.hash[Heads(g, buffer)[1]]
      ensures distances == Seeds(g, f) && maxLen == LastLen(0, distances)
    {
      hide Avail, LinksFit, Heads, Candidate, MatchOf, GoodRef, WindowOf, IndexOf, Extend, WfConfig, MainSearch;
      ghost var h2, h3 := Heads(g, buffer)[0], Heads(g, buffer)[1];
      var d2 := delta2;
      maxLen := 0;
      distances := [];
      var two := IsCandidate(d2, f, h2);
      if two {
        maxLen := 2;
        distances := [Found(2, d2 - 1)];
        MatchOfIs(g, f, h2, 2);
      }
      var three := IsCandidate(d3, f, h3);
      if d2 != d3 && three {
        maxLen := 3;
        distances := distances + [Found(3, d3 - 1)];
        d2 := d3;
        MatchOfIs(g, f, h3, 3);
      }
      if distances != [] {
        maxLen := UpdateMaxLen(d2, maxLen);
        distances := distances[|distances| - 1 := Found(maxLen, d2 - 1)];
      }
    }

    method Bt4GetMatches() returns (distances: seq<Found>)
      requires Good() && g.kind.Bt4? && buffer < |g.text|
      modifies this, hash, son
      ensures State() == Step(g, old(State())) && Good() && distances == Report(g, old(State()))
    {
      hide Step, Avail, LinksFit, Heads, MainSearch, SetAll, Seeds, GoodRef;
      ghost var f := State();
      if lenLimit < 4 {
        PassBy();
        return [];
      }
      SearchingNow(g, f);
      var d2, d3, curMatch := Bt4Heads();
      var maxLen;
      distances, maxLen := SeedMatches(d2, d3, f);
      if distances != [] && maxLen == lenLimit {
        SkipAndMove(curMatch, f);
        assert distances + [] == distances;
        return;
      }
      SeedLen(g, f);
      if maxLen < 3 {
        maxLen := 3;
      }
      var more := InsertAndMove(curMatch, maxLen, f);
      distances := distances + more;
    }

    // Link the current place in front of the chain and move on.
    method ChainAndMove(curMatch: int, ghost f: Finder)
      requires hash != son && Searching(g, f) && f.buffer < |g.text| && g.kind.Hc4? && curMatch == f.hash[MainHead(g, f.buffer)]
      requires State() == Entered(g, f)
      modifies this, hash, son
      ensures State() == Step(g, f) && Good()
    {
      hide Heads, SetAll, Avail, GoodSon, GoodRef, Seeds, MovePos, LinksFit;
      PlacedSame(g, f, State());
      StepValid(g, f);
      Move();
    }

    method Hc4GetMatches() returns (distances: seq<Found>)
      requires Good() && g.kind.Hc4? && buffer < |g.text|
      modifies this, hash, son
      ensures State() == Step(g, old(State())) && Good() && distances == Report(g, old(State()))
    {
      hide Step, Avail, LinksFit, Heads, ChainLoop, SetAll, Seeds, GoodRef, GoodChain;
      ghost var f := State();
      if lenLimit < 4 {
        PassBy();
        return [];
      }
      SearchingNow(g, f);
      var d2, d3, curMatch := Bt4Heads();
      var maxLen;
      distances, maxLen := SeedMatches(d2, d3, f);
      MainPre(g, f);
      ChainLen(WindowOf(g, f), f.son);
      if distances != [] && maxLen == lenLimit {
        son[cyclicBufferPos] := curMatch;
        assert son[..] == f.son[f.cpos := curMatch];
        ChainAndMove(curMatch, f);
        assert distances + [] == distances;
        return;
      }
      SeedLen(g, f);
      if maxLen < 3 {
        maxLen := 3;
      }
      var more := HcGetMatchesSpec(lenLimit, curMatch, pos, g.text, buffer, son, cyclicBufferPos, g.cyc, g.cut, maxLen, WindowOf(g, f));
      assert State() == Entered(g, f);
      distances := distances + more;
      ChainAndMove(curMatch, f);
    }

    // ---------- skipping ----------

    // Enter the current place without searching, as the finder of each kind does.
    method SkipOne()
      requires Good() && buffer < |g.text|
      modifies this, hash, son
      ensures State() == Step(g, old(State())) && Good()
    {
      hide Step, Avail, LinksFit, Heads, SetAll, GoodRef, GoodChain, Report;
      ghost var f := State();
      if lenLimit < MinLen(g.kind) {
        PassBy();
        return;
      }
      SearchingNow(g, f);
      var curMatch, d2, d3;
      match g.kind
      case Bt2 =>
        curMatch := Bt2Heads();
        SkipAndMove(curMatch, f);
      case Bt3 =>
        d2, curMatch := Bt3Heads();
        SkipAndMove(curMatch, f);
      case Bt4 =>
        d2, d3, curMatch := Bt4Heads();
        SkipAndMove(curMatch, f);
      case Hc4 =>
        d2, d3, curMatch := Bt4Heads();
        MainPre(g, f);
        ChainLen(WindowOf(g, f), f.son);
        son[cyclicBufferPos] := curMatch;
        assert son[..] == f.son[f.cpos := curMatch];
        ChainAndMove(curMatch, f);
    }

    /** Skipping num places leaves what num searches leave. */
    method Skip(num: nat)
      requires Good() && 0 < num && buffer + num <= |g.text|
      modifies this, hash, son
      ensures State() == Run(g, old(State()), num) && Good()
    {
      hide Step, Avail, LinksFit, Heads, Valid;
      ghost var f0 := State();
      var left := num;
      while true
        invariant 0 < left <= num && Good() && buffer + left <= |g.text| && Run(g, State(), left) == Run(g, f0, num)
        decreases left
      {
        RunStep(g, State(), left);
        SkipOne();
        left := left - 1;
        if left == 0 {
          return;
        }
      }
    }

    /** The same places one by one with the searches, what they report being dropped. */
    method SearchAll(num: nat)
      requires Good() && buffer + num <= |g.text|
      modifies this, hash, son
      ensures State() == Run(g, old(State()), num) && Good()
    {
      hide Step, Avail, LinksFit, Heads, Valid, Report;
      ghost var f0 := State();
      var left := num;
      while left != 0
        invariant 0 <= left <= num && Good() && buffer + left <= |g.text| && Run(g, State(), left) == Run(g, f0, num)
      {
        RunStep(g, State(), left);
        var distances := GetMatches();
        left := left - 1;
      }
    }

    method GetMatches() returns (distances: seq<Found>)
      requires Good() && buffer < |g.text|
      modifies this, hash, son
      ensures State() == Step(g, old(State())) && Good() && distances == Report(g, old(State()))
    {
      hide Step, Avail, LinksFit, Heads, Valid, Report;
      match g.kind
      case Bt2 => distances := Bt2GetMatches();
      case Bt3 => distances := Bt3GetMatches();
      case Bt4 => distances := Bt4GetMatches();
      case Hc4 => distances := Hc4GetMatches();
    }

    /** A finder over text with given settings: empty heads, links as the allocated memory happens to hold them. */
    constructor (settings: Config, memory: seq<int>)
      requires WfConfig(settings) && FreshSon(settings, memory)
      ensures g == settings && Good() && fresh(hash) && fresh(son) && State() == InitOf(g, memory)
    {
      g := settings;
      hash := new int[TableSize(settings)];
      son := new int[|memory|](k requires 0 <= k < |memory| => memory[k]);
      buffer, pos, posLimit, streamPos, lenLimit, cyclicBufferPos := 0, settings.cyc, 0, settings.cyc, 0, 0;
      streamEndWasReached, directInputRem := false, |settings.text|;
      new;
      ClearHeads();
      assert son[..] == memory;
      InitValid(g, memory);
      ReadMore();
      UpdateLimits();
    }

    method ClearHeads()
      requires hash != son
      modifies hash
      ensures hash[..] == seq(hash.Length, _ => 0)
    {
      var i := 0;
      while i < hash.Length
        invariant 0 <= i <= hash.Length && forall k :: 0 <= k < i ==> hash[k] == 0
      {
        hash[i] := 0;
        i := i + 1;
      }
    }
  }

  lemma SmallDelta(g: Config, f: Finder, e: int)
    requires Valid(g, f) && 0 <= e < |f.hash|
    ensures (f.pos - f.hash[e]) % TWO32 == f.pos - f.hash[e]
  {
  }

  lemma MatchOfIs(g: Config, f: Finder, e: int, len: int)
    requires Searching(g, f) && 0 <= e < |f.hash| && Candidate(g, f, e) && 0 <= len <= f.lenLimit
    ensures Fits(g.text, IndexOf(WindowOf(g, f), f.hash[e]), f.lenLimit)
    ensures MatchOf(g, f, e, len) == Found(Extend(g.text, IndexOf(WindowOf(g, f), f.hash[e]), f.buffer, len, f.lenLimit), f.pos - f.hash[e] - 1)
  {
  }

  lemma SeedLen(g: Config, f: Finder)
    requires Searching(g, f)
    ensures Seeds(g, f) == [] ==> LastLen(0, Seeds(g, f)) == 0
    ensures LastLen(0, Seeds(g, f)) <= f.lenLimit
  {
  }

  lemma RunStep(g: Config, f: Finder, n: nat)
    requires Valid(g, f) && 0 < n && f.buffer + n <= |g.text|
    ensures Valid(g, Step(g, f)) && Step(g, f).buffer == f.buffer + 1
    ensures Run(g, f, n) == Run(g, Step(g, f), n - 1) && Run(g, Step(g, f), 0) == Step(g, f)
  {
    hide Step, Valid;
    StepValid(g, f);
  }

  lemma HeadsNow(g: Config, f: Finder)
    requires Valid(g, f) && MinLen(g.kind) <= f.lenLimit
    ensures Searching(g, f) && |f.hash| == TableSize(g)
    ensures var h := Heads(g, f.buffer); forall k :: 0 <= k < |h| ==> 0 <= h[k] < |f.hash|
  {
  }

  lemma FreeSize(f: Finder)
    requires 0 <= f.pos < TWO32 && 0 <= f.streamPos < TWO32
    ensures (0xFFFF_FFFF - (f.streamPos - f.pos)) % TWO32 == MAX_POS - Avail(f)
  {
  }

  lemma SubValueIs(g: Config, f: Finder, d: int)
    requires d == (f.pos - (g.cyc - 1) - 1) % TWO32
    ensures d - And(d, NORMALIZE_STEP - 1) == SubValue(g, f)
  {
    hide And;
    LowBitsCut(d);
  }

  lemma LowBitsCut(d: int)
    requires 0 <= d
    ensures And(d, NORMALIZE_STEP - 1) == d % NORMALIZE_STEP
  {
    Powers();
    hide And;
    AndLowBits(d, 10);
    LowBitsIsMod(d, 10);
  }

  // What the partial states inside CheckLimits need.
  lemma CheckBounds(g: Config, f: Finder)
    requires Moved(g, f)
    ensures 0 <= f.pos < TWO32 && 0 <= f.streamPos < TWO32 && 0 <= f.rem
    ensures f.pos == MAX_POS ==> 0 <= Normalize(g, f).pos < TWO32 && 0 <= Normalize(g, f).streamPos < TWO32
  {
  }
}
