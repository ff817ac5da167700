/** Comparing places of a text: common prefixes and the order of bounded continuations. */
module MatchText {
  import opened Primitives

  // limit bytes can be read from place i.
  predicate Fits(text: seq<byte>, i: int, limit: int) {
    0 <= i && 0 <= limit && i + limit <= |text|
  }

  function Sym(text: seq<byte>, i: int, k: int): int
    requires 0 <= i + k < |text|
  {
    text[i + k]
  }

  /** Length of the common prefix at i and j up to limit, the first len bytes being taken for granted. */
  function Extend(text: seq<byte>, i: int, j: int, len: int, limit: int): (n: int)
    requires Fits(text, i, limit) && Fits(text, j, limit) && 0 <= len <= limit
    ensures len <= n <= limit
    ensures forall k {:trigger Sym(text, i, k)} {:trigger Sym(text, j, k)} :: len <= k < n ==> Sym(text, i, k) == Sym(text, j, k)
    ensures n < limit ==> Sym(text, i, n) != Sym(text, j, n)
    decreases limit - len
  {
    if len == limit || Sym(text, i, len) != Sym(text, j, len) then len else Extend(text, i, j, len + 1, limit)
  }

  function Lcp(text: seq<byte>, i: int, j: int, limit: int): (n: int)
    requires Fits(text, i, limit) && Fits(text, j, limit)
    ensures 0 <= n <= limit
  {
    Extend(text, i, j, 0, limit)
  }

  // The first n bytes at i and j agree.
  predicate Agree(text: seq<byte>, i: int, j: int, n: int)
    requires Fits(text, i, n) && Fits(text, j, n)
  {
    forall k {:trigger Sym(text, i, k)} {:trigger Sym(text, j, k)} :: 0 <= k < n ==> Sym(text, i, k) == Sym(text, j, k)
  }

  /** The common prefix is the one length that agrees and cannot be continued. */
  lemma LcpUnique(text: seq<byte>, i: int, j: int, n: int, limit: int)
    requires Fits(text, i, limit) && Fits(text, j, limit) && 0 <= n <= limit
    ensures Lcp(text, i, j, limit) == n <==> Agree(text, i, j, n) && (n < limit ==> Sym(text, i, n) != Sym(text, j, n))
  {
    var k := Min(Lcp(text, i, j, limit), n);
    var parts := k < limit && Sym(text, i, k) != Sym(text, j, k);
  }

  /** An agreement is a true match: the two slices of the text are equal. */
  lemma AgreeSlices(text: seq<byte>, i: int, j: int, n: int)
    requires Fits(text, i, n) && Fits(text, j, n)
    ensures Agree(text, i, j, n) <==> text[i..i + n] == text[j..j + n]
  {
    if Agree(text, i, j, n) {
      var x, y := text[i..i + n], text[j..j + n];
      forall k | 0 <= k < n
        ensures x[k] == y[k]
      {
        assert Sym(text, i, k) == Sym(text, j, k);
      }
    } else {
      var k :| 0 <= k < n && Sym(text, i, k) != Sym(text, j, k);
      assert text[i..i + n][k] != text[j..j + n][k];
    }
  }

  lemma LcpAgree(text: seq<byte>, i: int, j: int, n: int, limit: int)
    requires Fits(text, i, limit) && Fits(text, j, limit) && 0 <= n <= limit
    ensures n <= Lcp(text, i, j, limit) <==> Agree(text, i, j, n)
  {
    var m := Lcp(text, i, j, limit);
    var parts := m < limit && Sym(text, i, m) != Sym(text, j, m);
  }

  lemma LcpSymmetric(text: seq<byte>, i: int, j: int, limit: int)
    requires Fits(text, i, limit) && Fits(text, j, limit)
    ensures Lcp(text, i, j, limit) == Lcp(text, j, i, limit)
  {
    LcpUnique(text, i, j, Lcp(text, j, i, limit), limit);
  }

  lemma ExtendIsLcp(text: seq<byte>, i: int, j: int, len: int, limit: int)
    requires Fits(text, i, limit) && Fits(text, j, limit) && 0 <= len <= limit && len <= Lcp(text, i, j, limit)
    ensures Extend(text, i, j, len, limit) == Lcp(text, i, j, limit)
  {
    LcpAgree(text, i, j, len, limit);
    LcpUnique(text, i, j, Extend(text, i, j, len, limit), limit);
  }

  lemma LcpShorter(text: seq<byte>, i: int, j: int, short: int, limit: int)
    requires Fits(text, i, limit) && Fits(text, j, limit) && 0 <= short <= limit
    ensures Lcp(text, i, j, short) == Min(short, Lcp(text, i, j, limit))
  {
    LcpUnique(text, i, j, Min(short, Lcp(text, i, j, limit)), short);
  }

  // ---------- order ----------

  /** The continuation at i, cut at limit, is at most that at j. */
  predicate Le(text: seq<byte>, i: int, j: int, limit: int)
    requires Fits(text, i, limit) && Fits(text, j, limit)
  {
    var n := Lcp(text, i, j, limit);
    n == limit || Sym(text, i, n) < Sym(text, j, n)
  }

  predicate Lt(text: seq<byte>, i: int, j: int, limit: int)
    requires Fits(text, i, limit) && Fits(text, j, limit)
  {
    var n := Lcp(text, i, j, limit);
    n < limit && Sym(text, i, n) < Sym(text, j, n)
  }

  lemma LeShorter(text: seq<byte>, i: int, j: int, short: int, limit: int)
    requires Fits(text, i, limit) && Fits(text, j, limit) && 0 <= short <= limit && Le(text, i, j, limit)
    ensures Le(text, i, j, short)
  {
    LcpShorter(text, i, j, short, limit);
  }

  /** What lies below a place below c agrees no further with c. */
  lemma BelowAgreesLess(text: seq<byte>, x: int, y: int, c: int, limit: int)
    requires Fits(text, x, limit) && Fits(text, y, limit) && Fits(text, c, limit)
    requires Le(text, x, y, limit) && Lt(text, y, c, limit)
    ensures Lt(text, x, c, limit) && Lcp(text, x, c, limit) <= Lcp(text, y, c, limit)
  {
    var n, m := Lcp(text, x, y, limit), Lcp(text, y, c, limit);
    var k := Min(n, m);
    assert Sym(text, x, k) < Sym(text, c, k) by {
      assert n < m ==> Sym(text, y, n) == Sym(text, c, n);
      assert m < n ==> Sym(text, x, m) == Sym(text, y, m);
    }
    Chain(text, x, y, c, k, limit);
    LcpUnique(text, x, c, k, limit);
  }

  lemma AboveAgreesLess(text: seq<byte>, x: int, y: int, c: int, limit: int)
    requires Fits(text, x, limit) && Fits(text, y, limit) && Fits(text, c, limit)
    requires Le(text, y, x, limit) && Lt(text, c, y, limit)
    ensures Lt(text, c, x, limit) && Lcp(text, x, c, limit) <= Lcp(text, y, c, limit)
  {
    LcpSymmetric(text, x, c, limit);
    LcpSymmetric(text, y, c, limit);
    LcpSymmetric(text, x, y, limit);
    var n, m := Lcp(text, x, y, limit), Lcp(text, y, c, limit);
    var k := Min(n, m);
    assert Sym(text, c, k) < Sym(text, x, k) by {
      assert n < m ==> Sym(text, y, n) == Sym(text, c, n);
      assert m < n ==> Sym(text, x, m) == Sym(text, y, m);
    }
    Chain(text, x, y, c, k, limit);
    LcpUnique(text, x, c, k, limit);
  }

  lemma Chain(text: seq<byte>, x: int, y: int, c: int, k: int, limit: int)
    requires Fits(text, x, limit) && Fits(text, y, limit) && Fits(text, c, limit)
    requires 0 <= k <= limit && k <= Lcp(text, x, y, limit) && k <= Lcp(text, y, c, limit)
    ensures Agree(text, x, c, k)
  {
    LcpAgree(text, x, y, k, limit);
    LcpAgree(text, y, c, k, limit);
    forall i {:trigger Sym(text, x, i)} | 0 <= i < k
      ensures Sym(text, x, i) == Sym(text, c, i)
    {
      assert Sym(text, x, i) == Sym(text, y, i) && Sym(text, y, i) == Sym(text, c, i);
    }
  }

  /** What lies between two places agrees with c at least as far as both of them do. */
  lemma Sandwich(text: seq<byte>, a: int, x: int, b: int, c: int, limit: int)
    requires Fits(text, a, limit) && Fits(text, x, limit) && Fits(text, b, limit) && Fits(text, c, limit)
    requires Le(text, a, x, limit) && Le(text, x, b, limit)
    ensures Min(Lcp(text, a, c, limit), Lcp(text, b, c, limit)) <= Lcp(text, x, c, limit)
  {
    var m, n := Min(Lcp(text, a, c, limit), Lcp(text, b, c, limit)), Lcp(text, x, c, limit);
    if n < m {
      assert Sym(text, a, n) == Sym(text, c, n) && Sym(text, b, n) == Sym(text, c, n);
      LcpSymmetric(text, x, c, limit);
      Apart(text, a, x, c, n, limit);
      LcpSymmetric(text, x, b, limit);
      Apart(text, b, x, c, n, limit);
    }
  }

  // x leaves c where a still agrees with it, so a and x part there.
  lemma Apart(text: seq<byte>, a: int, x: int, c: int, n: int, limit: int)
    requires Fits(text, a, limit) && Fits(text, x, limit) && Fits(text, c, limit)
    requires n == Lcp(text, x, c, limit) < Lcp(text, a, c, limit)
    ensures Lcp(text, a, x, limit) == n
  {
    LcpSymmetric(text, x, c, limit);
    Chain(text, a, c, x, n, limit);
    assert Sym(text, a, n) == Sym(text, c, n);
    LcpUnique(text, a, x, n, limit);
  }
}
