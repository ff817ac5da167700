/**
 The search tree of the match finder as a value: binary by content along one axis, newest at the root along the other.
 Inserting a place splits the tree below it, and the walk that splits meets the longest match.
 */
module SearchTree {
  import opened Primitives
  import opened MatchText

  datatype Tree = Leaf | Node(lo: Tree, at: int, hi: Tree)

  function Nodes(t: Tree): set<int> {
    match t
    case Leaf => {}
    case Node(l, i, g) => Nodes(l) + {i} + Nodes(g)
  }

  predicate AllFit(text: seq<byte>, nodes: set<int>, limit: int) {
    forall j :: j in nodes ==> Fits(text, j, limit)
  }

  /** Ordered by content up to limit, with every child older than its parent. */
  predicate Sorted(text: seq<byte>, t: Tree, limit: int) {
    match t
    case Leaf => true
    case Node(l, i, g) =>
      && Fits(text, i, limit) && Sorted(text, l, limit) && Sorted(text, g, limit)
      && (forall j :: j in Nodes(l) ==> Fits(text, j, limit) && j < i && Le(text, j, i, limit))
      && (forall j :: j in Nodes(g) ==> Fits(text, j, limit) && j < i && Le(text, i, j, limit))
      && Nodes(l) !! Nodes(g)
  }

  lemma {:induction false} SortedFits(text: seq<byte>, t: Tree, limit: int)
    requires Sorted(text, t, limit)
    ensures AllFit(text, Nodes(t), limit)
  {
  }

  /** Part the tree at c: what is smaller and what is larger; a place that equals c is dropped for it. */
  function Split(text: seq<byte>, t: Tree, c: int, limit: int, cut: nat): (Tree, Tree)
    requires Fits(text, c, limit) && AllFit(text, Nodes(t), limit)
    decreases t
  {
    if t.Leaf? || cut == 0 then (Leaf, Leaf)
    else
      var n := Lcp(text, t.at, c, limit);
      if n == limit then
        (t.lo, t.hi)
      else if Sym(text, t.at, n) < Sym(text, c, n) then
        var (a, b) := Split(text, t.hi, c, limit, cut - 1);
        (Node(t.lo, t.at, a), b)
      else
        var (a, b) := Split(text, t.lo, c, limit, cut - 1);
        (a, Node(b, t.at, t.hi))
  }

  /** How many nodes the walk towards c meets. */
  function Path(text: seq<byte>, t: Tree, c: int, limit: int): nat
    requires Fits(text, c, limit) && AllFit(text, Nodes(t), limit)
    decreases t
  {
    if t.Leaf? then 0
    else
      var n := Lcp(text, t.at, c, limit);
      if n == limit then 1
      else 1 + Path(text, if Sym(text, t.at, n) < Sym(text, c, n) then t.hi else t.lo, c, limit)
  }

  // The nodes that the walk towards c meets before its budget runs out.
  function Walk(text: seq<byte>, t: Tree, c: int, limit: int, cut: nat): set<int>
    requires Fits(text, c, limit) && AllFit(text, Nodes(t), limit)
    decreases t
  {
    if t.Leaf? || cut == 0 then {}
    else
      var n := Lcp(text, t.at, c, limit);
      if n == limit then {t.at}
      else {t.at} + Walk(text, if Sym(text, t.at, n) < Sym(text, c, n) then t.hi else t.lo, c, limit, cut - 1)
  }

  /** What the walk has not entered when its budget runs out. */
  function Unreached(text: seq<byte>, t: Tree, c: int, limit: int, cut: nat): Tree
    requires Fits(text, c, limit) && AllFit(text, Nodes(t), limit)
    decreases t
  {
    if t.Leaf? || cut == 0 then t
    else
      var n := Lcp(text, t.at, c, limit);
      if n == limit then Leaf
      else Unreached(text, if Sym(text, t.at, n) < Sym(text, c, n) then t.hi else t.lo, c, limit, cut - 1)
  }

  /** A reported match: its length, and its distance less one. */
  datatype Found = Found(len: int, dist: int)

  /** The matches met on the way to c, each longer than all before. */
  function Search(text: seq<byte>, t: Tree, c: int, limit: int, cut: nat, maxLen: int): seq<Found>
    requires Fits(text, c, limit) && AllFit(text, Nodes(t), limit)
    decreases t
  {
    if t.Leaf? || cut == 0 then []
    else
      var n := Lcp(text, t.at, c, limit);
      var here := if maxLen < n then [Found(n, c - t.at - 1)] else [];
      if n == limit then here
      else here + Search(text, if Sym(text, t.at, n) < Sym(text, c, n) then t.hi else t.lo, c, limit, cut - 1, Max(maxLen, n))
  }

  function LastLen(maxLen: int, found: seq<Found>): int {
    if found == [] then maxLen else found[|found| - 1].len
  }

  // ---------- order is kept ----------

  predicate BelowC(text: seq<byte>, nodes: set<int>, c: int, limit: int)
    requires Fits(text, c, limit) && AllFit(text, nodes, limit)
  {
    forall j :: j in nodes ==> Le(text, j, c, limit)
  }

  predicate AboveC(text: seq<byte>, nodes: set<int>, c: int, limit: int)
    requires Fits(text, c, limit) && AllFit(text, nodes, limit)
  {
    forall j :: j in nodes ==> Le(text, c, j, limit)
  }

  lemma LeEqual(text: seq<byte>, j: int, i: int, c: int, limit: int)
    requires Fits(text, j, limit) && Fits(text, i, limit) && Fits(text, c, limit) && Lcp(text, i, c, limit) == limit
    ensures Lcp(text, j, i, limit) == Lcp(text, j, c, limit)
    ensures Le(text, j, i, limit) ==> Le(text, j, c, limit)
    ensures Le(text, i, j, limit) ==> Le(text, c, j, limit)
  {
    var n := Lcp(text, j, i, limit);
    Chain(text, j, i, c, n, limit);
    assert n < limit ==> Sym(text, i, n) == Sym(text, c, n);
    LcpUnique(text, j, c, n, limit);
    LcpSymmetric(text, i, j, limit);
    LcpSymmetric(text, c, j, limit);
  }

  // a and b are sorted and apart, keep to their side of c, and hold nothing but nodes.
  predicate Parted(text: seq<byte>, nodes: set<int>, a: Tree, b: Tree, c: int, limit: int) {
    && Fits(text, c, limit) && AllFit(text, nodes, limit)
    && Sorted(text, a, limit) && Sorted(text, b, limit)
    && Nodes(a) <= nodes && Nodes(b) <= nodes && Nodes(a) !! Nodes(b)
    && BelowC(text, Nodes(a), c, limit) && AboveC(text, Nodes(b), c, limit)
  }

  lemma PartEqual(text: seq<byte>, t: Tree, c: int, limit: int)
    requires Fits(text, c, limit) && t.Node? && Sorted(text, t, limit) && Lcp(text, t.at, c, limit) == limit
    ensures AllFit(text, Nodes(t), limit) && Parted(text, Nodes(t), t.lo, t.hi, c, limit)
  {
    hide Le, Lcp;
    forall j | j in Nodes(t.lo) + Nodes(t.hi)
      ensures j in Nodes(t.lo) ==> Le(text, j, c, limit)
      ensures j in Nodes(t.hi) ==> Le(text, c, j, limit)
    {
      LeEqual(text, j, t.at, c, limit);
    }
  }

  lemma LtIsLe(text: seq<byte>, i: int, j: int, limit: int)
    requires Fits(text, i, limit) && Fits(text, j, limit) && Lt(text, i, j, limit)
    ensures Le(text, i, j, limit)
  {
  }

  lemma PartLess(text: seq<byte>, t: Tree, c: int, limit: int, a: Tree, b: Tree)
    requires Fits(text, c, limit) && t.Node? && Sorted(text, t, limit) && Lt(text, t.at, c, limit)
    requires Parted(text, Nodes(t.hi), a, b, c, limit)
    ensures AllFit(text, Nodes(t), limit) && Parted(text, Nodes(t), Node(t.lo, t.at, a), b, c, limit)
  {
    hide Le, Lt, Lcp;
    LtIsLe(text, t.at, c, limit);
    forall j | j in Nodes(t.lo)
      ensures Le(text, j, c, limit)
    {
      BelowAgreesLess(text, j, t.at, c, limit);
      LtIsLe(text, j, c, limit);
    }
  }

  lemma PartMore(text: seq<byte>, t: Tree, c: int, limit: int, a: Tree, b: Tree)
    requires Fits(text, c, limit) && t.Node? && Sorted(text, t, limit) && Lt(text, c, t.at, limit)
    requires Parted(text, Nodes(t.lo), a, b, c, limit)
    ensures AllFit(text, Nodes(t), limit) && Parted(text, Nodes(t), a, Node(b, t.at, t.hi), c, limit)
  {
    hide Le, Lt, Lcp;
    LtIsLe(text, c, t.at, limit);
    forall j | j in Nodes(t.hi)
      ensures Le(text, c, j, limit)
    {
      AboveAgreesLess(text, j, t.at, c, limit);
      LtIsLe(text, c, j, limit);
    }
  }

  /** Both parts of a split stay sorted and apart, keep to their side of c, and hold nothing new. */
  lemma {:induction false} SplitSorted(text: seq<byte>, t: Tree, c: int, limit: int, cut: nat)
    requires Fits(text, c, limit) && Sorted(text, t, limit)
    ensures AllFit(text, Nodes(t), limit)
    ensures var (a, b) := Split(text, t, c, limit, cut); Parted(text, Nodes(t), a, b, c, limit)
    decreases t
  {
    hide Parted;
    SortedFits(text, t, limit);
    if t.Leaf? || cut == 0 {
      PartNothing(text, t, c, limit);
    } else {
      var n := Lcp(text, t.at, c, limit);
      LcpSymmetric(text, t.at, c, limit);
      if n == limit {
        PartEqual(text, t, c, limit);
      } else if Sym(text, t.at, n) < Sym(text, c, n) {
        SplitSorted(text, t.hi, c, limit, cut - 1);
        var (a, b) := Split(text, t.hi, c, limit, cut - 1);
        PartLess(text, t, c, limit, a, b);
      } else {
        SplitSorted(text, t.lo, c, limit, cut - 1);
        var (a, b) := Split(text, t.lo, c, limit, cut - 1);
        PartMore(text, t, c, limit, a, b);
      }
    }
  }

  lemma PartNothing(text: seq<byte>, t: Tree, c: int, limit: int)
    requires Fits(text, c, limit) && AllFit(text, Nodes(t), limit)
    ensures Parted(text, Nodes(t), Leaf, Leaf, c, limit)
  {
  }

  function Insert(text: seq<byte>, t: Tree, c: int, limit: int, cut: nat): Tree
    requires Fits(text, c, limit) && AllFit(text, Nodes(t), limit)
  {
    var (a, b) := Split(text, t, c, limit, cut);
    Node(a, c, b)
  }

  /** Inserting a newer place keeps the tree sorted. */
  lemma InsertSorted(text: seq<byte>, t: Tree, c: int, limit: int, cut: nat)
    requires Fits(text, c, limit) && Sorted(text, t, limit) && (forall j :: j in Nodes(t) ==> j < c)
    ensures AllFit(text, Nodes(t), limit) && Sorted(text, Insert(text, t, c, limit, cut), limit)
    ensures Nodes(Insert(text, t, c, limit, cut)) <= Nodes(t) + {c}
  {
    SplitSorted(text, t, c, limit, cut);
  }

  /** Unless the budget runs out, only a place that c repeats in full is lost. */
  lemma {:induction false} SplitComplete(text: seq<byte>, t: Tree, c: int, limit: int, cut: nat)
    requires Fits(text, c, limit) && AllFit(text, Nodes(t), limit) && Path(text, t, c, limit) <= cut
    ensures forall j :: j in Nodes(t) ==> j in Nodes(Insert(text, t, c, limit, cut)) || Lcp(text, j, c, limit) == limit
    decreases t
  {
    if t.Node? {
      var n := Lcp(text, t.at, c, limit);
      if n < limit {
        SplitComplete(text, if Sym(text, t.at, n) < Sym(text, c, n) then t.hi else t.lo, c, limit, cut - 1);
      }
    }
  }

  /** The walk goes from newer to older places, and what it does not enter is older than all it has met. */
  lemma {:induction false} WalkOlder(text: seq<byte>, t: Tree, c: int, limit: int, cut: nat)
    requires Fits(text, c, limit) && Sorted(text, t, limit)
    ensures AllFit(text, Nodes(t), limit)
    ensures var out := Nodes(Unreached(text, t, c, limit, cut));
            && Walk(text, t, c, limit, cut) <= Nodes(t) && out <= Nodes(t)
            && forall i, j :: i in Walk(text, t, c, limit, cut) && j in out ==> j < i
    ensures Path(text, t, c, limit) <= cut ==> Unreached(text, t, c, limit, cut).Leaf?
    decreases t
  {
    hide Le, Lcp;
    SortedFits(text, t, limit);
    if t.Node? && cut != 0 {
      var n := Lcp(text, t.at, c, limit);
      if n < limit {
        WalkOlder(text, if Sym(text, t.at, n) < Sym(text, c, n) then t.hi else t.lo, c, limit, cut - 1);
      }
    }
  }

  /** Whatever the budget, a split loses just what the walk does not enter, and a place it meets that c repeats in full. */
  lemma {:induction false} SplitExact(text: seq<byte>, t: Tree, c: int, limit: int, cut: nat, j: int)
    requires Fits(text, c, limit) && Sorted(text, t, limit) && j in Nodes(t)
    ensures AllFit(text, Nodes(t), limit)
    ensures var (a, b) := Split(text, t, c, limit, cut);
            j in Nodes(a) + Nodes(b) <==>
            j !in Nodes(Unreached(text, t, c, limit, cut)) && !(j in Walk(text, t, c, limit, cut) && Lcp(text, j, c, limit) == limit)
    decreases t
  {
    hide Le, Lcp;
    SortedFits(text, t, limit);
    if t.Node? && cut != 0 {
      var n := Lcp(text, t.at, c, limit);
      if n < limit {
        var next := if Sym(text, t.at, n) < Sym(text, c, n) then t.hi else t.lo;
        WalkOlder(text, next, c, limit, cut - 1);
        SplitSorted(text, next, c, limit, cut - 1);
        if j in Nodes(next) {
          SplitExact(text, next, c, limit, cut - 1, j);
        }
      }
    }
  }

  // ---------- the walk finds the longest match ----------

  /** Every report is the exact common prefix with a node, and the lengths strictly increase from maxLen on. */
  predicate Truthful(text: seq<byte>, nodes: set<int>, c: int, limit: int, maxLen: int, found: seq<Found>)
    requires Fits(text, c, limit) && AllFit(text, nodes, limit)
  {
    && (forall k :: 0 <= k < |found| ==>
          c - found[k].dist - 1 in nodes && maxLen < found[k].len == Lcp(text, c - found[k].dist - 1, c, limit))
    && (forall j, k :: 0 <= j < k < |found| ==> found[j].len < found[k].len)
  }

  lemma {:induction false} SearchTruthful(text: seq<byte>, t: Tree, c: int, limit: int, cut: nat, maxLen: int)
    requires Fits(text, c, limit) && AllFit(text, Nodes(t), limit)
    ensures Truthful(text, Nodes(t), c, limit, maxLen, Search(text, t, c, limit, cut, maxLen))
    decreases t
  {
    hide Truthful;
    if t.Leaf? || cut == 0 {
      TruthfulNone(text, Nodes(t), c, limit, maxLen);
    } else {
      var n := Lcp(text, t.at, c, limit);
      var next := if n < limit && Sym(text, t.at, n) < Sym(text, c, n) then t.hi else t.lo;
      if n < limit {
        SearchTruthful(text, next, c, limit, cut - 1, Max(maxLen, n));
        TruthfulCons(text, Nodes(t), Nodes(next), t.at, c, limit, maxLen, Search(text, next, c, limit, cut - 1, Max(maxLen, n)));
      } else {
        TruthfulNone(text, {}, c, limit, Max(maxLen, n));
        TruthfulCons(text, Nodes(t), {}, t.at, c, limit, maxLen, []);
        assert (if maxLen < n then [Found(n, c - t.at - 1)] else []) + [] == Search(text, t, c, limit, cut, maxLen);
      }
    }
  }

  lemma TruthfulNone(text: seq<byte>, nodes: set<int>, c: int, limit: int, maxLen: int)
    requires Fits(text, c, limit) && AllFit(text, nodes, limit)
    ensures Truthful(text, nodes, c, limit, maxLen, [])
  {
  }

  lemma TruthfulCons(text: seq<byte>, nodes: set<int>, sub: set<int>, i: int, c: int, limit: int, maxLen: int, rest: seq<Found>)
    requires Fits(text, c, limit) && AllFit(text, nodes, limit) && i in nodes && sub <= nodes
    requires var n := Lcp(text, i, c, limit); Truthful(text, sub, c, limit, Max(maxLen, n), rest)
    ensures var n := Lcp(text, i, c, limit);
            Truthful(text, nodes, c, limit, maxLen, (if maxLen < n then [Found(n, c - i - 1)] else []) + rest)
  {
    hide Lcp;
    var n := Lcp(text, i, c, limit);
    var here := if maxLen < n then [Found(n, c - i - 1)] else [];
    var found := here + rest;
    assert forall k :: |here| <= k < |found| ==> found[k] == rest[k - |here|];
  }

  /** Whatever the budget, nothing but what the walk does not enter agrees with c further than the last report, or maxLen. */
  lemma {:induction false} SearchReaches(text: seq<byte>, t: Tree, c: int, limit: int, cut: nat, maxLen: int)
    requires Fits(text, c, limit) && Sorted(text, t, limit)
    ensures AllFit(text, Nodes(t), limit)
    ensures var best := LastLen(maxLen, Search(text, t, c, limit, cut, maxLen));
            && maxLen <= best
            && forall j :: j in Nodes(t) && j !in Nodes(Unreached(text, t, c, limit, cut)) ==> Lcp(text, j, c, limit) <= best
    decreases t
  {
    hide Le, Lt, Lcp;
    SortedFits(text, t, limit);
    if t.Node? && cut != 0 {
      var n := Lcp(text, t.at, c, limit);
      if n < limit {
        OtherSide(text, t, c, limit);
        SearchReaches(text, if Sym(text, t.at, n) < Sym(text, c, n) then t.hi else t.lo, c, limit, cut - 1, Max(maxLen, n));
      }
    }
  }

  /** Unless the budget runs out, no node agrees with c further than the last report, or the initial maxLen. */
  lemma SearchComplete(text: seq<byte>, t: Tree, c: int, limit: int, cut: nat, maxLen: int)
    requires Fits(text, c, limit) && Sorted(text, t, limit)
    ensures AllFit(text, Nodes(t), limit)
    ensures Path(text, t, c, limit) <= cut ==>
              var best := LastLen(maxLen, Search(text, t, c, limit, cut, maxLen));
              maxLen <= best && forall j :: j in Nodes(t) ==> Lcp(text, j, c, limit) <= best
  {
    hide Sorted, Lcp, Path, Search, Unreached, LastLen;
    SearchReaches(text, t, c, limit, cut, maxLen);
    WalkOlder(text, t, c, limit, cut);
  }

  // The side that is not searched agrees with c no further than the node does.
  lemma OtherSide(text: seq<byte>, t: Tree, c: int, limit: int)
    requires Fits(text, c, limit) && t.Node? && Sorted(text, t, limit) && Lcp(text, t.at, c, limit) < limit
    ensures var n := Lcp(text, t.at, c, limit);
            forall j :: j in Nodes(if Sym(text, t.at, n) < Sym(text, c, n) then t.lo else t.hi) ==>
                          Fits(text, j, limit) && Lcp(text, j, c, limit) <= n
  {
    var n := Lcp(text, t.at, c, limit);
    LcpSymmetric(text, t.at, c, limit);
    var less := Sym(text, t.at, n) < Sym(text, c, n);
    assert if less then Lt(text, t.at, c, limit) else Lt(text, c, t.at, limit);
    hide Le, Lt, Lcp;
    forall j | j in Nodes(if less then t.lo else t.hi)
      ensures Lcp(text, j, c, limit) <= n
    {
      if less {
        BelowAgreesLess(text, j, t.at, c, limit);
      } else {
        AboveAgreesLess(text, j, t.at, c, limit);
      }
    }
  }

  // ---------- forgetting old places ----------

  function Prune(t: Tree, low: int): Tree {
    match t
    case Leaf => Leaf
    case Node(l, i, g) => if i < low then Leaf else Node(Prune(l, low), i, Prune(g, low))
  }

  lemma {:induction false} PruneNodes(t: Tree, low: int)
    ensures Nodes(Prune(t, low)) <= Nodes(t) && (forall j :: j in Nodes(Prune(t, low)) ==> low <= j)
    decreases t
  {
    if t.Node? {
      PruneNodes(t.lo, low);
      PruneNodes(t.hi, low);
    }
  }

  /** Cutting off the old places, and comparing less far, keeps the order and loses nothing recent. */
  lemma {:induction false} PruneSorted(text: seq<byte>, t: Tree, low: int, short: int, limit: int)
    requires Sorted(text, t, limit) && 0 <= short <= limit
    ensures Sorted(text, Prune(t, low), short)
    ensures forall j :: j in Nodes(Prune(t, low)) <==> j in Nodes(t) && low <= j
    decreases t
  {
    if t.Node? {
      var i := t.at;
      PruneNodes(t, low);
      PruneNodes(t.lo, low);
      PruneNodes(t.hi, low);
      PruneSorted(text, t.lo, low, short, limit);
      PruneSorted(text, t.hi, low, short, limit);
      if low <= i {
        forall j | j in Nodes(t.lo)
          ensures Le(text, j, i, short)
        {
          LeShorter(text, j, i, short, limit);
        }
        forall j | j in Nodes(t.hi)
          ensures Le(text, i, j, short)
        {
          LeShorter(text, i, j, short, limit);
        }
      }
    }
  }
}
