/** Copying from history, and the limit-free meaning of a symbol sequence: the reference LZ77 replay. */
module Lz77 {
  import opened Primitives
  import opened SymbolCode

  const MATCH_MIN_LEN: int := 2

  /** Append n bytes, each the one that was output dist positions earlier. */
  function CopyMatch(h: seq<byte>, dist: int, n: nat): (r: seq<byte>)
    requires 1 <= dist && (0 < n ==> dist <= |h|)
    ensures |r| == |h| + n && r[..|h|] == h
    decreases n
  {
    if n == 0 then h else CopyMatch(h + [h[|h| - dist]], dist, n - 1)
  }

  lemma {:induction false} CopyMatchSplit(h: seq<byte>, dist: int, a: nat, b: nat)
    requires 1 <= dist <= |h|
    ensures CopyMatch(CopyMatch(h, dist, a), dist, b) == CopyMatch(h, dist, a + b)
    decreases a
  {
    if a != 0 {
      CopyMatchSplit(h + [h[|h| - dist]], dist, a - 1, b);
    }
  }

  /** A copied byte is the one dist positions before it, even when the copy overlaps itself. */
  lemma {:induction false} CopyMatchAt(h: seq<byte>, dist: int, n: nat, i: nat)
    requires 1 <= dist <= |h| && i < n
    ensures CopyMatch(h, dist, n)[|h| + i] == CopyMatch(h, dist, n)[|h| + i - dist]
    decreases n
  {
    var g := h + [h[|h| - dist]];
    var r := CopyMatch(g, dist, n - 1);
    assert r[..|g|] == g;
    if i == 0 {
      assert r[|h|] == r[..|g|][|h|];
      assert r[|h| - dist] == r[..|g|][|h| - dist];
    } else {
      CopyMatchAt(g, dist, n - 1, i - 1);
    }
  }

  /** The state a symbol sequence acts on: everything output, and the four last distances. */
  datatype Lz = Lz(out: seq<byte>, rep0: int, rep1: int, rep2: int, rep3: int)

  predicate WfLz(z: Lz) {
    && 1 <= z.rep0 <= Max(1, |z.out|) && 1 <= z.rep1 <= Max(1, |z.out|)
    && 1 <= z.rep2 <= Max(1, |z.out|) && 1 <= z.rep3 <= Max(1, |z.out|)
  }

  function RotateReps(z: Lz, r: int): Lz {
    if r == 0 then z
    else if r == 1 then z.(rep0 := z.rep1, rep1 := z.rep0)
    else if r == 2 then z.(rep0 := z.rep2, rep1 := z.rep0, rep2 := z.rep1)
    else z.(rep0 := z.rep3, rep1 := z.rep0, rep2 := z.rep1, rep3 := z.rep2)
  }

  // A symbol that refers before the start of the output, or is not an output symbol, leaves the state alone.
  function Replay1(z: Lz, s: Symbol): (r: Lz)
    requires WfLz(z) && WfSymbol(s)
    ensures WfLz(r)
  {
    match s
    case Lit(b) => z.(out := z.out + [b])
    case ShortRep => if z.out == [] then z else z.(out := CopyMatch(z.out, z.rep0, 1))
    case Rep(r, len) =>
      if z.out == [] then z
      else var y := RotateReps(z, r); y.(out := CopyMatch(z.out, y.rep0, len + MATCH_MIN_LEN))
    case Match(dist, len) =>
      if dist == END_MARK || dist >= |z.out| then z
      else Lz(CopyMatch(z.out, dist + 1, len + MATCH_MIN_LEN), dist + 1, z.rep0, z.rep1, z.rep2)
  }

  function Replay(z: Lz, syms: seq<Symbol>): (r: Lz)
    requires WfLz(z) && (forall s :: s in syms ==> WfSymbol(s))
    ensures WfLz(r)
    decreases |syms|
  {
    if syms == [] then z else Replay(Replay1(z, syms[0]), syms[1..])
  }
}
