/** The list of hand-off blocks that lies in a byte memory. */
module HobMemory {
  import opened Primitives
  import opened Memory

  const HOB_HANDOFF: int := 0x0001
  const HOB_MEMORY_ALLOCATION: int := 0x0002
  const HOB_GUID_EXTENSION: int := 0x0004
  const HOB_END: int := 0xFFFF
  const HEADER_SIZE: int := 8
  const HANDOFF_SIZE: int := 56
  const ALLOCATION_SIZE: int := 48

  // ---------- headers ----------

  predicate HeaderAt(m: seq<byte>, a: int, kind: int, len: int) {
    InMemory(m, a, HEADER_SIZE) && Load(m, a, 2) == kind && Load(m, a + 2, 2) == len && Load(m, a + 4, 4) == 0
  }

  // The three stores of a header.
  function PutHeader(m: seq<byte>, a: int, kind: nat, len: nat): (r: seq<byte>)
    requires InMemory(m, a, HEADER_SIZE)
    ensures |r| == |m|
  {
    Store(Store(Store(m, a, 2, kind), a + 2, 2, len), a + 4, 4, 0)
  }

  lemma HeaderPut(m: seq<byte>, a: int, kind: nat, len: nat)
    requires InMemory(m, a, HEADER_SIZE) && kind < 0x1_0000 && len < 0x1_0000
    ensures HeaderAt(PutHeader(m, a, kind, len), a, kind, len)
  {
    hide Store, Value, Pow;
    Powers256();
    var x := Store(m, a, 2, kind);
    var y := Store(x, a + 2, 2, len);
    LoadStored(m, a, 2, kind);
    LoadStored(x, a + 2, 2, len);
    StoreElsewhere(x, a + 2, 2, len, a, 2);
    LoadStored(y, a + 4, 4, 0);
    StoreElsewhere(y, a + 4, 4, 0, a, 2);
    StoreElsewhere(y, a + 4, 4, 0, a + 2, 2);
  }

  lemma HeaderElsewhere(m: seq<byte>, a: int, kind: nat, len: nat, x: int, k: int)
    requires InMemory(m, a, HEADER_SIZE) && InMemory(m, x, k) && (x + k <= a || a + HEADER_SIZE <= x)
    ensures SameAt(m, PutHeader(m, a, kind, len), x, k)
  {
    hide Store;
    StoreElsewhere(m, a, 2, kind, x, k);
    StoreElsewhere(Store(m, a, 2, kind), a + 2, 2, len, x, k);
    StoreElsewhere(Store(Store(m, a, 2, kind), a + 2, 2, len), a + 4, 4, 0, x, k);
  }

  lemma HeaderSame(m: seq<byte>, r: seq<byte>, a: int, kind: int, len: int)
    requires HeaderAt(m, a, kind, len) && SameAt(m, r, a, HEADER_SIZE)
    ensures HeaderAt(r, a, kind, len)
  {
    SameWithin(m, r, a, HEADER_SIZE, a, 2);
    SameWithin(m, r, a, HEADER_SIZE, a + 2, 2);
    SameWithin(m, r, a, HEADER_SIZE, a + 4, 4);
  }

  lemma HeaderDetermines(m: seq<byte>, r: seq<byte>, a: int, kind: int, len: int)
    requires |m| == |r| && HeaderAt(m, a, kind, len) && HeaderAt(r, a, kind, len)
    ensures SameAt(m, r, a, HEADER_SIZE)
  {
    SameValue(m, r, a, 2);
    SameValue(m, r, a + 2, 2);
    SameValue(m, r, a + 4, 4);
    assert m[a..a + 8] == m[a..a + 2] + m[a + 2..a + 4] + m[a + 4..a + 8];
    assert r[a..a + 8] == r[a..a + 2] + r[a + 2..a + 4] + r[a + 4..a + 8];
  }

  // ---------- the list ----------

  datatype Hob = Hob(at: int, kind: int, len: int)

  /** From a to end lie exactly these blocks, one behind the other, and the end mark follows. */
  predicate Chain(m: seq<byte>, a: int, hobs: seq<Hob>, end: int)
    decreases |hobs|
  {
    if hobs == [] then a == end && HeaderAt(m, end, HOB_END, HEADER_SIZE)
    else
      && hobs[0].at == a && HeaderAt(m, a, hobs[0].kind, hobs[0].len) && hobs[0].kind != HOB_END
      && HEADER_SIZE <= hobs[0].len && hobs[0].len % 8 == 0 && a + hobs[0].len <= end
      && Chain(m, a + hobs[0].len, hobs[1..], end)
  }

  // The headers of all blocks are the same in both memories.
  predicate SameHeaders(m: seq<byte>, r: seq<byte>, hobs: seq<Hob>) {
    forall k :: 0 <= k < |hobs| ==> SameAt(m, r, hobs[k].at, HEADER_SIZE)
  }

  /** Putting a block where the end mark was, and the end mark behind it, lengthens the list by it. */
  lemma {:induction false} ChainAppend(m: seq<byte>, r: seq<byte>, a: int, hobs: seq<Hob>, end: int, kind: int, len: int)
    requires Chain(m, a, hobs, end) && SameHeaders(m, r, hobs)
    requires HeaderAt(r, end, kind, len) && kind != HOB_END && HEADER_SIZE <= len && len % 8 == 0
    requires HeaderAt(r, end + len, HOB_END, HEADER_SIZE)
    ensures Chain(r, a, hobs + [Hob(end, kind, len)], end + len)
    decreases |hobs|
  {
    hide HeaderAt, SameAt;
    var more := hobs + [Hob(end, kind, len)];
    if hobs == [] {
      assert more[1..] == [];
    } else {
      HeaderSame(m, r, a, hobs[0].kind, hobs[0].len);
      ChainAppend(m, r, a + hobs[0].len, hobs[1..], end, kind, len);
      assert more[1..] == hobs[1..] + [Hob(end, kind, len)];
    }
  }

  /** The list does not notice changes outside the headers. */
  lemma {:induction false} ChainFrame(m: seq<byte>, r: seq<byte>, a: int, hobs: seq<Hob>, end: int)
    requires Chain(m, a, hobs, end) && SameHeaders(m, r, hobs) && SameAt(m, r, end, HEADER_SIZE)
    ensures Chain(r, a, hobs, end)
    decreases |hobs|
  {
    hide HeaderAt, SameAt;
    if hobs == [] {
      HeaderSame(m, r, end, HOB_END, HEADER_SIZE);
    } else {
      HeaderSame(m, r, a, hobs[0].kind, hobs[0].len);
      ChainFrame(m, r, a + hobs[0].len, hobs[1..], end);
    }
  }

  /** An end mark where a list ended before lets no list end further on. */
  lemma {:induction false} ChainStuck(m: seq<byte>, r: seq<byte>, a: int, hobs: seq<Hob>, end: int, more: seq<Hob>, far: int)
    requires Chain(m, a, hobs, end) && SameHeaders(m, r, hobs)
    requires InMemory(r, end, HEADER_SIZE) && Load(r, end, 2) == HOB_END && end < far
    ensures !Chain(r, a, more, far)
    decreases |hobs|
  {
    hide Load, SameAt;
    if hobs != [] {
      HeaderSame(m, r, a, hobs[0].kind, hobs[0].len);
      if more != [] && more[0].len == hobs[0].len {
        ChainStuck(m, r, a + hobs[0].len, hobs[1..], end, more[1..], far);
      }
    }
  }

  /** The blocks lie in order, without overlap, between a and the end. */
  lemma {:induction false} ChainInside(m: seq<byte>, a: int, hobs: seq<Hob>, end: int)
    requires Chain(m, a, hobs, end)
    ensures a <= end && end + HEADER_SIZE <= |m| && (hobs != [] ==> a + HEADER_SIZE <= end)
    ensures forall k :: 0 <= k < |hobs| ==> a <= hobs[k].at && hobs[k].at + hobs[k].len <= end && HEADER_SIZE <= hobs[k].len
    ensures forall j, k :: 0 <= j < k < |hobs| ==> hobs[j].at + hobs[j].len <= hobs[k].at
    decreases |hobs|
  {
    hide Load;
    if hobs != [] {
      ChainInside(m, a + hobs[0].len, hobs[1..], end);
      forall k | 1 <= k < |hobs|
        ensures a + hobs[0].len <= hobs[k].at && hobs[k].at + hobs[k].len <= end && HEADER_SIZE <= hobs[k].len
      {
        assert hobs[k] == hobs[1..][k - 1];
      }
      forall j, k | 0 <= j < k < |hobs|
        ensures hobs[j].at + hobs[j].len <= hobs[k].at
      {
        if 0 < j {
          assert hobs[j] == hobs[1..][j - 1] && hobs[k] == hobs[1..][k - 1];
        }
      }
    }
  }

  /** The rest of the list from its k-th block on. */
  lemma {:induction false} ChainTail(m: seq<byte>, a: int, hobs: seq<Hob>, end: int, k: nat)
    requires Chain(m, a, hobs, end) && k <= |hobs|
    ensures Chain(m, if k == |hobs| then end else hobs[k].at, hobs[k..], end)
    decreases k
  {
    if k != 0 {
      ChainTail(m, a + hobs[0].len, hobs[1..], end, k - 1);
      assert hobs[1..][k - 1..] == hobs[k..];
    }
  }
}
