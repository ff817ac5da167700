/** Copying and clearing memory word by word, over one byte array indexed by address. */
module BaseMemory {
  import opened Primitives

  /** What a memory move must leave: the source bytes as they were at the destination, all else as before. */
  function Moved(mem: seq<byte>, dst: int, src: int, len: int): (r: seq<byte>)
    requires 0 <= dst && 0 <= src && 0 <= len && dst + len <= |mem| && src + len <= |mem|
    ensures |r| == |mem|
  {
    mem[..dst] + mem[src..src + len] + mem[dst + len..]
  }

  // The byte at i when the bytes from offset a to offset b are moved.
  function MovedByte(was: seq<byte>, dst: int, src: int, a: int, b: int, i: int): byte
    requires 0 <= src + a && src + b <= |was| && 0 <= i < |was|
  {
    if dst + a <= i < dst + b then was[i - dst + src] else was[i]
  }

  // The bytes from offset a to offset b are moved, the others not yet.
  predicate Partly(was: seq<byte>, now: seq<byte>, dst: int, src: int, a: int, b: int)
  {
    && 0 <= a <= b && 0 <= dst + a && dst + b <= |was| && 0 <= src + a && src + b <= |was| && |now| == |was|
    && forall i :: 0 <= i < |was| ==> now[i] == MovedByte(was, dst, src, a, b, i)
  }

  lemma AllMoved(was: seq<byte>, now: seq<byte>, dst: int, src: int, len: int)
    requires 0 <= dst && 0 <= src && 0 <= len && Partly(was, now, dst, src, 0, len)
    ensures now == Moved(was, dst, src, len)
  {
    var r := Moved(was, dst, src, len);
    forall i | 0 <= i < |was|
      ensures now[i] == r[i]
    {
      Chosen(was, now, dst, src, 0, len, i);
      if i < dst {
        assert r[i] == was[..dst][i];
      } else if i < dst + len {
        assert r[i] == was[src..src + len][i - dst];
        assert src + (i - dst) == i - dst + src;
      } else {
        assert r[i] == was[dst + len..][i - dst - len];
      }
    }
  }

  // One access of size bytes: all are read before any is written.
  method MoveWord(mem: array<byte>, d: int, s: int, size: int)
    requires 0 <= d && 0 <= s && 0 <= size && d + size <= mem.Length && s + size <= mem.Length
    modifies mem
    ensures Partly(old(mem[..]), mem[..], d, s, 0, size)
  {
    var word := mem[s..s + size];
    forall i | 0 <= i < size {
      mem[d + i] := word[i];
    }
  }

  /** A word moved behind the part moved upwards from below: it still sees the original bytes. */
  lemma WordUp(was: seq<byte>, now: seq<byte>, next: seq<byte>, dst: int, src: int, b: int, size: int)
    requires dst < src && 0 <= size && Partly(was, now, dst, src, 0, b) && Partly(now, next, dst + b, src + b, 0, size)
    ensures Partly(was, next, dst, src, 0, b + size)
  {
    forall i | 0 <= i < |was|
      ensures next[i] == MovedByte(was, dst, src, 0, b + size, i)
    {
      Chosen(now, next, dst + b, src + b, 0, size, i);
      Chosen(was, now, dst, src, 0, b, i);
      if dst + b <= i < dst + b + size {
        Chosen(was, now, dst, src, 0, b, i - dst + src);
      }
    }
  }

  lemma Chosen(was: seq<byte>, now: seq<byte>, dst: int, src: int, a: int, b: int, i: int)
    requires Partly(was, now, dst, src, a, b) && 0 <= i < |was|
    ensures now[i] == MovedByte(was, dst, src, a, b, i)
  {
  }

  lemma WordDown(was: seq<byte>, now: seq<byte>, next: seq<byte>, dst: int, src: int, a: int, b: int, size: int)
    requires src < dst && 0 <= size <= a && 0 <= src && Partly(was, now, dst, src, a, b) && Partly(now, next, dst + a - size, src + a - size, 0, size)
    ensures Partly(was, next, dst, src, a - size, b)
  {
    forall i | 0 <= i < |was|
      ensures next[i] == MovedByte(was, dst, src, a - size, b, i)
    {
      Chosen(now, next, dst + a - size, src + a - size, 0, size, i);
      Chosen(was, now, dst, src, a, b, i);
      if dst + a - size <= i < dst + a {
        Chosen(was, now, dst, src, a, b, i - dst + src);
      }
    }
  }

  lemma NothingMovedUp(mem: seq<byte>, dst: int, src: int, length: int)
    requires 0 <= dst && 0 <= src && 0 <= length && dst + length <= |mem| && src + length <= |mem|
    ensures Partly(mem, mem, dst, src, 0, 0)
  {
  }

  // From low to high addresses: whole words as long as there are, then the bytes that are left.
  method CopyUp(mem: array<byte>, dst: int, src: int, length: int, size: int)
    requires 0 <= dst < src && 0 <= length && src + length <= mem.Length && 1 <= size
    modifies mem
    ensures mem[..] == Moved(old(mem[..]), dst, src, length)
  {
    hide Partly;
    ghost var was := mem[..];
    NothingMovedUp(was, dst, src, length);
    var left, at := length, 0;
    while left >= size
      invariant 0 <= left && at == length - left && Partly(was, mem[..], dst, src, 0, at)
    {
      ghost var now := mem[..];
      MoveWord(mem, dst + at, src + at, size);
      WordUp(was, now, mem[..], dst, src, at, size);
      at, left := at + size, left - size;
    }
    while left != 0
      invariant 0 <= left && at == length - left && Partly(was, mem[..], dst, src, 0, at)
    {
      ghost var now := mem[..];
      MoveWord(mem, dst + at, src + at, 1);
      WordUp(was, now, mem[..], dst, src, at, 1);
      at, left := at + 1, left - 1;
    }
    AllMoved(was, mem[..], dst, src, length);
  }

  lemma NothingMoved(mem: seq<byte>, dst: int, src: int, at: int)
    requires 0 <= dst && 0 <= src && 0 <= at && dst + at <= |mem| && src + at <= |mem|
    ensures Partly(mem, mem, dst, src, at, at)
  {
  }

  lemma OddBytes(n: int, size: int)
    requires 0 <= n && 1 <= size
    ensures 0 <= n % size <= n && (n - n % size) % size == 0
  {
    var q := n / size;
    assert n == size * q + n % size;
    assert q < 0 ==> size * q <= -size;
    assert q >= 0 ==> size * q >= 0;
    ModUnique(n - n % size, size, q, 0);
  }

  // From high to low addresses: the odd bytes at the end first, then whole words.
  method CopyDown(mem: array<byte>, dst: int, src: int, length: int, size: int)
    requires 0 <= src < dst && 0 <= length && dst + length <= mem.Length && 1 <= size
    modifies mem
    ensures mem[..] == Moved(old(mem[..]), dst, src, length)
  {
    hide Partly;
    ghost var was := mem[..];
    NothingMoved(was, dst, src, length);
    OddBytes(length, size);
    var left, odd := length, length % size;
    while odd != 0
      invariant 0 <= odd <= left <= length && (left - odd) % size == 0 && Partly(was, mem[..], dst, src, left, length)
    {
      ghost var now := mem[..];
      odd := odd - 1;
      MoveWord(mem, dst + left - 1, src + left - 1, 1);
      WordDown(was, now, mem[..], dst, src, left, length, 1);
      left := left - 1;
    }
    while left > 0
      invariant 0 <= left <= length && left % size == 0 && Partly(was, mem[..], dst, src, left, length)
    {
      ghost var now := mem[..];
      WholeWords(left, size);
      MoveWord(mem, dst + left - size, src + left - size, size);
      WordDown(was, now, mem[..], dst, src, left, length, size);
      left := left - size;
    }
    AllMoved(was, mem[..], dst, src, length);
  }

  lemma WholeWords(n: int, size: int)
    requires 0 < n && 1 <= size && n % size == 0
    ensures size <= n && (n - size) % size == 0
  {
    var q := n / size;
    assert n == size * q;
    assert q <= 0 ==> size * q <= 0;
    assert size * (q - 1) == size * q - size;
    ModUnique(n - size, size, q - 1, 0);
    assert size * q >= size;
  }

  /** CopyMem is a memory move for every overlap and alignment. */
  method CopyMem(mem: array<byte>, dst: int, src: int, length: int)
    requires 0 <= dst && 0 <= src && 0 <= length && dst + length <= mem.Length && src + length <= mem.Length
    modifies mem
    ensures mem[..] == Moved(old(mem[..]), dst, src, length)
  {
    if length == 0 || dst == src {
      MovedNothing(mem[..], dst, src, length);
      return;
    }
    var size := if dst % 8 == 0 && src % 8 == 0 && length >= 8 then 8 else if dst % 4 == 0 && src % 4 == 0 && length >= 4 then 4 else 1;
    if src > dst {
      CopyUp(mem, dst, src, length, size);
    } else {
      CopyDown(mem, dst, src, length, size);
    }
  }

  lemma MovedNothing(mem: seq<byte>, dst: int, src: int, length: int)
    requires 0 <= dst && 0 <= src && 0 <= length && dst + length <= |mem| && src + length <= |mem| && (length == 0 || dst == src)
    ensures Moved(mem, dst, src, length) == mem
  {
  }

  function Zeros(n: nat): seq<byte> {
    seq(n, _ => 0)
  }

  // Bytes below end, from start on, are zero; all else is as before.
  predicate Cleared(was: seq<byte>, now: seq<byte>, start: int, end: int) {
    && 0 <= start <= end <= |was| == |now|
    && forall i :: 0 <= i < |was| ==> now[i] == if start <= i < end then 0 else was[i]
  }

  method ClearWord(mem: array<byte>, at: int, size: int)
    requires 0 <= at && 0 <= size && at + size <= mem.Length
    modifies mem
    ensures Cleared(old(mem[..]), mem[..], at, at + size)
  {
    forall i | 0 <= i < size {
      mem[at + i] := 0;
    }
  }

  /** ZeroMem clears exactly its range, at every alignment. */
  method ZeroMem(mem: array<byte>, buffer: int, length: int)
    requires 0 <= buffer && 0 <= length && buffer + length <= mem.Length
    modifies mem
    ensures mem[..] == old(mem[..buffer]) + Zeros(length) + old(mem[buffer + length..])
  {
    ghost var was := mem[..];
    var size := if buffer % 8 == 0 && length >= 8 then 8 else if buffer % 4 == 0 && length >= 4 then 4 else 1;
    var left, at := length, buffer;
    while left >= size
      invariant 0 <= left && at == buffer + length - left && Cleared(was, mem[..], buffer, at)
    {
      ClearWord(mem, at, size);
      at, left := at + size, left - size;
    }
    while left > 0
      invariant 0 <= left && at == buffer + length - left && Cleared(was, mem[..], buffer, at)
    {
      ClearWord(mem, at, 1);
      at, left := at + 1, left - 1;
    }
    assert mem[..] == was[..buffer] + Zeros(length) + was[buffer + length..];
  }
}
