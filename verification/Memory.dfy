/** Little-endian fields in a byte memory. */
module Memory {
  import opened Primitives

  function Value(s: seq<byte>): nat {
    if s == [] then 0 else s[0] + 256 * Value(s[1..])
  }

  function Bytes(v: nat, n: nat): (s: seq<byte>)
    ensures |s| == n
    decreases n
  {
    if n == 0 then [] else [v % 256] + Bytes(v / 256, n - 1)
  }

  lemma {:induction false} ValueOfBytes(v: nat, n: nat)
    ensures 0 < Pow(256, n) && Value(Bytes(v, n)) == v % Pow(256, n)
    decreases n
  {
    PowPositive(256, n);
    if 0 < n {
      PowPositive(256, n - 1);
      ValueOfBytes(v / 256, n - 1);
      SplitMod(v, Pow(256, n - 1));
      assert Bytes(v, n)[1..] == Bytes(v / 256, n - 1);
    }
  }

  lemma {:induction false} BytesOfValue(s: seq<byte>)
    ensures Value(s) < Pow(256, |s|) && Bytes(Value(s), |s|) == s
  {
    if s != [] {
      BytesOfValue(s[1..]);
      assert s == [s[0]] + s[1..];
    }
  }

  lemma SplitMod(v: nat, m: nat)
    requires 0 < m
    ensures v % (256 * m) == v % 256 + 256 * (v / 256 % m)
  {
    var q, r := v / 256 / m, v / 256 % m;
    assert v / 256 == m * q + r;
    assert v == 256 * (m * q + r) + v % 256;
    MulSwap(256, m, q);
    MulAssoc(256, m, q);
    ModUnique(v, 256 * m, q, 256 * r + v % 256);
  }

  predicate InMemory(m: seq<byte>, a: int, n: int) {
    0 <= a && 0 <= n && a + n <= |m|
  }

  function Load(m: seq<byte>, a: int, n: int): nat
    requires InMemory(m, a, n)
  {
    Value(m[a..a + n])
  }

  function Store(m: seq<byte>, a: int, n: int, v: nat): (r: seq<byte>)
    requires InMemory(m, a, n)
    ensures |r| == |m|
  {
    m[..a] + Bytes(v, n) + m[a + n..]
  }

  /** A field that is stored can be loaded again, and disjoint ranges do not notice. */
  lemma LoadStored(m: seq<byte>, a: int, n: int, v: nat)
    requires InMemory(m, a, n)
    ensures v < Pow(256, n) ==> Load(Store(m, a, n, v), a, n) == v
    ensures Store(m, a, n, v)[a..a + n] == Bytes(v, n)
  {
    var r := Store(m, a, n, v);
    assert r[a..a + n] == Bytes(v, n);
    ValueOfBytes(v, n);
  }

  lemma StoreElsewhere(m: seq<byte>, a: int, n: int, v: nat, x: int, k: int)
    requires InMemory(m, a, n) && InMemory(m, x, k) && (x + k <= a || a + n <= x)
    ensures Store(m, a, n, v)[x..x + k] == m[x..x + k]
  {
    var r := Store(m, a, n, v);
    var s, t := r[x..x + k], m[x..x + k];
    forall i | 0 <= i < k
      ensures s[i] == t[i]
    {
      assert r[x + i] == m[x + i];
    }
  }

  // A store is its first byte and then the store of the others.
  lemma StoreFront(m: seq<byte>, a: int, n: int, v: nat)
    requires InMemory(m, a, n) && 0 < n
    ensures Store(m, a, n, v) == Store(m[a := v % 256], a + 1, n - 1, v / 256)
  {
    var rest, k := Bytes(v / 256, n - 1), m[a := v % 256];
    assert k[..a + 1] == m[..a] + [v % 256];
    assert k[a + n..] == m[a + n..];
    assert m[..a] + ([v % 256] + rest) + m[a + n..] == m[..a] + [v % 256] + rest + m[a + n..];
  }

  lemma StoreNone(m: seq<byte>, a: int, v: nat)
    requires InMemory(m, a, 0)
    ensures Store(m, a, 0, v) == m
  {
  }

  // Both memories hold the same bytes there.
  predicate SameAt(m: seq<byte>, r: seq<byte>, a: int, n: int) {
    |m| == |r| && InMemory(m, a, n) && m[a..a + n] == r[a..a + n]
  }

  lemma SameWithin(m: seq<byte>, r: seq<byte>, a: int, n: int, x: int, k: int)
    requires SameAt(m, r, a, n) && a <= x && 0 <= k && x + k <= a + n
    ensures SameAt(m, r, x, k)
  {
    SliceOfSlice(m, a, n, x, k);
    SliceOfSlice(r, a, n, x, k);
  }

  // A field of the same value has the same bytes.
  lemma SameValue(m: seq<byte>, r: seq<byte>, a: int, n: int)
    requires |m| == |r| && InMemory(m, a, n) && Load(m, a, n) == Load(r, a, n)
    ensures SameAt(m, r, a, n)
  {
    ValueDetermines(m[a..a + n], r[a..a + n]);
  }

  lemma {:induction false} ValueDetermines(s: seq<byte>, t: seq<byte>)
    requires |s| == |t| && Value(s) == Value(t)
    ensures s == t
  {
    if s != [] {
      assert s == [s[0]] + s[1..] && t == [t[0]] + t[1..];
      ValueDetermines(s[1..], t[1..]);
    }
  }

  lemma SliceOfSlice(m: seq<byte>, a: int, n: int, x: int, k: int)
    requires InMemory(m, a, n) && a <= x && 0 <= k && x + k <= a + n
    ensures m[x..x + k] == m[a..a + n][x - a..x - a + k]
  {
    var s, t := m[x..x + k], m[a..a + n][x - a..x - a + k];
    assert |s| == |t|;
    forall i | 0 <= i < k
      ensures s[i] == t[i]
    {
      assert m[a..a + n][x - a + i] == m[x + i];
    }
  }

  lemma Powers256()
    ensures Pow(256, 2) == 0x1_0000 && Pow(256, 4) == TWO32 && Pow(256, 8) == TWO32 * TWO32
  {
    assert Pow(256, 2) == 0x1_0000;
    PowAdd(256, 2, 2);
    PowAdd(256, 4, 4);
  }

  /** The bytes of v from a on, lowest first. */
  method PutField(mem: array<byte>, a: int, n: nat, v: nat)
    requires InMemory(mem[..], a, n)
    modifies mem
    ensures mem[..] == Store(old(mem[..]), a, n, v)
  {
    hide Store;
    ghost var was := mem[..];
    var i, rest := 0, v;
    while i < n
      invariant 0 <= i <= n && 0 <= rest && Store(mem[..], a + i, n - i, rest) == Store(was, a, n, v)
    {
      StoreFront(mem[..], a + i, n - i, rest);
      ghost var before := mem[..];
      mem[a + i] := rest % 256;
      assert mem[..] == before[a + i := rest % 256];
      rest, i := rest / 256, i + 1;
    }
    StoreNone(mem[..], a + n, rest);
  }

  method GetField(mem: array<byte>, a: int, n: nat) returns (v: nat)
    requires InMemory(mem[..], a, n)
    ensures v == Load(mem[..], a, n)
  {
    var i := n;
    v := 0;
    assert mem[a + n..a + n] == [];
    while i != 0
      invariant 0 <= i <= n && v == Value(mem[a + i..a + n])
    {
      i := i - 1;
      assert mem[a + i..a + n][1..] == mem[a + i + 1..a + n];
      v := mem[a + i] + 256 * v;
    }
    assert mem[a..a + n] == mem[..][a..a + n];
  }
}
