/** The bytes of the hand-off list as other programs read them: every record as a sequence of little-endian numbers. */
module HobBytes {
  import opened Primitives
  import opened Memory
  import opened HobMemory
  import opened HobHeap
  import opened HobRuns

  // Kind and length of a block, and four zero bytes.
  function HeaderBytes(kind: nat, len: nat): (s: seq<byte>)
    ensures |s| == 8
  {
    Bytes(kind, 2) + Bytes(len, 2) + [0, 0, 0, 0]
  }

  const END_BYTES: seq<byte> := [0xFF, 0xFF, 8, 0, 0, 0, 0, 0]

  lemma BytesLoaded(m: seq<byte>, a: int, n: int)
    requires InMemory(m, a, n)
    ensures m[a..a + n] == Bytes(Load(m, a, n), n)
  {
    BytesOfValue(m[a..a + n]);
  }

  lemma HeaderBytesAt(m: seq<byte>, a: int, kind: nat, len: nat)
    requires HeaderAt(m, a, kind, len)
    ensures m[a..a + 8] == HeaderBytes(kind, len)
    ensures kind == 0xFFFF && len == 8 ==> m[a..a + 8] == END_BYTES
  {
    hide Load;
    BytesLoaded(m, a, 2);
    BytesLoaded(m, a + 2, 2);
    BytesLoaded(m, a + 4, 4);
    ZeroBytes(4);
    assert m[a..a + 8] == m[a..a + 2] + m[a + 2..a + 4] + m[a + 4..a + 8];
    if kind == 0xFFFF && len == 8 {
      EndBytes();
    }
  }

  lemma EndBytes()
    ensures Bytes(0xFFFF, 2) == [0xFF, 0xFF] && Bytes(8, 2) == [8, 0]
  {
    assert Bytes(0xFFFF, 2) == [0xFF] + ([0xFF] + []);
  }

  lemma {:induction false} ZeroBytes(n: nat)
    ensures Bytes(0, n) == seq(n, _ => 0)
    ensures n == 4 ==> Bytes(0, n) == [0, 0, 0, 0]
    decreases n
  {
    if n != 0 {
      ZeroBytes(n - 1);
      assert 0 / 256 == 0;
    }
  }

  /** A fresh hand-off table, with the end mark behind it. */
  lemma FreshBytes(m: seq<byte>, b: nat, bottom: nat, top: nat, freeTop: nat)
    requires InMemory(m, b, 64)
    ensures Fresh(m, b, bottom, top, freeTop).mem[b..b + 64]
            == HeaderBytes(1, 56) + Bytes(9, 4) + Bytes(0, 4) + Bytes(top, 8) + Bytes(bottom, 8)
               + Bytes(freeTop, 8) + Bytes(b + 64, 8) + Bytes(b + 56, 8) + [0xFF, 0xFF, 8, 0, 0, 0, 0, 0]
  {
    hide TableWritten, HeaderAt, Bytes, Load;
    var r := TableWritten(m, b, bottom, top, freeTop);
    TableStored(m, b, bottom, top, freeTop);
    HeaderBytesAt(r, b, 1, 56);
    HeaderBytesAt(r, b + 56, 0xFFFF, 8);
    assert r[b..b + 64] == r[b..b + 8] + r[b + 8..b + 56] + r[b + 56..b + 64];
  }

  /** A block that is created has its length rounded up to a multiple of eight; the end mark and the table's fields move behind it. */
  lemma CreatedBytes(s: HeapState, kind: int, length: int)
    requires ValidHeap(s) && 0 <= kind < 0x1_0000 && 0 < length <= 0xFFF8 && BlockFits(s, length)
    ensures InMemory(s.mem, s.at, 56)
    ensures var e, len, n := Value(s.mem[s.at + 48..s.at + 56]), (length + 7) / 8 * 8, CreateStep(s, kind, length).mem;
            && |n| == |s.mem| && e + len + 8 <= |n|
            && n[e..e + 8] == HeaderBytes(kind, len) && n[e + len..e + len + 8] == [0xFF, 0xFF, 8, 0, 0, 0, 0, 0]
            && n[s.at + 40..s.at + 48] == Bytes(e + len + 8, 8) && n[s.at + 48..s.at + 56] == Bytes(e + len, 8)
            && n[s.at + 32..s.at + 40] == s.mem[s.at + 32..s.at + 40]
  {
    hide Load, Created, Chain, Tiled, AllRecorded, HeaderAt, Bytes, Round8;
    ValidParts(s);
    Round8Fits(length);
    var e, len := EndOfList(s.mem, s.at), Round8(length);
    assert e == Value(s.mem[s.at + 48..s.at + 56]) by {
      LoadIs(s.mem, s.at + 48, 8);
    }
    CreatedFields(s.mem, s.at, kind, len);
    var n := Created(s.mem, s.at, kind, len);
    HeaderBytesAt(n, e, kind, len);
    HeaderBytesAt(n, e + len, 0xFFFF, 8);
    BytesLoaded(n, s.at + 40, 8);
    BytesLoaded(n, s.at + 48, 8);
    BytesLoaded(n, s.at + 32, 8);
    BytesLoaded(s.mem, s.at + 32, 8);
  }

  lemma LoadIs(m: seq<byte>, a: int, n: int)
    requires InMemory(m, a, n)
    ensures Load(m, a, n) == Value(m[a..a + n])
  {
  }

  // The 40 bytes behind the header of an allocation record.
  lemma RecordBytes(m: seq<byte>, e: int, base: nat, len: nat)
    requires InMemory(m, e, 48)
    ensures PutRecord(m, e, base, len)[e + 8..e + 48] == seq(16, _ => 0) + Bytes(base, 8) + Bytes(len, 8) + Bytes(4, 4) + [0, 0, 0, 0]
    ensures PutRecord(m, e, base, len)[e..e + 8] == m[e..e + 8]
  {
    hide Bytes, Store;
    var m1 := Store(m, e + 8, 16, 0);
    var m2 := Store(m1, e + 24, 8, base);
    var m3 := Store(m2, e + 32, 8, len);
    var m4 := Store(m3, e + 40, 4, 4);
    var m5 := Store(m4, e + 44, 4, 0);
    ZeroBytes(16);
    ZeroBytes(4);
    StoreBehind(m, e + 8, e + 8, 16, 0, e + 48);
    StoreBehind(m1, e + 8, e + 24, 8, base, e + 48);
    StoreBehind(m2, e + 8, e + 32, 8, len, e + 48);
    StoreBehind(m3, e + 8, e + 40, 4, 4, e + 48);
    StoreBehind(m4, e + 8, e + 44, 4, 0, e + 48);
    RecordElsewhere(m, e, base, len, e, 8);
    assert m[e + 8..e + 8] == [];
  }

  // What a grant writes last.
  lemma GrantedRecord(s: HeapState, pages: int)
    requires ValidHeap(s) && 0 < pages < TWO32 && Granted(TopOf(s), BottomOf(s), pages)
    ensures InMemory(s.mem, s.at, 56) && 0 <= NewTop(TopOf(s), pages)
    ensures var e, n := EndOfList(s.mem, s.at), AllocateStep(s, pages).mem;
            && e + 48 <= |n|
            && n[e + 8..e + 48]
               == seq(16, _ => 0) + Bytes(NewTop(TopOf(s), pages), 8) + Bytes(pages * PAGE_SIZE % TWO32, 8) + Bytes(4, 4) + [0, 0, 0, 0]
  {
    hide Load, Heap, Tiled, AllRecorded, Trimmed, Granted, NewTop, Created, PutRecord, Store, Aligned, Bytes;
    ValidParts(s);
    AlignedPage(FreeTop(s.mem, s.at));
    TrimmedHeap(s.mem, s.at, s.top, s.hobs, s.blocks, s.recs);
    RoomForRecord(Trimmed(s.mem, s.at), s.at, pages);
    var low, len, e := NewTop(TopOf(s), pages), pages * PAGE_SIZE % TWO32, EndOfList(s.mem, s.at);
    var lowered := Store(Trimmed(s.mem, s.at), s.at + 32, 8, low);
    RecordBytes(Created(lowered, s.at, HOB_MEMORY_ALLOCATION, ALLOCATION_SIZE), e, low, len);
  }

  // The record of a grant in order.
  lemma RecordOfGrant(s: HeapState, pages: int)
    requires ValidHeap(s) && 0 < pages < TWO32 && Granted(TopOf(s), BottomOf(s), pages) && SoundRequest(s, pages)
    ensures InMemory(s.mem, s.at, 56)
    ensures var e, n, base := EndOfList(s.mem, s.at), AllocateStep(s, pages).mem, TopOf(s) - 0x1000 * pages;
            && 0 <= base && e + 56 <= |n|
            && n[e..e + 48]
               == HeaderBytes(2, 48) + seq(16, _ => 0) + Bytes(base, 8) + Bytes(0x1000 * pages, 8) + Bytes(4, 4) + [0, 0, 0, 0]
            && n[e + 48..e + 56] == END_BYTES
  {
    hide Load, Heap, Tiled, AllRecorded, Granted, NewTop, HeaderAt, Bytes, Affordable, AllocateStep, SoundGrant, HeaderBytes;
    ValidParts(s);
    GrantedKeeps(s, pages);
    GrantedRecord(s, pages);
    RequestSound(s, pages);
    AlignedPage(FreeTop(s.mem, s.at));
    GrantIs(TopOf(s), BottomOf(s), pages);
    var n, e := AllocateStep(s, pages), EndOfList(s.mem, s.at);
    ValidParts(n);
    HobHeader(n.mem, n.at, n.top, n.hobs, |s.hobs|);
    HobHeader(n.mem, n.at, n.top, n.hobs, |n.hobs|);
    HeaderBytesAt(n.mem, e, 2, 48);
    HeaderBytesAt(n.mem, e + 48, 0xFFFF, 8);
    assert n.mem[e..e + 48] == n.mem[e..e + 8] + n.mem[e + 8..e + 48];
  }

  // The table after a grant in order.
  lemma TableOfGrant(s: HeapState, pages: int)
    requires ValidHeap(s) && 0 < pages < TWO32 && Granted(TopOf(s), BottomOf(s), pages) && SoundRequest(s, pages)
    ensures InMemory(s.mem, s.at, 56)
    ensures var e, n, base := EndOfList(s.mem, s.at), AllocateStep(s, pages).mem, TopOf(s) - 0x1000 * pages;
            && 0 <= base && |n| == |s.mem|
            && n[s.at + 32..s.at + 40] == Bytes(base, 8) && n[s.at + 40..s.at + 48] == Bytes(e + 56, 8) && n[s.at + 48..s.at + 56] == Bytes(e + 48, 8)
  {
    hide Load, Heap, Tiled, AllRecorded, Granted, NewTop, Bytes, Affordable, AllocateStep;
    ValidParts(s);
    GrantedKeeps(s, pages);
    GrantedFields(s, pages);
    var n := AllocateStep(s, pages);
    ValidParts(n);
    BytesLoaded(n.mem, s.at + 32, 8);
    BytesLoaded(n.mem, s.at + 40, 8);
    BytesLoaded(n.mem, s.at + 48, 8);
  }

  /**
   Pages of 4096 bytes each that are granted: the top in the table is lowered by just them, from the page boundary below it, and
   the 48 bytes of their record say where they are, how long they are, and that they are of memory type 4.
   */
  lemma AllocatedBytes(s: HeapState, pages: int)
    requires ValidHeap(s) && 0 < pages < TWO32 && Granted(TopOf(s), BottomOf(s), pages) && SoundRequest(s, pages)
    ensures InMemory(s.mem, s.at, 56)
    ensures var e, t, n := Value(s.mem[s.at + 48..s.at + 56]), Value(s.mem[s.at + 32..s.at + 40]), AllocateStep(s, pages).mem;
            var base := t - t % 0x1000 - 0x1000 * pages;
            && 0 <= base && |n| == |s.mem| && e + 56 <= |n|
            && n[s.at + 32..s.at + 40] == Bytes(base, 8)
            && n[e..e + 48]
               == HeaderBytes(2, 48) + seq(16, _ => 0) + Bytes(base, 8) + Bytes(0x1000 * pages, 8) + Bytes(4, 4) + [0, 0, 0, 0]
            && n[e + 48..e + 56] == [0xFF, 0xFF, 8, 0, 0, 0, 0, 0]
            && n[s.at + 40..s.at + 48] == Bytes(e + 56, 8) && n[s.at + 48..s.at + 56] == Bytes(e + 48, 8)
  {
    hide Load, Heap, Tiled, AllRecorded, Granted, Bytes, Affordable, AllocateStep, HeaderBytes, Value;
    ValidParts(s);
    LoadIs(s.mem, s.at + 48, 8);
    LoadIs(s.mem, s.at + 32, 8);
    RecordOfGrant(s, pages);
    TableOfGrant(s, pages);
  }

  /** A block has a name just when its kind is 4 and the sixteen bytes behind its header are the name's two numbers. */
  lemma NamedBytes(m: seq<byte>, h: Hob, first: nat, second: nat)
    requires InMemory(m, h.at, 24) && HeaderAt(m, h.at, h.kind, h.len) && first < TWO64 && second < TWO64
    ensures Named(m, h, (first, second)) <==>
              m[h.at..h.at + 2] == [4, 0] && m[h.at + 8..h.at + 24] == Bytes(first, 8) + Bytes(second, 8)
  {
    hide Load, Bytes;
    var a := h.at;
    BytesLoaded(m, a, 2);
    BytesLoaded(m, a + 8, 8);
    BytesLoaded(m, a + 16, 8);
    assert m[a + 8..a + 24] == m[a + 8..a + 16] + m[a + 16..a + 24];
    LoadedNumber(m, a, 2, 4);
    LoadedNumber(m, a + 8, 8, first);
    LoadedNumber(m, a + 16, 8, second);
    FourBytes();
    Parted(m[a + 8..a + 16], m[a + 16..a + 24], Bytes(first, 8), Bytes(second, 8));
  }

  lemma Parted(a: seq<byte>, b: seq<byte>, x: seq<byte>, y: seq<byte>)
    requires |a| == |x|
    ensures a + b == x + y <==> a == x && b == y
  {
    if a + b == x + y {
      assert a == (a + b)[..|a|] && x == (x + y)[..|a|] && b == (a + b)[|a|..] && y == (x + y)[|a|..];
    }
  }

  lemma FourBytes()
    ensures Bytes(4, 2) == [4, 0]
  {
  }

  // A field has a value just when it has its bytes.
  lemma LoadedNumber(m: seq<byte>, a: int, n: nat, v: nat)
    requires InMemory(m, a, n) && ((n == 2 && v < 0x1_0000) || (n == 8 && v < TWO64))
    ensures Load(m, a, n) == v <==> m[a..a + n] == Bytes(v, n)
  {
    hide Bytes, Value;
    Powers256();
    BytesLoaded(m, a, n);
    ValueOfBytes(v, n);
  }

  /** The page boundary is that of 4096 bytes, and a request that fits below the top is granted just when its pages and a record of 48 bytes fit. */
  lemma GrantNumbers(s: HeapState, pages: int)
    requires ValidHeap(s) && 0 < pages < TWO32
    ensures InMemory(s.mem, s.at, 56)
    ensures var t, b := Value(s.mem[s.at + 32..s.at + 40]), Value(s.mem[s.at + 40..s.at + 48]);
            && TopOf(s) == t - t % 0x1000 && BottomOf(s) == b
            && (b <= TopOf(s) && 0x1000 * pages + 48 <= TopOf(s) ==> (Granted(TopOf(s), b, pages) <==> 0x1000 * pages + 48 <= TopOf(s) - b))
  {
    hide Load, Heap, Tiled, AllRecorded, Granted;
    ValidParts(s);
    LoadIs(s.mem, s.at + 32, 8);
    LoadIs(s.mem, s.at + 40, 8);
    AlignedPage(FreeTop(s.mem, s.at));
    if BottomOf(s) <= TopOf(s) {
      AllocationCheckExact(TopOf(s), BottomOf(s), pages);
    }
  }
}
