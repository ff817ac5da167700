/**
 Two allocators in one region: hand-off blocks grow upwards from the bottom, pages are taken from the top, and every
 page allocation is recorded by a hand-off block of its own.
 */
module HobHeap {
  import opened Primitives
  import opened Memory
  import opened HobMemory

  const PAGE_SIZE: int := 0x1000
  const BOOT_SERVICES_DATA: int := 4
  const TWO64: int := TWO32 * TWO32

  // The fields of the hand-off table at b.
  function FreeTop(m: seq<byte>, b: int): nat
    requires InMemory(m, b, HANDOFF_SIZE)
  {
    Load(m, b + 32, 8)
  }

  function FreeBottom(m: seq<byte>, b: int): nat
    requires InMemory(m, b, HANDOFF_SIZE)
  {
    Load(m, b + 40, 8)
  }

  function EndOfList(m: seq<byte>, b: int): nat
    requires InMemory(m, b, HANDOFF_SIZE)
  {
    Load(m, b + 48, 8)
  }

  /** The heap at b with the list hobs, in a region up to top that does not touch the end of memory. */
  predicate Heap(m: seq<byte>, b: int, top: int, hobs: seq<Hob>) {
    && InMemory(m, b, HANDOFF_SIZE) && |m| <= TWO32 && top + 64 <= |m|
    && hobs != [] && hobs[0] == Hob(b, HOB_HANDOFF, HANDOFF_SIZE) && Chain(m, b, hobs, EndOfList(m, b))
    && FreeBottom(m, b) == EndOfList(m, b) + HEADER_SIZE && FreeBottom(m, b) <= FreeTop(m, b) <= top
  }

  /** Pages handed out. */
  datatype Block = Block(at: int, len: int)

  /** The blocks, oldest first, lie edge to edge from top downwards and end at low; nothing of it is in no block or in two. */
  predicate Tiled(blocks: seq<Block>, low: int, top: int)
    decreases |blocks|
  {
    if blocks == [] then low == top
    else
      var last := blocks[|blocks| - 1];
      && last.at == low && 0 < last.len && last.at % PAGE_SIZE == 0 && last.len % PAGE_SIZE == 0
      && Tiled(blocks[..|blocks| - 1], low + last.len, top)
  }

  lemma {:induction false} TiledApart(blocks: seq<Block>, low: int, top: int)
    requires Tiled(blocks, low, top)
    ensures low <= top
    ensures forall k :: 0 <= k < |blocks| ==> low <= blocks[k].at && blocks[k].at + blocks[k].len <= top && blocks[k].at % PAGE_SIZE == 0
    ensures forall j, k :: 0 <= j < k < |blocks| ==> blocks[k].at + blocks[k].len <= blocks[j].at
    decreases |blocks|
  {
    if blocks != [] {
      var n := |blocks| - 1;
      TiledApart(blocks[..n], low + blocks[n].len, top);
      assert forall k :: 0 <= k < n ==> blocks[k] == blocks[..n][k];
    }
  }

  /** Block h of the list records the pages p. */
  predicate Records(m: seq<byte>, h: Hob, p: Block) {
    && h.kind == HOB_MEMORY_ALLOCATION && h.len == ALLOCATION_SIZE && InMemory(m, h.at, ALLOCATION_SIZE)
    && Load(m, h.at + 24, 8) == p.at && Load(m, h.at + 32, 8) == p.len && Load(m, h.at + 40, 4) == BOOT_SERVICES_DATA
  }

  // Block recs[k] of the list records the k-th pages.
  predicate AllRecorded(m: seq<byte>, hobs: seq<Hob>, blocks: seq<Block>, recs: seq<int>) {
    |recs| == |blocks| && forall k :: 0 <= k < |recs| ==> 0 <= recs[k] < |hobs| && Records(m, hobs[recs[k]], blocks[k])
  }

  // ---------- a new block ----------

  /** The stores of CreateHob, in order. */
  function Created(m: seq<byte>, b: int, kind: nat, len: nat): (r: seq<byte>)
    requires InMemory(m, b, HANDOFF_SIZE) && EndOfList(m, b) + len + HEADER_SIZE <= |m|
    ensures |r| == |m|
  {
    var e := EndOfList(m, b);
    var m1 := PutHeader(m, e, kind, len);
    var m2 := Store(m1, b + 48, 8, e + len);
    var m3 := PutHeader(m2, e + len, HOB_END, HEADER_SIZE);
    Store(m3, b + 40, 8, e + len + HEADER_SIZE)
  }

  // Memory that CreateHob does not write.
  lemma CreatedElsewhere(m: seq<byte>, b: int, kind: nat, len: nat, x: int, k: int)
    requires InMemory(m, b, HANDOFF_SIZE) && EndOfList(m, b) + len + HEADER_SIZE <= |m| && InMemory(m, x, k)
    requires x + k <= b + 40 || b + 56 <= x
    requires x + k <= EndOfList(m, b) || EndOfList(m, b) + HEADER_SIZE <= x
    requires x + k <= EndOfList(m, b) + len || EndOfList(m, b) + len + HEADER_SIZE <= x
    ensures SameAt(m, Created(m, b, kind, len), x, k)
  {
    hide Store, PutHeader, Load;
    var e := EndOfList(m, b);
    var m1 := PutHeader(m, e, kind, len);
    var m2 := Store(m1, b + 48, 8, e + len);
    var m3 := PutHeader(m2, e + len, HOB_END, HEADER_SIZE);
    HeaderElsewhere(m, e, kind, len, x, k);
    StoreElsewhere(m1, b + 48, 8, e + len, x, k);
    HeaderElsewhere(m2, e + len, HOB_END, HEADER_SIZE, x, k);
    StoreElsewhere(m3, b + 40, 8, e + len + HEADER_SIZE, x, k);
  }

  // What CreateHob leaves in the fields it writes.
  lemma CreatedFields(m: seq<byte>, b: int, kind: nat, len: nat)
    requires InMemory(m, b, HANDOFF_SIZE) && |m| <= TWO32 && b + HANDOFF_SIZE <= EndOfList(m, b)
    requires EndOfList(m, b) + len + HEADER_SIZE <= |m| && (len == 0 || HEADER_SIZE <= len < 0x1_0000) && kind < 0x1_0000
    ensures var r, e := Created(m, b, kind, len), EndOfList(m, b);
            && EndOfList(r, b) == e + len && FreeBottom(r, b) == e + len + HEADER_SIZE && FreeTop(r, b) == FreeTop(m, b)
            && (len != 0 ==> HeaderAt(r, e, kind, len)) && HeaderAt(r, e + len, HOB_END, HEADER_SIZE)
  {
    hide Store, PutHeader, Value, HeaderAt, Pow;
    Powers256();
    var e := EndOfList(m, b);
    var m1 := PutHeader(m, e, kind, len);
    var m2 := Store(m1, b + 48, 8, e + len);
    var m3 := PutHeader(m2, e + len, HOB_END, HEADER_SIZE);
    var m4 := Store(m3, b + 40, 8, e + len + HEADER_SIZE);
    HeaderPut(m, e, kind, len);
    StoreElsewhere(m1, b + 48, 8, e + len, e, HEADER_SIZE);
    if len != 0 {
      HeaderElsewhere(m2, e + len, HOB_END, HEADER_SIZE, e, HEADER_SIZE);
      StoreElsewhere(m3, b + 40, 8, e + len + HEADER_SIZE, e, HEADER_SIZE);
      HeaderSame(m1, m4, e, kind, len);
    }
    HeaderPut(m2, e + len, HOB_END, HEADER_SIZE);
    StoreElsewhere(m3, b + 40, 8, e + len + HEADER_SIZE, e + len, HEADER_SIZE);
    HeaderSame(m3, m4, e + len, HOB_END, HEADER_SIZE);
    LoadStored(m1, b + 48, 8, e + len);
    HeaderElsewhere(m2, e + len, HOB_END, HEADER_SIZE, b + 48, 8);
    StoreElsewhere(m3, b + 40, 8, e + len + HEADER_SIZE, b + 48, 8);
    LoadStored(m3, b + 40, 8, e + len + HEADER_SIZE);
    CreatedElsewhere(m, b, kind, len, b + 32, 8);
  }

  /** Creating a block that fits keeps the heap and lengthens the list by it. */
  lemma CreatedHeap(m: seq<byte>, b: int, top: int, hobs: seq<Hob>, kind: nat, len: nat)
    requires Heap(m, b, top, hobs) && kind < HOB_END && HEADER_SIZE <= len < 0x1_0000 && len % 8 == 0 && len <= FreeTop(m, b) - FreeBottom(m, b)
    ensures var e := EndOfList(m, b);
            && e + len + HEADER_SIZE <= |m| && Heap(Created(m, b, kind, len), b, top, hobs + [Hob(e, kind, len)])
            && FreeTop(Created(m, b, kind, len), b) == FreeTop(m, b) && FreeBottom(Created(m, b, kind, len), b) == FreeBottom(m, b) + len
  {
    hide Created, HeaderAt, Load;
    var e := EndOfList(m, b);
    HeapBounds(m, b, top, hobs);
    CreatedFields(m, b, kind, len);
    forall k | 0 <= k < |hobs|
      ensures SameAt(m, Created(m, b, kind, len), hobs[k].at, HEADER_SIZE)
    {
      CreatedElsewhere(m, b, kind, len, hobs[k].at, HEADER_SIZE);
    }
    ChainAppend(m, Created(m, b, kind, len), b, hobs, e, kind, len);
    assert (hobs + [Hob(e, kind, len)])[0] == hobs[0];
  }

  /** A block of length zero is written over the end mark, which is then written over it: memory does not change. */
  lemma CreatedNothing(m: seq<byte>, b: int, top: int, hobs: seq<Hob>, kind: nat)
    requires Heap(m, b, top, hobs) && kind < 0x1_0000
    ensures EndOfList(m, b) + HEADER_SIZE <= |m| && HeaderAt(m, EndOfList(m, b), HOB_END, HEADER_SIZE)
    ensures Created(m, b, kind, 0) == m
  {
    hide Created, HeaderAt, Load;
    var r, e := Created(m, b, kind, 0), EndOfList(m, b);
    HeapBounds(m, b, top, hobs);
    ChainTail(m, b, hobs, e, |hobs|);
    CreatedFields(m, b, kind, 0);
    HeaderDetermines(m, r, e, HOB_END, HEADER_SIZE);
    SameValue(m, r, b + 40, 8);
    SameValue(m, r, b + 48, 8);
    forall x | 0 <= x < |m|
      ensures r[x] == m[x]
    {
      if b + 40 <= x < b + 48 {
        SameWithin(m, r, b + 40, 8, x, 1);
      } else if b + 48 <= x < b + 56 {
        SameWithin(m, r, b + 48, 8, x, 1);
      } else if e <= x < e + HEADER_SIZE {
        SameWithin(m, r, e, HEADER_SIZE, x, 1);
      } else {
        CreatedElsewhere(m, b, kind, 0, x, 1);
      }
      assert m[x] == m[x..x + 1][0] && r[x] == r[x..x + 1][0];
    }
  }

  /** A second end mark with a length hides all that lies behind it: no list ends where the table says. */
  lemma CreatedEnd(m: seq<byte>, b: int, top: int, hobs: seq<Hob>, len: nat, high: int, more: seq<Hob>)
    requires Heap(m, b, top, hobs) && HEADER_SIZE <= len < 0x1_0000 && EndOfList(m, b) + len + HEADER_SIZE <= |m|
    ensures !Heap(Created(m, b, HOB_END, len), b, high, more)
  {
    hide Created, Load;
    var r, e := Created(m, b, HOB_END, len), EndOfList(m, b);
    HeapBounds(m, b, top, hobs);
    CreatedFields(m, b, HOB_END, len);
    forall k | 0 <= k < |hobs|
      ensures SameAt(m, r, hobs[k].at, HEADER_SIZE)
    {
      CreatedElsewhere(m, b, HOB_END, len, hobs[k].at, HEADER_SIZE);
    }
    ChainStuck(m, r, b, hobs, e, more, e + len);
  }

  // Where the blocks of a heap lie.
  lemma HeapBounds(m: seq<byte>, b: int, top: int, hobs: seq<Hob>)
    requires Heap(m, b, top, hobs)
    ensures b + HANDOFF_SIZE <= EndOfList(m, b)
    ensures forall k :: 0 <= k < |hobs| ==>
                          (k == 0 ==> hobs[k].at == b) && (0 < k ==> b + HANDOFF_SIZE <= hobs[k].at)
                          && hobs[k].at + hobs[k].len <= EndOfList(m, b) && HEADER_SIZE <= hobs[k].len && InMemory(m, hobs[k].at, HEADER_SIZE)
  {
    hide Load, HeaderAt;
    ChainInside(m, b, hobs, EndOfList(m, b));
    forall k | 0 < k < |hobs|
      ensures b + HANDOFF_SIZE <= hobs[k].at
    {
      assert hobs[0].at + hobs[0].len <= hobs[k].at;
    }
  }

  // ---------- the record of an allocation ----------

  function PutRecord(m: seq<byte>, e: int, base: nat, len: nat): (r: seq<byte>)
    requires InMemory(m, e, ALLOCATION_SIZE)
    ensures |r| == |m|
  {
    Store(Store(Store(Store(Store(m, e + 8, 16, 0), e + 24, 8, base), e + 32, 8, len), e + 40, 4, BOOT_SERVICES_DATA), e + 44, 4, 0)
  }

  lemma RecordElsewhere(m: seq<byte>, e: int, base: nat, len: nat, x: int, k: int)
    requires InMemory(m, e, ALLOCATION_SIZE) && InMemory(m, x, k) && (x + k <= e + 8 || e + ALLOCATION_SIZE <= x)
    ensures SameAt(m, PutRecord(m, e, base, len), x, k)
  {
    hide Store;
    var m1 := Store(m, e + 8, 16, 0);
    var m2 := Store(m1, e + 24, 8, base);
    var m3 := Store(m2, e + 32, 8, len);
    var m4 := Store(m3, e + 40, 4, BOOT_SERVICES_DATA);
    StoreElsewhere(m, e + 8, 16, 0, x, k);
    StoreElsewhere(m1, e + 24, 8, base, x, k);
    StoreElsewhere(m2, e + 32, 8, len, x, k);
    StoreElsewhere(m3, e + 40, 4, BOOT_SERVICES_DATA, x, k);
    StoreElsewhere(m4, e + 44, 4, 0, x, k);
  }

  lemma RecordPut(m: seq<byte>, e: int, base: nat, len: nat)
    requires InMemory(m, e, ALLOCATION_SIZE) && base < TWO64 && len < TWO64
    ensures Records(PutRecord(m, e, base, len), Hob(e, HOB_MEMORY_ALLOCATION, ALLOCATION_SIZE), Block(base, len))
  {
    hide Store, Value, Pow;
    Powers256();
    var m1 := Store(m, e + 8, 16, 0);
    var m2 := Store(m1, e + 24, 8, base);
    var m3 := Store(m2, e + 32, 8, len);
    var m4 := Store(m3, e + 40, 4, BOOT_SERVICES_DATA);
    LoadStored(m1, e + 24, 8, base);
    LoadStored(m2, e + 32, 8, len);
    LoadStored(m3, e + 40, 4, BOOT_SERVICES_DATA);
    StoreElsewhere(m2, e + 32, 8, len, e + 24, 8);
    StoreElsewhere(m3, e + 40, 4, BOOT_SERVICES_DATA, e + 24, 8);
    StoreElsewhere(m4, e + 44, 4, 0, e + 24, 8);
    StoreElsewhere(m3, e + 40, 4, BOOT_SERVICES_DATA, e + 32, 8);
    StoreElsewhere(m4, e + 44, 4, 0, e + 32, 8);
    StoreElsewhere(m4, e + 44, 4, 0, e + 40, 4);
  }

  lemma RecordsSame(m: seq<byte>, r: seq<byte>, h: Hob, p: Block)
    requires Records(m, h, p) && SameAt(m, r, h.at, ALLOCATION_SIZE)
    ensures Records(r, h, p)
  {
    SameWithin(m, r, h.at, ALLOCATION_SIZE, h.at + 24, 8);
    SameWithin(m, r, h.at, ALLOCATION_SIZE, h.at + 32, 8);
    SameWithin(m, r, h.at, ALLOCATION_SIZE, h.at + 40, 4);
  }

  // ---------- a page allocation ----------

  // The amount that must be free, as the 32-bit expression computes it.
  function Need(pages: int): int {
    (pages * PAGE_SIZE + ALLOCATION_SIZE) % TWO32
  }

  // What the check of AllocatePages decides, with the 64-bit difference wrapping around.
  predicate Granted(t: int, b: int, pages: int) {
    !((t - Need(pages)) % TWO64 < b)
  }

  function NewTop(t: int, pages: int): int {
    (t - pages * PAGE_SIZE % TWO32) % TWO64
  }

  // A grant is sound if it takes just the pages asked for and leaves room for the record.
  predicate SoundGrant(t: int, b: int, pages: int) {
    Granted(t, b, pages) ==> NewTop(t, pages) + pages * PAGE_SIZE == t && b + ALLOCATION_SIZE <= NewTop(t, pages)
  }

  /** What a caller can test: request and record fit below the top, or their 32-bit remainder is refused. */
  predicate Affordable(t: int, b: int, pages: int) {
    pages * PAGE_SIZE + ALLOCATION_SIZE <= t || (Need(pages) <= t && t - Need(pages) < b)
  }

  /**
   On a heap with a page-aligned top the check is sound exactly when the request, with its record, is no larger than the
   top itself, or wraps around in 32 bits to an amount that is refused.
   */
  lemma AllocationCheckExact(t: int, b: int, pages: int)
    requires 0 <= b <= t <= TWO32 && t % PAGE_SIZE == 0 && 0 < pages < TWO32 && b < TWO32
    ensures SoundGrant(t, b, pages) <==> Affordable(t, b, pages)
    ensures pages * PAGE_SIZE + ALLOCATION_SIZE <= t ==> (Granted(t, b, pages) <==> pages * PAGE_SIZE + ALLOCATION_SIZE <= t - b)
  {
    var x, n := pages * PAGE_SIZE, Need(pages);
    Wrapped(t, n);
    Wrapped(t, x % TWO32);
    if x + ALLOCATION_SIZE <= t {
      assert x + ALLOCATION_SIZE < TWO32;
    }
  }

  lemma Wrapped(t: int, n: int)
    requires 0 <= t <= TWO32 && 0 <= n < TWO32
    ensures (t - n) % TWO64 == if n <= t then t - n else t - n + TWO64
  {
  }

  /** Lowering the top of the free memory keeps the list. */
  lemma LowerTop(m: seq<byte>, b: int, top: int, hobs: seq<Hob>, t: int, low: int)
    requires Heap(m, b, top, hobs) && FreeBottom(m, b) <= t <= low <= top
    ensures var r := Store(m, b + 32, 8, t);
            && Heap(r, b, low, hobs) && FreeTop(r, b) == t && FreeBottom(r, b) == FreeBottom(m, b) && EndOfList(r, b) == EndOfList(m, b)
  {
    hide Store, Value, Pow, HeaderAt;
    Powers256();
    HeapBounds(m, b, top, hobs);
    var r, e := Store(m, b + 32, 8, t), EndOfList(m, b);
    TopFields(m, b, t);
    forall k | 0 <= k < |hobs|
      ensures SameAt(m, r, hobs[k].at, HEADER_SIZE)
    {
      StoreElsewhere(m, b + 32, 8, t, hobs[k].at, HEADER_SIZE);
    }
    StoreElsewhere(m, b + 32, 8, t, e, HEADER_SIZE);
    ChainFrame(m, r, b, hobs, e);
  }

  lemma TopFields(m: seq<byte>, b: int, t: int)
    requires InMemory(m, b, HANDOFF_SIZE) && 0 <= t < TWO64
    ensures var r := Store(m, b + 32, 8, t); FreeTop(r, b) == t && FreeBottom(r, b) == FreeBottom(m, b) && EndOfList(r, b) == EndOfList(m, b)
  {
    hide Store, Value, Pow;
    Powers256();
    LoadStored(m, b + 32, 8, t);
    StoreElsewhere(m, b + 32, 8, t, b + 40, 8);
    StoreElsewhere(m, b + 32, 8, t, b + 48, 8);
  }

  /** Filling in the record of the last block keeps the heap. */
  lemma RecordHeap(m: seq<byte>, b: int, top: int, hobs: seq<Hob>, e: int, base: nat, len: nat)
    requires Heap(m, b, top, hobs) && |hobs| >= 2 && hobs[|hobs| - 1] == Hob(e, HOB_MEMORY_ALLOCATION, ALLOCATION_SIZE)
    ensures InMemory(m, e, ALLOCATION_SIZE)
    ensures var r := PutRecord(m, e, base, len);
            && Heap(r, b, top, hobs) && FreeTop(r, b) == FreeTop(m, b) && FreeBottom(r, b) == FreeBottom(m, b) && EndOfList(r, b) == EndOfList(m, b)
  {
    hide Load, HeaderAt, PutRecord;
    HeapBounds(m, b, top, hobs);
    ChainInside(m, b, hobs, EndOfList(m, b));
    var r := PutRecord(m, e, base, len);
    assert e == hobs[|hobs| - 1].at;
    forall k | 0 <= k < |hobs|
      ensures SameAt(m, r, hobs[k].at, HEADER_SIZE)
    {
      RecordElsewhere(m, e, base, len, hobs[k].at, HEADER_SIZE);
    }
    RecordElsewhere(m, e, base, len, EndOfList(m, b), HEADER_SIZE);
    FieldsElsewhere(m, e, base, len, b);
    ChainFrame(m, r, b, hobs, EndOfList(m, b));
  }

  lemma FieldsElsewhere(m: seq<byte>, e: int, base: nat, len: nat, b: int)
    requires InMemory(m, e, ALLOCATION_SIZE) && InMemory(m, b, HANDOFF_SIZE) && b + HANDOFF_SIZE <= e
    ensures var r := PutRecord(m, e, base, len);
            FreeTop(r, b) == FreeTop(m, b) && FreeBottom(r, b) == FreeBottom(m, b) && EndOfList(r, b) == EndOfList(m, b)
  {
    hide PutRecord, Value;
    RecordElsewhere(m, e, base, len, b + 32, 8);
    RecordElsewhere(m, e, base, len, b + 40, 8);
    RecordElsewhere(m, e, base, len, b + 48, 8);
  }

  // Earlier records are kept by whatever leaves the bytes of earlier blocks alone.
  lemma RecordsKept(m: seq<byte>, r: seq<byte>, hobs: seq<Hob>, more: seq<Hob>, blocks: seq<Block>, recs: seq<int>)
    requires AllRecorded(m, hobs, blocks, recs)
    requires forall k :: 0 <= k < |hobs| && hobs[k].kind == HOB_MEMORY_ALLOCATION && hobs[k].len == ALLOCATION_SIZE ==>
                           SameAt(m, r, hobs[k].at, ALLOCATION_SIZE)
    ensures AllRecorded(r, hobs + more, blocks, recs)
  {
    hide Records, SameAt;
    forall k | 0 <= k < |recs|
      ensures 0 <= recs[k] < |hobs + more| && Records(r, (hobs + more)[recs[k]], blocks[k])
    {
      RecordIs(m, hobs[recs[k]], blocks[k]);
      RecordsSame(m, r, hobs[recs[k]], blocks[k]);
    }
  }

  lemma RecordIs(m: seq<byte>, h: Hob, p: Block)
    requires Records(m, h, p)
    ensures h.kind == HOB_MEMORY_ALLOCATION && h.len == ALLOCATION_SIZE
  {
  }

  // (HobLength + 7) & ~7 in 16 bits
  function Round8(length: int): int {
    (length + 7) / 8 * 8 % 0x1_0000
  }

  lemma Round8Range(length: int)
    ensures Round8(length) == (length + 7) / 8 * 8 % 0x1_0000
    ensures 0 <= Round8(length) <= 0xFFF8 && Round8(length) % 8 == 0
  {
  }

  lemma Round8Fits(length: int)
    requires 0 < length <= 0xFFF8
    ensures Round8(length) == (length + 7) / 8 * 8 % 0x1_0000
    ensures length <= Round8(length) < length + 8 && Round8(length) % 8 == 0 && HEADER_SIZE <= Round8(length) <= 0xFFF8
  {
  }

  /** The rounded length leaves room for a header unless it was zero, or so large that rounding it wraps around to zero. */
  lemma Round8Exact(length: int)
    requires 0 <= length < 0x1_0000
    ensures HEADER_SIZE <= Round8(length) <==> 0 < length <= 0xFFF8
    ensures Round8(length) < HEADER_SIZE ==> Round8(length) == 0
  {
    if 0 < length <= 0xFFF8 {
      Round8Fits(length);
    } else if length != 0 {
      assert (length + 7) / 8 == 0x2000;
    }
  }

  lemma CreatedRecords(m: seq<byte>, b: int, top: int, hobs: seq<Hob>, blocks: seq<Block>, recs: seq<int>, kind: nat, len: nat)
    requires Heap(m, b, top, hobs) && AllRecorded(m, hobs, blocks, recs)
    requires EndOfList(m, b) + len + HEADER_SIZE <= |m| && HEADER_SIZE <= len
    ensures AllRecorded(Created(m, b, kind, len), hobs + [Hob(EndOfList(m, b), kind, len)], blocks, recs)
  {
    hide Load, Created, Chain;
    HeapBounds(m, b, top, hobs);
    forall k | 0 <= k < |hobs| && hobs[k].kind == HOB_MEMORY_ALLOCATION && hobs[k].len == ALLOCATION_SIZE
      ensures SameAt(m, Created(m, b, kind, len), hobs[k].at, ALLOCATION_SIZE)
    {
      CreatedElsewhere(m, b, kind, len, hobs[k].at, ALLOCATION_SIZE);
    }
    RecordsKept(m, Created(m, b, kind, len), hobs, [Hob(EndOfList(m, b), kind, len)], blocks, recs);
  }

  lemma TopRecords(m: seq<byte>, b: int, top: int, hobs: seq<Hob>, blocks: seq<Block>, recs: seq<int>, t: nat)
    requires Heap(m, b, top, hobs) && AllRecorded(m, hobs, blocks, recs)
    ensures AllRecorded(Store(m, b + 32, 8, t), hobs, blocks, recs)
  {
    hide Load, Chain, Store;
    HeapBounds(m, b, top, hobs);
    forall k | 0 <= k < |hobs| && hobs[k].kind == HOB_MEMORY_ALLOCATION && hobs[k].len == ALLOCATION_SIZE
      ensures SameAt(m, Store(m, b + 32, 8, t), hobs[k].at, ALLOCATION_SIZE)
    {
      StoreElsewhere(m, b + 32, 8, t, hobs[k].at, ALLOCATION_SIZE);
    }
    RecordsKept(m, Store(m, b + 32, 8, t), hobs, [], blocks, recs);
    assert hobs + [] == hobs;
  }

  // The record of the newest block joins the earlier ones.
  lemma NewRecord(m: seq<byte>, b: int, top: int, hobs: seq<Hob>, blocks: seq<Block>, recs: seq<int>, e: int, base: nat, len: nat)
    requires Heap(m, b, top, hobs) && |hobs| >= 2 && hobs[|hobs| - 1] == Hob(e, HOB_MEMORY_ALLOCATION, ALLOCATION_SIZE)
    requires AllRecorded(m, hobs, blocks, recs) && (forall k :: 0 <= k < |recs| ==> recs[k] < |hobs| - 1) && base < TWO64 && len < TWO64
    ensures InMemory(m, e, ALLOCATION_SIZE)
    ensures AllRecorded(PutRecord(m, e, base, len), hobs, blocks + [Block(base, len)], recs + [|hobs| - 1])
  {
    hide Load, Chain, PutRecord, Records;
    HeapBounds(m, b, top, hobs);
    assert e == hobs[|hobs| - 1].at;
    var r, ps, ks := PutRecord(m, e, base, len), blocks + [Block(base, len)], recs + [|hobs| - 1];
    RecordPut(m, e, base, len);
    forall k | 0 <= k < |ks|
      ensures 0 <= ks[k] < |hobs| && Records(r, hobs[ks[k]], ps[k])
    {
      if k < |recs| {
        BeforeLast(m, b, top, hobs, ks[k]);
        RecordIs(m, hobs[ks[k]], blocks[k]);
        RecordElsewhere(m, e, base, len, hobs[ks[k]].at, ALLOCATION_SIZE);
        RecordsSame(m, r, hobs[ks[k]], blocks[k]);
      }
    }
  }

  lemma BeforeLast(m: seq<byte>, b: int, top: int, hobs: seq<Hob>, k: int)
    requires Heap(m, b, top, hobs) && 0 <= k < |hobs| - 1
    ensures hobs[k].at + hobs[k].len <= hobs[|hobs| - 1].at && b <= hobs[k].at
  {
    hide Load, HeaderAt;
    ChainInside(m, b, hobs, EndOfList(m, b));
  }

  lemma CreatedIs(m: seq<byte>, b: int, kind: nat, len: nat)
    requires InMemory(m, b, HANDOFF_SIZE) && EndOfList(m, b) + len + HEADER_SIZE <= |m|
    ensures var e := EndOfList(m, b);
            Created(m, b, kind, len)
            == Store(PutHeader(Store(PutHeader(m, e, kind, len), b + 48, 8, e + len), e + len, HOB_END, HEADER_SIZE),
                     b + 40, 8, e + len + HEADER_SIZE)
  {
  }

  // On a heap the check of CreateHob is sound, and the new block keeps everything.
  lemma CreateFits(m: seq<byte>, b: int, top: int, hobs: seq<Hob>, blocks: seq<Block>, recs: seq<int>, kind: int, len: int)
    requires Heap(m, b, top, hobs) && Tiled(blocks, FreeTop(m, b), top) && AllRecorded(m, hobs, blocks, recs)
    requires 0 <= kind < HOB_END && HEADER_SIZE <= len <= 0xFFF8 && len % 8 == 0
    ensures (FreeTop(m, b) - FreeBottom(m, b)) % TWO64 == FreeTop(m, b) - FreeBottom(m, b) && b + HANDOFF_SIZE <= EndOfList(m, b)
    ensures len <= FreeTop(m, b) - FreeBottom(m, b) ==>
              var e, more := EndOfList(m, b), hobs + [Hob(EndOfList(m, b), kind, len)];
              && e + len + HEADER_SIZE <= |m|
              && var r := Created(m, b, kind, len);
              && Heap(r, b, top, more) && FreeTop(r, b) == FreeTop(m, b) && Tiled(blocks, FreeTop(r, b), top) && AllRecorded(r, more, blocks, recs)
  {
    hide Load, Created, HeaderAt, Chain, Tiled, AllRecorded;
    HeapBounds(m, b, top, hobs);
    if len <= FreeTop(m, b) - FreeBottom(m, b) {
      CreatedHeap(m, b, top, hobs, kind, len);
      CreatedRecords(m, b, top, hobs, blocks, recs, kind, len);
    }
  }

  lemma NeedIs(pages: int)
    ensures (pages * PAGE_SIZE % TWO32 + ALLOCATION_SIZE) % TWO32 == Need(pages)
  {
  }

  // What the fields of a heap allow.
  lemma HeapFields(m: seq<byte>, b: int, top: int, hobs: seq<Hob>)
    requires Heap(m, b, top, hobs)
    ensures InMemory(m, b, HANDOFF_SIZE) && b + HANDOFF_SIZE <= EndOfList(m, b) && |m| <= TWO32 && top + 64 <= |m|
    ensures FreeBottom(m, b) == EndOfList(m, b) + HEADER_SIZE && FreeBottom(m, b) <= FreeTop(m, b) <= top
  {
    hide Load;
    HeapBounds(m, b, top, hobs);
  }

  // A recorded allocation keeps the heap.
  lemma Recorded(m: seq<byte>, b: int, top: int, hobs: seq<Hob>, blocks: seq<Block>, recs: seq<int>, base: nat, len: nat)
    requires Heap(m, b, top, hobs) && AllRecorded(m, hobs, blocks, recs) && base < TWO64 && len < TWO64
    requires (FreeTop(m, b) - FreeBottom(m, b)) % TWO64 >= ALLOCATION_SIZE
    ensures var e, more := EndOfList(m, b), hobs + [Hob(EndOfList(m, b), HOB_MEMORY_ALLOCATION, ALLOCATION_SIZE)];
            && e + ALLOCATION_SIZE + HEADER_SIZE <= |m|
            && var r := PutRecord(Created(m, b, HOB_MEMORY_ALLOCATION, ALLOCATION_SIZE), e, base, len);
            && Heap(r, b, top, more) && AllRecorded(r, more, blocks + [Block(base, len)], recs + [|hobs|])
            && FreeTop(r, b) == FreeTop(m, b) && FreeBottom(r, b) == FreeBottom(m, b) + ALLOCATION_SIZE
  {
    hide Load, Created, PutRecord, Heap, AllRecorded;
    HeapFields(m, b, top, hobs);
    RecordsInside(m, hobs, blocks, recs);
    var e := EndOfList(m, b);
    var more := hobs + [Hob(e, HOB_MEMORY_ALLOCATION, ALLOCATION_SIZE)];
    var c := Created(m, b, HOB_MEMORY_ALLOCATION, ALLOCATION_SIZE);
    CreatedHeap(m, b, top, hobs, HOB_MEMORY_ALLOCATION, ALLOCATION_SIZE);
    CreatedRecords(m, b, top, hobs, blocks, recs, HOB_MEMORY_ALLOCATION, ALLOCATION_SIZE);
    ListNotEmpty(m, b, top, hobs);
    RecordHeap(c, b, top, more, e, base, len);
    NewRecord(c, b, top, more, blocks, recs, e, base, len);
  }

  lemma RecordsInside(m: seq<byte>, hobs: seq<Hob>, blocks: seq<Block>, recs: seq<int>)
    requires AllRecorded(m, hobs, blocks, recs)
    ensures forall k :: 0 <= k < |recs| ==> recs[k] < |hobs|
  {
  }

  lemma ListNotEmpty(m: seq<byte>, b: int, top: int, hobs: seq<Hob>)
    requires Heap(m, b, top, hobs)
    ensures hobs != []
  {
  }

  // The greatest page boundary not above t.
  function Aligned(t: int): int {
    t - t % PAGE_SIZE
  }

  // Memory after the top has been lowered to a page boundary.
  function Trimmed(m: seq<byte>, b: int): (r: seq<byte>)
    requires InMemory(m, b, HANDOFF_SIZE)
    ensures |r| == |m|
  {
    if FreeTop(m, b) % PAGE_SIZE == 0 then m else Store(m, b + 32, 8, Aligned(FreeTop(m, b)))
  }

  lemma TrimmedIs(m: seq<byte>, b: int)
    requires InMemory(m, b, HANDOFF_SIZE)
    ensures Trimmed(m, b) == if FreeTop(m, b) % PAGE_SIZE == 0 then m else Store(m, b + 32, 8, Aligned(FreeTop(m, b)))
  {
    hide Store, Load;
  }

  /** Lowering the top to a page boundary keeps the heap exactly when the boundary is not below the free memory's bottom. */
  lemma TrimmedHeap(m: seq<byte>, b: int, top: int, hobs: seq<Hob>, blocks: seq<Block>, recs: seq<int>)
    requires Heap(m, b, top, hobs) && Tiled(blocks, FreeTop(m, b), top) && AllRecorded(m, hobs, blocks, recs)
    ensures InMemory(m, b, HANDOFF_SIZE)
    ensures var r, t := Trimmed(m, b), Aligned(FreeTop(m, b));
            && FreeTop(r, b) == t && FreeBottom(r, b) == FreeBottom(m, b) && EndOfList(r, b) == EndOfList(m, b)
            && b + HANDOFF_SIZE <= EndOfList(m, b) && EndOfList(m, b) + 64 <= |m| <= TWO32 && FreeBottom(m, b) == EndOfList(m, b) + HEADER_SIZE
            && 0 <= t <= TWO32 && t <= top && (blocks != [] ==> t == FreeTop(m, b))
    ensures var r, t, low := Trimmed(m, b), Aligned(FreeTop(m, b)), if blocks == [] then Aligned(FreeTop(m, b)) else top;
            && (FreeBottom(m, b) <= t ==> Heap(r, b, low, hobs) && Tiled(blocks, FreeTop(r, b), low) && AllRecorded(r, hobs, blocks, recs))
            && (t < FreeBottom(m, b) ==> !Heap(r, b, low, hobs))
  {
    hide Load, Store, Chain, AllRecorded;
    HeapFields(m, b, top, hobs);
    var t := Aligned(FreeTop(m, b));
    TopFields(m, b, t);
    if FreeBottom(m, b) <= t {
      LowerTop(m, b, top, hobs, t, if blocks == [] then t else top);
      TopRecords(m, b, top, hobs, blocks, recs, t);
    }
  }

  // Once the check has passed and the top is lowered, the record finds room, be the grant sound or not.
  lemma RoomForRecord(m: seq<byte>, b: int, pages: int)
    requires InMemory(m, b, HANDOFF_SIZE) && b + HANDOFF_SIZE <= EndOfList(m, b) && EndOfList(m, b) + 64 <= |m| <= TWO32
    requires FreeBottom(m, b) == EndOfList(m, b) + HEADER_SIZE && FreeTop(m, b) <= TWO32 && FreeTop(m, b) % PAGE_SIZE == 0
    requires 0 < pages < TWO32 && Granted(FreeTop(m, b), FreeBottom(m, b), pages)
    ensures 0 <= NewTop(FreeTop(m, b), pages) < TWO64
    ensures var r := Store(m, b + 32, 8, NewTop(FreeTop(m, b), pages));
            && EndOfList(r, b) == EndOfList(m, b) && FreeTop(r, b) == NewTop(FreeTop(m, b), pages)
            && EndOfList(r, b) + ALLOCATION_SIZE + HEADER_SIZE <= |r| && (FreeTop(r, b) - FreeBottom(r, b)) % TWO64 >= ALLOCATION_SIZE
  {
    hide Load, Store, Granted, NewTop;
    GrantedRoom(FreeTop(m, b), FreeBottom(m, b), pages);
    TopFields(m, b, NewTop(FreeTop(m, b), pages));
  }

  lemma AfterGrant(m: seq<byte>, b: int, top: int, hobs: seq<Hob>, blocks: seq<Block>, recs: seq<int>, pages: int)
    requires Heap(m, b, top, hobs) && AllRecorded(m, hobs, blocks, recs) && 0 < pages < TWO32 && FreeTop(m, b) % PAGE_SIZE == 0
    requires Granted(FreeTop(m, b), FreeBottom(m, b), pages) && SoundGrant(FreeTop(m, b), FreeBottom(m, b), pages)
    ensures 0 <= NewTop(FreeTop(m, b), pages)
    ensures var r := Store(m, b + 32, 8, NewTop(FreeTop(m, b), pages)); Heap(r, b, top, hobs) && AllRecorded(r, hobs, blocks, recs)
  {
    hide Load, Heap, Store, AllRecorded, Granted, NewTop;
    HeapFields(m, b, top, hobs);
    var t := NewTop(FreeTop(m, b), pages);
    GrantedRoom(FreeTop(m, b), FreeBottom(m, b), pages);
    LowerTop(m, b, top, hobs, t, top);
    TopRecords(m, b, top, hobs, blocks, recs, t);
  }

  lemma HeapPlace(m: seq<byte>, b: int, top: int, hobs: seq<Hob>)
    requires Heap(m, b, top, hobs)
    ensures InMemory(m, b, HANDOFF_SIZE)
  {
  }

  lemma GrantIs(t: int, b: int, pages: int)
    requires 0 <= b <= t <= TWO32 && 0 < pages < TWO32 && Granted(t, b, pages) && t % PAGE_SIZE == 0 && SoundGrant(t, b, pages)
    ensures var x := pages * PAGE_SIZE; 0 < x && x % PAGE_SIZE == 0 && x % TWO32 == x && NewTop(t, pages) == t - x && (t - x) % PAGE_SIZE == 0
  {
    hide Granted, NewTop, SoundGrant;
    SoundTop(t, b, pages);
    SoundBytes(t, b, pages);
    WholePages(t, pages);
    SmallBytes(pages * PAGE_SIZE);
  }

  lemma SoundBytes(t: int, b: int, pages: int)
    requires Granted(t, b, pages) && SoundGrant(t, b, pages)
    ensures NewTop(t, pages) == t - pages * PAGE_SIZE && b + ALLOCATION_SIZE <= NewTop(t, pages)
  {
    hide Granted, NewTop;
  }

  lemma WholePages(t: int, pages: int)
    requires t % PAGE_SIZE == 0
    ensures pages * PAGE_SIZE % PAGE_SIZE == 0 && (t - pages * PAGE_SIZE) % PAGE_SIZE == 0
  {
  }

  lemma SmallBytes(x: int)
    ensures 0 <= x < TWO32 ==> x % TWO32 == x
  {
  }

  lemma TiledMore(old_blocks: seq<Block>, blocks: seq<Block>, t: int, top: int, low: int)
    requires Tiled(old_blocks, t, top) && low < t && low % PAGE_SIZE == 0 && t % PAGE_SIZE == 0
    requires blocks == old_blocks + [Block(low, t - low)]
    ensures Tiled(blocks, low, top)
  {
    assert blocks[..|blocks| - 1] == old_blocks;
  }

  lemma LastRecord(m: seq<byte>, hobs: seq<Hob>, blocks: seq<Block>, recs: seq<int>)
    requires AllRecorded(m, hobs, blocks, recs) && recs != [] && hobs != [] && recs[|recs| - 1] == |hobs| - 1
    ensures blocks != [] && Records(m, hobs[|hobs| - 1], blocks[|blocks| - 1])
  {
  }

  lemma GrantedRoom(t: int, b: int, pages: int)
    requires 0 < b <= TWO32 && 0 <= t <= TWO32 && 0 < pages < TWO32 && Granted(t, b, pages) && t % PAGE_SIZE == 0
    ensures 0 <= NewTop(t, pages) < TWO64 && (NewTop(t, pages) - b) % TWO64 >= ALLOCATION_SIZE
    ensures SoundGrant(t, b, pages) ==> NewTop(t, pages) % PAGE_SIZE == 0 && b <= NewTop(t, pages) <= t
  {
    hide SoundGrant, Need, Granted, NewTop;
    var x := pages * PAGE_SIZE % TWO32;
    Bytes32(pages);
    GrantedIs(t, b, pages);
    TopAfter(t, b, x);
    if SoundGrant(t, b, pages) {
      SoundTop(t, b, pages);
      PagesBelow(t, x);
    }
  }

  lemma PagesBelow(t: int, x: int)
    requires t % PAGE_SIZE == 0 && x % PAGE_SIZE == 0
    ensures (t - x) % PAGE_SIZE == 0
  {
  }

  // The check and the new top without remainders.
  lemma GrantedIs(t: int, b: int, pages: int)
    requires 0 <= t <= TWO32 && 0 < pages
    ensures var x := pages * PAGE_SIZE % TWO32;
            && 0 <= x <= TWO32 - PAGE_SIZE
            && NewTop(t, pages) == (if x <= t then t - x else t - x + TWO64)
            && (Granted(t, b, pages) <==> b <= if x + ALLOCATION_SIZE <= t then t - x - ALLOCATION_SIZE else t - x - ALLOCATION_SIZE + TWO64)
  {
    hide Need;
    var x := pages * PAGE_SIZE % TWO32;
    Bytes32(pages);
    Wrapped(t, x);
    Wrapped(t, x + ALLOCATION_SIZE);
  }

  // Pages in 32 bits are still a multiple of the page size.
  lemma Bytes32(pages: int)
    requires 0 < pages
    ensures var x := pages * PAGE_SIZE % TWO32; 0 <= x <= TWO32 - PAGE_SIZE && x % PAGE_SIZE == 0 && Need(pages) == x + ALLOCATION_SIZE
  {
    NeedIs(pages);
  }

  lemma SoundTop(t: int, b: int, pages: int)
    requires 0 <= t <= TWO32 && 0 < pages && Granted(t, b, pages) && SoundGrant(t, b, pages)
    ensures b + ALLOCATION_SIZE <= NewTop(t, pages) <= t && NewTop(t, pages) == t - pages * PAGE_SIZE % TWO32
  {
    hide Granted;
    Bytes32(pages);
    Wrapped(t, pages * PAGE_SIZE % TWO32);
  }

  lemma TopAfter(t: int, b: int, x: int)
    requires 0 < b <= TWO32 && 0 <= t <= TWO32 && 0 <= x <= TWO32 - PAGE_SIZE && t % PAGE_SIZE == 0 && x % PAGE_SIZE == 0
    requires b <= if x + ALLOCATION_SIZE <= t then t - x - ALLOCATION_SIZE else t - x - ALLOCATION_SIZE + TWO64
    ensures var n := if x <= t then t - x else t - x + TWO64; 0 <= n < TWO64 && (n - b) % TWO64 >= ALLOCATION_SIZE
  {
    var n := if x <= t then t - x else t - x + TWO64;
    assert x <= t < x + ALLOCATION_SIZE ==> x == t;
    Reduced(n - b);
  }

  lemma Reduced(d: int)
    ensures 0 <= d < TWO64 ==> d % TWO64 == d
    ensures -TWO64 <= d < 0 ==> d % TWO64 == d + TWO64
  {
  }

  // ---------- the first block ----------

  const HANDOFF_VERSION: int := 0x0009
  const FULL_CONFIGURATION: int := 0

  // The fields of a fresh hand-off table behind its header.
  function TableBytes(b: nat, bottom: nat, top: nat, freeTop: nat): (s: seq<byte>)
    ensures |s| == 48
  {
    Bytes(HANDOFF_VERSION, 4) + Bytes(FULL_CONFIGURATION, 4) + Bytes(top, 8) + Bytes(bottom, 8)
    + Bytes(freeTop, 8) + Bytes(b + 64, 8) + Bytes(b + 56, 8)
  }

  // A store right behind what is known extends it.
  lemma StoreBehind(m: seq<byte>, from: int, a: int, n: int, v: nat, to: int)
    requires InMemory(m, a, n) && 0 <= from <= a && a + n <= to <= |m|
    ensures Store(m, a, n, v)[from..a + n] == m[from..a] + Bytes(v, n)
    ensures Store(m, a, n, v)[..from] == m[..from] && Store(m, a, n, v)[to..] == m[to..]
  {
    hide Bytes;
    var r := Store(m, a, n, v);
    assert r[from..a + n] == m[from..a] + Bytes(v, n);
    assert r[to..] == m[to..];
  }

  /** A hand-off table with an end mark behind it is a heap with nothing handed out. */
  lemma TableIsHeap(m: seq<byte>, b: int, bottom: nat, top: nat, freeTop: nat)
    requires InMemory(m, b, 64) && |m| <= TWO32 && b + 64 <= freeTop && freeTop + 64 <= |m|
    requires HeaderAt(m, b, HOB_HANDOFF, HANDOFF_SIZE) && HeaderAt(m, b + HANDOFF_SIZE, HOB_END, HEADER_SIZE)
    requires m[b + 8..b + 56] == TableBytes(b, bottom, top, freeTop)
    ensures Heap(m, b, freeTop, [Hob(b, HOB_HANDOFF, HANDOFF_SIZE)])
    ensures FreeTop(m, b) == freeTop && FreeBottom(m, b) == b + 64
    ensures bottom < TWO64 && top < TWO64 ==> Load(m, b + 16, 8) == top && Load(m, b + 24, 8) == bottom
  {
    hide Value, Bytes, Pow;
    var s := TableBytes(b, bottom, top, freeTop);
    SliceOfSlice(m, b + 8, 48, b + 16, 8);
    SliceOfSlice(m, b + 8, 48, b + 24, 8);
    SliceOfSlice(m, b + 8, 48, b + 32, 8);
    SliceOfSlice(m, b + 8, 48, b + 40, 8);
    SliceOfSlice(m, b + 8, 48, b + 48, 8);
    assert s[8..16] == Bytes(top, 8) && s[16..24] == Bytes(bottom, 8) && s[24..32] == Bytes(freeTop, 8);
    assert s[32..40] == Bytes(b + 64, 8) && s[40..48] == Bytes(b + 56, 8);
    Field8(top);
    Field8(bottom);
    Field8(freeTop);
    Field8(b + 64);
    Field8(b + 56);
    EmptyChain(m, b);
  }

  lemma Field8(v: nat)
    ensures v < TWO64 ==> Value(Bytes(v, 8)) == v
  {
    hide Value, Bytes, Pow;
    Powers256();
    ValueOfBytes(v, 8);
  }

  lemma EmptyChain(m: seq<byte>, b: int)
    requires HeaderAt(m, b, HOB_HANDOFF, HANDOFF_SIZE) && HeaderAt(m, b + HANDOFF_SIZE, HOB_END, HEADER_SIZE)
    ensures Chain(m, b, [Hob(b, HOB_HANDOFF, HANDOFF_SIZE)], b + HANDOFF_SIZE)
  {
    hide HeaderAt;
    var hobs := [Hob(b, HOB_HANDOFF, HANDOFF_SIZE)];
    assert hobs[1..] == [];
    assert Chain(m, b + HANDOFF_SIZE, hobs[1..], b + HANDOFF_SIZE);
  }

  /** The stores of HobConstructor, in order. */
  function TableWritten(m: seq<byte>, b: nat, bottom: nat, top: nat, freeTop: nat): (r: seq<byte>)
    requires InMemory(m, b, 64)
    ensures |r| == |m|
  {
    var h := PutHeader(PutHeader(m, b, HOB_HANDOFF, HANDOFF_SIZE), b + HANDOFF_SIZE, HOB_END, HEADER_SIZE);
    var s := Store(Store(Store(h, b + 8, 4, HANDOFF_VERSION), b + 12, 4, FULL_CONFIGURATION), b + 16, 8, top);
    Store(Store(Store(Store(s, b + 24, 8, bottom), b + 32, 8, freeTop), b + 40, 8, b + 64), b + 48, 8, b + 56)
  }

  lemma TableStored(m: seq<byte>, b: nat, bottom: nat, top: nat, freeTop: nat)
    requires InMemory(m, b, 64)
    ensures var r := TableWritten(m, b, bottom, top, freeTop);
            && HeaderAt(r, b, HOB_HANDOFF, HANDOFF_SIZE) && HeaderAt(r, b + HANDOFF_SIZE, HOB_END, HEADER_SIZE)
            && r[b + 8..b + 56] == TableBytes(b, bottom, top, freeTop) && r[..b] == m[..b] && r[b + 64..] == m[b + 64..]
  {
    hide Bytes, HeaderAt, PutHeader, Store;
    var g := PutHeader(m, b, HOB_HANDOFF, HANDOFF_SIZE);
    var h := PutHeader(g, b + HANDOFF_SIZE, HOB_END, HEADER_SIZE);
    HeaderPut(m, b, HOB_HANDOFF, HANDOFF_SIZE);
    HeaderElsewhere(g, b + HANDOFF_SIZE, HOB_END, HEADER_SIZE, b, HEADER_SIZE);
    HeaderSame(g, h, b, HOB_HANDOFF, HANDOFF_SIZE);
    HeaderPut(g, b + HANDOFF_SIZE, HOB_END, HEADER_SIZE);
    HeaderElsewhere(m, b, HOB_HANDOFF, HANDOFF_SIZE, 0, b);
    HeaderElsewhere(g, b + HANDOFF_SIZE, HOB_END, HEADER_SIZE, 0, b);
    HeaderElsewhere(m, b, HOB_HANDOFF, HANDOFF_SIZE, b + 64, |m| - b - 64);
    HeaderElsewhere(g, b + HANDOFF_SIZE, HOB_END, HEADER_SIZE, b + 64, |m| - b - 64);
    var s1 := Store(h, b + 8, 4, HANDOFF_VERSION);
    var s2 := Store(s1, b + 12, 4, FULL_CONFIGURATION);
    var s3 := Store(s2, b + 16, 8, top);
    var s4 := Store(s3, b + 24, 8, bottom);
    var s5 := Store(s4, b + 32, 8, freeTop);
    var s6 := Store(s5, b + 40, 8, b + 64);
    var r := Store(s6, b + 48, 8, b + 56);
    StoreBehind(h, b + 8, b + 8, 4, HANDOFF_VERSION, b + 56);
    StoreBehind(s1, b + 8, b + 12, 4, FULL_CONFIGURATION, b + 56);
    StoreBehind(s2, b + 8, b + 16, 8, top, b + 56);
    StoreBehind(s3, b + 8, b + 24, 8, bottom, b + 56);
    StoreBehind(s4, b + 8, b + 32, 8, freeTop, b + 56);
    StoreBehind(s5, b + 8, b + 40, 8, b + 64, b + 56);
    StoreBehind(s6, b + 8, b + 48, 8, b + 56, b + 56);
    assert s1[b + 8..b + 12] == Bytes(HANDOFF_VERSION, 4);
    assert r[b + 8..b + 56] == TableBytes(b, bottom, top, freeTop);
    assert r[..b + 8] == h[..b + 8] && r[b + 56..] == h[b + 56..];
    OutsideSame(h, r, b + 8, b + 56, b, HEADER_SIZE);
    OutsideSame(h, r, b + 8, b + 56, b + HANDOFF_SIZE, HEADER_SIZE);
    OutsideSame(h, r, b + 8, b + 56, 0, b);
    OutsideSame(h, r, b + 8, b + 56, b + 64, |m| - b - 64);
    HeaderSame(h, r, b, HOB_HANDOFF, HANDOFF_SIZE);
    HeaderSame(h, r, b + HANDOFF_SIZE, HOB_END, HEADER_SIZE);
    assert r[..b] == r[0..b] && m[..b] == m[0..b];
  }

  lemma OutsideSame(m: seq<byte>, r: seq<byte>, lo: int, hi: int, x: int, k: int)
    requires |m| == |r| && 0 <= lo <= hi <= |m| && m[..lo] == r[..lo] && m[hi..] == r[hi..]
    requires InMemory(m, x, k) && (x + k <= lo || hi <= x)
    ensures SameAt(m, r, x, k)
  {
    if x + k <= lo {
      assert m[x..x + k] == m[..lo][x..x + k] && r[x..x + k] == r[..lo][x..x + k];
    } else {
      SliceOfSlice(m, hi, |m| - hi, x, k);
      SliceOfSlice(r, hi, |m| - hi, x, k);
      assert m[hi..hi + (|m| - hi)] == m[hi..] && r[hi..hi + (|m| - hi)] == r[hi..];
    }
  }

  lemma FirstIsHandoff(m: seq<byte>, b: int, top: int, hobs: seq<Hob>)
    requires Heap(m, b, top, hobs)
    ensures hobs != [] && hobs[0].kind == HOB_HANDOFF && hobs[0].at == b
  {
  }

  // ---------- the heap as a whole ----------

  /** Whatever was handed out lies above the list, page-aligned, inside the region, and in no other block. */
  lemma HeapApart(m: seq<byte>, b: int, top: int, hobs: seq<Hob>, blocks: seq<Block>)
    requires Heap(m, b, top, hobs) && Tiled(blocks, FreeTop(m, b), top)
    ensures forall j, k :: 0 <= j < |hobs| && 0 <= k < |blocks| ==> hobs[j].at + hobs[j].len + HEADER_SIZE <= blocks[k].at
    ensures forall k :: 0 <= k < |blocks| ==> blocks[k].at % PAGE_SIZE == 0 && blocks[k].at + blocks[k].len <= top
    ensures forall j, k :: 0 <= j < k < |blocks| ==> blocks[k].at + blocks[k].len <= blocks[j].at
    ensures forall j, k :: 0 <= j < k < |hobs| ==> hobs[j].at + hobs[j].len <= hobs[k].at
  {
    hide Load, HeaderAt;
    TiledApart(blocks, FreeTop(m, b), top);
    ChainInside(m, b, hobs, EndOfList(m, b));
  }

  // Where the k-th block lies, or the end mark behind the last.
  function At(hobs: seq<Hob>, k: int, end: int): int
    requires 0 <= k <= |hobs|
  {
    if k == |hobs| then end else hobs[k].at
  }

  /** The first block of the given kind from the k-th on, or the length of the list. */
  function FirstOfKind(hobs: seq<Hob>, kind: int, k: nat): (j: nat)
    requires k <= |hobs|
    ensures k <= j <= |hobs| && (forall i :: k <= i < j ==> hobs[i].kind != kind) && (j < |hobs| ==> hobs[j].kind == kind)
    decreases |hobs| - k
  {
    if k == |hobs| || hobs[k].kind == kind then k else FirstOfKind(hobs, kind, k + 1)
  }

  // The block's name is the given pair of 64-bit words.
  predicate Named(m: seq<byte>, h: Hob, guid: (nat, nat)) {
    && h.kind == HOB_GUID_EXTENSION && InMemory(m, h.at, 24)
    && guid == (Load(m, h.at + 8, 8), Load(m, h.at + 16, 8))
  }

  /** The first block of the given name from the k-th on, or the length of the list. */
  function FirstNamed(m: seq<byte>, hobs: seq<Hob>, guid: (nat, nat), k: nat): (j: nat)
    requires k <= |hobs|
    ensures k <= j <= |hobs| && (forall i :: k <= i < j ==> !Named(m, hobs[i], guid)) && (j < |hobs| ==> Named(m, hobs[j], guid))
    decreases |hobs| - k
  {
    if k == |hobs| || Named(m, hobs[k], guid) then k else FirstNamed(m, hobs, guid, k + 1)
  }

  // The first of a name is found by looking at the first of its kind, and then behind it.
  lemma {:induction false} FirstNamedFrom(m: seq<byte>, hobs: seq<Hob>, guid: (nat, nat), k: nat)
    requires k <= |hobs|
    ensures var j := FirstOfKind(hobs, HOB_GUID_EXTENSION, k);
            FirstNamed(m, hobs, guid, k) == if j < |hobs| && !Named(m, hobs[j], guid) then FirstNamed(m, hobs, guid, j + 1) else j
    decreases |hobs| - k
  {
    if k < |hobs| && hobs[k].kind != HOB_GUID_EXTENSION {
      FirstNamedFrom(m, hobs, guid, k + 1);
    }
  }

  // Its address, or null.
  function AddressOf(hobs: seq<Hob>, j: nat): int {
    if j < |hobs| then hobs[j].at else 0
  }

  // No block that carries a name lies at address zero, since the table is the first one.
  lemma GuidNotNull(m: seq<byte>, b: int, top: int, hobs: seq<Hob>, k: nat)
    requires Heap(m, b, top, hobs) && k <= |hobs|
    ensures var j := FirstOfKind(hobs, HOB_GUID_EXTENSION, k); j < |hobs| ==> 0 < AddressOf(hobs, j)
  {
    hide Heap, FirstOfKind;
    FirstIsHandoff(m, b, top, hobs);
    HeapBounds(m, b, top, hobs);
    HobHeader(m, b, top, hobs, FirstOfKind(hobs, HOB_GUID_EXTENSION, k));
  }

  /** The header of the k-th block of a heap, and where the next one is. */
  lemma HobHeader(m: seq<byte>, b: int, top: int, hobs: seq<Hob>, k: nat)
    requires Heap(m, b, top, hobs) && k <= |hobs|
    ensures var a := At(hobs, k, EndOfList(m, b));
            && b <= a && InMemory(m, a, 24)
            && (k < |hobs| ==> HeaderAt(m, a, hobs[k].kind, hobs[k].len) && hobs[k].kind != HOB_END
                               && At(hobs, k + 1, EndOfList(m, b)) == a + hobs[k].len && HEADER_SIZE <= hobs[k].len)
            && (k == |hobs| ==> HeaderAt(m, a, HOB_END, HEADER_SIZE))
            && (0 < k ==> b < a)
  {
    hide Load, HeaderAt;
    HeapBounds(m, b, top, hobs);
    ChainTail(m, b, hobs, EndOfList(m, b), k);
    if k < |hobs| {
      NextAt(m, hobs[k].at, hobs[k..], EndOfList(m, b));
      assert k + 1 < |hobs| ==> hobs[k..][1] == hobs[k + 1];
    }
  }

  lemma NextAt(m: seq<byte>, a: int, hobs: seq<Hob>, end: int)
    requires Chain(m, a, hobs, end) && hobs != []
    ensures HeaderAt(m, a, hobs[0].kind, hobs[0].len) && hobs[0].kind != HOB_END && HEADER_SIZE <= hobs[0].len && hobs[0].at == a
    ensures a + hobs[0].len == if |hobs| == 1 then end else hobs[1].at
  {
    hide HeaderAt;
    assert |hobs| > 1 ==> hobs[1..][0] == hobs[1];
  }
}
