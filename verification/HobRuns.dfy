/** The two allocators as steps of one state, and what every run of them keeps. */
module HobRuns {
  import opened Primitives
  import opened Memory
  import opened HobMemory
  import opened HobHeap

  /** Memory, the address of the hand-off table, the end of the region, the list, the pages, and which blocks record them. */
  datatype HeapState = HeapState(mem: seq<byte>, at: int, top: int, hobs: seq<Hob>, blocks: seq<Block>, recs: seq<int>)

  predicate ValidHeap(s: HeapState) {
    Heap(s.mem, s.at, s.top, s.hobs) && Tiled(s.blocks, FreeTop(s.mem, s.at), s.top) && AllRecorded(s.mem, s.hobs, s.blocks, s.recs)
  }

  lemma ValidParts(s: HeapState)
    requires ValidHeap(s)
    ensures Heap(s.mem, s.at, s.top, s.hobs) && InMemory(s.mem, s.at, HANDOFF_SIZE)
    ensures Tiled(s.blocks, FreeTop(s.mem, s.at), s.top) && AllRecorded(s.mem, s.hobs, s.blocks, s.recs)
    ensures s.at + HANDOFF_SIZE <= EndOfList(s.mem, s.at) && FreeBottom(s.mem, s.at) == EndOfList(s.mem, s.at) + HEADER_SIZE
    ensures FreeBottom(s.mem, s.at) <= FreeTop(s.mem, s.at) <= s.top && s.top + 64 <= |s.mem| <= TWO32
  {
    hide Load, Chain, Tiled, AllRecorded;
    HeapFields(s.mem, s.at, s.top, s.hobs);
  }

  /** CreateHob; a block of no length is not in the list. */
  function CreateStep(s: HeapState, kind: int, length: int): HeapState
    requires ValidHeap(s) && 0 <= kind < 0x1_0000 && 0 <= length < 0x1_0000
  {
    ValidParts(s);
    Round8Range(length);
    var e, len := EndOfList(s.mem, s.at), Round8(length);
    if FreeTop(s.mem, s.at) - FreeBottom(s.mem, s.at) < len then s
    else s.(mem := Created(s.mem, s.at, kind, len), hobs := s.hobs + NewHob(e, kind, len))
  }

  // What a block adds to the list.
  function NewHob(e: int, kind: int, len: int): seq<Hob> {
    if len == 0 then [] else [Hob(e, kind, len)]
  }

  // On a heap the 64-bit difference of the check does not wrap around.
  lemma CreateIs(s: HeapState, kind: int, length: int)
    requires ValidHeap(s) && 0 <= kind < 0x1_0000 && 0 <= length < 0x1_0000
    ensures InMemory(s.mem, s.at, HANDOFF_SIZE)
    ensures var e, len := EndOfList(s.mem, s.at), Round8(length);
            if (FreeTop(s.mem, s.at) - FreeBottom(s.mem, s.at)) % TWO64 < len then CreateStep(s, kind, length) == s
            else && 0 <= len && e + len + HEADER_SIZE <= |s.mem|
                 && CreateStep(s, kind, length) == s.(mem := Created(s.mem, s.at, kind, len), hobs := s.hobs + NewHob(e, kind, len))
  {
    hide Load, Created, Heap, Tiled, AllRecorded, Round8;
    ValidParts(s);
    Round8Range(length);
    Reduced(FreeTop(s.mem, s.at) - FreeBottom(s.mem, s.at));
  }

  // The first thing AllocatePages does: lower the top to a page boundary.
  function TrimStep(s: HeapState): HeapState
    requires ValidHeap(s)
  {
    ValidParts(s);
    s.(mem := Trimmed(s.mem, s.at), top := if s.blocks == [] then Aligned(FreeTop(s.mem, s.at)) else s.top)
  }

  // The top a grant is decided on, and the bottom.
  function TopOf(s: HeapState): int
    requires ValidHeap(s)
  {
    ValidParts(s);
    Aligned(FreeTop(s.mem, s.at))
  }

  function BottomOf(s: HeapState): int
    requires ValidHeap(s)
  {
    ValidParts(s);
    FreeBottom(s.mem, s.at)
  }

  /** AllocatePages. */
  function AllocateStep(s: HeapState, pages: int): HeapState
    requires ValidHeap(s) && 0 <= pages < TWO32
  {
    if pages == 0 then s
    else if !Granted(TopOf(s), BottomOf(s), pages) then TrimStep(s)
    else
      hide Heap, Tiled, AllRecorded;
      TrimmedHeap(s.mem, s.at, s.top, s.hobs, s.blocks, s.recs);
      AlignedPage(FreeTop(s.mem, s.at));
      RoomForRecord(Trimmed(s.mem, s.at), s.at, pages);
      var low, len, e := NewTop(TopOf(s), pages), pages * PAGE_SIZE % TWO32, EndOfList(s.mem, s.at);
      var lowered := Store(Trimmed(s.mem, s.at), s.at + 32, 8, low);
      TrimStep(s).(mem := PutRecord(Created(lowered, s.at, HOB_MEMORY_ALLOCATION, ALLOCATION_SIZE), e, low, len),
                   hobs := s.hobs + [Hob(e, HOB_MEMORY_ALLOCATION, ALLOCATION_SIZE)],
                   blocks := s.blocks + [Block(low, len)],
                   recs := s.recs + [|s.hobs|])
  }

  /** The address that AllocatePages returns. */
  function Answer(s: HeapState, pages: int): nat
    requires ValidHeap(s) && 0 <= pages < TWO32
  {
    if pages == 0 || !Granted(TopOf(s), BottomOf(s), pages) then 0 else NewTop(TopOf(s), pages) % TWO32
  }

  lemma AlignedPage(t: int)
    requires 0 <= t
    ensures 0 <= Aligned(t) <= t < Aligned(t) + PAGE_SIZE && Aligned(t) % PAGE_SIZE == 0
  {
  }

  // ---------- what one step does ----------

  // The block is within what is free.
  predicate BlockFits(s: HeapState, length: int)
    requires ValidHeap(s)
  {
    ValidParts(s);
    Round8(length) <= FreeTop(s.mem, s.at) - FreeBottom(s.mem, s.at)
  }

  /** An end mark is in order only if nothing is created, for want of room or of length. */
  predicate SoundCreate(s: HeapState, kind: int, length: int)
    requires ValidHeap(s)
  {
    kind != HOB_END || Round8(length) == 0 || !BlockFits(s, length)
  }

  /** With a rounded length of zero nothing is created: the block the caller gets is the end mark. */
  lemma CreateNothing(s: HeapState, kind: int, length: int)
    requires ValidHeap(s) && 0 <= kind < 0x1_0000 && 0 <= length < 0x1_0000 && Round8(length) == 0
    ensures CreateStep(s, kind, length) == s && InMemory(s.mem, s.at, HANDOFF_SIZE)
    ensures HeaderAt(s.mem, EndOfList(s.mem, s.at), HOB_END, HEADER_SIZE)
  {
    hide Load, Created, Heap, Tiled, AllRecorded, Round8, HeaderAt;
    ValidParts(s);
    CreatedNothing(s.mem, s.at, s.top, s.hobs, kind);
    assert s.hobs + [] == s.hobs;
  }

  /** Creating a block keeps the heap, lengthens the list by this block when it fits, and leaves the pages alone. */
  lemma CreateKeeps(s: HeapState, kind: int, length: int)
    requires ValidHeap(s) && 0 <= kind < 0x1_0000 && 0 <= length < 0x1_0000 && SoundCreate(s, kind, length)
    ensures var n := CreateStep(s, kind, length);
            && ValidHeap(n) && n.blocks == s.blocks && n.at == s.at && n.top == s.top && InMemory(n.mem, n.at, HANDOFF_SIZE)
            && FreeTop(n.mem, n.at) == FreeTop(s.mem, s.at) && SameFrom(s.mem, n.mem, FreeTop(s.mem, s.at))
            && n.hobs == s.hobs + (if BlockFits(s, length) then NewHob(EndOfList(s.mem, s.at), kind, Round8(length)) else [])
            && (Round8(length) == 0 || !BlockFits(s, length) ==> n == s)
  {
    hide Load, Created, Heap, Tiled, AllRecorded, Round8;
    ValidParts(s);
    Round8Exact(length);
    Round8Range(length);
    var t, len := FreeTop(s.mem, s.at), Round8(length);
    if len == 0 {
      CreateNothing(s, kind, length);
    } else if BlockFits(s, length) {
      CreateFits(s.mem, s.at, s.top, s.hobs, s.blocks, s.recs, kind, len);
      CreatedElsewhere(s.mem, s.at, kind, len, t, |s.mem| - t);
      HeapPlace(Created(s.mem, s.at, kind, len), s.at, s.top, s.hobs + [Hob(EndOfList(s.mem, s.at), kind, len)]);
    }
  }

  /**
   A block that fits leaves some list behind exactly when it is no end mark or its rounded length is zero, and leaves the list
   lengthened by itself exactly when it is no end mark and its length is neither zero nor above 0xFFF8.
   */
  lemma CreateExact(s: HeapState, kind: int, length: int)
    requires ValidHeap(s) && 0 <= kind < 0x1_0000 && 0 <= length < 0x1_0000 && BlockFits(s, length)
    ensures InMemory(s.mem, s.at, HANDOFF_SIZE)
    ensures var m := CreateStep(s, kind, length).mem;
            && ((exists hobs :: Heap(m, s.at, s.top, hobs)) <==> kind != HOB_END || Round8(length) == 0)
            && (Heap(m, s.at, s.top, s.hobs + [Hob(EndOfList(s.mem, s.at), kind, Round8(length))])
                <==> kind != HOB_END && 0 < length <= 0xFFF8)
    ensures ValidHeap(CreateStep(s, kind, length)) <==> SoundCreate(s, kind, length)
  {
    hide Load, Created, Heap, Tiled, AllRecorded, Round8;
    ValidParts(s);
    Round8Range(length);
    Round8Exact(length);
    var n, e, len := CreateStep(s, kind, length), EndOfList(s.mem, s.at), Round8(length);
    if kind != HOB_END || len == 0 {
      CreateKeeps(s, kind, length);
      assert Heap(n.mem, s.at, s.top, n.hobs);
    } else {
      forall high, hobs
        ensures !Heap(n.mem, s.at, high, hobs)
      {
        CreatedEnd(s.mem, s.at, s.top, s.hobs, len, high, hobs);
      }
    }
    if len == 0 && Heap(n.mem, s.at, s.top, s.hobs + [Hob(e, kind, 0)]) {
      LastLength(n.mem, s.at, s.top, s.hobs + [Hob(e, kind, 0)]);
    }
  }

  lemma LastLength(m: seq<byte>, b: int, top: int, hobs: seq<Hob>)
    requires Heap(m, b, top, hobs)
    ensures hobs != [] && HEADER_SIZE <= hobs[|hobs| - 1].len
  {
    hide Load, Chain;
    HeapBounds(m, b, top, hobs);
  }

  // Memory from address a on is the same.
  predicate SameFrom(m: seq<byte>, r: seq<byte>, a: int) {
    SameAt(m, r, a, |m| - a)
  }

  /** A request is in order if the page boundary is not below the bottom, and request and record can be afforded. */
  predicate SoundRequest(s: HeapState, pages: int)
    requires ValidHeap(s)
  {
    pages == 0 || (BottomOf(s) <= TopOf(s) && Affordable(TopOf(s), BottomOf(s), pages))
  }

  // Such a request is granted just the pages asked for, with room for the record, if it is granted at all.
  lemma RequestSound(s: HeapState, pages: int)
    requires ValidHeap(s) && 0 < pages < TWO32 && BottomOf(s) <= TopOf(s)
    ensures SoundRequest(s, pages) <==> SoundGrant(TopOf(s), BottomOf(s), pages)
  {
    hide Load, Heap, Tiled, AllRecorded, SoundGrant, Affordable;
    ValidParts(s);
    AlignedPage(FreeTop(s.mem, s.at));
    AllocationCheckExact(TopOf(s), BottomOf(s), pages);
  }

  /** A refused request changes nothing but the alignment of the top, and keeps the heap just when the boundary allows it. */
  lemma RefusedExact(s: HeapState, pages: int)
    requires ValidHeap(s) && 0 < pages < TWO32 && !Granted(TopOf(s), BottomOf(s), pages)
    ensures var n := AllocateStep(s, pages);
            && (ValidHeap(n) <==> BottomOf(s) <= TopOf(s))
            && n.hobs == s.hobs && n.blocks == s.blocks && n.at == s.at && InMemory(n.mem, n.at, HANDOFF_SIZE)
            && FreeTop(n.mem, n.at) == TopOf(s) && SameFrom(s.mem, n.mem, FreeTop(s.mem, s.at))
  {
    hide Load, Heap, Tiled, AllRecorded, Trimmed, Granted;
    ValidParts(s);
    TrimmedHeap(s.mem, s.at, s.top, s.hobs, s.blocks, s.recs);
    TrimmedFrom(s.mem, s.at, FreeTop(s.mem, s.at));
  }

  lemma TrimmedFrom(m: seq<byte>, b: int, a: int)
    requires InMemory(m, b, HANDOFF_SIZE) && b + HANDOFF_SIZE <= a <= |m|
    ensures SameFrom(m, Trimmed(m, b), a)
  {
    hide Store, Load;
    StoreElsewhere(m, b + 32, 8, Aligned(FreeTop(m, b)), a, |m| - a);
  }

  /**
   A sound grant keeps the heap; the pages lie edge to edge below the earlier ones, they are recorded by one new block, and
   what was handed out before is not written to.
   */
  lemma GrantedKeeps(s: HeapState, pages: int)
    requires ValidHeap(s) && 0 < pages < TWO32 && Granted(TopOf(s), BottomOf(s), pages) && SoundRequest(s, pages)
    ensures var n, x := AllocateStep(s, pages), pages * PAGE_SIZE;
            && ValidHeap(n) && n.at == s.at && InMemory(n.mem, n.at, HANDOFF_SIZE) && FreeTop(n.mem, n.at) == TopOf(s) - x
            && n.blocks == s.blocks + [Block(TopOf(s) - x, x)]
            && n.hobs == s.hobs + [Hob(EndOfList(s.mem, s.at), HOB_MEMORY_ALLOCATION, ALLOCATION_SIZE)]
            && Records(n.mem, n.hobs[|s.hobs|], n.blocks[|s.blocks|])
            && SameFrom(s.mem, n.mem, FreeTop(n.mem, n.at))
  {
    hide Load, Heap, Tiled, AllRecorded, Trimmed, Granted, SoundGrant, NewTop, Created, PutRecord, Store, Records, Aligned, Affordable;
    ValidParts(s);
    RequestSound(s, pages);
    AlignedPage(FreeTop(s.mem, s.at));
    TrimmedHeap(s.mem, s.at, s.top, s.hobs, s.blocks, s.recs);
    var b, m, top := s.at, Trimmed(s.mem, s.at), TrimStep(s).top;
    RoomForRecord(m, b, pages);
    AfterGrant(m, b, top, s.hobs, s.blocks, s.recs, pages);
    GrantIs(TopOf(s), BottomOf(s), pages);
    var low, len, e := NewTop(TopOf(s), pages), pages * PAGE_SIZE % TWO32, EndOfList(s.mem, b);
    var lowered := Store(m, b + 32, 8, low);
    Recorded(lowered, b, top, s.hobs, s.blocks, s.recs, low, len);
    var n := AllocateStep(s, pages);
    TiledMore(s.blocks, n.blocks, TopOf(s), top, low);
    LastRecord(n.mem, n.hobs, n.blocks, n.recs);
    HeapPlace(n.mem, b, top, n.hobs);
    SoundTop(TopOf(s), BottomOf(s), pages);
    GrantFrom(s.mem, b, low, len);
  }

  // Nothing is written above the new top.
  lemma GrantFrom(m: seq<byte>, b: int, low: int, len: nat)
    requires InMemory(m, b, HANDOFF_SIZE) && b + HANDOFF_SIZE <= EndOfList(m, b) && EndOfList(m, b) + ALLOCATION_SIZE + HEADER_SIZE <= low <= |m|
    requires low < TWO64 && EndOfList(Trimmed(m, b), b) == EndOfList(m, b)
    ensures var lowered := Store(Trimmed(m, b), b + 32, 8, low);
            && EndOfList(lowered, b) == EndOfList(m, b)
            && SameFrom(m, PutRecord(Created(lowered, b, HOB_MEMORY_ALLOCATION, ALLOCATION_SIZE), EndOfList(m, b), low, len), low)
  {
    hide Load, Trimmed, Created, PutRecord, Store;
    var t := Trimmed(m, b);
    var lowered := Store(t, b + 32, 8, low);
    TrimmedFrom(m, b, low);
    TopFields(t, b, low);
    StoreElsewhere(t, b + 32, 8, low, low, |m| - low);
    CreatedElsewhere(lowered, b, HOB_MEMORY_ALLOCATION, ALLOCATION_SIZE, low, |m| - low);
    RecordElsewhere(Created(lowered, b, HOB_MEMORY_ALLOCATION, ALLOCATION_SIZE), EndOfList(m, b), low, len, low, |m| - low);
  }

  // What a grant leaves in the table, be it sound or not.
  lemma GrantedFields(s: HeapState, pages: int)
    requires ValidHeap(s) && 0 < pages < TWO32 && Granted(TopOf(s), BottomOf(s), pages)
    ensures var n := AllocateStep(s, pages);
            && n.at == s.at && InMemory(n.mem, n.at, HANDOFF_SIZE) && n.top <= TWO32
            && FreeTop(n.mem, n.at) == NewTop(TopOf(s), pages) && FreeBottom(n.mem, n.at) == BottomOf(s) + ALLOCATION_SIZE
            && n.blocks == s.blocks + [Block(NewTop(TopOf(s), pages), pages * PAGE_SIZE % TWO32)]
  {
    hide Load, Heap, Tiled, AllRecorded, Trimmed, Granted, NewTop, Created, PutRecord, Store, Aligned;
    ValidParts(s);
    AlignedPage(FreeTop(s.mem, s.at));
    TrimmedHeap(s.mem, s.at, s.top, s.hobs, s.blocks, s.recs);
    var b, m := s.at, Trimmed(s.mem, s.at);
    RoomForRecord(m, b, pages);
    var low, len, e := NewTop(TopOf(s), pages), pages * PAGE_SIZE % TWO32, EndOfList(s.mem, b);
    var lowered := Store(m, b + 32, 8, low);
    TopFields(m, b, low);
    CreatedFields(lowered, b, HOB_MEMORY_ALLOCATION, ALLOCATION_SIZE);
    FieldsElsewhere(Created(lowered, b, HOB_MEMORY_ALLOCATION, ALLOCATION_SIZE), e, low, len, b);
  }

  // The heap is kept, and either nothing is handed out or just the pages asked for.
  predicate Served(s: HeapState, n: HeapState, pages: int)
    requires ValidHeap(s)
  {
    ValidHeap(n) && (n.blocks == s.blocks || n.blocks == s.blocks + [Block(TopOf(s) - pages * PAGE_SIZE, pages * PAGE_SIZE)])
  }

  /** A request is served or refused as it should be exactly when it is in order. */
  lemma RequestExact(s: HeapState, pages: int)
    requires ValidHeap(s) && 0 < pages < TWO32
    ensures Served(s, AllocateStep(s, pages), pages) <==> SoundRequest(s, pages)
  {
    hide Load, Tiled, AllRecorded, Chain, Granted, NewTop, Affordable, AllocateStep;
    ValidParts(s);
    if Granted(TopOf(s), BottomOf(s), pages) {
      GrantedFields(s, pages);
      if SoundRequest(s, pages) {
        GrantedKeeps(s, pages);
      } else if Served(s, AllocateStep(s, pages), pages) {
        ServedSound(s, pages);
      }
    } else {
      RefusedExact(s, pages);
      if BottomOf(s) <= TopOf(s) {
        RequestSound(s, pages);
      }
    }
  }

  // A grant that serves is sound.
  lemma ServedSound(s: HeapState, pages: int)
    requires ValidHeap(s) && 0 < pages < TWO32 && Granted(TopOf(s), BottomOf(s), pages) && Served(s, AllocateStep(s, pages), pages)
    ensures SoundRequest(s, pages)
  {
    hide Load, Tiled, AllRecorded, Chain, Granted, NewTop, Affordable, AllocateStep;
    ValidParts(s);
    GrantedFields(s, pages);
    var n, low := AllocateStep(s, pages), NewTop(TopOf(s), pages);
    ValidParts(n);
    assert n.blocks[|s.blocks|] == Block(low, pages * PAGE_SIZE % TWO32);
    assert low == TopOf(s) - pages * PAGE_SIZE && BottomOf(s) + ALLOCATION_SIZE <= low;
    RequestSound(s, pages);
  }

  // ---------- fresh heaps, and how they are spoilt ----------

  /** What HobConstructor leaves. */
  function Fresh(m: seq<byte>, b: nat, bottom: nat, top: nat, freeTop: nat): HeapState
    requires InMemory(m, b, 64)
  {
    HeapState(TableWritten(m, b, bottom, top, freeTop), b, freeTop, [Hob(b, HOB_HANDOFF, HANDOFF_SIZE)], [], [])
  }

  lemma FreshValid(m: seq<byte>, b: nat, bottom: nat, top: nat, freeTop: nat)
    requires |m| <= TWO32 && b + 64 <= freeTop && freeTop + 64 <= |m|
    ensures var s := Fresh(m, b, bottom, top, freeTop);
            ValidHeap(s) && InMemory(s.mem, b, HANDOFF_SIZE) && FreeTop(s.mem, b) == freeTop && FreeBottom(s.mem, b) == b + 64
  {
    hide TableWritten, Load, HeaderAt, TableBytes, Chain;
    TableStored(m, b, bottom, top, freeTop);
    TableIsHeap(TableWritten(m, b, bottom, top, freeTop), b, bottom, top, freeTop);
    HeapPlace(TableWritten(m, b, bottom, top, freeTop), b, freeTop, [Hob(b, HOB_HANDOFF, HANDOFF_SIZE)]);
  }

  /** A request for more than lies below the top of a fresh heap is granted, and leaves no heap. */
  lemma AllocationCanCorrupt(m: seq<byte>)
    requires 0x20_0040 <= |m| <= TWO32
    ensures var s := Fresh(m, 0x10_0000, 0, 0x20_0000, 0x20_0000);
            && ValidHeap(s) && Granted(TopOf(s), BottomOf(s), 0x300) && !ValidHeap(AllocateStep(s, 0x300))
  {
    hide Load, Tiled, AllRecorded, Chain, AllocateStep, TableWritten;
    var s := Fresh(m, 0x10_0000, 0, 0x20_0000, 0x20_0000);
    FreshValid(m, 0x10_0000, 0, 0x20_0000, 0x20_0000);
    assert Granted(0x20_0000, 0x10_0040, 0x300) && NewTop(0x20_0000, 0x300) > TWO32;
    GrantedFields(s, 0x300);
  }

  /** From a fresh heap whose page boundary lies below the bottom, even a refused request leaves no heap. */
  lemma TrimCanCorrupt(m: seq<byte>)
    requires 0x10_0840 <= |m| <= TWO32
    ensures var s := Fresh(m, 0x10_0000, 0, 0x10_0800, 0x10_0800);
            && ValidHeap(s) && !Granted(TopOf(s), BottomOf(s), 1) && !ValidHeap(AllocateStep(s, 1))
  {
    hide Load, Tiled, AllRecorded, Chain, AllocateStep, TableWritten, Heap;
    var s := Fresh(m, 0x10_0000, 0, 0x10_0800, 0x10_0800);
    FreshValid(m, 0x10_0000, 0, 0x10_0800, 0x10_0800);
    assert !Granted(0x10_0000, 0x10_0040, 1);
    RefusedExact(s, 1);
  }

  // ---------- runs ----------

  datatype Op = Create(kind: int, length: int) | Allocate(pages: int)

  predicate WfOp(op: Op) {
    match op
    case Create(kind, length) => 0 <= kind < 0x1_0000 && 0 <= length < 0x1_0000
    case Allocate(pages) => 0 <= pages < TWO32
  }

  function Next(s: HeapState, op: Op): HeapState
    requires ValidHeap(s) && WfOp(op)
  {
    match op
    case Create(kind, length) => CreateStep(s, kind, length)
    case Allocate(pages) => AllocateStep(s, pages)
  }

  /** What a caller can test before the operation. */
  predicate SoundOp(s: HeapState, op: Op)
    requires ValidHeap(s) && WfOp(op)
  {
    match op
    case Create(kind, length) => SoundCreate(s, kind, length)
    case Allocate(pages) => SoundRequest(s, pages)
  }

  // The later state has the list and the pages of the earlier one, perhaps more, and the same contents in the earlier pages.
  predicate Grown(s: HeapState, n: HeapState) {
    && s.hobs <= n.hobs && s.blocks <= n.blocks && n.at == s.at
    && forall k :: 0 <= k < |s.blocks| ==> SameAt(s.mem, n.mem, s.blocks[k].at, s.blocks[k].len)
  }

  lemma StepGrows(s: HeapState, op: Op)
    requires ValidHeap(s) && WfOp(op) && SoundOp(s, op)
    ensures ValidHeap(Next(s, op)) && Grown(s, Next(s, op))
  {
    hide Load, Heap, AllRecorded, Tiled, Created, AllocateStep, CreateStep, SoundGrant, Granted;
    ValidParts(s);
    var n, t := Next(s, op), FreeTop(s.mem, s.at);
    match op
    case Create(kind, length) =>
      CreateKeeps(s, kind, length);
      KeptAbove(s, n.mem, t);
    case Allocate(pages) =>
      if pages == 0 {
        NothingAllocated(s);
        KeptAbove(s, n.mem, t);
      } else if Granted(TopOf(s), BottomOf(s), pages) {
        GrantedKeeps(s, pages);
        KeptAbove(s, n.mem, FreeTop(n.mem, n.at));
      } else {
        RefusedExact(s, pages);
        KeptAbove(s, n.mem, t);
      }
  }

  lemma NothingAllocated(s: HeapState)
    requires ValidHeap(s)
    ensures AllocateStep(s, 0) == s && SameFrom(s.mem, s.mem, FreeTop(s.mem, s.at))
  {
    hide Load, Chain, Tiled, AllRecorded;
    ValidParts(s);
  }

  // Pages lie above the top, so what keeps the memory there keeps their contents.
  lemma KeptAbove(s: HeapState, r: seq<byte>, a: int)
    requires ValidHeap(s) && 0 <= a <= FreeTop(s.mem, s.at) && SameFrom(s.mem, r, a)
    ensures forall k :: 0 <= k < |s.blocks| ==> SameAt(s.mem, r, s.blocks[k].at, s.blocks[k].len)
  {
    hide Load, Heap, AllRecorded;
    ValidParts(s);
    TiledSizes(s.blocks, FreeTop(s.mem, s.at), s.top);
    forall k | 0 <= k < |s.blocks|
      ensures SameAt(s.mem, r, s.blocks[k].at, s.blocks[k].len)
    {
      SameWithin(s.mem, r, a, |s.mem| - a, s.blocks[k].at, s.blocks[k].len);
    }
  }

  lemma {:induction false} TiledSizes(blocks: seq<Block>, low: int, top: int)
    requires Tiled(blocks, low, top)
    ensures low <= top
    ensures forall k :: 0 <= k < |blocks| ==> 0 < blocks[k].len && low <= blocks[k].at && blocks[k].at + blocks[k].len <= top
    decreases |blocks|
  {
    if blocks != [] {
      var n := |blocks| - 1;
      TiledSizes(blocks[..n], low + blocks[n].len, top);
      assert forall k :: 0 <= k < n ==> blocks[k] == blocks[..n][k];
    }
  }

  predicate SoundRun(s: HeapState, ops: seq<Op>)
    requires ValidHeap(s) && forall k :: 0 <= k < |ops| ==> WfOp(ops[k])
    decreases |ops|
  {
    if ops == [] then true
    else SoundOp(s, ops[0]) && (StepGrows(s, ops[0]); SoundRun(Next(s, ops[0]), ops[1..]))
  }

  function Run(s: HeapState, ops: seq<Op>): HeapState
    requires ValidHeap(s) && (forall k :: 0 <= k < |ops| ==> WfOp(ops[k])) && SoundRun(s, ops)
    decreases |ops|
  {
    if ops == [] then s
    else
      StepGrows(s, ops[0]);
      Run(Next(s, ops[0]), ops[1..])
  }

  /**
   Whatever the interleaving, the heap stays well formed, list and pages only grow, blocks and pages stay apart, and pages
   handed out keep their contents.
   */
  lemma {:induction false} RunKeeps(s: HeapState, ops: seq<Op>)
    requires ValidHeap(s) && (forall k :: 0 <= k < |ops| ==> WfOp(ops[k])) && SoundRun(s, ops)
    ensures var n := Run(s, ops);
            && ValidHeap(n) && Grown(s, n)
            && (forall j, k :: 0 <= j < |n.hobs| && 0 <= k < |n.blocks| ==> n.hobs[j].at + n.hobs[j].len + HEADER_SIZE <= n.blocks[k].at)
            && (forall j, k :: 0 <= j < k < |n.blocks| ==> n.blocks[k].at + n.blocks[k].len <= n.blocks[j].at)
    decreases |ops|
  {
    hide Heap, AllRecorded, Tiled, Grown, Next, SoundOp;
    if ops == [] {
      NotGrown(s);
      HeapApart(s.mem, s.at, s.top, s.hobs, s.blocks);
    } else {
      var m := Next(s, ops[0]);
      StepGrows(s, ops[0]);
      RunKeeps(m, ops[1..]);
      GrownAgain(s, m, Run(m, ops[1..]));
    }
  }

  lemma NotGrown(s: HeapState)
    requires ValidHeap(s)
    ensures Grown(s, s)
  {
    hide Load, Heap, AllRecorded;
    ValidParts(s);
    TiledSizes(s.blocks, FreeTop(s.mem, s.at), s.top);
  }

  lemma GrownAgain(s: HeapState, m: HeapState, n: HeapState)
    requires Grown(s, m) && Grown(m, n)
    ensures Grown(s, n)
  {
    forall k | 0 <= k < |s.blocks|
      ensures SameAt(s.mem, n.mem, s.blocks[k].at, s.blocks[k].len)
    {
      assert s.blocks[k] == m.blocks[k];
    }
  }

  // ---------- runs from a page-aligned top ----------

  predicate AlignedTop(s: HeapState)
    requires ValidHeap(s)
  {
    ValidParts(s);
    FreeTop(s.mem, s.at) % PAGE_SIZE == 0
  }

  // A block that is in order, or pages that can be afforded.
  predicate AffordableOp(s: HeapState, op: Op)
    requires ValidHeap(s) && WfOp(op)
  {
    match op
    case Create(kind, length) => SoundCreate(s, kind, length)
    case Allocate(pages) => pages == 0 || Affordable(TopOf(s), BottomOf(s), pages)
  }

  // With an aligned top there is nothing to trim, and the top stays aligned.
  lemma AlignedStep(s: HeapState, op: Op)
    requires ValidHeap(s) && WfOp(op) && AlignedTop(s) && AffordableOp(s, op)
    ensures SoundOp(s, op) && ValidHeap(Next(s, op)) && AlignedTop(Next(s, op))
  {
    hide Load, Heap, AllRecorded, Tiled, Created, AllocateStep, CreateStep, SoundGrant, Granted, Affordable;
    ValidParts(s);
    match op
    case Create(kind, length) => CreateKeeps(s, kind, length);
    case Allocate(pages) =>
      if pages == 0 {
        NothingAllocated(s);
      } else if Granted(TopOf(s), BottomOf(s), pages) {
        GrantedKeeps(s, pages);
        WholePages(TopOf(s), pages);
      } else {
        RefusedExact(s, pages);
      }
  }

  predicate AffordableRun(s: HeapState, ops: seq<Op>)
    requires ValidHeap(s) && AlignedTop(s) && forall k :: 0 <= k < |ops| ==> WfOp(ops[k])
    decreases |ops|
  {
    if ops == [] then true
    else AffordableOp(s, ops[0]) && (AlignedStep(s, ops[0]); AffordableRun(Next(s, ops[0]), ops[1..]))
  }

  /** From a page-aligned top nothing but what each request costs has to be asked of a run. */
  lemma {:induction false} AlignedRunKeeps(s: HeapState, ops: seq<Op>)
    requires ValidHeap(s) && AlignedTop(s) && (forall k :: 0 <= k < |ops| ==> WfOp(ops[k])) && AffordableRun(s, ops)
    ensures SoundRun(s, ops) && ValidHeap(Run(s, ops)) && AlignedTop(Run(s, ops)) && Grown(s, Run(s, ops))
    decreases |ops|
  {
    hide Heap, AllRecorded, Tiled, Grown, Next, SoundOp, AffordableOp, AlignedTop;
    if ops == [] {
      NotGrown(s);
    } else {
      AlignedStep(s, ops[0]);
      StepGrows(s, ops[0]);
      AlignedRunKeeps(Next(s, ops[0]), ops[1..]);
      GrownAgain(s, Next(s, ops[0]), Run(Next(s, ops[0]), ops[1..]));
    }
  }
}
