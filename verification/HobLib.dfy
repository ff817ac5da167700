/** The hand-off list of HobLib.c and the page allocator of ShimLayer.c, over one byte array indexed by address. */
module HobLib {
  import opened Primitives
  import opened Memory
  import opened HobMemory
  import opened HobHeap
  import opened HobRuns

  class HobList {
    const mem: array<byte>
    var hobList: int
    // The end of the region, what lies in the list, what pages are handed out, and which blocks record them.
    ghost var top: int
    ghost var hobs: seq<Hob>
    ghost var blocks: seq<Block>
    ghost var recs: seq<int>

    ghost function State(): HeapState
      reads this, mem
    {
      HeapState(mem[..], hobList, top, hobs, blocks, recs)
    }

    ghost predicate Valid()
      reads this, mem
    {
      ValidHeap(State())
    }

    /**
     Write a hand-off table, an empty list behind it, and nothing else. The result is a heap, with what lies between the
     list and freeTop as its free memory, if there is room for the table below freeTop and for one more record above it.
     */
    constructor HobConstructor(memory: array<byte>, memoryBottom: nat, memoryTop: nat, freeBottom: nat, freeTop: nat)
      requires freeBottom + 64 <= memory.Length
      modifies memory
      ensures mem == memory && State() == Fresh(old(memory[..]), freeBottom, memoryBottom, memoryTop, freeTop)
      ensures mem[..freeBottom] == old(memory[..freeBottom]) && mem[freeBottom + 64..] == old(memory[freeBottom + 64..])
      ensures mem[freeBottom + 8..freeBottom + 56] == TableBytes(freeBottom, memoryBottom, memoryTop, freeTop)
      ensures memory.Length <= TWO32 && freeBottom + 64 <= freeTop && freeTop + 64 <= memory.Length ==>
                Valid() && FreeTop(mem[..], hobList) == freeTop && FreeBottom(mem[..], hobList) == freeBottom + 64
    {
      mem, hobList, top := memory, freeBottom, freeTop;
      hobs, blocks, recs := [Hob(freeBottom, HOB_HANDOFF, HANDOFF_SIZE)], [], [];
      new;
      hide HeaderAt, Load, Heap, TableBytes, TableWritten;
      WriteTable(freeBottom, memoryBottom, memoryTop, freeTop);
      TableStored(old(memory[..]), freeBottom, memoryBottom, memoryTop, freeTop);
      if memory.Length <= TWO32 && freeBottom + 64 <= freeTop && freeTop + 64 <= memory.Length {
        FreshValid(old(memory[..]), freeBottom, memoryBottom, memoryTop, freeTop);
      }
    }

    // The stores of HobConstructor, in order.
    method WriteTable(b: nat, memoryBottom: nat, memoryTop: nat, freeTop: nat)
      requires b + 64 <= mem.Length
      modifies mem
      ensures mem[..] == TableWritten(old(mem[..]), b, memoryBottom, memoryTop, freeTop)
    {
      hide PutHeader, Store;
      PutHead(b, HOB_HANDOFF, HANDOFF_SIZE);
      PutHead(b + HANDOFF_SIZE, HOB_END, HEADER_SIZE);
      PutField(mem, b + 8, 4, HANDOFF_VERSION);
      PutField(mem, b + 12, 4, FULL_CONFIGURATION);
      PutField(mem, b + 16, 8, memoryTop);
      PutField(mem, b + 24, 8, memoryBottom);
      PutField(mem, b + 32, 8, freeTop);
      PutField(mem, b + 40, 8, b + 64);
      PutField(mem, b + 48, 8, b + 56);
    }

    method PutHead(a: int, kind: nat, len: nat)
      requires InMemory(mem[..], a, HEADER_SIZE)
      modifies mem
      ensures mem[..] == PutHeader(old(mem[..]), a, kind, len)
    {
      hide Store;
      PutField(mem, a, 2, kind);
      PutField(mem, a + 2, 2, len);
      PutField(mem, a + 4, 4, 0);
    }

    /**
     Append a block, if the free memory is large enough for it; the block's own bytes behind its header are not written.
     On a heap the list grows by exactly this block, if its rounded length is not zero, and nothing else of it changes.
     */
    method CreateHob(kind: int, length: int) returns (hob: int)
      requires InMemory(mem[..], hobList, HANDOFF_SIZE) && 0 <= kind < 0x1_0000 && 0 <= length < 0x1_0000
      requires (FreeTop(mem[..], hobList) - FreeBottom(mem[..], hobList)) % TWO64 >= Round8(length) ==>
                 EndOfList(mem[..], hobList) + Round8(length) + HEADER_SIZE <= mem.Length
      modifies mem, this`hobs
      ensures var m, len := old(mem[..]), Round8(length);
              if (FreeTop(m, hobList) - FreeBottom(m, hobList)) % TWO64 < len then hob == 0 && mem[..] == m && hobs == old(hobs)
              else hob == EndOfList(m, hobList) && 0 <= len && hob + len + HEADER_SIZE <= |m|
                   && mem[..] == Created(m, hobList, kind, len) && hobs == old(hobs) + NewHob(hob, kind, len)
      ensures old(Valid()) ==> State() == CreateStep(old(State()), kind, length)
    {
      hide Load, Created, PutHeader, Heap, Store, ValidHeap, CreateStep, Round8;
      Round8Range(length);
      var len := (length + 7) / 8 * 8 % 0x1_0000;
      var freeTop := GetField(mem, hobList + 32, 8);
      var freeBottom := GetField(mem, hobList + 40, 8);
      ghost var m := mem[..];
      if old(Valid()) {
        CreateIs(State(), kind, length);
      }
      if (freeTop - freeBottom) % TWO64 < len {
        return 0;
      }
      hob := GetField(mem, hobList + 48, 8);
      PutBlock(hob, kind, len);
      hobs := hobs + NewHob(hob, kind, len);
    }

    // The stores of CreateHob, in order.
    method PutBlock(hob: int, kind: nat, len: nat)
      requires InMemory(mem[..], hobList, HANDOFF_SIZE) && hob == EndOfList(mem[..], hobList) && hob + len + HEADER_SIZE <= mem.Length
      modifies mem
      ensures mem[..] == Created(old(mem[..]), hobList, kind, len)
    {
      hide Load, Created, PutHeader, Store;
      ghost var m := mem[..];
      PutHead(hob, kind, len);
      PutField(mem, hobList + 48, 8, hob + len);
      PutHead(hob + len, HOB_END, HEADER_SIZE);
      PutField(mem, hobList + 40, 8, hob + len + HEADER_SIZE);
      CreatedIs(m, hobList, kind, len);
    }

    /** Record an allocation in a block of its own; the caller sees to it that there is room. */
    method BuildMemoryAllocationHob(base: nat, len: nat)
      requires InMemory(mem[..], hobList, HANDOFF_SIZE) && base < TWO64 && len < TWO64
      requires (FreeTop(mem[..], hobList) - FreeBottom(mem[..], hobList)) % TWO64 >= ALLOCATION_SIZE
      requires EndOfList(mem[..], hobList) + ALLOCATION_SIZE + HEADER_SIZE <= mem.Length
      modifies mem, this`hobs, this`recs, this`blocks
      ensures var m, e := old(mem[..]), old(EndOfList(mem[..], hobList));
              && mem[..] == PutRecord(Created(m, hobList, HOB_MEMORY_ALLOCATION, ALLOCATION_SIZE), e, base, len)
              && hobs == old(hobs) + [Hob(e, HOB_MEMORY_ALLOCATION, ALLOCATION_SIZE)]
              && blocks == old(blocks) + [Block(base, len)] && recs == old(recs) + [|old(hobs)|]
    {
      hide Load, Created, PutHeader, Heap, Store, AllRecorded, Tiled;
      ghost var was := hobs;
      assert Round8(ALLOCATION_SIZE) == ALLOCATION_SIZE;
      var hob := CreateHob(HOB_MEMORY_ALLOCATION, ALLOCATION_SIZE);
      PutField(mem, hob + 8, 16, 0);
      PutField(mem, hob + 24, 8, base);
      PutField(mem, hob + 32, 8, len);
      PutField(mem, hob + 40, 4, BOOT_SERVICES_DATA);
      PutField(mem, hob + 44, 4, 0);
      blocks := blocks + [Block(base, len)];
      recs := recs + [|was|];
    }

    /**
     Take whole pages from the top, which is first lowered to a page boundary, and record them; null for no pages, and for
     a request that the check refuses.
     */
    method AllocatePages(pages: int) returns (p: int)
      requires Valid() && 0 <= pages < TWO32
      modifies mem, this`top, this`hobs, this`recs, this`blocks
      ensures State() == AllocateStep(old(State()), pages)
      ensures p == Answer(old(State()), pages)
    {
      hide Load, Created, PutHeader, Heap, Store, AllRecorded, Tiled, PutRecord, Trimmed, Aligned;
      ghost var m := mem[..];
      ValidParts(State());
      if pages == 0 {
        return 0;
      }
      AlignedPage(FreeTop(m, hobList));
      TrimmedIs(m, hobList);
      TrimmedHeap(m, hobList, top, hobs, blocks, recs);
      var freeTop := TrimTop();
      var freeBottom := GetField(mem, hobList + 40, 8);
      NeedIs(pages);
      if (freeTop - (pages * PAGE_SIZE % TWO32 + ALLOCATION_SIZE) % TWO32) % TWO64 < freeBottom {
        return 0;
      }
      RoomForRecord(mem[..], hobList, pages);
      freeTop := (freeTop - pages * PAGE_SIZE % TWO32) % TWO64;
      PutField(mem, hobList + 32, 8, freeTop);
      BuildMemoryAllocationHob(freeTop, pages * PAGE_SIZE % TWO32);
      p := freeTop % TWO32;
    }

    // The first step of AllocatePages: lower the top to a page boundary.
    method TrimTop() returns (freeTop: int)
      requires Valid()
      modifies mem, this`top
      ensures State() == TrimStep(old(State())) && freeTop == TopOf(old(State()))
    {
      hide Load, Heap, Store, AllRecorded, Tiled, Trimmed;
      ghost var m := mem[..];
      ValidParts(State());
      freeTop := GetField(mem, hobList + 32, 8);
      TrimmedIs(m, hobList);
      var offset := freeTop % PAGE_SIZE;
      if offset != 0 {
        freeTop := freeTop - offset;
        PutField(mem, hobList + 32, 8, freeTop);
      }
      top := if blocks == [] then freeTop else top;
    }

    /** The first block of the given kind, from the k-th block of the list on; null if there is none. */
    method GetNextHob(kind: int, start: int, ghost k: nat) returns (hob: int)
      requires Valid() && k <= |hobs| && start == At(hobs, k, EndOfList(mem[..], hobList))
      ensures hob == AddressOf(hobs, FirstOfKind(hobs, kind, k))
    {
      hide Load, Chain, Tiled, AllRecorded;
      ghost var end, j := EndOfList(mem[..], hobList), k;
      hob := start;
      HobHeader(mem[..], hobList, top, hobs, j);
      var found := GetField(mem, hob, 2);
      while found != HOB_END
        invariant k <= j <= |hobs| && hob == At(hobs, j, end) && InMemory(mem[..], hob, 24)
        invariant found == Load(mem[..], hob, 2) && (found == HOB_END <==> j == |hobs|)
        invariant FirstOfKind(hobs, kind, k) == FirstOfKind(hobs, kind, j)
        decreases |hobs| - j
      {
        HobHeader(mem[..], hobList, top, hobs, j);
        if found == kind {
          return;
        }
        var length := GetField(mem, hob + 2, 2);
        hob, j := hob + length, j + 1;
        HobHeader(mem[..], hobList, top, hobs, j);
        found := GetField(mem, hob, 2);
      }
      hob := 0;
    }

    /** The first block of the given kind in the whole list. */
    method GetFirstHob(kind: int) returns (hob: int)
      requires Valid()
      ensures hob == AddressOf(hobs, FirstOfKind(hobs, kind, 0))
    {
      hob := GetNextHob(kind, hobList, 0);
    }

    // The two 64-bit halves of the sixteen bytes at a are those of the given name.
    method CompareGuid(guid: (nat, nat), a: int) returns (same: bool)
      requires InMemory(mem[..], a, 16)
      ensures same <==> guid == (Load(mem[..], a, 8), Load(mem[..], a + 8, 8))
    {
      var low := GetField(mem, a, 8);
      var high := GetField(mem, a + 8, 8);
      same := low == guid.0 && high == guid.1;
    }

    /** The first block with the given name, from the k-th block of the list on; null if there is none. */
    method GetNextGuidHob(guid: (nat, nat), start: int, ghost k: nat) returns (hob: int)
      requires Valid() && k <= |hobs| && start == At(hobs, k, EndOfList(mem[..], hobList))
      ensures hob == AddressOf(hobs, FirstNamed(mem[..], hobs, guid, k))
    {
      hide Load, Chain, Tiled, AllRecorded, FirstNamed, FirstOfKind;
      ghost var i, j := k, FirstOfKind(hobs, HOB_GUID_EXTENSION, k);
      hob := GetNextHob(HOB_GUID_EXTENSION, start, k);
      while hob != 0
        invariant i <= |hobs| && j == FirstOfKind(hobs, HOB_GUID_EXTENSION, i) && hob == AddressOf(hobs, j)
        invariant FirstNamed(mem[..], hobs, guid, k) == FirstNamed(mem[..], hobs, guid, i)
        decreases |hobs| - i
      {
        FirstNamedFrom(mem[..], hobs, guid, i);
        HobHeader(mem[..], hobList, top, hobs, j);
        var same := CompareGuid(guid, hob + 8);
        if same {
          return;
        }
        var length := GetField(mem, hob + 2, 2);
        i := j + 1;
        hob := GetNextHob(HOB_GUID_EXTENSION, hob + length, i);
        j := FirstOfKind(hobs, HOB_GUID_EXTENSION, i);
      }
      FirstNamedFrom(mem[..], hobs, guid, i);
      GuidNotNull(mem[..], hobList, top, hobs, i);
    }

    /** The first block with the given name in the whole list. */
    method GetFirstGuidHob(guid: (nat, nat)) returns (hob: int)
      requires Valid()
      ensures hob == AddressOf(hobs, FirstNamed(mem[..], hobs, guid, 0))
    {
      hob := GetNextGuidHob(guid, hobList, 0);
    }
  }
}
