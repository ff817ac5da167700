/** Where LocateAndDecompressPayload puts a payload: pages for its size and its alignment together, and an aligned address in them. */
module Destination {
  import opened Alignment
  import opened HobHeap
  import opened HobMemory
  import opened HobRuns
  import opened Memory
  import opened Primitives

  // SIZE_TO_PAGES
  function SizeToPages(size: nat): nat {
    size / PAGE_SIZE + if size % PAGE_SIZE != 0 then 1 else 0
  }

  // The bytes allocated for a payload: its size and its alignment are added in 32 bits.
  function PagesFor(size: nat, alignment: nat): nat {
    SizeToPages((size + alignment) % TWO32) * PAGE_SIZE
  }

  /** The destination in the pages at v lies with the whole payload inside them. */
  predicate Inside(v: nat, size: nat, alignment: nat) {
    v <= AlignValue(v, alignment) && AlignValue(v, alignment) + size <= v + PagesFor(size, alignment)
  }

  /**
   Whatever size and alignment: in pages that end before 2^32, as all pages of a heap do, the payload lies inside them exactly
   when the alignment is not zero and the sum of both does not wrap around in 32 bits.
   */
  lemma DestinationExact(v: nat, size: nat, a: nat)
    requires 0 < v && v % PAGE_SIZE == 0 && size < TWO32 && a < TWO32 && v + PagesFor(size, a) < TWO32
    ensures Inside(v, size, a) <==> size + a < TWO32 && a != 0
  {
    hide AlignValue, PagesFor, Inside;
    if size + a < TWO32 {
      ExactSumFits(v, size, a);
    } else {
      WrappedSumNeverFits(v, size, a);
    }
  }

  /** Pages for the exact sum suffice at any address, unless there is no alignment. */
  lemma ExactSumFits(v: nat, size: nat, a: nat)
    requires 0 < v < TWO32 && size + a < TWO32 && v + PagesFor(size, a) <= TWO32
    ensures Inside(v, size, a) <==> a != 0
  {
    hide AlignValue, SizeToPages;
    PagesCover(size + a);
    SumExact(size + a);
    if a == 0 {
      DestinationLost(v);
    } else {
      PlaceNear(v, a);
    }
  }

  /** Pages for a sum that wraps around are too few, whatever the alignment. */
  lemma WrappedSumNeverFits(v: nat, size: nat, a: nat)
    requires 0 < v && v % PAGE_SIZE == 0 && size < TWO32 && a < TWO32 && size + a >= TWO32 && v + PagesFor(size, a) < TWO32
    ensures !Inside(v, size, a)
  {
    hide AlignValue, SizeToPages;
    PagesCover((size + a) % TWO32);
    SumWraps(size + a);
    if TWO32 - PAGE_SIZE < a {
      PlaceHigh(v, a);
      BeforeLastPage(v, SizeToPages((size + a) % TWO32));
    }
  }

  // Aligning a page to one of the largest numbers moves it into the last page of the address space.
  lemma PlaceHigh(v: nat, a: nat)
    requires v < TWO32 && v % PAGE_SIZE == 0 && TWO32 - PAGE_SIZE < a < TWO32
    ensures TWO32 - PAGE_SIZE <= AlignValue(v, a) < TWO32
  {
    hide Pow, And, LowBits;
    PowTwo32();
    assert Pow(2, 12) == PAGE_SIZE by {
      PowPage();
    }
    PageBelow(v, a);
    var d := a - v;
    AndHigh(d, a - 1, 32, 12);
    AndAtMost(d, a - 1);
    LowBitsIsMod(d, 12);
    SumExact(d);
    SumExact(a - 1);
    SumExact(v + And(d, a - 1));
  }

  lemma PowPage()
    ensures Pow(2, 12) == PAGE_SIZE
  {
    assert Pow(2, 6) == 64;
    PowAdd(2, 6, 6);
  }

  lemma PageBelow(v: nat, a: nat)
    requires v < TWO32 && v % PAGE_SIZE == 0 && TWO32 - PAGE_SIZE < a < TWO32
    ensures v < a && (a - v) % PAGE_SIZE == a - (TWO32 - PAGE_SIZE)
  {
    var q := v / PAGE_SIZE;
    assert v == PAGE_SIZE * q;
    ModUnique(a - v, PAGE_SIZE, 0xFFFFF - q, a - (TWO32 - PAGE_SIZE));
  }

  lemma BeforeLastPage(v: nat, pages: nat)
    requires v % PAGE_SIZE == 0 && v + pages * PAGE_SIZE < TWO32
    ensures v + pages * PAGE_SIZE <= TWO32 - PAGE_SIZE
  {
  }

  lemma SumExact(x: int)
    requires 0 <= x < TWO32
    ensures x % TWO32 == x
  {
  }

  lemma SumWraps(x: int)
    requires TWO32 <= x < 2 * TWO32
    ensures x % TWO32 == x - TWO32
  {
  }

  lemma PagesCover(size: nat)
    ensures size <= SizeToPages(size) * PAGE_SIZE < size + PAGE_SIZE
  {
  }

  // The destination is behind v by less than the alignment.
  lemma PlaceNear(v: nat, a: nat)
    requires 0 < a < TWO32 && v + a <= TWO32
    ensures v <= AlignValue(v, a) < v + a
  {
    hide And;
    SumExact(a - 1);
    AndAtMost((a - v) % TWO32, a - 1);
  }

  // ---------- in a heap ----------

  // The whole payload at an address lies in pages that n has and s has not.
  predicate InNewest(s: HeapState, n: HeapState, at: int, size: nat) {
    && |n.blocks| == |s.blocks| + 1
    && n.blocks[|s.blocks|].at <= at && at + size <= n.blocks[|s.blocks|].at + n.blocks[|s.blocks|].len
  }

  // All blocks of the list lie below the address, and all earlier pages behind the payload.
  predicate AloneAt(s: HeapState, n: HeapState, at: int, size: nat) {
    && (forall k :: 0 <= k < |n.hobs| ==> n.hobs[k].at + n.hobs[k].len + HEADER_SIZE <= at)
    && forall k :: 0 <= k < |s.blocks| ==> at + size <= s.blocks[k].at
  }

  /**
   After a request in order the payload lies in the pages just handed out, apart from every block of the list and from all
   earlier pages, exactly when the request is granted, the alignment is not zero and its sum with the size does not wrap around.
   */
  lemma PayloadPlaced(s: HeapState, size: nat, a: nat)
    requires ValidHeap(s) && size < TWO32 && a < TWO32 && SoundRequest(s, SizeToPages((size + a) % TWO32))
    ensures var pages := SizeToPages((size + a) % TWO32);
            var n, at := AllocateStep(s, pages), AlignValue(Answer(s, pages), a);
            && ValidHeap(n)
            && (InNewest(s, n, at, size) <==> Granted(TopOf(s), BottomOf(s), pages) && size + a < TWO32 && a != 0)
            && (InNewest(s, n, at, size) ==> AloneAt(s, n, at, size))
  {
    hide AlignValue, AllocateStep, Granted, Affordable, NewTop, SizeToPages, Heap, Tiled, AllRecorded, Inside;
    var x := (size + a) % TWO32;
    PagesCover(x);
    var pages := SizeToPages(x);
    if pages == 0 {
      NothingAllocated(s);
      if size + a < TWO32 {
        SumExact(size + a);
      }
    } else if !Granted(TopOf(s), BottomOf(s), pages) {
      RefusedExact(s, pages);
    } else {
      GrantedPlace(s, pages);
      DestinationExact(Answer(s, pages), size, a);
      InsideIs(Answer(s, pages), size, a);
    }
  }

  lemma InsideIs(v: nat, size: nat, a: nat)
    ensures Inside(v, size, a) <==> v <= AlignValue(v, a) && AlignValue(v, a) + size <= v + SizeToPages((size + a) % TWO32) * PAGE_SIZE
  {
  }

  // Where the pages of a granted request lie.
  lemma GrantedPlace(s: HeapState, pages: int)
    requires ValidHeap(s) && 0 < pages < TWO32 && Granted(TopOf(s), BottomOf(s), pages) && SoundRequest(s, pages)
    ensures var n, v := AllocateStep(s, pages), Answer(s, pages);
            && ValidHeap(n) && n.blocks == s.blocks + [Block(v, pages * PAGE_SIZE)]
            && 0 < v && v % PAGE_SIZE == 0 && v + pages * PAGE_SIZE < TWO32
            && (forall k :: 0 <= k < |n.hobs| ==> n.hobs[k].at + n.hobs[k].len + HEADER_SIZE <= v)
            && (forall k :: 0 <= k < |s.blocks| ==> v + pages * PAGE_SIZE <= s.blocks[k].at)
  {
    hide AllocateStep, Granted, Affordable, NewTop, Load, Heap, Tiled, AllRecorded;
    GrantedKeeps(s, pages);
    GrantedFields(s, pages);
    var n := AllocateStep(s, pages);
    ValidParts(s);
    ValidParts(n);
    HeapApart(n.mem, n.at, n.top, n.hobs, n.blocks);
    var v := TopOf(s) - pages * PAGE_SIZE;
    AlignedPage(FreeTop(s.mem, s.at));
    SumExact(v);
    assert n.blocks[|s.blocks|] == Block(v, pages * PAGE_SIZE);
    forall k | 0 <= k < |s.blocks|
      ensures v + pages * PAGE_SIZE <= s.blocks[k].at
    {
      assert n.blocks[k] == s.blocks[k];
    }
  }

  // ---------- powers of two, and no alignment ----------

  /** For a power of two the destination is a multiple of it. */
  lemma DestinationAligned(v: nat, size: nat, k: nat)
    requires 0 < v < TWO32 && k < 32 && size + Pow(2, k) < TWO32 && v + PagesFor(size, Pow(2, k)) <= TWO32
    ensures 0 < Pow(2, k) && AlignValue(v, Pow(2, k)) % Pow(2, k) == 0 && Inside(v, size, Pow(2, k))
  {
    hide Pow, AlignValue, SizeToPages;
    PowPositive(2, k);
    SumExact(size + Pow(2, k));
    PagesCover(size + Pow(2, k));
    ExactSumFits(v, size, Pow(2, k));
    PlaceIs(v, k);
    AlignUp(v, Pow(2, k));
  }

  /** Without an alignment the destination is the null address, wherever the pages lie. */
  lemma DestinationLost(v: nat)
    requires 0 < v < TWO32
    ensures AlignValue(v, 0) == 0
  {
    hide Pow, And, LowBits;
    PowTwo32();
    var x := TWO32 - v;
    AndLowBits(x, 32);
    LowBitsIsMod(x, 32);
  }
}
