/** The image that loading and relocating a well-formed 32-bit ELF file leaves in memory. */
module ElfLoaded {
  import opened ElfFile
  import opened Memory
  import opened Primitives

  /** Memory with every segment laid out. */
  function Image(f: seq<byte>, m: seq<byte>, segs: seq<Segment>, base: int, image: int): (r: seq<byte>)
    requires forall k :: 0 <= k < |segs| ==> Fits(f, m, segs[k], base, image)
    ensures |r| == |m|
  {
    seq(|m|, x requires 0 <= x < |m| => ImageByte(f, m, segs, base, image, x))
  }

  lemma PlacedIs(f: seq<byte>, was: seq<byte>, now: seq<byte>, segs: seq<Segment>, base: int, image: int)
    requires forall k :: 0 <= k < |segs| ==> Fits(f, was, segs[k], base, image)
    requires Placed(f, was, now, segs, base, image)
    ensures now == Image(f, was, segs, base, image)
  {
    hide ImageByte;
  }

  // How far the image is from where it was linked for, in 32 bits.
  function Delta(base: int, image: int): nat {
    (image - base) % TWO32
  }

  /** Memory with the segments laid out and, away from the preferred address, the fixups applied. */
  function Loaded(f: seq<byte>, m: seq<byte>, base: int, image: int): (r: seq<byte>)
    requires HasTables(f) && forall k :: 0 <= k < PhNum(f) ==> Fits(f, m, Segments(f)[k], base, image)
    requires image != base ==> HasRelocations(f) && AllFit(m, Fixups(f, Delta(base, image)))
    ensures |r| == |m|
  {
    var laid := Image(f, m, Segments(f), base, image);
    if image == base then laid else assert AllFit(laid, Fixups(f, Delta(base, image))); ApplyAll(laid, Fixups(f, Delta(base, image)))
  }

  // ---------- well-formed files ----------

  function FileWindow(f: seq<byte>): Window
    requires HasTables(f)
  {
    Fold(Segments(f))
  }

  // The word at address o of the linked image lies in a segment.
  predicate Covered(segs: seq<Segment>, o: int) {
    exists k :: 0 <= k < |segs| && Loadable(segs[k]) && segs[k].paddr <= o && o + 4 <= segs[k].paddr + segs[k].memsz
  }

  predicate SegmentsOk(f: seq<byte>)
    requires HasTables(f)
  {
    && (forall k :: 0 <= k < PhNum(f) ==> Tame(Segments(f)[k]))
    && (forall k :: 0 <= k < PhNum(f) && Loadable(Segments(f)[k]) ==>
          InMemory(f, Segments(f)[k].offset, Segments(f)[k].filesz) && Segments(f)[k].filesz <= Segments(f)[k].memsz)
  }

  /** Segments that do not overlap, in the file and inside the address space. */
  predicate WellPlaced(f: seq<byte>) {
    HasTables(f) && SegmentsOk(f) && forall i, j :: 0 <= i < j < PhNum(f) ==> Apart(Segments(f)[i], Segments(f)[j])
  }

  /** Fixups of separate words, each in a segment. */
  predicate WellRelocated(f: seq<byte>) {
    && HasRelocations(f)
    && (forall k :: 0 <= k < |Fixups(f, 0)| ==> Covered(Segments(f), Fixups(f, 0)[k].slot))
    && SlotsApart(Fixups(f, 0))
  }

  /** What is asked of a file that is loaded to the address image: relocations are asked for only if it is moved. */
  predicate WellFormed(f: seq<byte>, image: int) {
    WellPlaced(f) && (image != FileWindow(f).base ==> WellRelocated(f))
  }

  /** Memory has room for the window at the address image, and the file at address at lies beside it. */
  predicate RoomFor(f: seq<byte>, m: seq<byte>, image: int, at: int)
    requires HasTables(f)
  {
    var size := FileWindow(f).end + 1 - FileWindow(f).base;
    && |m| <= TWO32 && 0 <= image && 0 <= size && image + size <= |m| && 0 <= at && at + |f| <= |m|
    && (at + |f| <= image || image + size <= at)
  }

  // ---------- fixups move with the image ----------

  // ys are the fixups xs of the image where it was linked for, for an image moved by delta.
  predicate Shifted(xs: seq<Fix>, ys: seq<Fix>, delta: int) {
    && |xs| == |ys|
    && forall k :: 0 <= k < |xs| ==>
                     && ys[k].slot == (xs[k].slot + delta) % TWO32 && ys[k].Add? == xs[k].Add? && ys[k].value == xs[k].value + delta
                     && 0 <= xs[k].slot < TWO32 && (xs[k].Add? ==> xs[k].value == 0)
  }

  lemma ShiftedParts(xs: seq<Fix>, ys: seq<Fix>, vs: seq<Fix>, ws: seq<Fix>, delta: int)
    requires Shifted(xs, ys, delta) && Shifted(vs, ws, delta)
    ensures Shifted(xs + vs, ys + ws, delta)
  {
  }

  lemma ShiftedEntry(f: seq<byte>, a: int, kind: nat, delta: nat, dynamic: bool)
    requires InMemory(f, a, RelWidth(kind))
    ensures Shifted(FixAt(f, a, kind, 0, dynamic), FixAt(f, a, kind, delta, dynamic), delta)
  {
    hide Value;
    ModAgain(Load(f, a, 4), delta);
  }

  lemma ModAgain(x: int, d: int)
    ensures (x % TWO32 + d) % TWO32 == (x + d) % TWO32
  {
  }

  lemma {:induction false} ShiftedTable(f: seq<byte>, t: Section, delta: nat, dynamic: bool, n: nat)
    requires Table(f, t.offset, t.entsize, n, RelWidth(t.kind))
    ensures Shifted(TableFixes(f, t, 0, dynamic, n), TableFixes(f, t, delta, dynamic, n), delta)
  {
    hide FixAt, EntryAt;
    if n != 0 {
      var a := EntryAt(t.offset, t.entsize, n - 1);
      ShiftedTable(f, t, delta, dynamic, n - 1);
      ShiftedEntry(f, a, t.kind, delta, dynamic);
      ShiftedParts(TableFixes(f, t, 0, dynamic, n - 1), TableFixes(f, t, delta, dynamic, n - 1),
                   FixAt(f, a, t.kind, 0, dynamic), FixAt(f, a, t.kind, delta, dynamic), delta);
    }
  }

  lemma ShiftedSection(f: seq<byte>, t: Section, delta: nat, dynamic: bool)
    requires RelTable(f, t)
    ensures Shifted(SectionFixes(f, t, 0, dynamic), SectionFixes(f, t, delta, dynamic), delta)
  {
    hide TableFixes, EntryAt;
    if t.size != 0 {
      ShiftedTable(f, t, delta, dynamic, RelCount(t));
    }
  }

  lemma {:induction false} ShiftedExec(f: seq<byte>, delta: nat, n: nat)
    requires HasTables(f) && ExecTables(f) && n <= ShNum(f)
    ensures Shifted(ExecFixes(f, 0, n), ExecFixes(f, delta, n), delta)
  {
    hide SectionFixes, HasTables, Load, SectionOf, RelTable, Shifted;
    if n == 0 {
      ShiftedNone(delta);
    } else {
      ShiftedExec(f, delta, n - 1);
      ShiftedPart(f, delta, n - 1);
      ExecNext(f, 0, n - 1);
      ExecNext(f, delta, n - 1);
      ShiftedParts(ExecFixes(f, 0, n - 1), ExecFixes(f, delta, n - 1), ExecPart(f, 0, n - 1), ExecPart(f, delta, n - 1), delta);
    }
  }

  lemma ShiftedNone(delta: int)
    ensures Shifted([], [], delta)
  {
  }

  lemma ShiftedPart(f: seq<byte>, delta: nat, k: nat)
    requires HasTables(f) && ExecTables(f) && k < ShNum(f)
    ensures Shifted(ExecPart(f, 0, k), ExecPart(f, delta, k), delta)
  {
    hide SectionFixes, HasTables, Load, SectionOf, RelTable, Shifted;
    if Applies(f, k) {
      ShiftedSection(f, SectionOf(f, k), delta, false);
    } else {
      ShiftedNone(delta);
    }
  }

  /** An image moved by delta asks for the same fixups at addresses moved by delta, each with delta more. */
  lemma FixupsShift(f: seq<byte>, delta: nat)
    requires HasRelocations(f)
    ensures Shifted(Fixups(f, 0), Fixups(f, delta), delta)
  {
    hide SectionFixes, Load, RelTable, Shifted, ExecFixes, ExecTables, RelocationSection, DynamicSection;
    if Load(f, 16, 2) == ET_DYN {
      match RelocationSection(f)
      case None => ShiftedNone(delta);
      case Found(t) => ShiftedSection(f, t, delta, true);
    } else {
      ShiftedExec(f, delta, ShNum(f));
    }
  }

  // ---------- the loaded image ----------

  // A loadable segment's place in the window.
  lemma SegmentPlace(f: seq<byte>, m: seq<byte>, image: int, at: int, k: int)
    requires WellFormed(f, image) && RoomFor(f, m, image, at) && 0 <= k < PhNum(f) && Loadable(Segments(f)[k])
    ensures var s, w := Segments(f)[k], FileWindow(f);
            && w.base <= s.paddr && s.paddr + s.memsz <= w.end + 1 && s.paddr < w.base + TWO32
            && Target(s, w.base, image) == image + s.paddr - w.base
  {
    hide SlotsApart, Covered, Apart, Fixups, RelTable, DynTable, ExecTables, RelocationSection, DynamicSection, Table, Load,
         Segments, Fold;
    WindowHolds(Segments(f), k);
    TargetIs(Segments(f)[k], FileWindow(f).base, image);
  }

  // A word of a segment keeps its place in the window.
  lemma WordPlace(f: seq<byte>, m: seq<byte>, image: int, at: int, o: int)
    requires WellFormed(f, image) && RoomFor(f, m, image, at) && Covered(Segments(f), o)
    ensures var w := FileWindow(f);
            && w.base <= o && o + 4 <= w.end + 1 && (o + Delta(w.base, image)) % TWO32 == image + o - w.base
  {
    hide SlotsApart, Apart, Fixups, RelTable, DynTable, ExecTables, RelocationSection, DynamicSection, Table, Load, Segments,
         Fold, FileWindow, Delta, SegmentsOk;
    var k :| 0 <= k < PhNum(f) && Loadable(Segments(f)[k]) && Segments(f)[k].paddr <= o && o + 4 <= Segments(f)[k].paddr + Segments(f)[k].memsz;
    SegmentPlace(f, m, image, at, k);
    SlotPlace(o, FileWindow(f).base, image);
  }

  lemma SlotPlace(o: int, base: int, image: int)
    requires 0 <= image + o - base < TWO32
    ensures (o + Delta(base, image)) % TWO32 == image + o - base
  {
  }

  /** In such a memory the loader finds room for every segment and every fixup, apart from the file. */
  lemma RoomSuffices(f: seq<byte>, m: seq<byte>, image: int, at: int)
    requires WellFormed(f, image) && RoomFor(f, m, image, at)
    ensures forall k :: 0 <= k < PhNum(f) ==>
                          && Fits(f, m, Segments(f)[k], FileWindow(f).base, image)
                          && (Loadable(Segments(f)[k]) ==>
                                var t := Target(Segments(f)[k], FileWindow(f).base, image); t + Segments(f)[k].memsz <= at || at + |f| <= t)
    ensures image != FileWindow(f).base ==>
              && AllFree(Fixups(f, Delta(FileWindow(f).base, image)), |m|, at, |f|) && AllFit(m, Fixups(f, Delta(FileWindow(f).base, image)))
              && SlotsApart(Fixups(f, Delta(FileWindow(f).base, image)))
  {
    hide Fixups, RelTable, DynTable, ExecTables, RelocationSection, DynamicSection, Table, Load, Covered, Delta, SlotsApart,
         Segments, FileWindow;
    forall k | 0 <= k < PhNum(f)
      ensures Fits(f, m, Segments(f)[k], FileWindow(f).base, image)
      ensures Loadable(Segments(f)[k]) ==>
                var t := Target(Segments(f)[k], FileWindow(f).base, image); t + Segments(f)[k].memsz <= at || at + |f| <= t
    {
      if Loadable(Segments(f)[k]) {
        SegmentPlace(f, m, image, at, k);
      }
    }
    if image != FileWindow(f).base {
      SlotsFree(f, m, image, at);
      FreeFits(m, Fixups(f, Delta(FileWindow(f).base, image)), at, |f|);
    }
  }

  lemma SlotsFree(f: seq<byte>, m: seq<byte>, image: int, at: int)
    requires WellPlaced(f) && WellRelocated(f) && RoomFor(f, m, image, at)
    ensures AllFree(Fixups(f, Delta(FileWindow(f).base, image)), |m|, at, |f|)
    ensures SlotsApart(Fixups(f, Delta(FileWindow(f).base, image)))
    ensures |Fixups(f, Delta(FileWindow(f).base, image))| == |Fixups(f, 0)|
    ensures forall k :: 0 <= k < |Fixups(f, 0)| ==>
                          && Fixups(f, Delta(FileWindow(f).base, image))[k].slot == image + Fixups(f, 0)[k].slot - FileWindow(f).base
                          && FileWindow(f).base <= Fixups(f, 0)[k].slot && Fixups(f, 0)[k].slot + 4 <= FileWindow(f).end + 1
  {
    hide Fixups, RelTable, DynTable, ExecTables, RelocationSection, DynamicSection, Table, Load, Covered, Delta, Segments,
         FileWindow;
    var w := FileWindow(f);
    var xs, ys := Fixups(f, 0), Fixups(f, Delta(w.base, image));
    FixupsShift(f, Delta(w.base, image));
    forall k | 0 <= k < |xs|
      ensures ys[k].slot == image + xs[k].slot - w.base && w.base <= xs[k].slot && xs[k].slot + 4 <= w.end + 1
    {
      WordPlace(f, m, image, at, xs[k].slot);
    }
  }

  /** Loading changes nothing outside the window. */
  lemma LoadedOutside(f: seq<byte>, m: seq<byte>, image: int, at: int, x: int)
    requires WellFormed(f, image) && RoomFor(f, m, image, at) && 0 <= x < |m|
    requires x < image || image + (FileWindow(f).end + 1 - FileWindow(f).base) <= x
    ensures forall k :: 0 <= k < PhNum(f) ==> Fits(f, m, Segments(f)[k], FileWindow(f).base, image)
    ensures image != FileWindow(f).base ==> AllFit(m, Fixups(f, Delta(FileWindow(f).base, image)))
    ensures Loaded(f, m, FileWindow(f).base, image)[x] == m[x]
  {
    hide Fixups, RelTable, DynTable, ExecTables, RelocationSection, DynamicSection, Table, Load, Covered, Delta, Segments,
         FileWindow, ImageByte, ApplyAll, Fits, Target, RoomFor, SlotsApart, SegmentsOk;
    RoomSuffices(f, m, image, at);
    var base, segs := FileWindow(f).base, Segments(f);
    forall k | 0 <= k < |segs| && Loadable(segs[k])
      ensures x < Target(segs[k], base, image) || Target(segs[k], base, image) + segs[k].memsz <= x
    {
      SegmentPlace(f, m, image, at, k);
    }
    ImageOutside(f, m, segs, base, image, x);
    if image != base {
      SlotsFree(f, m, image, at);
      ByteKept(Image(f, m, segs, base, image), Fixups(f, Delta(base, image)), x);
    }
  }

  // A byte outside the slots is kept by the fixups.
  lemma ByteKept(m: seq<byte>, xs: seq<Fix>, x: int)
    requires AllFit(m, xs) && 0 <= x < |m| && forall k :: 0 <= k < |xs| ==> x < xs[k].slot || xs[k].slot + 4 <= x
    ensures ApplyAll(m, xs)[x] == m[x]
  {
    FixesElsewhere(m, xs, x, 1);
    assert m[x] == m[x..x + 1][0] && ApplyAll(m, xs)[x] == ApplyAll(m, xs)[x..x + 1][0];
  }

  /** In the window every byte of a segment that no fixup touches is the file's, or zero behind the file's part. */
  lemma LoadedBytes(f: seq<byte>, m: seq<byte>, image: int, at: int, k: int, d: int)
    requires WellFormed(f, image) && RoomFor(f, m, image, at)
    requires 0 <= k < PhNum(f) && Loadable(Segments(f)[k]) && 0 <= d < Segments(f)[k].memsz
    requires image != FileWindow(f).base ==>
               forall j :: 0 <= j < |Fixups(f, 0)| ==>
                             Segments(f)[k].paddr + d < Fixups(f, 0)[j].slot || Fixups(f, 0)[j].slot + 4 <= Segments(f)[k].paddr + d
    ensures forall j :: 0 <= j < PhNum(f) ==> Fits(f, m, Segments(f)[j], FileWindow(f).base, image)
    ensures image != FileWindow(f).base ==> AllFit(m, Fixups(f, Delta(FileWindow(f).base, image)))
    ensures var s, x := Segments(f)[k], image + Segments(f)[k].paddr - FileWindow(f).base + d;
            && 0 <= x < |m| && (d < s.filesz ==> s.offset + d < |f|)
            && Loaded(f, m, FileWindow(f).base, image)[x] == if d < s.filesz then f[s.offset + d] else 0
  {
    hide Fixups, RelTable, DynTable, ExecTables, RelocationSection, DynamicSection, Table, Load, Covered, Delta, Segments,
         FileWindow, ImageByte, ApplyAll, Target, RoomFor, SlotsApart;
    RoomSuffices(f, m, image, at);
    var base, segs := FileWindow(f).base, Segments(f);
    forall i | 0 <= i < |segs| && Loadable(segs[i])
      ensures base <= segs[i].paddr < base + TWO32
    {
      SegmentPlace(f, m, image, at, i);
    }
    SegmentPlace(f, m, image, at, k);
    SegmentShown(f, m, segs, base, image, k, d);
    if image != base {
      SlotsFree(f, m, image, at);
      ByteKept(Image(f, m, segs, base, image), Fixups(f, Delta(base, image)), image + segs[k].paddr - base + d);
    }
  }

  /** In a moved image the word of every fixup is what the file put there, or the entry's addend, plus the distance moved. */
  lemma LoadedWords(f: seq<byte>, m: seq<byte>, image: int, at: int, j: int)
    requires WellFormed(f, image) && RoomFor(f, m, image, at) && image != FileWindow(f).base && 0 <= j < |Fixups(f, 0)|
    ensures forall k :: 0 <= k < PhNum(f) ==> Fits(f, m, Segments(f)[k], FileWindow(f).base, image)
    ensures AllFit(m, Fixups(f, Delta(FileWindow(f).base, image)))
    ensures var x, a := Fixups(f, 0)[j], image + Fixups(f, 0)[j].slot - FileWindow(f).base;
            && 0 <= a && a + 4 <= |m|
            && Load(Loaded(f, m, FileWindow(f).base, image), a, 4)
               == ((if x.Add? then Load(Image(f, m, Segments(f), FileWindow(f).base, image), a, 4) else x.value)
                   + (image - FileWindow(f).base)) % TWO32
  {
    hide Fixups, RelTable, DynTable, ExecTables, RelocationSection, DynamicSection, Table, Covered, Segments, FileWindow,
         ImageByte, ApplyAll, Target, SlotsApart, Load, SegmentsOk, Image;
    RoomSuffices(f, m, image, at);
    SlotsFree(f, m, image, at);
    var base, delta := FileWindow(f).base, Delta(FileWindow(f).base, image);
    var xs, ys := Fixups(f, 0), Fixups(f, delta);
    FixupsShift(f, delta);
    var laid := Image(f, m, Segments(f), base, image);
    FixesExact(laid, ys, j);
    var v := if xs[j].Add? then Load(laid, ys[j].slot, 4) else xs[j].value;
    AddDelta(v, image - base);
  }

  lemma AddDelta(v: int, d: int)
    ensures (v + d % TWO32) % TWO32 == (v + d) % TWO32
  {
  }

  // ---------- an image that is loaded where its file lies ----------

  /** The segment is as long in the file as in memory, and its place in the file is its place in the window. */
  predicate InPlace(f: seq<byte>, s: Segment, base: int) {
    Loadable(s) ==> s.memsz == s.filesz && s.paddr < TWO32 && s.offset == s.paddr - base && InMemory(f, s.offset, s.filesz)
  }

  lemma InPlaceFits(f: seq<byte>, m: seq<byte>, s: Segment, base: int)
    requires InPlace(f, s, base) && InMemory(m, base, |f|)
    ensures Fits(f, m, s, base, base) && (Loadable(s) ==> Target(s, base, base) == base + s.offset)
  {
  }

  lemma {:induction false} InPlaceByte(f: seq<byte>, m: seq<byte>, segs: seq<Segment>, base: int, x: int)
    requires InMemory(m, base, |f|) && m[base..base + |f|] == f && 0 <= x < |m|
    requires forall k :: 0 <= k < |segs| ==> InPlace(f, segs[k], base) && Fits(f, m, segs[k], base, base)
    ensures ImageByte(f, m, segs, base, base, x) == m[x]
    decreases |segs|
  {
    if segs != [] {
      var s, n := segs[|segs| - 1], |segs| - 1;
      InPlaceByte(f, m, segs[..n], base, x);
      InPlaceFits(f, m, s, base);
      var d := x - base - s.offset;
      assert Loadable(s) && 0 <= d < s.filesz ==> f[s.offset + d] == m[base..base + |f|][s.offset + d];
    }
  }

  /** Such an image is already loaded: nothing changes. */
  lemma LoadedInPlace(f: seq<byte>, m: seq<byte>, base: int)
    requires HasTables(f) && InMemory(m, base, |f|) && m[base..base + |f|] == f
    requires forall k :: 0 <= k < PhNum(f) ==> InPlace(f, Segments(f)[k], base)
    ensures forall k :: 0 <= k < PhNum(f) ==> Fits(f, m, Segments(f)[k], base, base)
    ensures Loaded(f, m, base, base) == m
  {
    hide ImageByte, InPlace, Fits, Segments, Table;
    forall k | 0 <= k < PhNum(f)
      ensures Fits(f, m, Segments(f)[k], base, base)
    {
      InPlaceFits(f, m, Segments(f)[k], base);
    }
    var r := Image(f, m, Segments(f), base, base);
    forall x | 0 <= x < |m|
      ensures r[x] == m[x]
    {
      InPlaceByte(f, m, Segments(f), base, x);
    }
  }
}
