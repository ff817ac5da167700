/** What a 32-bit ELF file says: its headers, the window its segments need, the image they describe, and its fixups. */
module ElfFile {
  import opened Alignment
  import opened Primitives
  import opened Memory

  const PAGE_SIZE: int := 0x1000
  const MAX32: int := 0xFFFF_FFFF
  const ET_EXEC: int := 2
  const ET_DYN: int := 3
  const EM_386: int := 3
  const EM_X86_64: int := 62
  const PT_LOAD: int := 1
  const PT_DYNAMIC: int := 2
  const SHT_RELA: int := 4
  const SHT_REL: int := 9
  const SHF_ALLOC: int := 2
  const DT_RELA: int := 7
  const DT_RELASZ: int := 8
  const DT_REL: int := 17
  const DT_RELSZ: int := 18
  const R_386_32: int := 1
  const R_386_RELATIVE: int := 8

  // ---------- the file header ----------

  predicate HasHeader(f: seq<byte>) {
    52 <= |f|
  }

  // The first four bytes of a file must be these; the loader looks at three of them.
  const SIGNATURE: seq<byte> := [0x7F, 0x45, 0x4C, 0x46]

  /** What IsElfFormat accepts: the marks of a little-endian i386 or x86-64 image that can be loaded. */
  predicate IsElf(f: seq<byte>)
    requires HasHeader(f)
  {
    && f[0] == SIGNATURE[0] && f[1] == SIGNATURE[1] && f[2] == SIGNATURE[2] && f[5] == 1 && (f[4] == 1 || f[4] == 2)
    && Load(f, 18, 2) == (if f[4] == 2 then EM_X86_64 else EM_386)
    && (Load(f, 16, 2) == ET_EXEC || Load(f, 16, 2) == ET_DYN) && Load(f, 20, 4) == 1
  }

  /** The last signature byte may be anything; a file that is accepted has the signature exactly when that byte is right. */
  lemma LastMarkIgnored(f: seq<byte>, b: byte)
    requires HasHeader(f)
    ensures IsElf(f[3 := b]) <==> IsElf(f)
    ensures IsElf(f) ==> (f[..4] == SIGNATURE <==> f[3] == SIGNATURE[3])
  {
    hide Value;
    if IsElf(f) && f[3] == SIGNATURE[3] {
      assert f[..4] == [f[0], f[1], f[2], f[3]];
    }
    var g := f[3 := b];
    assert g[18..20] == f[18..20] && g[16..18] == f[16..18] && g[20..24] == f[20..24];
  }

  function Entry(f: seq<byte>): nat requires HasHeader(f) { Load(f, 24, 4) }
  function PhOff(f: seq<byte>): nat requires HasHeader(f) { Load(f, 28, 4) }
  function ShOff(f: seq<byte>): nat requires HasHeader(f) { Load(f, 32, 4) }
  function PhSize(f: seq<byte>): nat requires HasHeader(f) { Load(f, 42, 2) }
  function PhNum(f: seq<byte>): nat requires HasHeader(f) { Load(f, 44, 2) }
  function ShSize(f: seq<byte>): nat requires HasHeader(f) { Load(f, 46, 2) }
  function ShNum(f: seq<byte>): nat requires HasHeader(f) { Load(f, 48, 2) }
  function ShStrNdx(f: seq<byte>): nat requires HasHeader(f) { Load(f, 50, 2) }

  // ---------- tables ----------

  // Where the k-th entry of a table starts.
  function EntryAt(a: int, size: int, k: int): int {
    a + k * size
  }

  lemma NextEntry(a: int, size: int, k: int)
    ensures EntryAt(a, size, 0) == a && EntryAt(a, size, k + 1) == EntryAt(a, size, k) + size
  {
  }

  // The first width bytes of each of the table's entries are in the file.
  predicate Table(f: seq<byte>, a: int, size: int, n: int, width: int) {
    forall k :: 0 <= k < n ==> InMemory(f, EntryAt(a, size, k), width)
  }

  datatype Segment = Segment(kind: nat, offset: nat, vaddr: nat, paddr: nat, filesz: nat, memsz: nat)

  datatype Section = Section(kind: nat, flags: nat, addr: nat, offset: nat, size: nat, info: nat, entsize: nat)

  function SegmentAt(f: seq<byte>, a: int): Segment
    requires InMemory(f, a, 32)
  {
    Segment(Load(f, a, 4), Load(f, a + 4, 4), Load(f, a + 8, 4), Load(f, a + 12, 4), Load(f, a + 16, 4), Load(f, a + 20, 4))
  }

  function SectionAt(f: seq<byte>, a: int): Section
    requires InMemory(f, a, 40)
  {
    Section(Load(f, a + 4, 4), Load(f, a + 8, 4), Load(f, a + 12, 4), Load(f, a + 16, 4), Load(f, a + 20, 4), Load(f, a + 28, 4), Load(f, a + 36, 4))
  }

  /** The header tables lie in the file. */
  predicate HasTables(f: seq<byte>) {
    && HasHeader(f) && Table(f, PhOff(f), PhSize(f), PhNum(f), 32) && Table(f, ShOff(f), ShSize(f), ShNum(f), 40)
  }

  function SegmentOf(f: seq<byte>, k: int): Segment
    requires HasTables(f) && 0 <= k < PhNum(f)
  {
    SegmentAt(f, EntryAt(PhOff(f), PhSize(f), k))
  }

  function SectionOf(f: seq<byte>, k: int): Section
    requires HasTables(f) && 0 <= k < ShNum(f)
  {
    SectionAt(f, EntryAt(ShOff(f), ShSize(f), k))
  }

  function Segments(f: seq<byte>): (s: seq<Segment>)
    requires HasTables(f)
    ensures |s| == PhNum(f)
  {
    seq(PhNum(f), k requires 0 <= k < PhNum(f) => SegmentOf(f, k))
  }

  // ---------- the window ----------

  datatype Window = Window(base: nat, end: nat)

  // The first address of the page x lies in, and the first address of a page that is not below x.
  function Down(x: int): int {
    x - x % PAGE_SIZE
  }

  function Up(x: int): int {
    x + (PAGE_SIZE - x) % PAGE_SIZE
  }

  // One turn of the loop in ParseElfImage, in 32 bits.
  function Widen(w: Window, s: Segment): Window {
    if s.kind != PT_LOAD then w
    else
      var end := (AlignValue((s.paddr + s.memsz) % TWO32, PAGE_SIZE) - 1) % TWO32;
      Window(if w.base > Down(s.paddr) then Down(s.paddr) else w.base, if w.end < end then end else w.end)
  }

  function Fold(segs: seq<Segment>): Window
    decreases |segs|
  {
    if segs == [] then Window(MAX32, 0) else Widen(Fold(segs[..|segs| - 1]), segs[|segs| - 1])
  }

  lemma NoSegments(segs: seq<Segment>)
    ensures Fold(segs[..0]) == Window(MAX32, 0) && !Grows(segs[..0])
  {
  }

  lemma FoldNext(segs: seq<Segment>, n: nat)
    requires n < |segs|
    ensures Fold(segs[..n + 1]) == Widen(Fold(segs[..n]), segs[n])
  {
    assert segs[..n + 1][..n] == segs[..n];
  }

  // Some segment is longer in memory than in the file.
  predicate Grows(segs: seq<Segment>) {
    exists k :: 0 <= k < |segs| && segs[k].kind == PT_LOAD && segs[k].memsz != segs[k].filesz
  }

  lemma GrowsNext(segs: seq<Segment>, n: nat)
    requires n < |segs|
    ensures Grows(segs[..n + 1]) <==> Grows(segs[..n]) || (segs[n].kind == PT_LOAD && segs[n].memsz != segs[n].filesz)
  {
    var s, t := segs[..n + 1], segs[..n];
    assert forall k :: 0 <= k < n ==> s[k] == t[k];
    assert s[n] == segs[n];
  }

  // The number of bytes ParseElfImage asks for.
  function WindowSize(w: Window): int {
    (w.end - w.base + 1) % TWO32
  }

  // A segment whose end is not beyond the address space.
  predicate Tame(s: Segment) {
    s.kind == PT_LOAD ==> s.paddr + s.memsz <= TWO32 && s.paddr < TWO32
  }

  // Where the fold sees the end of a segment that ends at x: for an empty one at address zero, at the end of the address space.
  function Ceil(x: int): int {
    if x == 0 then TWO32 else Up(x)
  }

  lemma DownIs(x: int)
    requires 0 <= x
    ensures 0 <= Down(x) <= x < Down(x) + PAGE_SIZE && Down(x) % PAGE_SIZE == 0
  {
  }

  lemma UpIs(x: int)
    requires 0 <= x <= TWO32
    ensures (AlignValue(x % TWO32, PAGE_SIZE) - 1) % TWO32 == Ceil(x) - 1 && x <= Ceil(x) <= TWO32
    ensures 0 < x ==> Ceil(x) == Up(x) < x + PAGE_SIZE
  {
    hide And;
    PageIsPower();
    MaskIs(PAGE_SIZE - x % TWO32, 12);
    var v := x % TWO32;
    assert (PAGE_SIZE - 1) % TWO32 == PAGE_SIZE - 1;
    assert AlignValue(v, PAGE_SIZE) == (v + (PAGE_SIZE - v) % PAGE_SIZE) % TWO32;
    UpTurn(x);
  }

  lemma PageIsPower()
    ensures Pow(2, 12) == PAGE_SIZE
  {
    assert Pow(2, 6) == 64;
    PowAdd(2, 6, 6);
  }

  lemma UpTurn(x: int)
    requires 0 <= x <= TWO32
    ensures ((x % TWO32 + (PAGE_SIZE - x % TWO32) % PAGE_SIZE) % TWO32 - 1) % TWO32 == Ceil(x) - 1 && x <= Ceil(x) <= TWO32
    ensures 0 < x ==> Ceil(x) == Up(x) < x + PAGE_SIZE
  {
  }

  /**
   The window holds every loadable segment, begins with the page of one, and ends with the page of one, so it is the smallest
   such run of whole pages; but an empty segment at address zero extends it to the end of the address space.
   */
  lemma {:induction false} WindowExact(segs: seq<Segment>)
    requires forall k :: 0 <= k < |segs| ==> Tame(segs[k])
    ensures forall k :: 0 <= k < |segs| && segs[k].kind == PT_LOAD ==>
                          Fold(segs).base <= segs[k].paddr && segs[k].paddr + segs[k].memsz <= Fold(segs).end + 1
    ensures (exists k :: 0 <= k < |segs| && segs[k].kind == PT_LOAD) ==>
              && (exists k :: 0 <= k < |segs| && segs[k].kind == PT_LOAD && Fold(segs).base == Down(segs[k].paddr))
              && (exists k :: 0 <= k < |segs| && segs[k].kind == PT_LOAD && Fold(segs).end + 1 == Ceil(segs[k].paddr + segs[k].memsz))
    ensures !(exists k :: 0 <= k < |segs| && segs[k].kind == PT_LOAD) ==> Fold(segs) == Window(MAX32, 0)
    ensures Fold(segs).end <= MAX32
    decreases |segs|
  {
    hide AlignValue, Ceil, Down;
    if segs != [] {
      var n := |segs| - 1;
      var rest, s := segs[..n], segs[n];
      WindowExact(rest);
      assert forall k :: 0 <= k < n ==> segs[k] == rest[k];
      if s.kind == PT_LOAD {
        UpIs(s.paddr + s.memsz);
        DownIs(s.paddr);
      }
    }
  }

  lemma WindowHolds(segs: seq<Segment>, k: int)
    requires (forall i :: 0 <= i < |segs| ==> Tame(segs[i])) && 0 <= k < |segs| && segs[k].kind == PT_LOAD
    ensures Fold(segs).base <= segs[k].paddr < Fold(segs).base + TWO32 && segs[k].paddr + segs[k].memsz <= Fold(segs).end + 1
  {
    hide Fold;
    WindowExact(segs);
    assert Tame(segs[k]);
  }

  /** With nothing to load, the size is two, not none. */
  lemma NothingToLoad(segs: seq<Segment>)
    requires forall k :: 0 <= k < |segs| ==> segs[k].kind != PT_LOAD
    ensures WindowSize(Fold(segs)) == 2
  {
    WindowExact(segs);
  }

  // ---------- the image ----------

  predicate Loadable(s: Segment) {
    s.kind == PT_LOAD && s.memsz != 0
  }

  // Where the segment goes when the window is moved to the address image.
  function Target(s: Segment, base: int, image: int): int {
    image + (s.paddr - base) % TWO32
  }

  // Everything the segment needs is in the file and in memory.
  predicate Fits(f: seq<byte>, m: seq<byte>, s: Segment, base: int, image: int) {
    Loadable(s) ==> InMemory(f, s.offset, s.filesz) && s.filesz <= s.memsz && InMemory(m, Target(s, base, image), s.memsz)
  }

  /** The byte at x after loading: of the last segment that covers it, from the file or zero; else what was there. */
  function ImageByte(f: seq<byte>, m: seq<byte>, segs: seq<Segment>, base: int, image: int, x: int): byte
    requires 0 <= x < |m| && forall k :: 0 <= k < |segs| ==> Fits(f, m, segs[k], base, image)
    decreases |segs|
  {
    if segs == [] then m[x]
    else
      var n := |segs| - 1;
      var s := segs[n];
      var d := x - Target(s, base, image);
      assert Fits(f, m, s, base, image);
      if Loadable(s) && 0 <= d < s.memsz then (if d < s.filesz then f[s.offset + d] else 0)
      else ImageByte(f, m, segs[..n], base, image, x)
  }

  // The segments of the list are laid out in now, over was.
  predicate Placed(f: seq<byte>, was: seq<byte>, now: seq<byte>, segs: seq<Segment>, base: int, image: int)
    requires forall k :: 0 <= k < |segs| ==> Fits(f, was, segs[k], base, image)
  {
    |now| == |was| && forall x :: 0 <= x < |was| ==> now[x] == ImageByte(f, was, segs, base, image, x)
  }

  // The byte at x when n bytes are copied from address from to address to and zeros follow up to length len.
  function LaidByte(m: seq<byte>, to: int, from: int, n: int, len: int, x: int): byte
    requires 0 <= from && 0 <= n && from + n <= |m| && 0 <= x < |m|
  {
    if to <= x < to + n then m[from + (x - to)] else if to + n <= x < to + len then 0 else m[x]
  }

  predicate Laid(was: seq<byte>, now: seq<byte>, to: int, from: int, n: int, len: int) {
    && 0 <= from && 0 <= n <= len && from + n <= |was| && |now| == |was| && InMemory(was, to, len)
    && forall x :: 0 <= x < |was| ==> now[x] == LaidByte(was, to, from, n, len, x)
  }

  /** Copying the next segment from the file and clearing the rest of it lays it out. */
  lemma PlaceNext(f: seq<byte>, was: seq<byte>, now: seq<byte>, next: seq<byte>, segs: seq<Segment>, n: nat, base: int,
      image: int, at: int)
    requires forall k :: 0 <= k < |segs| ==> Fits(f, was, segs[k], base, image)
    requires n < |segs| && Loadable(segs[n]) && Fits(f, was, segs[n], base, image) && Placed(f, was, now, segs[..n], base, image)
    requires InMemory(now, at, |f|) && now[at..at + |f|] == f
    requires Laid(now, next, Target(segs[n], base, image), at + segs[n].offset, segs[n].filesz, segs[n].memsz)
    ensures Placed(f, was, next, segs[..n + 1], base, image)
  {
    hide ImageByte;
    var s, t := segs[n], Target(segs[n], base, image);
    forall x | 0 <= x < |was|
      ensures next[x] == ImageByte(f, was, segs[..n + 1], base, image, x)
    {
      ImageNext(f, was, segs, n, base, image, x);
      var d := x - t;
      if 0 <= d < s.filesz {
        assert f[s.offset + d] == now[at..at + |f|][s.offset + d];
        assert next[x] == now[at + s.offset + (x - t)];
      } else if s.filesz <= d < s.memsz {
        assert next[x] == 0;
      } else {
        assert next[x] == now[x];
        assert now[x] == ImageByte(f, was, segs[..n], base, image, x);
      }
    }
  }

  lemma ImageNext(f: seq<byte>, m: seq<byte>, segs: seq<Segment>, n: nat, base: int, image: int, x: int)
    requires 0 <= x < |m| && (forall k :: 0 <= k < |segs| ==> Fits(f, m, segs[k], base, image))
    requires n < |segs| && Fits(f, m, segs[n], base, image)
    ensures var more := segs[..n + 1]; forall k :: 0 <= k < |more| ==> Fits(f, m, more[k], base, image)
    ensures var s, d := segs[n], x - Target(segs[n], base, image);
            ImageByte(f, m, segs[..n + 1], base, image, x)
            == if Loadable(s) && 0 <= d < s.memsz then (if d < s.filesz then f[s.offset + d] else 0) else ImageByte(f, m, segs[..n], base, image, x)
  {
    assert segs[..n + 1][..n] == segs[..n] && segs[..n + 1][n] == segs[n];
  }

  lemma PlaceSkip(f: seq<byte>, was: seq<byte>, now: seq<byte>, segs: seq<Segment>, n: nat, base: int, image: int)
    requires forall k :: 0 <= k < |segs| ==> Fits(f, was, segs[k], base, image)
    requires n < |segs| && !Loadable(segs[n]) && Fits(f, was, segs[n], base, image) && Placed(f, was, now, segs[..n], base, image)
    ensures Placed(f, was, now, segs[..n + 1], base, image)
  {
    hide ImageByte;
    forall x | 0 <= x < |was|
      ensures now[x] == ImageByte(f, was, segs[..n + 1], base, image, x)
    {
      ImageNext(f, was, segs, n, base, image, x);
      assert now[x] == ImageByte(f, was, segs[..n], base, image, x);
    }
  }

  lemma PlaceNone(f: seq<byte>, m: seq<byte>, segs: seq<Segment>, base: int, image: int)
    ensures Placed(f, m, m, segs[..0], base, image)
  {
  }

  /** Two loadable segments do not overlap. */
  predicate Apart(s: Segment, t: Segment) {
    Loadable(s) && Loadable(t) ==> s.paddr + s.memsz <= t.paddr || t.paddr + t.memsz <= s.paddr
  }

  /** Without overlaps, each segment shows its bytes of the file and then zeros. */
  lemma {:induction false} SegmentShown(f: seq<byte>, m: seq<byte>, segs: seq<Segment>, base: int, image: int, k: int, d: int)
    requires forall i :: 0 <= i < |segs| ==> Fits(f, m, segs[i], base, image) && (Loadable(segs[i]) ==> base <= segs[i].paddr < base + TWO32)
    requires forall i, j :: 0 <= i < j < |segs| ==> Apart(segs[i], segs[j])
    requires 0 <= k < |segs| && Loadable(segs[k]) && 0 <= d < segs[k].memsz
    ensures Fits(f, m, segs[k], base, image)
    ensures ImageByte(f, m, segs, base, image, Target(segs[k], base, image) + d) == if d < segs[k].filesz then f[segs[k].offset + d] else 0
    decreases |segs|
  {
    var n := |segs| - 1;
    TargetIs(segs[k], base, image);
    if k < n {
      var t := segs[n];
      if Loadable(t) {
        TargetIs(t, base, image);
        assert Apart(segs[k], t);
      }
      assert segs[..n][k] == segs[k];
      SegmentShown(f, m, segs[..n], base, image, k, d);
    }
  }

  lemma TargetIs(s: Segment, base: int, image: int)
    requires base <= s.paddr < base + TWO32
    ensures Target(s, base, image) == image + s.paddr - base
  {
  }

  /** Loading does not write outside the segments. */
  lemma {:induction false} ImageOutside(f: seq<byte>, m: seq<byte>, segs: seq<Segment>, base: int, image: int, x: int)
    requires 0 <= x < |m| && forall k :: 0 <= k < |segs| ==> Fits(f, m, segs[k], base, image)
    requires forall k :: 0 <= k < |segs| && Loadable(segs[k]) ==>
                           x < Target(segs[k], base, image) || Target(segs[k], base, image) + segs[k].memsz <= x
    ensures ImageByte(f, m, segs, base, image, x) == m[x]
    decreases |segs|
  {
    if segs != [] {
      ImageOutside(f, m, segs[..|segs| - 1], base, image, x);
    }
  }

  // ---------- fixups ----------

  /** A 32-bit word to change: by adding to it, or by a new value. */
  datatype Fix = Add(slot: int, value: int) | Set(slot: int, value: int)

  predicate FixFits(m: seq<byte>, x: Fix) {
    InMemory(m, x.slot, 4)
  }

  // What becomes of the word, in 32 bits.
  function NewWord(m: seq<byte>, x: Fix): (v: nat)
    requires FixFits(m, x)
    ensures v < TWO32
  {
    (if x.Add? then Load(m, x.slot, 4) + x.value else x.value) % TWO32
  }

  function Apply(m: seq<byte>, x: Fix): (r: seq<byte>)
    requires FixFits(m, x)
    ensures |r| == |m|
  {
    Store(m, x.slot, 4, NewWord(m, x))
  }

  predicate AllFit(m: seq<byte>, xs: seq<Fix>) {
    forall k :: 0 <= k < |xs| ==> FixFits(m, xs[k])
  }

  function ApplyAll(m: seq<byte>, xs: seq<Fix>): (r: seq<byte>)
    requires AllFit(m, xs)
    ensures |r| == |m|
    decreases |xs|
  {
    if xs == [] then m else Apply(ApplyAll(m, xs[..|xs| - 1]), xs[|xs| - 1])
  }

  predicate SlotsApart(xs: seq<Fix>) {
    forall j, k :: 0 <= j < k < |xs| ==> xs[j].slot + 4 <= xs[k].slot || xs[k].slot + 4 <= xs[j].slot
  }

  /** Fixups leave all but their slots alone. */
  lemma {:induction false} FixesElsewhere(m: seq<byte>, xs: seq<Fix>, a: int, n: int)
    requires AllFit(m, xs) && InMemory(m, a, n)
    requires forall k :: 0 <= k < |xs| ==> a + n <= xs[k].slot || xs[k].slot + 4 <= a
    ensures SameAt(m, ApplyAll(m, xs), a, n)
    decreases |xs|
  {
    hide Store, Load, NewWord;
    if xs != [] {
      var k := |xs| - 1;
      FixesElsewhere(m, xs[..k], a, n);
      var x, r := xs[k], ApplyAll(m, xs[..k]);
      StoreElsewhere(r, x.slot, 4, NewWord(r, x), a, n);
    }
  }

  /** When no two slots overlap, each word ends as its own fixup demands of its value before all of them. */
  lemma {:induction false} FixesExact(m: seq<byte>, xs: seq<Fix>, k: int)
    requires AllFit(m, xs) && SlotsApart(xs) && 0 <= k < |xs|
    ensures InMemory(m, xs[k].slot, 4) && Load(ApplyAll(m, xs), xs[k].slot, 4) == NewWord(m, xs[k])
    decreases |xs|
  {
    hide Store, Value, NewWord;
    var n := |xs| - 1;
    var x, r := xs[n], ApplyAll(m, xs[..n]);
    if k == n {
      FixesElsewhere(m, xs[..n], x.slot, 4);
      SameWord(m, r, x);
      Powers256();
      LoadStored(r, x.slot, 4, NewWord(r, x));
    } else {
      assert xs[..n][k] == xs[k];
      FixesExact(m, xs[..n], k);
      StoreElsewhere(r, x.slot, 4, NewWord(r, x), xs[k].slot, 4);
    }
  }

  lemma SameWord(m: seq<byte>, r: seq<byte>, x: Fix)
    requires FixFits(m, x) && SameAt(m, r, x.slot, 4)
    ensures FixFits(r, x) && NewWord(m, x) == NewWord(r, x)
  {
    hide Value;
  }

  /** The order of fixups on separate words does not matter. */
  lemma FixesCommute(m: seq<byte>, xs: seq<Fix>, ys: seq<Fix>)
    requires AllFit(m, xs) && AllFit(m, ys) && SlotsApart(xs) && SlotsApart(ys)
    requires forall x :: x in xs <==> x in ys
    ensures ApplyAll(m, xs) == ApplyAll(m, ys)
  {
    hide ApplyAll, SlotsApart, AllFit;
    var p, q := ApplyAll(m, xs), ApplyAll(m, ys);
    forall i | 0 <= i < |m|
      ensures p[i] == q[i]
    {
      CommuteAt(m, xs, ys, i);
    }
  }

  lemma CommuteAt(m: seq<byte>, xs: seq<Fix>, ys: seq<Fix>, i: int)
    requires AllFit(m, xs) && AllFit(m, ys) && SlotsApart(xs) && SlotsApart(ys)
    requires (forall x :: x in xs <==> x in ys) && 0 <= i < |m|
    ensures ApplyAll(m, xs)[i] == ApplyAll(m, ys)[i]
  {
    hide ApplyAll, Load, SlotsApart, AllFit;
    var p, q := ApplyAll(m, xs), ApplyAll(m, ys);
    if k :| 0 <= k < |xs| && xs[k].slot <= i < xs[k].slot + 4 {
      assert xs[k] in ys;
      var j :| 0 <= j < |ys| && ys[j] == xs[k];
      SlotFits(m, xs, k);
      FixesExact(m, xs, k);
      FixesExact(m, ys, j);
      WordBytes(p, q, xs[k].slot, i);
    } else {
      forall j | 0 <= j < |ys|
        ensures i + 1 <= ys[j].slot || ys[j].slot + 4 <= i
      {
        assert ys[j] in xs;
      }
      FixesElsewhere(m, xs, i, 1);
      FixesElsewhere(m, ys, i, 1);
      assert p[i] == p[i..i + 1][0] && q[i] == q[i..i + 1][0] && m[i] == m[i..i + 1][0];
    }
  }

  lemma SlotFits(m: seq<byte>, xs: seq<Fix>, k: int)
    requires AllFit(m, xs) && 0 <= k < |xs|
    ensures InMemory(m, xs[k].slot, 4)
  {
  }

  // Equal words consist of equal bytes.
  lemma WordBytes(p: seq<byte>, q: seq<byte>, a: int, i: int)
    requires InMemory(p, a, 4) && InMemory(q, a, 4) && Load(p, a, 4) == Load(q, a, 4) && a <= i < a + 4
    ensures p[i] == q[i]
  {
    ValueDetermines(p[a..a + 4], q[a..a + 4]);
    assert p[i] == p[a..a + 4][i - a] && q[i] == q[a..a + 4][i - a];
  }

  // ---------- the fixups a file asks for ----------

  function RelWidth(kind: nat): nat {
    if kind == SHT_RELA then 12 else 8
  }

  /** The entries of a relocation section are in the file, and can be counted in 32 bits. */
  predicate RelTable(f: seq<byte>, t: Section) {
    t.size != 0 ==>
      && 0 < t.entsize && t.size + t.entsize <= TWO32
      && Table(f, t.offset, t.entsize, RelCount(t), RelWidth(t.kind))
  }

  function RelCount(t: Section): nat
    requires t.size != 0 ==> 0 < t.entsize
  {
    if t.size == 0 then 0 else (t.size + t.entsize - 1) / t.entsize
  }

  // What one relocation entry asks for.
  function FixAt(f: seq<byte>, a: int, kind: nat, delta: nat, dynamic: bool): seq<Fix>
    requires InMemory(f, a, RelWidth(kind))
  {
    var slot, t := (Load(f, a, 4) + delta) % TWO32, Load(f, a + 4, 4) % 256;
    if t == R_386_32 && !dynamic then [Add(slot, delta)]
    else if t == R_386_RELATIVE && dynamic then
      if kind == SHT_RELA then [Set(slot, delta + Load(f, a + 8, 4))] else [Add(slot, delta)]
    else []
  }

  function TableFixes(f: seq<byte>, t: Section, delta: nat, dynamic: bool, n: nat): seq<Fix>
    requires Table(f, t.offset, t.entsize, n, RelWidth(t.kind))
  {
    if n == 0 then [] else TableFixes(f, t, delta, dynamic, n - 1) + FixAt(f, EntryAt(t.offset, t.entsize, n - 1), t.kind, delta, dynamic)
  }

  function SectionFixes(f: seq<byte>, t: Section, delta: nat, dynamic: bool): seq<Fix>
    requires RelTable(f, t)
  {
    if t.size == 0 then [] else TableFixes(f, t, delta, dynamic, RelCount(t))
  }

  // The first position of s with property p, or its length.
  function FirstOf<T>(s: seq<T>, p: T -> bool): (k: nat)
    ensures k <= |s| && (forall i :: 0 <= i < k ==> !p(s[i])) && (k < |s| ==> p(s[k]))
  {
    if s == [] || p(s[0]) then 0
    else
      var k := FirstOf(s[1..], p);
      assert forall i :: 1 <= i < 1 + k ==> s[i] == s[1..][i - 1];
      1 + k
  }

  lemma FirstIs<T>(s: seq<T>, p: T -> bool, k: nat)
    requires k <= |s| && (forall i :: 0 <= i < k ==> !p(s[i])) && (k < |s| ==> p(s[k]))
    ensures FirstOf(s, p) == k
  {
  }

  function Sections(f: seq<byte>): (s: seq<Section>)
    requires HasTables(f)
    ensures |s| == ShNum(f)
  {
    seq(ShNum(f), k requires 0 <= k < ShNum(f) => SectionOf(f, k))
  }

  datatype Found = None | Found(section: Section)

  function FoundAt(s: seq<Section>, k: nat): Found {
    if k < |s| then Found(s[k]) else None
  }

  function IsDynamic(): Segment -> bool { (s: Segment) => s.kind == PT_DYNAMIC }

  function InRange(offset: nat, size: nat): Section -> bool { (s: Section) => s.offset == offset && s.size == size }

  function AtAddress(addr: nat, size: nat): Section -> bool { (s: Section) => s.addr == addr && s.size == size }

  /** The section that is the file's first dynamic segment. */
  function DynamicSection(f: seq<byte>): Found
    requires HasTables(f)
  {
    var k := FirstOf(Segments(f), IsDynamic());
    if k == PhNum(f) then None
    else FoundAt(Sections(f), FirstOf(Sections(f), InRange(SegmentOf(f, k).offset, SegmentOf(f, k).filesz)))
  }

  predicate DynTable(f: seq<byte>, d: Section) {
    0 < d.entsize && Table(f, d.offset, d.entsize, DynCount(d), 8)
  }

  function DynCount(d: Section): nat
    requires 0 < d.entsize
  {
    d.size / d.entsize
  }

  /** Address and size of the relocation table after n dynamic entries; of several entries the last one counts. */
  function DynScan(f: seq<byte>, d: Section, n: nat): (nat, nat)
    requires DynTable(f, d) && n <= DynCount(d)
  {
    if n == 0 then (MAX32, 0)
    else
      var was, a := DynScan(f, d, n - 1), EntryAt(d.offset, d.entsize, n - 1);
      var tag, v := Load(f, a, 4), Load(f, a + 4, 4);
      (if tag == DT_REL || tag == DT_RELA then v else was.0, if tag == DT_RELSZ || tag == DT_RELASZ then v else was.1)
  }

  /** The section that holds the relocations a dynamic image asks for. */
  function RelocationSection(f: seq<byte>): Found
    requires HasTables(f) && (DynamicSection(f).Found? ==> DynTable(f, DynamicSection(f).section))
  {
    match DynamicSection(f)
    case None => None
    case Found(d) =>
      var r := DynScan(f, d, DynCount(d));
      FoundAt(Sections(f), FirstOf(Sections(f), AtAddress(r.0, r.1)))
  }

  // Tag and value of the k-th dynamic entry.
  function DynTag(f: seq<byte>, d: Section, k: nat): nat
    requires DynTable(f, d) && k < DynCount(d)
  {
    Load(f, EntryAt(d.offset, d.entsize, k), 4)
  }

  function DynValue(f: seq<byte>, d: Section, k: nat): nat
    requires DynTable(f, d) && k < DynCount(d)
  {
    Load(f, EntryAt(d.offset, d.entsize, k) + 4, 4)
  }

  // No dynamic entry says where the relocations are.
  predicate NoRelocationEntry(f: seq<byte>, d: Section)
    requires DynTable(f, d)
  {
    forall k :: 0 <= k < DynCount(d) ==> DynTag(f, d, k) != DT_REL && DynTag(f, d, k) != DT_RELA
  }

  predicate SizeEntry(f: seq<byte>, d: Section, k: nat)
    requires DynTable(f, d) && k < DynCount(d)
  {
    DynTag(f, d, k) == DT_RELSZ || DynTag(f, d, k) == DT_RELASZ
  }

  // The last of the first n entries that says how long the relocations are says size; if there is none, size is zero.
  predicate LastSize(f: seq<byte>, d: Section, n: nat, size: nat)
    requires DynTable(f, d) && n <= DynCount(d)
  {
    if forall k :: 0 <= k < n ==> !SizeEntry(f, d, k) then size == 0
    else exists k :: 0 <= k < n && SizeEntry(f, d, k) && DynValue(f, d, k) == size && forall j :: k < j < n ==> !SizeEntry(f, d, j)
  }

  lemma {:induction false} ScanFindsNothing(f: seq<byte>, d: Section, n: nat)
    requires DynTable(f, d) && n <= DynCount(d) && NoRelocationEntry(f, d)
    ensures DynScan(f, d, n).0 == MAX32
  {
    hide Load, EntryAt;
    if n != 0 {
      ScanFindsNothing(f, d, n - 1);
      assert DynTag(f, d, n - 1) != DT_REL && DynTag(f, d, n - 1) != DT_RELA;
    }
  }

  /** The scan ends with the size of the last size entry, and with no other. */
  lemma {:induction false} ScanFindsSize(f: seq<byte>, d: Section, n: nat, size: nat)
    requires DynTable(f, d) && n <= DynCount(d)
    ensures LastSize(f, d, n, size) <==> size == DynScan(f, d, n).1
  {
    hide Load, EntryAt;
    if n != 0 {
      ScanFindsSize(f, d, n - 1, size);
      if SizeEntry(f, d, n - 1) {
        assert DynScan(f, d, n).1 == DynValue(f, d, n - 1);
      }
    }
  }

  /**
   Without an entry for their address the relocations are still looked for: at the address that stands for none, with the size
   of the last size entry, or zero. They are missed exactly when no section has this address and this size.
   */
  lemma UnrelocatedExact(f: seq<byte>, size: nat)
    requires HasTables(f) && DynamicSection(f).Found? && DynTable(f, DynamicSection(f).section)
    requires NoRelocationEntry(f, DynamicSection(f).section)
    requires LastSize(f, DynamicSection(f).section, DynCount(DynamicSection(f).section), size)
    ensures !RelocationSection(f).Found? <==> forall k :: 0 <= k < ShNum(f) ==> SectionOf(f, k).addr != MAX32 || SectionOf(f, k).size != size
  {
    hide Load, EntryAt, DynamicSection, SectionAt, LastSize, DynScan;
    var d, secs := DynamicSection(f).section, Sections(f);
    ScanFindsNothing(f, d, DynCount(d));
    ScanFindsSize(f, d, DynCount(d), size);
    assert forall k :: 0 <= k < ShNum(f) ==> secs[k] == SectionOf(f, k);
  }

  // ---------- a dynamic image without relocations ----------

  const BARE_SIZE: int := 124

  /** A file header, one program header of a dynamic segment, one section header; no dynamic entry, no relocation. */
  function BareByte(i: int): byte {
    if i == 0 then 0x7F else if i == 1 then 0x45 else if i == 2 then 0x4C else if i == 3 then 0x46
    else if i == 4 || i == 5 || i == 20 || i == 44 || i == 48 then 1
    else if i == 16 || i == 18 then 3
    else if i == 28 then 52 else if i == 32 then 84 else if i == 42 then 32 else if i == 46 then 40
    else if i == 52 then 2 else if i == 120 then 8
    else 0
  }

  function BareDynamic(): (f: seq<byte>)
    ensures |f| == BARE_SIZE
  {
    seq(BARE_SIZE, i => BareByte(i))
  }

  lemma {:induction false} OneByte(f: seq<byte>, a: int, n: nat)
    requires 0 < n && InMemory(f, a, n) && forall i :: a < i < a + n ==> f[i] == 0
    ensures Load(f, a, n) == f[a]
  {
    AllZero(f[a..a + n][1..]);
  }

  lemma {:induction false} AllZero(s: seq<byte>)
    requires forall i :: 0 <= i < |s| ==> s[i] == 0
    ensures Value(s) == 0
  {
    if s != [] {
      AllZero(s[1..]);
    }
  }

  /** An accepted image that has a dynamic section and asks for no relocation: its relocations are not found. */
  lemma NoRelocationsUnsupported()
    ensures var f := BareDynamic();
            && HasTables(f) && IsElf(f) && f[4] == 1 && Load(f, 16, 2) == ET_DYN && ShStrNdx(f) < ShNum(f)
            && DynamicSection(f).Found? && DynTable(f, DynamicSection(f).section)
            && NoRelocationEntry(f, DynamicSection(f).section) && !RelocationSection(f).Found?
  {
    hide BareDynamic, Load, RelocationSection, DynScan, IsElf, DynamicSection, Table, EntryAt;
    var f := BareDynamic();
    BareHeader(f);
    BareTables(f);
    UnrelocatedExact(f, 0);
  }

  lemma BareMarks(f: seq<byte>)
    requires f == BareDynamic()
    ensures IsElf(f) && f[4] == 1 && Load(f, 16, 2) == ET_DYN
  {
    hide Value;
    OneByte(f, 16, 2);
    OneByte(f, 18, 2);
    OneByte(f, 20, 4);
  }

  lemma BareHeader(f: seq<byte>)
    requires f == BareDynamic()
    ensures HasHeader(f) && IsElf(f) && f[4] == 1 && Load(f, 16, 2) == ET_DYN && PhOff(f) == 52 && ShOff(f) == 84 && PhSize(f) == 32 && PhNum(f) == 1
    ensures ShSize(f) == 40 && ShNum(f) == 1 && ShStrNdx(f) == 0
  {
    hide Value;
    BareMarks(f);
    OneByte(f, 28, 4);
    OneByte(f, 32, 4);
    OneByte(f, 42, 2);
    OneByte(f, 44, 2);
    OneByte(f, 46, 2);
    OneByte(f, 48, 2);
    OneByte(f, 50, 2);
  }

  lemma BareTables(f: seq<byte>)
    requires f == BareDynamic()
    ensures HasTables(f) && PhNum(f) == 1 && ShNum(f) == 1 && ShStrNdx(f) == 0
    ensures SegmentOf(f, 0) == Segment(PT_DYNAMIC, 0, 0, 0, 0, 0) && SectionOf(f, 0) == Section(0, 0, 0, 0, 0, 0, 8)
    ensures DynamicSection(f) == Found(SectionOf(f, 0)) && DynCount(SectionOf(f, 0)) == 0 && DynTable(f, SectionOf(f, 0))
  {
    hide Value, FirstOf, BareDynamic;
    BareHeader(f);
    BareSegment(f);
    BareSection(f);
    FirstIs(Segments(f), IsDynamic(), 0);
    FirstIs(Sections(f), InRange(0, 0), 0);
  }

  lemma BareSegment(f: seq<byte>)
    requires f == BareDynamic()
    ensures SegmentAt(f, 52) == Segment(PT_DYNAMIC, 0, 0, 0, 0, 0)
  {
    hide Value;
    OneByte(f, 52, 4);
    OneByte(f, 56, 4);
    OneByte(f, 60, 4);
    OneByte(f, 64, 4);
    OneByte(f, 68, 4);
    OneByte(f, 72, 4);
  }

  lemma BareSection(f: seq<byte>)
    requires f == BareDynamic()
    ensures SectionAt(f, 84) == Section(0, 0, 0, 0, 0, 0, 8)
  {
    hide Value;
    OneByte(f, 88, 4);
    OneByte(f, 92, 4);
    OneByte(f, 96, 4);
    OneByte(f, 100, 4);
    OneByte(f, 104, 4);
    OneByte(f, 112, 4);
    OneByte(f, 120, 4);
  }

  predicate IsRel(t: Section) {
    t.kind == SHT_REL || t.kind == SHT_RELA
  }

  predicate Allocated(t: Section) {
    t.flags / SHF_ALLOC % 2 == 1
  }

  // The k-th section holds relocations of a section that is in memory.
  predicate Applies(f: seq<byte>, k: int)
    requires HasTables(f) && 0 <= k < ShNum(f) && (IsRel(SectionOf(f, k)) ==> SectionOf(f, k).info < ShNum(f))
  {
    IsRel(SectionOf(f, k)) && Allocated(SectionOf(f, SectionOf(f, k).info))
  }

  predicate ExecTables(f: seq<byte>)
    requires HasTables(f)
  {
    forall k :: 0 <= k < ShNum(f) ==>
                  && (IsRel(SectionOf(f, k)) ==> SectionOf(f, k).info < ShNum(f))
                  && (Applies(f, k) ==> RelTable(f, SectionOf(f, k)))
  }

  function ExecFixes(f: seq<byte>, delta: nat, n: nat): seq<Fix>
    requires HasTables(f) && ExecTables(f) && n <= ShNum(f)
  {
    if n == 0 then []
    else ExecFixes(f, delta, n - 1) + if Applies(f, n - 1) then SectionFixes(f, SectionOf(f, n - 1), delta, false) else []
  }

  /** All tables that relocating the image reads are in the file. */
  predicate HasRelocations(f: seq<byte>) {
    && HasTables(f)
    && if Load(f, 16, 2) == ET_DYN then
         && (DynamicSection(f).Found? ==> DynTable(f, DynamicSection(f).section))
         && (RelocationSection(f).Found? ==> RelTable(f, RelocationSection(f).section))
       else ExecTables(f)
  }

  /** The fixups of an image that is moved by delta. */
  function Fixups(f: seq<byte>, delta: nat): seq<Fix>
    requires HasRelocations(f)
  {
    if Load(f, 16, 2) == ET_DYN then
      match RelocationSection(f)
      case None => []
      case Found(t) => SectionFixes(f, t, delta, true)
    else ExecFixes(f, delta, ShNum(f))
  }

  // ---------- applying them piece by piece ----------

  /** The words to change are in a memory of the given size, and none touches the file of length len at address at. */
  predicate AllFree(xs: seq<Fix>, size: int, at: int, len: int) {
    forall k :: 0 <= k < |xs| ==> 0 <= xs[k].slot && xs[k].slot + 4 <= size && (xs[k].slot + 4 <= at || at + len <= xs[k].slot)
  }

  lemma FreeParts(xs: seq<Fix>, ys: seq<Fix>, size: int, at: int, len: int)
    requires AllFree(xs + ys, size, at, len)
    ensures AllFree(xs, size, at, len) && AllFree(ys, size, at, len)
  {
    assert forall k :: 0 <= k < |xs| ==> xs[k] == (xs + ys)[k];
    assert forall k :: 0 <= k < |ys| ==> ys[k] == (xs + ys)[|xs| + k];
  }

  lemma {:induction false} FreeTable(f: seq<byte>, t: Section, delta: nat, dynamic: bool, k: nat, n: nat, size: int, at: int,
      len: int)
    requires k <= n && Table(f, t.offset, t.entsize, n, RelWidth(t.kind)) && AllFree(TableFixes(f, t, delta, dynamic, n), size, at, len)
    ensures AllFree(TableFixes(f, t, delta, dynamic, k), size, at, len)
    decreases n - k
  {
    hide FixAt, AllFree;
    if k < n {
      FreeParts(TableFixes(f, t, delta, dynamic, n - 1), FixAt(f, EntryAt(t.offset, t.entsize, n - 1), t.kind, delta, dynamic), size, at, len);
      FreeTable(f, t, delta, dynamic, k, n - 1, size, at, len);
    }
  }

  lemma {:induction false} FreeSections(f: seq<byte>, delta: nat, k: nat, n: nat, size: int, at: int, len: int)
    requires HasTables(f) && ExecTables(f) && k <= n <= ShNum(f) && AllFree(ExecFixes(f, delta, n), size, at, len)
    ensures AllFree(ExecFixes(f, delta, k), size, at, len)
    decreases n - k
  {
    hide SectionFixes, AllFree, HasTables, ExecTables, Applies, SectionOf, Load;
    if k < n {
      ExecNext(f, delta, n - 1);
      FreeParts(ExecFixes(f, delta, n - 1), ExecPart(f, delta, n - 1), size, at, len);
      FreeSections(f, delta, k, n - 1, size, at, len);
    }
  }

  // What the k-th section asks for.
  function ExecPart(f: seq<byte>, delta: nat, k: nat): seq<Fix>
    requires HasTables(f) && ExecTables(f) && k < ShNum(f)
  {
    if Applies(f, k) then SectionFixes(f, SectionOf(f, k), delta, false) else []
  }

  lemma ExecNext(f: seq<byte>, delta: nat, n: nat)
    requires HasTables(f) && ExecTables(f) && n < ShNum(f)
    ensures ExecFixes(f, delta, n + 1) == ExecFixes(f, delta, n) + ExecPart(f, delta, n)
  {
  }

  lemma FreeFits(m: seq<byte>, xs: seq<Fix>, at: int, len: int)
    requires AllFree(xs, |m|, at, len)
    ensures AllFit(m, xs)
  {
  }

  /** Fixups in two parts. */
  lemma {:induction false} ApplyParts(m: seq<byte>, xs: seq<Fix>, ys: seq<Fix>)
    requires AllFit(m, xs) && AllFit(m, ys)
    ensures AllFit(m, xs + ys) && ApplyAll(ApplyAll(m, xs), ys) == ApplyAll(m, xs + ys)
    decreases |ys|
  {
    hide Apply;
    if ys == [] {
      assert xs + ys == xs;
    } else {
      var n := |ys| - 1;
      ApplyParts(m, xs, ys[..n]);
      assert (xs + ys)[..|xs + ys| - 1] == xs + ys[..n];
    }
  }

  /** The file is not changed by fixups that keep off it. */
  lemma FreeKeeps(m: seq<byte>, xs: seq<Fix>, at: int, len: int)
    requires AllFree(xs, |m|, at, len) && InMemory(m, at, len)
    ensures AllFit(m, xs) && ApplyAll(m, xs)[at..at + len] == m[at..at + len]
  {
    FreeFits(m, xs, at, len);
    FixesElsewhere(m, xs, at, len);
  }

  // The 32-bit product counts the entries of a table correctly.
  lemma CountIs(t: Section, index: nat)
    requires t.size != 0 && 0 < t.entsize && t.size + t.entsize <= TWO32 && index <= RelCount(t)
    ensures t.entsize * index % TWO32 < t.size <==> index < RelCount(t)
  {
    var n, e := RelCount(t), t.entsize;
    CountBounds(t.size, e);
    MulMonotone(e, index, e, n);
    if index < n {
      MulMonotone(e, index + 1, e, n);
      MulStep(e, index);
    }
    Small(e * index);
  }

  lemma Small(x: int)
    requires 0 <= x < TWO32
    ensures x % TWO32 == x
  {
  }

  lemma MulStep(e: int, i: int)
    ensures e * (i + 1) == e * i + e
  {
  }

  lemma CountBounds(size: nat, e: nat)
    requires 0 < size && 0 < e
    ensures size <= e * ((size + e - 1) / e) < size + e
  {
    var s := size + e - 1;
    assert s == e * (s / e) + s % e;
  }
}
