/**
 The records of a 32-bit ELF file in the order of the file format, fields as little-endian numbers, and that the loader reads
 just these fields from them.
 */
module ElfEncoder {
  import opened Primitives
  import opened Memory
  import opened ElfFile

  type half = x: int | 0 <= x < 0x1_0000

  // ---------- words in a row ----------

  function Words(ws: seq<u32>): (s: seq<byte>)
    ensures |s| == 4 * |ws|
  {
    if ws == [] then [] else Bytes(ws[0], 4) + Words(ws[1..])
  }

  lemma {:induction false} WordIn(ws: seq<u32>, k: nat)
    requires k < |ws|
    ensures Words(ws)[4 * k..4 * k + 4] == Bytes(ws[k], 4)
    decreases k
  {
    hide Bytes;
    if k != 0 {
      WordIn(ws[1..], k - 1);
      Behind(Bytes(ws[0], 4), Words(ws[1..]), 4 * k);
    }
  }

  lemma Behind(a: seq<byte>, b: seq<byte>, k: nat)
    requires |a| <= k && k + 4 <= |a + b|
    ensures (a + b)[k..k + 4] == b[k - |a|..k - |a| + 4]
  {
  }

  // The given bytes lie at address a.
  predicate LiesAt(f: seq<byte>, a: int, s: seq<byte>) {
    InMemory(f, a, |s|) && f[a..a + |s|] == s
  }

  lemma WordRead(f: seq<byte>, a: int, ws: seq<u32>, k: nat)
    requires LiesAt(f, a, Words(ws)) && k < |ws|
    ensures InMemory(f, a + 4 * k, 4) && Load(f, a + 4 * k, 4) == ws[k]
  {
    hide *;
    WordIn(ws, k);
    FourRead(f, a, Words(ws), 4 * k, ws[k]);
  }

  lemma FourRead(f: seq<byte>, a: int, s: seq<byte>, at: nat, v: u32)
    requires LiesAt(f, a, s) && at + 4 <= |s| && s[at..at + 4] == Bytes(v, 4)
    ensures InMemory(f, a + at, 4) && Load(f, a + at, 4) == v
  {
    hide Value, Bytes, Load;
    Powers256();
    FieldRead(f, a, s, at, 4, v);
  }

  lemma FieldRead(f: seq<byte>, a: int, s: seq<byte>, at: nat, n: nat, v: nat)
    requires LiesAt(f, a, s) && at + n <= |s| && s[at..at + n] == Bytes(v, n) && v < Pow(256, n)
    ensures InMemory(f, a + at, n) && Load(f, a + at, n) == v
  {
    hide Value, Bytes;
    ValueOfBytes(v, n);
    SliceOfSlice(f, a, |s|, a + at, n);
    ModUnique(v, Pow(256, n), 0, v);
  }

  // ---------- the file header ----------

  datatype FileHeader = FileHeader(ident: seq<byte>, kind: half, machine: half, version: u32, entry: u32, phoff: u32, shoff: u32, flags: u32,
                                   ehsize: half, phentsize: half, phnum: half, shentsize: half, shnum: half, shstrndx: half)

  function FileHeaderBytes(h: FileHeader): seq<byte> {
    h.ident + Bytes(h.kind, 2) + Bytes(h.machine, 2) + Bytes(h.version, 4) + Bytes(h.entry, 4) + Bytes(h.phoff, 4) + Bytes(h.shoff, 4)
    + Bytes(h.flags, 4) + Bytes(h.ehsize, 2) + Bytes(h.phentsize, 2) + Bytes(h.phnum, 2) + Bytes(h.shentsize, 2) + Bytes(h.shnum, 2)
    + Bytes(h.shstrndx, 2)
  }

  // Where the fields are.
  lemma FileHeaderFields(h: FileHeader)
    requires |h.ident| == 16
    ensures var s := FileHeaderBytes(h);
            && |s| == 52 && s[..16] == h.ident
            && s[16..18] == Bytes(h.kind, 2) && s[18..20] == Bytes(h.machine, 2) && s[20..24] == Bytes(h.version, 4)
            && s[24..28] == Bytes(h.entry, 4) && s[28..32] == Bytes(h.phoff, 4) && s[32..36] == Bytes(h.shoff, 4)
            && s[42..44] == Bytes(h.phentsize, 2) && s[44..46] == Bytes(h.phnum, 2) && s[46..48] == Bytes(h.shentsize, 2)
            && s[48..50] == Bytes(h.shnum, 2) && s[50..52] == Bytes(h.shstrndx, 2)
  {
    hide Bytes;
  }

  /** A file that begins with an encoded header is accepted exactly for these marks, and its header says just what was encoded. */
  lemma FileHeaderRead(f: seq<byte>, h: FileHeader)
    requires |h.ident| == 16 && LiesAt(f, 0, FileHeaderBytes(h))
    ensures HasHeader(f)
    ensures IsElf(f) <==>
              && h.ident[0] == 0x7F && h.ident[1] == 0x45 && h.ident[2] == 0x4C && h.ident[5] == 1 && h.version == 1
              && (h.kind == 2 || h.kind == 3) && ((h.ident[4] == 1 && h.machine == 3) || (h.ident[4] == 2 && h.machine == 62))
    ensures Entry(f) == h.entry && PhOff(f) == h.phoff && PhSize(f) == h.phentsize && PhNum(f) == h.phnum
    ensures ShOff(f) == h.shoff && ShSize(f) == h.shentsize && ShNum(f) == h.shnum && ShStrNdx(f) == h.shstrndx
    ensures (Load(f, 16, 2) == ET_DYN <==> h.kind == 3) && (Load(f, 18, 2) == EM_386 <==> h.machine == 3)
  {
    hide Load, Bytes, FileHeaderBytes;
    var s := FileHeaderBytes(h);
    FileHeaderFields(h);
    Powers256();
    FieldRead(f, 0, s, 16, 2, h.kind);
    FieldRead(f, 0, s, 18, 2, h.machine);
    FieldRead(f, 0, s, 20, 4, h.version);
    FieldRead(f, 0, s, 24, 4, h.entry);
    FieldRead(f, 0, s, 28, 4, h.phoff);
    FieldRead(f, 0, s, 32, 4, h.shoff);
    FieldRead(f, 0, s, 42, 2, h.phentsize);
    FieldRead(f, 0, s, 44, 2, h.phnum);
    FieldRead(f, 0, s, 46, 2, h.shentsize);
    FieldRead(f, 0, s, 48, 2, h.shnum);
    FieldRead(f, 0, s, 50, 2, h.shstrndx);
    assert forall i :: 0 <= i < 16 ==> f[i] == f[0..52][i] == s[..16][i];
  }

  // ---------- program and section headers ----------

  datatype ProgramHeader = ProgramHeader(kind: u32, offset: u32, vaddr: u32, paddr: u32, filesz: u32, memsz: u32, flags: u32, align: u32)

  function ProgramHeaderBytes(h: ProgramHeader): seq<byte> {
    Words([h.kind, h.offset, h.vaddr, h.paddr, h.filesz, h.memsz, h.flags, h.align])
  }

  /** A program header is read field by field; the loader looks at those of kind 1, and for relocations at those of kind 2. */
  lemma ProgramHeaderRead(f: seq<byte>, a: int, h: ProgramHeader)
    requires LiesAt(f, a, ProgramHeaderBytes(h))
    ensures InMemory(f, a, 32) && SegmentAt(f, a) == Segment(h.kind, h.offset, h.vaddr, h.paddr, h.filesz, h.memsz)
    ensures (Loadable(SegmentAt(f, a)) <==> h.kind == 1 && 0 < h.memsz) && (IsDynamic()(SegmentAt(f, a)) <==> h.kind == 2)
    ensures forall w :: h.kind != 1 ==> Widen(w, SegmentAt(f, a)) == w
  {
    hide Load, Words;
    var ws: seq<u32> := [h.kind, h.offset, h.vaddr, h.paddr, h.filesz, h.memsz, h.flags, h.align];
    WordRead(f, a, ws, 0);
    WordRead(f, a, ws, 1);
    WordRead(f, a, ws, 2);
    WordRead(f, a, ws, 3);
    WordRead(f, a, ws, 4);
    WordRead(f, a, ws, 5);
  }

  datatype SectionHeader = SectionHeader(name: u32, kind: u32, flags: u32, addr: u32, offset: u32, size: u32, link: u32, info: u32,
                                         addralign: u32, entsize: u32)

  function SectionHeaderBytes(h: SectionHeader): seq<byte> {
    Words([h.name, h.kind, h.flags, h.addr, h.offset, h.size, h.link, h.info, h.addralign, h.entsize])
  }

  /** Likewise for a section header; relocations are in sections of kind 4 and 9, and apply to those with the second flag. */
  lemma SectionHeaderRead(f: seq<byte>, a: int, h: SectionHeader)
    requires LiesAt(f, a, SectionHeaderBytes(h))
    ensures InMemory(f, a, 40) && SectionAt(f, a) == Section(h.kind, h.flags, h.addr, h.offset, h.size, h.info, h.entsize)
    ensures (IsRel(SectionAt(f, a)) <==> h.kind == 4 || h.kind == 9) && (Allocated(SectionAt(f, a)) <==> h.flags / 2 % 2 == 1)
  {
    hide Load, Words;
    var ws: seq<u32> := [h.name, h.kind, h.flags, h.addr, h.offset, h.size, h.link, h.info, h.addralign, h.entsize];
    WordRead(f, a, ws, 1);
    WordRead(f, a, ws, 2);
    WordRead(f, a, ws, 3);
    WordRead(f, a, ws, 4);
    WordRead(f, a, ws, 5);
    WordRead(f, a, ws, 7);
    WordRead(f, a, ws, 9);
  }

  // ---------- dynamic and relocation entries ----------

  /** After a dynamic entry of tag 7 or 17 its value is the address of the relocations, after one of tag 8 or 18 their size. */
  lemma DynamicEntryRead(f: seq<byte>, d: Section, k: nat, tag: u32, value: u32)
    requires DynTable(f, d) && (k + 1) * d.entsize <= d.size && LiesAt(f, d.offset + k * d.entsize, Words([tag, value]))
    ensures k < DynCount(d) && DynTag(f, d, k) == tag && DynValue(f, d, k) == value
    ensures DynScan(f, d, k + 1).0 == (if tag == 7 || tag == 17 then value else DynScan(f, d, k).0)
    ensures DynScan(f, d, k + 1).1 == (if tag == 8 || tag == 18 then value else DynScan(f, d, k).1)
  {
    hide Load, Words;
    WholeEntries(d, k);
    var a := d.offset + k * d.entsize;
    assert a == EntryAt(d.offset, d.entsize, k);
    WordRead(f, a, [tag, value], 0);
    WordRead(f, a, [tag, value], 1);
  }

  lemma WholeEntries(d: Section, k: nat)
    requires 0 < d.entsize
    ensures k < DynCount(d) <==> (k + 1) * d.entsize <= d.size
  {
    var q, r := d.size / d.entsize, d.size % d.entsize;
    assert d.size == q * d.entsize + r;
    if k < q {
      MulMonotone(k + 1, d.entsize, q, d.entsize);
    } else {
      MulMonotone(q, d.entsize, k, d.entsize);
      assert (k + 1) * d.entsize == k * d.entsize + d.entsize;
    }
  }

  // The words of a relocation entry: the place, the symbol with the type in its lowest byte, and for kind 4 an addend.
  function RelocationBytes(kind: nat, place: u32, symbol: nat, what: nat, addend: u32): seq<byte>
    requires symbol < 0x100_0000 && what < 256
  {
    if kind == 4 then Words([place, symbol * 256 + what, addend]) else Words([place, symbol * 256 + what])
  }

  // What such an entry wants of an image that is moved by delta.
  function Wanted(kind: nat, place: u32, what: nat, addend: u32, delta: nat, dynamic: bool): seq<Fix> {
    if what != (if dynamic then 8 else 1) then []
    else if dynamic && kind == 4 then [Set((place + delta) % 0x1_0000_0000, delta + addend)]
    else [Add((place + delta) % 0x1_0000_0000, delta)]
  }

  /**
   A relocation entry asks for its own word, moved with the image, and for no other: in an executable if it is of type 1, in a
   dynamic image if it is of type 8; the distance is added to what is there, or with an addend, to that.
   */
  lemma RelocationRead(f: seq<byte>, a: int, kind: nat, place: u32, symbol: nat, what: nat, addend: u32, delta: nat, dynamic: bool)
    requires symbol < 0x100_0000 && what < 256
    requires LiesAt(f, a, RelocationBytes(kind, place, symbol, what, addend))
    ensures InMemory(f, a, RelWidth(kind)) && FixAt(f, a, kind, delta, dynamic) == Wanted(kind, place, what, addend, delta, dynamic)
  {
    hide Load, Words;
    var ws: seq<u32> := if kind == 4 then [place, symbol * 256 + what, addend] else [place, symbol * 256 + what];
    assert RelocationBytes(kind, place, symbol, what, addend) == Words(ws);
    WordRead(f, a, ws, 0);
    WordRead(f, a, ws, 1);
    if kind == 4 {
      WordRead(f, a, ws, 2);
    }
  }

  // ---------- whole tables ----------

  // The j-th entry of a relocation section.
  predicate EntryIs(f: seq<byte>, t: Section, j: nat, place: u32, symbol: nat, what: nat, addend: u32)
    requires symbol < 0x100_0000 && what < 256
  {
    j * t.entsize < t.size && LiesAt(f, t.offset + j * t.entsize, RelocationBytes(t.kind, place, symbol, what, addend))
  }

  /** A relocation section asks for what its entries want, and for nothing else. */
  lemma TableRead(f: seq<byte>, t: Section, delta: nat, dynamic: bool, fix: Fix)
    requires RelTable(f, t)
    ensures fix in SectionFixes(f, t, delta, dynamic) <==>
              exists j: nat, place, symbol, what, addend ::
                symbol < 0x100_0000 && what < 256 && EntryIs(f, t, j, place, symbol, what, addend)
                && fix in Wanted(t.kind, place, what, addend, delta, dynamic)
  {
    hide Load, FixAt, RelocationBytes, TableFixes, Wanted;
    if t.size != 0 {
      TableHas(f, t, delta, dynamic, RelCount(t), fix);
    }
    if fix in SectionFixes(f, t, delta, dynamic) {
      var j :| 0 <= j < RelCount(t) && fix in FixAt(f, EntryAt(t.offset, t.entsize, j), t.kind, delta, dynamic);
      EntriesBegun(t, j);
      var place, symbol, what, addend := EntryExists(f, EntryAt(t.offset, t.entsize, j), t.kind);
      RelocationRead(f, EntryAt(t.offset, t.entsize, j), t.kind, place, symbol, what, addend, delta, dynamic);
      assert EntryIs(f, t, j, place, symbol, what, addend);
    }
    forall j: nat, place, symbol, what, addend | symbol < 0x100_0000 && what < 256 && EntryIs(f, t, j, place, symbol, what, addend)
                                            && fix in Wanted(t.kind, place, what, addend, delta, dynamic)
      ensures fix in SectionFixes(f, t, delta, dynamic)
    {
      EntriesBegun(t, j);
      RelocationRead(f, EntryAt(t.offset, t.entsize, j), t.kind, place, symbol, what, addend, delta, dynamic);
    }
  }

  // Every entry that begins in the section counts.
  lemma EntriesBegun(t: Section, j: nat)
    requires 0 < t.entsize && 0 < t.size
    ensures j < RelCount(t) <==> j * t.entsize < t.size
  {
    var q, r := (t.size + t.entsize - 1) / t.entsize, (t.size + t.entsize - 1) % t.entsize;
    assert t.size + t.entsize - 1 == q * t.entsize + r;
    if j < q {
      MulMonotone(j + 1, t.entsize, q, t.entsize);
      assert (j + 1) * t.entsize == j * t.entsize + t.entsize;
    } else {
      MulMonotone(q, t.entsize, j, t.entsize);
    }
  }

  lemma {:induction false} TableHas(f: seq<byte>, t: Section, delta: nat, dynamic: bool, n: nat, fix: Fix)
    requires Table(f, t.offset, t.entsize, n, RelWidth(t.kind))
    ensures fix in TableFixes(f, t, delta, dynamic, n) <==>
              exists j :: 0 <= j < n && fix in FixAt(f, EntryAt(t.offset, t.entsize, j), t.kind, delta, dynamic)
    decreases n
  {
    hide FixAt, EntryAt;
    if n != 0 {
      TableHas(f, t, delta, dynamic, n - 1, fix);
    }
  }

  // Any bytes are those of some entry.
  lemma EntryExists(f: seq<byte>, a: int, kind: nat) returns (place: u32, symbol: nat, what: nat, addend: u32)
    requires InMemory(f, a, RelWidth(kind))
    ensures symbol < 0x100_0000 && what < 256 && LiesAt(f, a, RelocationBytes(kind, place, symbol, what, addend))
  {
    hide Load, Bytes;
    WordWritten(f, a);
    WordWritten(f, a + 4);
    place, symbol, what, addend := Load(f, a, 4), Load(f, a + 4, 4) / 256, Load(f, a + 4, 4) % 256, 0;
    assert Words([place, symbol * 256 + what]) == Bytes(place, 4) + Bytes(symbol * 256 + what, 4);
    if kind == 4 {
      WordWritten(f, a + 8);
      addend := Load(f, a + 8, 4);
      ThreeWords(place, symbol * 256 + what, addend);
    }
  }

  lemma ThreeWords(u: u32, v: u32, w: u32)
    ensures Words([u, v, w]) == Bytes(u, 4) + Bytes(v, 4) + Bytes(w, 4)
  {
    assert [u, v, w][1..] == [v, w] && [v, w][1..] == [w];
    assert Words([v, w]) == Bytes(v, 4) + Words([w]);
  }

  lemma WordWritten(f: seq<byte>, a: int)
    requires InMemory(f, a, 4)
    ensures Load(f, a, 4) < TWO32 && Bytes(Load(f, a, 4), 4) == f[a..a + 4]
  {
    BytesOfValue(f[a..a + 4]);
    Powers256();
  }

  /** A dynamic image asks for what its one table asks for, an executable for what all tables that apply do; and for nothing else. */
  lemma FixupsRead(f: seq<byte>, delta: nat, fix: Fix)
    requires HasRelocations(f)
    ensures fix in Fixups(f, delta) <==>
              if Load(f, 16, 2) == 3 then
                RelocationSection(f).Found? && fix in SectionFixes(f, RelocationSection(f).section, delta, true)
              else exists k :: 0 <= k < ShNum(f) && Applies(f, k) && fix in SectionFixes(f, SectionOf(f, k), delta, false)
  {
    hide Load, SectionFixes, SectionOf, RelocationSection, DynamicSection;
    if Load(f, 16, 2) != 3 {
      ExecHas(f, delta, ShNum(f), fix);
    }
  }

  lemma {:induction false} ExecHas(f: seq<byte>, delta: nat, n: nat, fix: Fix)
    requires HasTables(f) && ExecTables(f) && n <= ShNum(f)
    ensures fix in ExecFixes(f, delta, n) <==> exists k :: 0 <= k < n && Applies(f, k) && fix in SectionFixes(f, SectionOf(f, k), delta, false)
    decreases n
  {
    hide Load, SectionFixes, SectionOf, HasTables;
    if n != 0 {
      ExecHas(f, delta, n - 1, fix);
    }
  }

  // ---------- which tables are meant ----------

  // The k-th section header is this one.
  predicate SectionIs(f: seq<byte>, k: int, h: SectionHeader)
    requires HasTables(f) && 0 <= k < ShNum(f)
  {
    LiesAt(f, ShOff(f) + k * ShSize(f), SectionHeaderBytes(h))
  }

  predicate SegmentIs(f: seq<byte>, k: int, h: ProgramHeader)
    requires HasTables(f) && 0 <= k < PhNum(f)
  {
    LiesAt(f, PhOff(f) + k * PhSize(f), ProgramHeaderBytes(h))
  }

  /** In an executable a section of relocations counts exactly when the section whose number it names is in memory. */
  lemma AppliesRead(f: seq<byte>, k: int, h: SectionHeader, target: SectionHeader)
    requires HasTables(f) && 0 <= k < ShNum(f) && h.info < ShNum(f) && SectionIs(f, k, h) && SectionIs(f, h.info, target)
    ensures IsRel(SectionOf(f, k)) ==> SectionOf(f, k).info < ShNum(f)
    ensures Applies(f, k) <==> (h.kind == 4 || h.kind == 9) && target.flags / 2 % 2 == 1
  {
    hide SectionAt, SectionHeaderBytes, IsRel, Allocated;
    SectionHeaderRead(f, EntryAt(ShOff(f), ShSize(f), k), h);
    SectionHeaderRead(f, EntryAt(ShOff(f), ShSize(f), h.info), target);
  }

  /** In a dynamic image the dynamic section is the first one with the place and the length in the file of the first segment of type 2. */
  lemma DynamicSectionRead(f: seq<byte>, k: nat, h: ProgramHeader, j: nat, t: SectionHeader)
    requires HasTables(f) && k < PhNum(f) && j < ShNum(f) && SegmentIs(f, k, h) && SectionIs(f, j, t)
    requires h.kind == 2 && (forall i :: 0 <= i < k ==> SegmentOf(f, i).kind != 2)
    requires t.offset == h.offset && t.size == h.filesz
    requires forall i :: 0 <= i < j ==> SectionOf(f, i).offset != h.offset || SectionOf(f, i).size != h.filesz
    ensures DynamicSection(f) == Found(SectionOf(f, j)) && SectionOf(f, j).offset == t.offset && SectionOf(f, j).entsize == t.entsize
  {
    hide SegmentAt, SectionAt, SectionHeaderBytes, ProgramHeaderBytes;
    ProgramHeaderRead(f, EntryAt(PhOff(f), PhSize(f), k), h);
    SectionHeaderRead(f, EntryAt(ShOff(f), ShSize(f), j), t);
    FirstIs(Segments(f), IsDynamic(), k);
    FirstIs(Sections(f), InRange(h.offset, h.filesz), j);
  }

  /** Its relocations are in the first section at the address and of the size that its entries say. */
  lemma RelocationSectionRead(f: seq<byte>, addr: nat, size: nat, j: nat, t: SectionHeader)
    requires HasTables(f) && DynamicSection(f).Found? && DynTable(f, DynamicSection(f).section) && j < ShNum(f) && SectionIs(f, j, t)
    requires DynScan(f, DynamicSection(f).section, DynCount(DynamicSection(f).section)) == (addr, size)
    requires t.addr == addr && t.size == size
    requires forall i :: 0 <= i < j ==> SectionOf(f, i).addr != addr || SectionOf(f, i).size != size
    ensures RelocationSection(f) == Found(SectionOf(f, j)) && SectionOf(f, j).kind == t.kind && SectionOf(f, j).offset == t.offset
  {
    hide SectionAt, SectionHeaderBytes, DynScan, DynamicSection;
    SectionHeaderRead(f, EntryAt(ShOff(f), ShSize(f), j), t);
    FirstIs(Sections(f), AtAddress(addr, size), j);
  }
}
