/** The loader of ElfLib.c and Elf32Lib.c for 32-bit images, over one byte array indexed by address. */
module ElfLib {
  import opened Alignment
  import opened BaseMemory
  import opened ElfFile
  import opened ElfLoaded
  import opened Memory
  import opened Primitives

  datatype Status = Success | InvalidParameter | Unsupported

  class ElfImage {
    const mem: array<byte>
    var fileBase: int
    var imageAddress: int
    var imageSize: int
    var preferredImageAddress: int
    var entryPoint: int
    var shNum: int
    var phNum: int
    var shStrLen: int
    var shStrOff: int
    var eiClass: int
    var reloadRequired: bool
    var parseStatus: Status
    // The file's bytes.
    ghost var file: seq<byte>

    constructor (memory: array<byte>)
      ensures mem == memory && parseStatus == InvalidParameter && imageAddress == 0
    {
      mem, parseStatus, imageAddress := memory, InvalidParameter, 0;
    }

    /** The file lies in memory at its base. */
    ghost predicate Intact()
      reads this`fileBase, this`file, mem
    {
      0 <= fileBase && fileBase + |file| <= mem.Length && mem[fileBase..fileBase + |file|] == file
    }

    lemma IntactAt()
      requires 0 <= fileBase && fileBase + |file| <= mem.Length && mem[fileBase..fileBase + |file|] == file
      ensures Intact()
    {
    }

    lemma IntactHere()
      requires Intact()
      ensures 0 <= fileBase && fileBase + |file| <= mem.Length && mem[fileBase..fileBase + |file|] == file == mem[..][fileBase..fileBase + |file|]
    {
    }

    // A field of the file.
    method FileField(o: int, n: nat) returns (v: nat)
      requires Intact() && InMemory(file, o, n)
      ensures v == Load(file, o, n)
    {
      v := GetField(mem, fileBase + o, n);
      assert file[o..o + n] == mem[..][fileBase + o..fileBase + o + n];
    }

    method FileByte(o: int) returns (v: byte)
      requires Intact() && 0 <= o < |file|
      ensures v == file[o]
    {
      v := mem[fileBase + o];
      assert file[o] == mem[fileBase..fileBase + |file|][o];
    }

    method IsElfFormat() returns (ok: bool)
      requires Intact() && HasHeader(file)
      ensures ok == IsElf(file)
    {
      hide Load;
      assert forall k :: 0 <= k < 6 ==> file[k] == mem[fileBase + k];
      if mem[fileBase] != SIGNATURE[0] || mem[fileBase + 1] != SIGNATURE[1] || mem[fileBase + 1] != SIGNATURE[1]
         || mem[fileBase + 2] != SIGNATURE[2] {
        return false;
      }
      if mem[fileBase + 5] != 1 || (mem[fileBase + 4] != 1 && mem[fileBase + 4] != 2) {
        return false;
      }
      var machine := FileField(18, 2);
      if machine != if mem[fileBase + 4] == 2 then EM_X86_64 else EM_386 {
        return false;
      }
      var kind := FileField(16, 2);
      if kind != ET_EXEC && kind != ET_DYN {
        return false;
      }
      var version := FileField(20, 4);
      return version == 1;
    }

    /** Where the section's header lies in the file, or nothing for an index that is too large. */
    method GetElf32SectionByIndex(index: int) returns (found: bool, at: int)
      requires Intact() && HasHeader(file) && 0 <= index
      ensures found == (index < ShNum(file)) && (found ==> at == EntryAt(ShOff(file), ShSize(file), index))
    {
      hide Load;
      at := 0;
      var num := FileField(48, 2);
      found := index < num;
      if found {
        var off := FileField(32, 4);
        var size := FileField(46, 2);
        at := off + index * size;
      }
    }

    method GetElf32SegmentByIndex(index: int) returns (found: bool, at: int)
      requires Intact() && HasHeader(file) && 0 <= index
      ensures found == (index < PhNum(file)) && (found ==> at == EntryAt(PhOff(file), PhSize(file), index))
    {
      hide Load;
      at := 0;
      var num := FileField(44, 2);
      found := index < num;
      if found {
        var off := FileField(28, 4);
        var size := FileField(42, 2);
        at := off + index * size;
      }
    }

    /** The segment's header, or nothing for an index that is too large. */
    method GetElfSegmentInfo(index: int) returns (found: bool, s: Segment)
      requires Intact() && HasTables(file) && 0 <= index
      ensures found == (index < PhNum(file)) && (found ==> s == SegmentOf(file, index))
    {
      hide Load, EntryAt, SegmentAt;
      var at;
      found, at := GetElf32SegmentByIndex(index);
      s := Segment(0, 0, 0, 0, 0, 0);
      if found {
        s := ReadSegment(at);
      }
    }

    // The fields of a program header.
    method ReadSegment(at: int) returns (s: Segment)
      requires Intact() && InMemory(file, at, 32)
      ensures s == SegmentAt(file, at)
    {
      hide Load;
      var kind := FileField(at, 4);
      var offset := FileField(at + 4, 4);
      var vaddr := FileField(at + 8, 4);
      var paddr := FileField(at + 12, 4);
      var filesz := FileField(at + 16, 4);
      var memsz := FileField(at + 20, 4);
      s := Segment(kind, offset, vaddr, paddr, filesz, memsz);
    }

    // The fields of a section header.
    method ReadSection(at: int) returns (s: Section)
      requires Intact() && InMemory(file, at, 40)
      ensures s == SectionAt(file, at)
    {
      hide Load;
      var kind := FileField(at + 4, 4);
      var flags := FileField(at + 8, 4);
      var addr := FileField(at + 12, 4);
      var offset := FileField(at + 16, 4);
      var size := FileField(at + 20, 4);
      var info := FileField(at + 28, 4);
      var entsize := FileField(at + 36, 4);
      s := Section(kind, flags, addr, offset, size, info, entsize);
    }

    /** The section's header, or nothing for an index that is too large. */
    method GetSection(index: int) returns (found: bool, s: Section)
      requires Intact() && HasTables(file) && 0 <= index
      ensures found == (index < ShNum(file)) && (found ==> s == SectionOf(file, index))
    {
      hide Load, EntryAt, SectionAt;
      var at;
      found, at := GetElf32SectionByIndex(index);
      s := Section(0, 0, 0, 0, 0, 0, 0);
      if found {
        s := ReadSection(at);
      }
    }

    /** What a successful ParseElfImage leaves. */
    ghost predicate Parsed()
      reads this, mem
    {
      && Intact() && HasTables(file) && IsElf(file) && file[4] == 1 && eiClass == 1 && parseStatus == Success
      && phNum == PhNum(file) && shNum == ShNum(file) && ShStrNdx(file) < shNum
      && shStrLen == SectionOf(file, ShStrNdx(file)).size && shStrOff == SectionOf(file, ShStrNdx(file)).offset
      && preferredImageAddress == Fold(Segments(file)).base && imageSize == WindowSize(Fold(Segments(file)))
      && reloadRequired == Grows(Segments(file))
    }

    // The context with nothing in it.
    method Clear()
      modifies this
      ensures imageAddress == 0 && imageSize == 0 && preferredImageAddress == 0 && entryPoint == 0 && fileBase == 0
      ensures shNum == 0 && phNum == 0 && shStrLen == 0 && shStrOff == 0 && eiClass == 0
      ensures !reloadRequired && parseStatus == Success && file == []
    {
      fileBase, imageAddress, imageSize, preferredImageAddress, entryPoint := 0, 0, 0, 0, 0;
      shNum, phNum, shStrLen, shStrOff, eiClass, reloadRequired, parseStatus, file := 0, 0, 0, 0, 0, false, Success, [];
    }

    // The fields of the context that come straight from the file's header.
    method ReadHeader() returns (found: bool)
      requires Intact() && HasTables(file) && HasHeader(file)
      modifies this`eiClass, this`entryPoint, this`shNum, this`phNum, this`shStrLen, this`shStrOff
      ensures found == (ShStrNdx(file) < ShNum(file))
      ensures found ==>
                && eiClass == file[4] && entryPoint == Entry(file) && shNum == ShNum(file) && phNum == PhNum(file)
                && shStrLen == SectionOf(file, ShStrNdx(file)).size && shStrOff == SectionOf(file, ShStrNdx(file)).offset
    {
      hide Load, EntryAt, SectionAt, Table, Intact, HasTables, SectionOf;
      eiClass := FileByte(4);
      var names := FileField(50, 2);
      var strings;
      found, strings := GetSection(names);
      if found {
        entryPoint := FileField(24, 4);
        shNum := FileField(48, 2);
        phNum := FileField(44, 2);
        shStrLen, shStrOff := strings.size, strings.offset;
      }
    }

    /** Read the headers of the file f at imageBase, and compute the window its segments need. */
    method ParseElfImage(imageBase: int, ghost f: seq<byte>) returns (status: Status)
      requires imageBase != 0 ==> 0 <= imageBase && imageBase + |f| <= mem.Length && mem[imageBase..imageBase + |f|] == f && HasHeader(f)
      requires imageBase != 0 && IsElf(f) ==> f[4] == 1 && HasTables(f)
      modifies this
      ensures parseStatus == status && imageAddress == 0
      ensures imageBase == 0 ==> status == InvalidParameter
      ensures imageBase != 0 ==> status == if IsElf(f) && ShStrNdx(f) < ShNum(f) then Success else Unsupported
      ensures status == Success ==> file == f && fileBase == imageBase && entryPoint == Entry(f) && Parsed()
    {
      hide Load, IsElf, Fold, EntryAt, SectionAt, SegmentAt, WindowSize, Grows, Segments, Intact, Table, HasTables, SectionOf;
      Clear();
      if imageBase == 0 {
        parseStatus := InvalidParameter;
        return parseStatus;
      }
      fileBase, file := imageBase, f;
      IntactAt();
      var ok := IsElfFormat();
      if !ok {
        parseStatus := Unsupported;
        return parseStatus;
      }
      var found := ReadHeader();
      if !found {
        parseStatus := Unsupported;
        return parseStatus;
      }
      FindWindow();
      parseStatus := Success;
      return parseStatus;
    }

    // The loop of ParseElfImage over the segments.
    method FindWindow()
      requires Intact() && HasTables(file) && phNum == PhNum(file)
      modifies this`reloadRequired, this`imageSize, this`preferredImageAddress
      ensures preferredImageAddress == Fold(Segments(file)).base && imageSize == WindowSize(Fold(Segments(file)))
      ensures reloadRequired == Grows(Segments(file))
    {
      hide Load, AlignValue, SegmentAt, Fold, Grows, SegmentOf;
      var end, base := 0, MAX32;
      reloadRequired := false;
      var index := 0;
      ghost var segs := Segments(file);
      NoSegments(segs);
      while index < phNum
        invariant 0 <= index <= phNum && 0 <= base && 0 <= end && Fold(segs[..index]) == Window(base, end)
        invariant reloadRequired == Grows(segs[..index])
      {
        var found, s := GetElfSegmentInfo(index);
        FoldNext(segs, index);
        GrowsNext(segs, index);
        if s.kind == PT_LOAD {
          if s.memsz != s.filesz {
            reloadRequired := true;
          }
          if base > Down(s.paddr) {
            base := Down(s.paddr);
          }
          var last := (AlignValue((s.paddr + s.memsz) % TWO32, PAGE_SIZE) - 1) % TWO32;
          if end < last {
            end := last;
          }
        }
        index := index + 1;
      }
      assert segs[..phNum] == segs;
      imageSize := (end - base + 1) % TWO32;
      preferredImageAddress := base;
    }

    // The segment's target does not touch the file, or is where the file has the whole segment.
    ghost predicate Clear32(s: Segment)
      reads this
    {
      Loadable(s) ==>
        var t := Target(s, preferredImageAddress, imageAddress);
        t + s.memsz <= fileBase || fileBase + |file| <= t || (t == fileBase + s.offset && s.memsz == s.filesz)
    }

    /** Every segment has room at its target, apart from the file or at its own place in it. */
    ghost predicate HasRoom()
      requires HasTables(file)
      reads this, mem
    {
      forall k :: 0 <= k < PhNum(file) ==>
                    Fits(file, mem[..], Segments(file)[k], preferredImageAddress, imageAddress) && Clear32(Segments(file)[k])
    }

    // Copy one segment from the file and clear what is left of it.
    method LoadSegment(s: Segment)
      requires Intact() && Loadable(s) && Fits(file, mem[..], s, preferredImageAddress, imageAddress) && Clear32(s)
      modifies mem
      ensures Intact()
      ensures Laid(old(mem[..]), mem[..], Target(s, preferredImageAddress, imageAddress), fileBase + s.offset, s.filesz, s.memsz)
    {
      hide Moved, Zeros, Intact, Laid;
      ghost var was := mem[..];
      var delta := (s.paddr - preferredImageAddress) % TWO32;
      IntactHere();
      var to, from := imageAddress + delta, fileBase + s.offset;
      CopyMem(mem, to, from, s.filesz);
      ghost var copied := mem[..];
      ZeroMem(mem, to + s.filesz, s.memsz - s.filesz);
      SegmentBytes(was, copied, mem[..], to, from, s.filesz, s.memsz);
      FileKept(was, mem[..], fileBase, |file|, to, from, s.filesz, s.memsz);
      assert mem[fileBase..fileBase + |file|] == mem[..][fileBase..fileBase + |file|];
      IntactAt();
    }

    // The loop of LoadElf32Image: lay out every segment that needs memory.
    method LoadSegments()
      requires Intact() && HasTables(file) && HasRoom()
      modifies mem
      ensures Intact() && Placed(file, old(mem[..]), mem[..], Segments(file), preferredImageAddress, imageAddress)
    {
      hide Load, EntryAt, SegmentAt, Intact, Placed, ImageByte, Laid, Fits, Target, SegmentOf, Table;
      ghost var was, segs, base, image := mem[..], Segments(file), preferredImageAddress, imageAddress;
      var at, size, num := ProgramHeaders();
      var index := 0;
      NextEntry(PhOff(file), PhSize(file), 0);
      PlaceNone(file, was, segs, base, image);
      while index < num
        invariant 0 <= index <= num && at == EntryAt(PhOff(file), PhSize(file), index)
        invariant Intact() && |mem[..]| == |was| && Placed(file, was, mem[..], segs[..index], base, image)
      {
        SegmentIs(file, index);
        var s := ReadSegment(at);
        if s.kind == PT_LOAD && s.memsz != 0 {
          ghost var now := mem[..];
          IntactHere();
          FitsLength(file, was, now, s, base, image);
          LoadSegment(s);
          PlaceNext(file, was, now, mem[..], segs, index, base, image, fileBase);
        } else {
          PlaceSkip(file, was, mem[..], segs, index, base, image);
        }
        NextEntry(PhOff(file), PhSize(file), index);
        at, index := at + size, index + 1;
      }
      assert segs[..num] == segs;
    }

    // Offset, entry size and length of the program header table.
    method ProgramHeaders() returns (at: nat, size: nat, num: nat)
      requires Intact() && HasHeader(file)
      ensures at == PhOff(file) && size == PhSize(file) && num == PhNum(file)
    {
      hide Load, Intact;
      at := FileField(28, 4);
      size := FileField(42, 2);
      num := FileField(44, 2);
    }

    method SectionHeaders() returns (at: nat, size: nat, num: nat)
      requires Intact() && HasHeader(file)
      ensures at == ShOff(file) && size == ShSize(file) && num == ShNum(file)
    {
      hide Load, Intact;
      at := FileField(32, 4);
      size := FileField(46, 2);
      num := FileField(48, 2);
    }

    // One turn of ProcessRelocation32.
    method RelocateEntry(at: int, kind: nat, delta: nat, dynamic: bool)
      requires Intact() && InMemory(file, at, RelWidth(kind)) && AllFree(FixAt(file, at, kind, delta, dynamic), mem.Length, fileBase, |file|)
      modifies mem
      ensures Intact() && AllFit(old(mem[..]), FixAt(file, at, kind, delta, dynamic))
      ensures mem[..] == ApplyAll(old(mem[..]), FixAt(file, at, kind, delta, dynamic))
    {
      hide Load, Intact, Store;
      ghost var was, xs := mem[..], FixAt(file, at, kind, delta, dynamic);
      FreeFits(was, xs, fileBase, |file|);
      OneFix(was, xs);
      IntactHere();
      FreeKeeps(was, xs, fileBase, |file|);
      var offset := FileField(at, 4);
      var info := FileField(at + 4, 4);
      var ptr, kind32 := (offset + delta) % TWO32, info % 256;
      if kind32 == R_386_32 && !dynamic {
        var v := GetField(mem, ptr, 4);
        PutField(mem, ptr, 4, (v + delta) % TWO32);
      } else if kind32 == R_386_RELATIVE && dynamic {
        if kind == SHT_RELA {
          var addend := FileField(at + 8, 4);
          PutField(mem, ptr, 4, (delta + addend) % TWO32);
        } else {
          var v := GetField(mem, ptr, 4);
          PutField(mem, ptr, 4, (delta + v) % TWO32);
        }
      }
      assert mem[fileBase..fileBase + |file|] == mem[..][fileBase..fileBase + |file|];
      IntactAt();
    }

    /** Apply every entry of a relocation table. */
    method ProcessRelocation32(t: Section, delta: nat, dynamic: bool)
      requires Intact() && RelTable(file, t) && AllFree(SectionFixes(file, t, delta, dynamic), mem.Length, fileBase, |file|)
      modifies mem
      ensures Intact() && AllFit(old(mem[..]), SectionFixes(file, t, delta, dynamic))
      ensures mem[..] == ApplyAll(old(mem[..]), SectionFixes(file, t, delta, dynamic))
    {
      hide Load, Intact, FixAt, ApplyAll, EntryAt, RelCount, AllFree;
      ghost var was := mem[..];
      FreeFits(was, SectionFixes(file, t, delta, dynamic), fileBase, |file|);
      NoFix(was);
      var index, at := 0, t.offset;
      NextEntry(t.offset, t.entsize, 0);
      CountStart(t);
      while t.entsize * index % TWO32 < t.size
        invariant t.size == 0 ==> index == 0
        invariant t.size != 0 ==> 0 <= index <= RelCount(t) && at == EntryAt(t.offset, t.entsize, index)
        invariant Intact()
        invariant (mem[..] == was && index == 0) || (t.size != 0 && AllFit(was, TableFixes(file, t, delta, dynamic, index))
                                                     && mem[..] == ApplyAll(was, TableFixes(file, t, delta, dynamic, index)))
        decreases if t.size == 0 then 0 else RelCount(t) - index
      {
        CountIs(t, index);
        FreeTable(file, t, delta, dynamic, index + 1, RelCount(t), mem.Length, fileBase, |file|);
        FreeParts(TableFixes(file, t, delta, dynamic, index), FixAt(file, at, t.kind, delta, dynamic), mem.Length, fileBase, |file|);
        RelocateEntry(at, t.kind, delta, dynamic);
        ApplyParts(was, TableFixes(file, t, delta, dynamic, index), FixAt(file, at, t.kind, delta, dynamic));
        NextEntry(t.offset, t.entsize, index);
        index, at := index + 1, at + t.entsize;
      }
      if t.size != 0 {
        CountIs(t, index);
      }
    }

    /** The first section with this place and size in the file. */
    method GetElf32SectionByRange(offset: nat, length: nat) returns (r: Found)
      requires Intact() && HasTables(file)
      ensures r == FoundAt(Sections(file), FirstOf(Sections(file), InRange(offset, length)))
    {
      hide Load, EntryAt, SectionAt, Intact, FirstOf, Table;
      var at, size, num := SectionHeaders();
      ghost var secs, p := Sections(file), InRange(offset, length);
      NextEntry(ShOff(file), ShSize(file), 0);
      var index := 0;
      while index < num
        invariant 0 <= index <= num && at == EntryAt(ShOff(file), ShSize(file), index)
        invariant forall i :: 0 <= i < index ==> !p(secs[i])
      {
        SectionIs(file, index);
        var s := ReadSection(at);
        if s.offset == offset && s.size == length {
          FirstIs(secs, p, index);
          return Found(s);
        }
        NextEntry(ShOff(file), ShSize(file), index);
        at, index := at + size, index + 1;
      }
      FirstIs(secs, p, num);
      r := None;
    }

    // The first step of RelocateElf32Dynamic.
    method FindDynamic() returns (r: Found)
      requires Intact() && HasTables(file) && phNum == PhNum(file)
      ensures r == DynamicSection(file)
    {
      hide Load, EntryAt, SegmentAt, Intact, FirstOf, Table, FoundAt;
      ghost var segs := Segments(file);
      var index := 0;
      while index < phNum
        invariant 0 <= index <= phNum
        invariant forall i :: 0 <= i < index ==> !IsDynamic()(segs[i])
      {
        var found, s := GetElfSegmentInfo(index);
        if s.kind == PT_DYNAMIC {
          FirstIs(segs, IsDynamic(), index);
          r := GetElf32SectionByRange(s.offset, s.filesz);
          return;
        }
        index := index + 1;
      }
      FirstIs(segs, IsDynamic(), phNum);
      r := None;
    }

    // The second step of RelocateElf32Dynamic.
    method ScanDynamic(d: Section) returns (address: nat, size: nat)
      requires Intact() && DynTable(file, d)
      ensures (address, size) == DynScan(file, d, DynCount(d))
    {
      hide Load, EntryAt, Intact;
      address, size := MAX32, 0;
      var index, at := 0, d.offset;
      NextEntry(d.offset, d.entsize, 0);
      while index < d.size / d.entsize
        invariant 0 <= index <= DynCount(d) && at == EntryAt(d.offset, d.entsize, index)
        invariant (address, size) == DynScan(file, d, index)
      {
        var tag := FileField(at, 4);
        var v := FileField(at + 4, 4);
        if tag == DT_RELA || tag == DT_REL {
          address := v;
        } else if tag == DT_RELSZ || tag == DT_RELASZ {
          size := v;
        }
        NextEntry(d.offset, d.entsize, index);
        index, at := index + 1, at + d.entsize;
      }
    }

    // The section with this address and size in memory.
    method FindRelocations(address: nat, length: nat) returns (r: Found)
      requires Intact() && HasTables(file) && shNum == ShNum(file)
      ensures r == FoundAt(Sections(file), FirstOf(Sections(file), AtAddress(address, length)))
    {
      hide Load, EntryAt, SectionAt, Intact, FirstOf, Table;
      ghost var secs, p := Sections(file), AtAddress(address, length);
      var index := 0;
      while index < shNum
        invariant 0 <= index <= shNum
        invariant forall i :: 0 <= i < index ==> !p(secs[i])
      {
        var found, s := GetSection(index);
        if s.addr == address && s.size == length {
          FirstIs(secs, p, index);
          return Found(s);
        }
        index := index + 1;
      }
      FirstIs(secs, p, shNum);
      r := None;
    }

    /** Relocate a dynamic image; without a dynamic section, or without the section it refers to, nothing is changed. */
    method RelocateElf32Dynamic(delta: nat) returns (status: Status)
      requires Intact() && HasRelocations(file) && Load(file, 16, 2) == ET_DYN && phNum == PhNum(file) && shNum == ShNum(file)
      requires AllFree(Fixups(file, delta), mem.Length, fileBase, |file|)
      modifies mem
      ensures Intact() && AllFit(old(mem[..]), Fixups(file, delta)) && mem[..] == ApplyAll(old(mem[..]), Fixups(file, delta))
      ensures status == if RelocationSection(file).Found? then Success else Unsupported
    {
      hide Load, Intact, FirstOf, FoundAt, ApplyAll, SectionFixes, RelTable, DynTable, DynScan, AllFree, DynamicSection;
      ghost var was := mem[..];
      NoFix(was);
      var d := FindDynamic();
      if d == None {
        return Unsupported;
      }
      // The size is compared with a 64-bit constant here, which never holds.
      var address, size := ScanDynamic(d.section);
      var r := FindRelocations(address, size);
      if r == None {
        return Unsupported;
      }
      ProcessRelocation32(r.section, delta, true);
      status := Success;
    }

    /** Relocate the image, by its dynamic section or by its relocation sections, and move its entry point. */
    method RelocateElf32Sections() returns (status: Status)
      requires Intact() && HasRelocations(file) && phNum == PhNum(file) && shNum == ShNum(file)
      requires var delta := (imageAddress - preferredImageAddress) % TWO32;
               Load(file, 18, 2) == EM_386 ==> AllFree(Fixups(file, delta), mem.Length, fileBase, |file|)
      modifies mem, this`entryPoint
      ensures Intact()
      ensures Load(file, 18, 2) != EM_386 ==> status == Unsupported && mem[..] == old(mem[..]) && entryPoint == old(entryPoint)
      ensures var delta := (imageAddress - preferredImageAddress) % TWO32;
              Load(file, 18, 2) == EM_386 ==>
                && AllFit(old(mem[..]), Fixups(file, delta)) && mem[..] == ApplyAll(old(mem[..]), Fixups(file, delta))
                && entryPoint == (Entry(file) + delta) % TWO32
                && status == if Load(file, 16, 2) == ET_DYN && !RelocationSection(file).Found? then Unsupported else Success
    {
      hide Load, Intact, Fixups, ApplyAll, HasRelocations, RelocationSection;
      HaveTables(file);
      var machine := FileField(18, 2);
      if machine != EM_386 {
        return Unsupported;
      }
      var delta := (imageAddress - preferredImageAddress) % TWO32;
      var entry := FileField(24, 4);
      entryPoint := (entry + delta) % TWO32;
      var kind := FileField(16, 2);
      if kind == ET_DYN {
        status := RelocateElf32Dynamic(delta);
        return;
      }
      RelocateExec(delta);
      status := Success;
    }

    // The loop of RelocateElf32Sections over the sections.
    method RelocateExec(delta: nat)
      requires Intact() && HasRelocations(file) && Load(file, 16, 2) != ET_DYN
      requires AllFree(Fixups(file, delta), mem.Length, fileBase, |file|)
      modifies mem
      ensures Intact() && AllFit(old(mem[..]), Fixups(file, delta)) && mem[..] == ApplyAll(old(mem[..]), Fixups(file, delta))
    {
      hide Load, Intact, ApplyAll, SectionFixes, RelTable, AllFree, EntryAt, SectionAt, SectionOf, Table;
      ghost var was := mem[..];
      NoFix(was);
      FreeFits(was, Fixups(file, delta), fileBase, |file|);
      var at, size, num := SectionHeaders();
      NextEntry(ShOff(file), ShSize(file), 0);
      var index := 0;
      while index < num
        invariant 0 <= index <= num && at == EntryAt(ShOff(file), ShSize(file), index)
        invariant Intact() && AllFit(was, ExecFixes(file, delta, index)) && mem[..] == ApplyAll(was, ExecFixes(file, delta, index))
      {
        SectionIs(file, index);
        FreeSections(file, delta, index + 1, num, mem.Length, fileBase, |file|);
        ExecNext(file, delta, index);
        FreeParts(ExecFixes(file, delta, index), ExecPart(file, delta, index), mem.Length, fileBase, |file|);
        var t := ReadSection(at);
        if t.kind == SHT_REL || t.kind == SHT_RELA {
          var found, s := GetSection(t.info);
          if s.flags / SHF_ALLOC % 2 == 1 {
            ProcessRelocation32(t, delta, false);
            ApplyParts(was, ExecFixes(file, delta, index), ExecPart(file, delta, index));
          }
        }
        EmptyPart(ExecFixes(file, delta, index));
        NextEntry(ShOff(file), ShSize(file), index);
        at, index := at + size, index + 1;
      }
    }

    /** What loading needs: room for every segment, and, away from the preferred address, relocations that are all there. */
    ghost predicate Ready()
      reads this, mem
    {
      && Parsed() && HasRoom()
      && (imageAddress != preferredImageAddress ==>
            HasRelocations(file) && AllFree(Fixups(file, Delta(preferredImageAddress, imageAddress)), mem.Length, fileBase, |file|))
    }

    /**
     Lay out the segments and, away from the preferred address, relocate them. What relocating reports is not passed on: an
     image without the relocations it needs is reported as loaded.
     */
    method LoadElf32Image() returns (status: Status)
      requires Ready()
      modifies mem, this`entryPoint
      ensures status == Success && Intact()
      ensures forall k :: 0 <= k < PhNum(file) ==> Fits(file, old(mem[..]), Segments(file)[k], preferredImageAddress, imageAddress)
      ensures imageAddress != preferredImageAddress ==>
                HasRelocations(file) && AllFit(old(mem[..]), Fixups(file, Delta(preferredImageAddress, imageAddress)))
      ensures mem[..] == Loaded(file, old(mem[..]), preferredImageAddress, imageAddress)
      ensures entryPoint == if imageAddress == preferredImageAddress then old(entryPoint)
                            else (Entry(file) + Delta(preferredImageAddress, imageAddress)) % TWO32
    {
      hide Load, Intact, Fixups, ApplyAll, HasRelocations, RelocationSection, Placed, Image, Fits, Table, Segments, Fold,
           Grows, SectionOf;
      ghost var was := mem[..];
      LoadSegments();
      PlacedIs(file, was, mem[..], Segments(file), preferredImageAddress, imageAddress);
      if imageAddress != preferredImageAddress {
        FreeFits(was, Fixups(file, Delta(preferredImageAddress, imageAddress)), fileBase, |file|);
        var ignored := RelocateElf32Sections();
      }
      status := Success;
    }

    method LoadElfImage() returns (status: Status)
      requires parseStatus == Success && imageAddress != 0 ==> Ready()
      modifies mem, this`entryPoint
      ensures status == if parseStatus != Success then parseStatus else if imageAddress == 0 then InvalidParameter else Success
      ensures status != Success ==> mem[..] == old(mem[..])
      ensures status == Success ==>
                && HasTables(file)
                && (forall k :: 0 <= k < PhNum(file) ==> Fits(file, old(mem[..]), Segments(file)[k], preferredImageAddress, imageAddress))
                && (imageAddress != preferredImageAddress ==>
                      HasRelocations(file) && AllFit(old(mem[..]), Fixups(file, Delta(preferredImageAddress, imageAddress))))
                && mem[..] == Loaded(file, old(mem[..]), preferredImageAddress, imageAddress)
    {
      hide Loaded, Fixups, HasRelocations, Load, Table;
      if parseStatus != Success {
        return parseStatus;
      }
      if imageAddress == 0 {
        return InvalidParameter;
      }
      status := LoadElf32Image();
    }

    /** A well-formed file that has been parsed can be loaded wherever its window finds room beside the file. */
    lemma WellFormedReady()
      requires Parsed() && WellFormed(file, imageAddress) && RoomFor(file, mem[..], imageAddress, fileBase)
      ensures Ready()
    {
      hide Load, WellFormed, RoomFor, Fits, Target, Fixups, AllFree, Table, Segments, Fold;
      RoomSuffices(file, mem[..], imageAddress, fileBase);
      HasAll(file, imageAddress);
    }

    /**
     A parsed file that lies at its preferred address, and needs no reload, can be loaded where it is if its segments have
     their own places in it; loading then changes nothing.
     */
    lemma InPlaceReady()
      requires Parsed() && imageAddress == preferredImageAddress == fileBase && !reloadRequired
      requires forall k :: 0 <= k < PhNum(file) && Loadable(Segments(file)[k]) ==>
                             var s := Segments(file)[k];
                             s.paddr < TWO32 && s.offset == s.paddr - fileBase && InMemory(file, s.offset, s.filesz)
      ensures Ready()
      ensures forall k :: 0 <= k < PhNum(file) ==> Fits(file, mem[..], Segments(file)[k], preferredImageAddress, imageAddress)
      ensures Loaded(file, mem[..], preferredImageAddress, imageAddress) == mem[..]
    {
      hide Load, Fixups, AllFree, Table, Fold, HasRelocations, Loaded, Image, ImageByte, SectionOf;
      forall k | 0 <= k < PhNum(file)
        ensures InPlace(file, Segments(file)[k], fileBase) && Fits(file, mem[..], Segments(file)[k], fileBase, fileBase)
                && Clear32(Segments(file)[k])
      {
        InPlaceFits(file, mem[..], Segments(file)[k], fileBase);
      }
      assert mem[..][fileBase..fileBase + |file|] == file;
      LoadedInPlace(file, mem[..], fileBase);
    }
  }

  // A copy and a clearing behind it, byte by byte.
  lemma SegmentBytes(was: seq<byte>, copied: seq<byte>, now: seq<byte>, to: int, from: int, n: nat, len: nat)
    requires 0 <= to && 0 <= from && n <= len && to + len <= |was| && from + n <= |was|
    requires copied == Moved(was, to, from, n)
    requires now == copied[..to + n] + Zeros(len - n) + copied[to + n + (len - n)..]
    ensures Laid(was, now, to, from, n, len)
  {
    forall x | 0 <= x < |was|
      ensures now[x] == LaidByte(was, to, from, n, len, x)
    {
      var d := x - to;
      assert to <= x < to + n ==> copied[x] == was[from..from + n][d];
    }
  }

  lemma FileKept(was: seq<byte>, now: seq<byte>, a: int, k: int, to: int, from: int, n: int, len: int)
    requires Laid(was, now, to, from, n, len) && InMemory(was, a, k) && (to + len <= a || a + k <= to || (to == from && n == len))
    ensures |now| == |was| && now[a..a + k] == was[a..a + k]
  {
    var s, t := now[a..a + k], was[a..a + k];
    forall i | 0 <= i < k
      ensures s[i] == t[i]
    {
      assert now[a + i] == was[a + i];
    }
  }

  lemma FitsLength(f: seq<byte>, m: seq<byte>, r: seq<byte>, s: Segment, base: int, image: int)
    requires |m| == |r|
    ensures Fits(f, m, s, base, image) <==> Fits(f, r, s, base, image)
  {
  }

  lemma SegmentIs(f: seq<byte>, k: nat)
    requires HasTables(f) && k < PhNum(f)
    ensures InMemory(f, EntryAt(PhOff(f), PhSize(f), k), 32) && Segments(f)[k] == SegmentAt(f, EntryAt(PhOff(f), PhSize(f), k))
  {
    hide Load, EntryAt;
  }

  lemma OneFix(m: seq<byte>, xs: seq<Fix>)
    requires |xs| <= 1 && AllFit(m, xs)
    ensures xs == [] ==> ApplyAll(m, xs) == m
    ensures xs != [] ==> FixFits(m, xs[0]) && ApplyAll(m, xs) == Apply(m, xs[0])
  {
    assert xs != [] ==> xs[..0] == [];
  }

  lemma NoFix(m: seq<byte>)
    ensures ApplyAll(m, []) == m
  {
  }

  lemma CountStart(t: Section)
    requires t.size != 0 ==> 0 < t.entsize
    ensures t.entsize * 0 == 0
  {
  }

  lemma SectionIs(f: seq<byte>, k: nat)
    requires HasTables(f) && k < ShNum(f)
    ensures InMemory(f, EntryAt(ShOff(f), ShSize(f), k), 40) && SectionOf(f, k) == SectionAt(f, EntryAt(ShOff(f), ShSize(f), k))
    ensures Sections(f)[k] == SectionOf(f, k)
  {
    hide Load, EntryAt;
  }

  lemma EmptyPart(xs: seq<Fix>)
    ensures xs + [] == xs
  {
  }

  lemma HaveTables(f: seq<byte>)
    requires HasRelocations(f)
    ensures HasTables(f) && HasHeader(f)
  {
  }

  lemma HasAll(f: seq<byte>, image: int)
    requires WellFormed(f, image)
    ensures HasTables(f) && (image != FileWindow(f).base ==> HasRelocations(f))
  {
  }
}
