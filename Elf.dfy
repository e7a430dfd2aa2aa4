/** The ELF loader: the checks that accept a 64-bit little-endian RISC-V
    executable, and the translation of its section header table into the
    memory regions the processor puts on its bus. The image is the file's
    bytes; headers are read from them with the ELF-64 layout of the System V
    ABI (chapter 4, "ELF Header" and "Sections"), little-endian. */
module Elf {
  import opened Arch
  import Memory

  // ---------------------------------------------------------------------
  // Constants of the System V ABI, ELF-64
  // ---------------------------------------------------------------------

  /** Indices into e_ident */
  const IdentClass: nat := 4
  const IdentData: nat := 5
  const IdentVersion: nat := 6
  const IdentSize: nat := 16

  const ElfClass64: nat := 2
  const ElfData2Lsb: nat := 1
  const EvCurrent: nat := 1
  /** e_type of an executable file */
  const EtExec: nat := 2
  const EmRiscv: nat := 243

  /** sh_type of a section whose contents are in the file */
  const ShtProgbits: nat := 1

  /** Bit positions of SHF_WRITE (0x1), SHF_ALLOC (0x2) and SHF_EXECINSTR (0x4) */
  const ShfWriteBit: nat := 0
  const ShfAllocBit: nat := 1
  const ShfExecInstrBit: nat := 2

  /** sizeof(Elf64_Ehdr) and sizeof(Elf64_Shdr) */
  const HeaderSize: nat := 64
  const SectionHeaderSize: nat := 64

  // ---------------------------------------------------------------------
  // Little-endian fields
  // ---------------------------------------------------------------------

  function Sum(ws: seq<Width>): nat
  {
    if ws == [] then 0 else ws[0] + Sum(ws[1..])
  }

  /** 2^(8 w), the first value too wide for w bytes */
  function Limit(w: Width): nat
  {
    if w == 1 then 0x100 else if w == 2 then 0x1_0000 else if w == 4 then 0x1_0000_0000 else W64
  }

  lemma LimitIsPow2(w: Width)
    ensures Limit(w) == Pow2(8 * w)
  {
    Pow2Table();
  }

  /** Each value fits the byte width it is stored in */
  predicate FitWidths(vs: seq<nat>, widths: seq<Width>)
  {
    |vs| == |widths| && forall i :: 0 <= i < |vs| ==> vs[i] < Limit(widths[i])
  }

  /** Consecutive unsigned little-endian fields of the given byte widths */
  function ReadFields(bs: seq<byte>, widths: seq<Width>): (vs: seq<nat>)
    requires Sum(widths) <= |bs|
    ensures FitWidths(vs, widths)
  {
    if widths == [] then []
    else
      LimitIsPow2(widths[0]);
      [LeValue(bs[..widths[0]])] + ReadFields(bs[widths[0]..], widths[1..])
  }

  /** The bytes of consecutive little-endian fields */
  function WriteFields(vs: seq<nat>, widths: seq<Width>): (bs: seq<byte>)
    requires |vs| == |widths|
    ensures |bs| == Sum(widths)
  {
    if widths == [] then [] else LeBytes(vs[0], widths[0]) + WriteFields(vs[1..], widths[1..])
  }

  lemma {:induction false} ReadWriteFields(vs: seq<nat>, widths: seq<Width>, rest: seq<byte>)
    requires FitWidths(vs, widths)
    ensures ReadFields(WriteFields(vs, widths) + rest, widths) == vs
    decreases |widths|
  {
    if widths != [] {
      var w := widths[0];
      var head, tail := LeBytes(vs[0], w), WriteFields(vs[1..], widths[1..]);
      var bs := head + tail + rest;
      assert WriteFields(vs, widths) + rest == bs;
      assert bs[..w] == head;
      assert bs[w..] == tail + rest;
      LimitIsPow2(w);
      Memory.LeRoundTrip(vs[0], w);
      assert FitWidths(vs[1..], widths[1..]) by {
        forall i | 0 <= i < |vs| - 1
          ensures vs[1..][i] < Limit(widths[1..][i])
        {
          assert vs[1..][i] == vs[i + 1] && widths[1..][i] == widths[i + 1];
        }
      }
      ReadWriteFields(vs[1..], widths[1..], rest);
    }
  }

  lemma {:induction false} WriteReadFields(bs: seq<byte>, widths: seq<Width>)
    requires Sum(widths) == |bs|
    ensures WriteFields(ReadFields(bs, widths), widths) == bs
    decreases |widths|
  {
    if widths != [] {
      var w := widths[0];
      LeBytesOfValue(bs[..w]);
      WriteReadFields(bs[w..], widths[1..]);
      assert bs == bs[..w] + bs[w..];
    }
  }

  // ---------------------------------------------------------------------
  // The file header
  // ---------------------------------------------------------------------

  /** Elf64_Ehdr */
  datatype Header = Header(ident: seq<byte>, elfType: nat, machine: nat, version: nat, entry: u64,
                           phoff: nat, shoff: nat, flags: nat, ehsize: nat, phentsize: nat,
                           phnum: nat, shentsize: nat, shnum: nat, shstrndx: nat)

  /** The byte widths of the fields after e_ident, e_type to e_shstrndx */
  const HeaderWidths: seq<Width> := [2, 2, 4, 8, 8, 8, 4, 2, 2, 2, 2, 2, 2]

  lemma HeaderLayout()
    ensures Sum(HeaderWidths) + IdentSize == HeaderSize
  {
  }

  function HeaderValues(h: Header): seq<nat>
  {
    [h.elfType, h.machine, h.version, h.entry, h.phoff, h.shoff, h.flags,
     h.ehsize, h.phentsize, h.phnum, h.shentsize, h.shnum, h.shstrndx]
  }

  /** A header that fits its layout: sixteen identification bytes and every
      field within its width */
  predicate HeaderFits(h: Header)
  {
    |h.ident| == IdentSize && FitWidths(HeaderValues(h), HeaderWidths)
  }

  /** The header with the given identification and field values */
  function HeaderFrom(ident: seq<byte>, v: seq<nat>): (h: Header)
    requires |v| == |HeaderWidths| && v[3] < W64
    ensures HeaderValues(h) == v && h.ident == ident
  {
    var h := Header(ident, v[0], v[1], v[2], v[3], v[4], v[5], v[6], v[7], v[8], v[9], v[10], v[11], v[12]);
    assert forall i | 0 <= i < |v| :: HeaderValues(h)[i] == v[i];
    h
  }

  /** The header at the start of the image */
  function ReadHeader(file: seq<byte>): (h: Header)
    requires |file| >= HeaderSize
    ensures HeaderFits(h) && h.ident == file[..IdentSize]
  {
    HeaderLayout();
    var v := ReadFields(file[IdentSize..HeaderSize], HeaderWidths);
    assert v[3] < Limit(HeaderWidths[3]);
    HeaderFrom(file[..IdentSize], v)
  }

  /** The 64 bytes of a header */
  function WriteHeader(h: Header): (bs: seq<byte>)
    requires HeaderFits(h)
    ensures |bs| == HeaderSize
  {
    HeaderLayout();
    h.ident + WriteFields(HeaderValues(h), HeaderWidths)
  }

  lemma ReadWriteHeader(h: Header, rest: seq<byte>)
    requires HeaderFits(h)
    ensures ReadHeader(WriteHeader(h) + rest) == h
  {
    HeaderLayout();
    var file := WriteHeader(h) + rest;
    assert file[IdentSize..HeaderSize] == WriteFields(HeaderValues(h), HeaderWidths) + [];
    ReadWriteFields(HeaderValues(h), HeaderWidths, []);
  }

  lemma WriteReadHeader(file: seq<byte>)
    requires |file| >= HeaderSize
    ensures WriteHeader(ReadHeader(file)) == file[..HeaderSize]
  {
    HeaderLayout();
    var body := file[IdentSize..HeaderSize];
    var h := ReadHeader(file);
    assert HeaderValues(h) == ReadFields(body, HeaderWidths);
    WriteReadFields(body, HeaderWidths);
    assert WriteHeader(h) == file[..IdentSize] + body;
    assert file[..HeaderSize] == file[..IdentSize] + body;
  }

  // ---------------------------------------------------------------------
  // isELF, isTarget, getEntrypoint
  // ---------------------------------------------------------------------

  /** `isELF`: the magic number 0x7f 'E' 'L' 'F' and the current ELF version */
  predicate IsElf(h: Header)
    requires |h.ident| == IdentSize
  {
    && h.ident[0] == 0x7f && h.ident[1] == 'E' as int && h.ident[2] == 'L' as int && h.ident[3] == 'F' as int
    && h.ident[IdentVersion] == EvCurrent
  }

  /** `isTarget`: the class and byte order must match and a program header
      must be present; the type, machine and version are only refused when
      all three tests fail together */
  predicate IsTarget(h: Header, elfClass: nat, endianness: nat, machine: nat)
    requires |h.ident| == IdentSize
  {
    if h.ident[IdentClass] != elfClass then false
    else if h.ident[IdentData] != endianness then false
    else if h.elfType == EtExec && h.machine != machine && h.version != EvCurrent then false
    else if h.phoff == 0 then false
    else true
  }

  /** The test `load` applies: an ELF file of the 64-bit little-endian RISC-V target */
  predicate Accepted(h: Header)
    requires |h.ident| == IdentSize
  {
    IsElf(h) && IsTarget(h, ElfClass64, ElfData2Lsb, EmRiscv)
  }

  /** `getEntrypoint`: e_entry */
  function Entrypoint(file: seq<byte>): (e: u64)
    requires |file| >= HeaderSize
  {
    ReadHeader(file).entry
  }

  /** The entry point read back from an image is the one its header was
      written with */
  lemma EntrypointOfWritten(h: Header, rest: seq<byte>)
    requires HeaderFits(h)
    ensures Entrypoint(WriteHeader(h) + rest) == h.entry
  {
    ReadWriteHeader(h, rest);
  }

  /** The identification a 64-bit little-endian toolchain writes */
  const Riscv64Ident: seq<byte> := [0x7f, 'E' as int, 'L' as int, 'F' as int, 2, 1, 1, 0, 0, 0, 0, 0, 0, 0, 0, 0]

  /** An executable header as a RISC-V toolchain writes it */
  function ExecutableHeader(machine: nat, version: nat, entry: u64, phoff: u64, shoff: u64, shnum: nat): (h: Header)
    requires machine < 0x1_0000 && version < 0x1_0000_0000 && shnum < 0x1_0000
    ensures HeaderFits(h)
  {
    Header(Riscv64Ident, EtExec, machine, version, entry, phoff, shoff, 0, HeaderSize, 56, 1, SectionHeaderSize, shnum, 0)
  }

  /** A RISC-V executable header is accepted exactly when it has a program
      header table */
  lemma RiscvExecutableAccepted(entry: u64, phoff: u64, shoff: u64, shnum: nat)
    requires shnum < 0x1_0000
    ensures Accepted(ExecutableHeader(EmRiscv, EvCurrent, entry, phoff, shoff, shnum)) <==> phoff != 0
  {
  }

  /** The machine test is weak: an executable for another machine (here
      x86-64, e_machine 62) passes as long as its version is current */
  lemma ForeignExecutableAccepted(entry: u64)
    ensures Accepted(ExecutableHeader(62, EvCurrent, entry, 64, 0, 0))
  {
  }

  /** Only an executable whose machine and version both differ is refused */
  lemma ForeignOldExecutableRefused(entry: u64, version: nat)
    requires version < 0x1_0000_0000 && version != EvCurrent
    ensures !Accepted(ExecutableHeader(62, version, entry, 64, 0, 0))
  {
  }

  // ---------------------------------------------------------------------
  // The section header table
  // ---------------------------------------------------------------------

  /** Elf64_Shdr */
  datatype SectionHeader = SectionHeader(name: nat, shType: nat, flags: nat, addr: u64, offset: nat,
                                         size: nat, link: nat, info: nat, addralign: nat, entsize: nat)

  /** The byte widths of sh_name to sh_entsize */
  const SectionWidths: seq<Width> := [4, 4, 8, 8, 8, 8, 4, 4, 8, 8]

  lemma SectionLayout()
    ensures Sum(SectionWidths) == SectionHeaderSize
  {
  }

  /** The section header at byte offset at */
  function ReadSection(file: seq<byte>, at: nat): SectionHeader
    requires at + SectionHeaderSize <= |file|
  {
    SectionLayout();
    var v := ReadFields(file[at..at + SectionHeaderSize], SectionWidths);
    SectionHeader(v[0], v[1], v[2], v[3], v[4], v[5], v[6], v[7], v[8], v[9])
  }

  function SectionValues(s: SectionHeader): seq<nat>
  {
    [s.name, s.shType, s.flags, s.addr, s.offset, s.size, s.link, s.info, s.addralign, s.entsize]
  }

  /** The 64 bytes of a section header */
  function WriteSection(s: SectionHeader): (bs: seq<byte>)
    requires FitWidths(SectionValues(s), SectionWidths)
    ensures |bs| == SectionHeaderSize
  {
    SectionLayout();
    WriteFields(SectionValues(s), SectionWidths)
  }

  lemma ReadWriteSection(s: SectionHeader, before: seq<byte>, rest: seq<byte>)
    requires FitWidths(SectionValues(s), SectionWidths)
    ensures ReadSection(before + WriteSection(s) + rest, |before|) == s
  {
    SectionLayout();
    var file := before + WriteSection(s) + rest;
    assert file[|before|..|before| + SectionHeaderSize] == WriteSection(s) + [];
    ReadWriteFields(SectionValues(s), SectionWidths, []);
  }

  /** The table has e_shnum entries of sizeof(Elf64_Shdr) bytes at e_shoff */
  predicate TableInFile(file: seq<byte>, h: Header)
  {
    h.shoff + SectionHeaderSize * h.shnum <= |file|
  }

  /** `sheader[i]` for i below e_shnum */
  function SectionTable(file: seq<byte>, h: Header): (ss: seq<SectionHeader>)
    requires TableInFile(file, h)
    ensures |ss| == h.shnum
  {
    seq(h.shnum, i requires 0 <= i < h.shnum => TableEntry(file, h, i))
  }

  function TableEntry(file: seq<byte>, h: Header, i: nat): SectionHeader
    requires TableInFile(file, h) && i < h.shnum
  {
    assert h.shoff + SectionHeaderSize * i + SectionHeaderSize <= |file| by {
      assert SectionHeaderSize * i + SectionHeaderSize == SectionHeaderSize * (i + 1);
      MulMonotone(SectionHeaderSize, i + 1, h.shnum);
    }
    ReadSection(file, h.shoff + SectionHeaderSize * i)
  }

  // ---------------------------------------------------------------------
  // createMemories
  // ---------------------------------------------------------------------

  /** `(sh_flags & SHF_ALLOC) == SHF_ALLOC`: the section occupies memory */
  predicate Allocated(s: SectionHeader)
  {
    Bit(s.flags, ShfAllocBit) == 1
  }

  /** The contents of an allocated SHT_PROGBITS section lie inside the file */
  predicate DataInFile(file: seq<byte>, s: SectionHeader)
  {
    Allocated(s) && s.shType == ShtProgbits ==> s.offset + s.size <= |file|
  }

  /** The section's bytes: copied from the file for SHT_PROGBITS, zero otherwise */
  function Segment(file: seq<byte>, s: SectionHeader): seq<byte>
    requires DataInFile(file, s) && Allocated(s)
  {
    if s.shType == ShtProgbits then file[s.offset..s.offset + s.size] else Bytes0(s.size)
  }

  /** n zero bytes */
  function Bytes0(n: nat): (z: seq<byte>)
    ensures |z| == n && forall k :: 0 <= k < n ==> z[k] == 0
  {
    seq(n, _ => 0)
  }

  function SegmentName(s: SectionHeader): string
  {
    if Bit(s.flags, ShfExecInstrBit) == 1 then "text" else "data"
  }

  /** The region one allocated section becomes: sh_size bytes at sh_addr,
      copied from the file for SHT_PROGBITS and zero otherwise, named "text"
      for SHF_EXECINSTR and "data" otherwise, writable when SHF_WRITE is set */
  function RegionOf(file: seq<byte>, s: SectionHeader): (r: Memory.Region)
    requires DataInFile(file, s) && Allocated(s)
    ensures r.base == s.addr && |r.data| == s.size
    ensures r.mayWrite <==> Bit(s.flags, ShfWriteBit) == 1
    ensures r.name == (if Bit(s.flags, ShfExecInstrBit) == 1 then "text" else "data")
    ensures s.shType == ShtProgbits ==> r.data == file[s.offset..s.offset + s.size]
    ensures s.shType != ShtProgbits ==> forall k :: 0 <= k < |r.data| ==> r.data[k] == 0
  {
    var memory := Memory.NewRegion(SegmentName(s), Segment(file, s), s.addr);
    if Bit(s.flags, ShfWriteBit) == 1 then Memory.SetMayWrite(memory, true) else memory
  }

  /** The sections' regions, in table order, skipping unallocated sections */
  function Regions(file: seq<byte>, ss: seq<SectionHeader>): seq<Memory.Region>
    requires SectionsInFile(file, ss)
  {
    if ss == [] then []
    else
      var last := ss[|ss| - 1];
      Regions(file, ss[..|ss| - 1]) + if Allocated(last) then [RegionOf(file, last)] else []
  }

  predicate SectionsInFile(file: seq<byte>, ss: seq<SectionHeader>)
  {
    forall i :: 0 <= i < |ss| ==> DataInFile(file, ss[i])
  }

  /** One more section header adds its region, if it is allocated */
  lemma RegionsSnoc(file: seq<byte>, ss: seq<SectionHeader>, i: nat)
    requires SectionsInFile(file, ss) && i < |ss|
    ensures SectionsInFile(file, ss[..i]) && SectionsInFile(file, ss[..i + 1]) && DataInFile(file, ss[i])
    ensures Regions(file, ss[..i + 1]) == Regions(file, ss[..i]) + if Allocated(ss[i]) then [RegionOf(file, ss[i])] else []
  {
    assert ss[..i + 1][..i] == ss[..i];
  }

  /** The number of allocated sections */
  function CountAllocated(ss: seq<SectionHeader>): nat
  {
    if ss == [] then 0 else CountAllocated(ss[..|ss| - 1]) + if Allocated(ss[|ss| - 1]) then 1 else 0
  }

  /** An image createMemories can read: a header, the whole section table,
      and the contents of every allocated SHT_PROGBITS section */
  predicate Loadable(file: seq<byte>)
  {
    && |file| >= HeaderSize
    && TableInFile(file, ReadHeader(file))
    && SectionsInFile(file, SectionTable(file, ReadHeader(file)))
  }

  /** `createMemories`: one region per allocated section, in table order */
  method CreateMemories(file: seq<byte>) returns (memories: seq<Memory.Region>)
    requires Loadable(file)
    ensures memories == Regions(file, SectionTable(file, ReadHeader(file)))
  {
    var elf := ReadHeader(file);
    ghost var table := SectionTable(file, elf);
    memories := [];
    var i := 0;
    while i < elf.shnum
      invariant 0 <= i <= elf.shnum
      invariant SectionsInFile(file, table[..i]) && memories == Regions(file, table[..i])
    {
      var sheader := TableEntry(file, elf, i);
      RegionsSnoc(file, table, i);
      if Bit(sheader.flags, ShfAllocBit) == 1 {
        var memory := SectionMemory(file, sheader);
        memories := memories + [memory];
      }
      i := i + 1;
    }
    assert table[..elf.shnum] == table;
  }

  /** The loop body of `createMemories` for one allocated section: the
      segment is filled from the file or cleared, named, and made writable
      when SHF_WRITE is set */
  method SectionMemory(file: seq<byte>, sheader: SectionHeader) returns (memory: Memory.Region)
    requires DataInFile(file, sheader) && Allocated(sheader)
    ensures memory == RegionOf(file, sheader)
  {
    var segment: seq<byte>;
    if sheader.shType == ShtProgbits {
      segment := file[sheader.offset..sheader.offset + sheader.size];
    } else {
      segment := Bytes0(sheader.size);
    }
    var name := "data";
    if Bit(sheader.flags, ShfExecInstrBit) == 1 {
      name := "text";
    }
    memory := Memory.NewRegion(name, segment, sheader.addr);
    if Bit(sheader.flags, ShfWriteBit) == 1 {
      memory := Memory.SetMayWrite(memory, true);
    }
  }

  /** Exactly one region per allocated section, in table order: there are as
      many regions as allocated sections, and the allocated section at index
      j becomes the region counted by the allocated sections before it */
  lemma {:induction false} RegionsFollowTable(file: seq<byte>, ss: seq<SectionHeader>)
    requires SectionsInFile(file, ss)
    ensures |Regions(file, ss)| == CountAllocated(ss)
    ensures forall j {:trigger ss[j]} :: 0 <= j < |ss| && Allocated(ss[j]) ==>
      CountAllocated(ss[..j]) < |Regions(file, ss)| && Regions(file, ss)[CountAllocated(ss[..j])] == RegionOf(file, ss[j])
    decreases |ss|
  {
    if ss != [] {
      var n := |ss| - 1;
      var init := ss[..n];
      RegionsFollowTable(file, init);
      forall j | 0 <= j < |ss| && Allocated(ss[j])
        ensures CountAllocated(ss[..j]) < |Regions(file, ss)| && Regions(file, ss)[CountAllocated(ss[..j])] == RegionOf(file, ss[j])
      {
        if j < n {
          assert init[j] == ss[j];
          assert init[..j] == ss[..j];
        } else {
          assert ss[..j] == init;
        }
      }
    }
  }
}
