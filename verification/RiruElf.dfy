/** The ELF-64 layout (figures 3 and 6 of the ELF-64 Object File Format) as a linker writes it, read back by the
    packer. */
module RiruElf {
  import opened LittleEndian
  import opened RiruFormat
  import opened RiruPack

  datatype ElfHeader = ElfHeader(
    ident: seq<byte>, kind: u16, machine: u16, version: u32, entry: u64, phoff: u64, shoff: u64, flags: u32,
    ehsize: u16, phentsize: u16, phnum: u16, shentsize: u16, shnum: u16, shstrndx: u16)

  datatype ProgramHeader = ProgramHeader(
    kind: u32, flags: u32, offset: u64, vaddr: u64, paddr: u64, filesz: u64, memsz: u64, align: u64)

  /** Numbers of the given widths, one after another. */
  datatype Field = Field(value: nat, width: nat)

  function Fields(fs: seq<Field>): (b: seq<byte>) {
    if fs == [] then [] else Le(fs[0].value, fs[0].width) + Fields(fs[1..])
  }

  function Start(fs: seq<Field>, k: nat): nat
    requires k <= |fs|
  {
    if k == 0 then 0 else fs[0].width + Start(fs[1..], k - 1)
  }

  lemma {:induction false} FieldAt(fs: seq<Field>, k: nat)
    requires k < |fs|
    ensures Start(fs, k) + fs[k].width <= |Fields(fs)|
    ensures Fields(fs)[Start(fs, k)..Start(fs, k) + fs[k].width] == Le(fs[k].value, fs[k].width)
  {
    var first, rest := Le(fs[0].value, fs[0].width), Fields(fs[1..]);
    if k > 0 {
      FieldAt(fs[1..], k - 1);
      AfterFirst(first, rest, Start(fs[1..], k - 1), Start(fs[1..], k - 1) + fs[k].width);
    }
  }

  lemma AfterFirst(first: seq<byte>, rest: seq<byte>, x: nat, y: nat)
    requires x <= y <= |rest|
    ensures (first + rest)[|first| + x..|first| + y] == rest[x..y]
  {
  }

  lemma {:induction false} StartNext(fs: seq<Field>, k: nat)
    requires k < |fs|
    ensures Start(fs, k + 1) == Start(fs, k) + fs[k].width && Start(fs, 0) == 0
  {
    if k > 0 {
      StartNext(fs[1..], k - 1);
    }
  }

  lemma {:induction false} FieldsLength(fs: seq<Field>)
    ensures |Fields(fs)| == Start(fs, |fs|)
  {
    if fs != [] {
      FieldsLength(fs[1..]);
    }
  }

  // ---- the file header -------------------------------------------------------------------------------

  function ElfFields(h: ElfHeader): (fs: seq<Field>) {
    [Field(h.kind, 2), Field(h.machine, 2), Field(h.version, 4), Field(h.entry, 8), Field(h.phoff, 8),
     Field(h.shoff, 8), Field(h.flags, 4), Field(h.ehsize, 2), Field(h.phentsize, 2), Field(h.phnum, 2),
     Field(h.shentsize, 2), Field(h.shnum, 2), Field(h.shstrndx, 2)]
  }

  function EncodeElf(h: ElfHeader): seq<byte> {
    h.ident + Fields(ElfFields(h))
  }

  /** Where the fields start, counted from the end of the sixteen bytes in front. */
  lemma ElfStarts(h: ElfHeader)
    ensures var fs := ElfFields(h);
            && Start(fs, 1) == 2 && Start(fs, 3) == 8 && Start(fs, 4) == 16
            && Start(fs, 8) == 38 && Start(fs, 9) == 40 && Start(fs, 13) == 48
  {
    var fs := ElfFields(h);
    hide Start;
    StartNext(fs, 0);
    StartNext(fs, 1);
    StartNext(fs, 2);
    StartNext(fs, 3);
    StartNext(fs, 4);
    StartNext(fs, 5);
    StartNext(fs, 6);
    StartNext(fs, 7);
    StartNext(fs, 8);
    StartNext(fs, 9);
    StartNext(fs, 10);
    StartNext(fs, 11);
    StartNext(fs, 12);
  }

  /** A field in the middle of a file. */
  lemma FieldInFile(before: seq<byte>, fs: seq<Field>, rest: seq<byte>, k: nat, at: nat)
    requires k < |fs| && at == |before| + Start(fs, k)
    ensures at + fs[k].width <= |before + Fields(fs) + rest|
    ensures (before + Fields(fs) + rest)[at..at + fs[k].width] == Le(fs[k].value, fs[k].width)
  {
    FieldAt(fs, k);
    InTheMiddle(before, Fields(fs), rest, Start(fs, k), Start(fs, k) + fs[k].width);
  }

  lemma InTheMiddle(a: seq<byte>, b: seq<byte>, c: seq<byte>, x: nat, y: nat)
    requires x <= y <= |b|
    ensures (a + b + c)[|a| + x..|a| + y] == b[x..y]
  {
  }

  /** The fields the packer looks at are where a linker puts them. */
  lemma ElfHeaderReadsBack(h: ElfHeader, rest: seq<byte>)
    requires |h.ident| == 16
    ensures var elf := EncodeElf(h) + rest;
            && |EncodeElf(h)| == 64 && elf[..16] == h.ident
            && U16(elf, 18) == h.machine && ElfEntry(elf) == h.entry && PhOff(elf) == h.phoff
            && U16(elf, 54) == h.phentsize && PhNum(elf) == h.phnum
  {
    var fs, elf := ElfFields(h), EncodeElf(h) + rest;
    hide Start, Fields, U16, U64;
    ElfStarts(h);
    FieldsLength(fs);
    FieldInFile(h.ident, fs, rest, 1, 18);
    FieldInFile(h.ident, fs, rest, 3, 24);
    FieldInFile(h.ident, fs, rest, 4, 32);
    FieldInFile(h.ident, fs, rest, 8, 54);
    FieldInFile(h.ident, fs, rest, 9, 56);
    assert fs[1] == Field(h.machine, 2) && fs[3] == Field(h.entry, 8) && fs[4] == Field(h.phoff, 8);
    assert fs[8] == Field(h.phentsize, 2) && fs[9] == Field(h.phnum, 2);
    hide ElfFields, EncodeElf;
    ReadsShort(elf, 18, h.machine);
    ReadsLong(elf, 24, h.entry);
    ReadsLong(elf, 32, h.phoff);
    ReadsShort(elf, 54, h.phentsize);
    ReadsShort(elf, 56, h.phnum);
  }

  lemma ReadsShort(b: seq<byte>, at: nat, v: u16)
    requires at + 2 <= |b| && b[at..at + 2] == Le(v, 2)
    ensures U16(b, at) == v
  {
    Pow256Values();
    LeRoundTrip(v, 2);
  }

  lemma ReadsWord(b: seq<byte>, at: nat, v: u32)
    requires at + 4 <= |b| && b[at..at + 4] == Le(v, 4)
    ensures U32(b, at) == v
  {
    Pow256Values();
    LeRoundTrip(v, 4);
  }

  lemma ReadsLong(b: seq<byte>, at: nat, v: u64)
    requires at + 8 <= |b| && b[at..at + 8] == Le(v, 8)
    ensures U64(b, at) == v
  {
    Pow256Values();
    LeRoundTrip(v, 8);
  }

  // ---- the program header table ----------------------------------------------------------------------

  function PhFields(p: ProgramHeader): (fs: seq<Field>) {
    [Field(p.kind, 4), Field(p.flags, 4), Field(p.offset, 8), Field(p.vaddr, 8), Field(p.paddr, 8),
     Field(p.filesz, 8), Field(p.memsz, 8), Field(p.align, 8)]
  }

  function EncodePh(p: ProgramHeader): (b: seq<byte>) {
    Fields(PhFields(p))
  }

  lemma PhStarts(p: ProgramHeader)
    ensures var fs := PhFields(p);
            && Start(fs, 0) == 0 && Start(fs, 1) == 4 && Start(fs, 2) == 8 && Start(fs, 3) == 16
            && Start(fs, 5) == 32 && Start(fs, 6) == 40 && Start(fs, 8) == 56
  {
    var fs := PhFields(p);
    hide Start;
    StartNext(fs, 0);
    StartNext(fs, 1);
    StartNext(fs, 2);
    StartNext(fs, 3);
    StartNext(fs, 4);
    StartNext(fs, 5);
    StartNext(fs, 6);
    StartNext(fs, 7);
  }

  /** What the packer keeps of a program header. */
  function Kept(p: ProgramHeader): Ph {
    Ph(p.kind, p.flags, p.offset, p.vaddr, p.filesz, p.memsz)
  }

  lemma PhReadsBack(before: seq<byte>, p: ProgramHeader, rest: seq<byte>)
    ensures |EncodePh(p)| == 56 && PhAt(before + EncodePh(p) + rest, |before|) == Kept(p)
  {
    var fs, file, at := PhFields(p), before + EncodePh(p) + rest, |before|;
    PhStarts(p);
    FieldsLength(fs);
    hide Start, Fields;
    FieldInFile(before, fs, rest, 0, at);
    FieldInFile(before, fs, rest, 1, at + 4);
    FieldInFile(before, fs, rest, 2, at + 8);
    FieldInFile(before, fs, rest, 3, at + 16);
    FieldInFile(before, fs, rest, 5, at + 32);
    FieldInFile(before, fs, rest, 6, at + 40);
    assert fs[0] == Field(p.kind, 4) && fs[1] == Field(p.flags, 4) && fs[2] == Field(p.offset, 8);
    assert fs[3] == Field(p.vaddr, 8) && fs[5] == Field(p.filesz, 8) && fs[6] == Field(p.memsz, 8);
    hide PhFields, EncodePh;
    ReadsWord(file, at, p.kind);
    ReadsWord(file, at + 4, p.flags);
    ReadsLong(file, at + 8, p.offset);
    ReadsLong(file, at + 16, p.vaddr);
    ReadsLong(file, at + 32, p.filesz);
    ReadsLong(file, at + 40, p.memsz);
    hide U32, U64;
  }

  function EncodeTable(ps: seq<ProgramHeader>): (b: seq<byte>) {
    if ps == [] then [] else EncodePh(ps[0]) + EncodeTable(ps[1..])
  }

  lemma {:induction false} EntryReadsBack(before: seq<byte>, ps: seq<ProgramHeader>, rest: seq<byte>, k: nat)
    requires k < |ps|
    ensures |EncodeTable(ps)| == 56 * |ps|
    ensures PhAt(before + EncodeTable(ps) + rest, |before| + 56 * k) == Kept(ps[k])
    decreases |ps|
  {
    hide PhAt, EncodePh;
    var first, others := EncodePh(ps[0]), EncodeTable(ps[1..]);
    PhReadsBack(before, ps[0], others + rest);
    assert before + EncodeTable(ps) + rest == before + first + (others + rest);
    if |ps| > 1 {
      EntryReadsBack(before + first, ps[1..], rest, if k > 0 then k - 1 else 0);
      assert before + EncodeTable(ps) + rest == (before + first) + others + rest;
    }
  }

  /** The packer reads the table a linker wrote, wherever in the file it is. */
  lemma TableReadsBack(h: ElfHeader, gap: seq<byte>, ps: seq<ProgramHeader>, rest: seq<byte>)
    requires |h.ident| == 16 && h.phoff == 64 + |gap| && h.phnum == |ps| > 0
    ensures var elf := EncodeElf(h) + (gap + EncodeTable(ps) + rest);
            && 64 <= |elf| && PhOff(elf) + PhNum(elf) * PH_SIZE <= |elf|
            && |Headers(elf)| == |ps| && forall k :: 0 <= k < |ps| ==> Headers(elf)[k] == Kept(ps[k])
  {
    hide EncodeElf, EncodeTable, PhOff, PhNum, PhAt, U16, ElfEntry, Headers;
    var tail := gap + EncodeTable(ps) + rest;
    var elf, before := EncodeElf(h) + tail, EncodeElf(h) + gap;
    ElfHeaderReadsBack(h, tail);
    Regrouped(EncodeElf(h), gap, EncodeTable(ps), rest);
    EntryReadsBack(before, ps, rest, 0);
    forall k | 0 <= k < |ps|
      ensures Headers(elf)[k] == Kept(ps[k])
    {
      EntryReadsBack(before, ps, rest, k);
      HeaderIs(elf, k);
    }
  }

  lemma HeaderIs(elf: seq<byte>, k: nat)
    requires 64 <= |elf| && PhOff(elf) + PhNum(elf) * PH_SIZE <= |elf| && k < PhNum(elf)
    ensures PhOff(elf) + 56 * k + 56 <= |elf| && Headers(elf)[k] == PhAt(elf, PhOff(elf) + 56 * k)
  {
    hide PhOff, PhNum, PhAt;
    EntryFits(k, PhNum(elf));
  }

  lemma Regrouped(a: seq<byte>, b: seq<byte>, c: seq<byte>, d: seq<byte>)
    ensures a + (b + c + d) == (a + b) + c + d
  {
  }

  /** The checks up to the table, by the fields of the header: a 64-bit ELF file for the x86-64 with program headers of
      the usual size, whose table ends inside the file. */
  lemma TableAccepted(h: ElfHeader, rest: seq<byte>)
    requires |h.ident| == 16
    ensures TableError(EncodeElf(h) + rest) ==
              if h.ident[..4] != [0x7F, 'E' as int, 'L' as int, 'F' as int] then Some(NotElf)
              else if h.ident[4] != 2 then Some(NotElf64)
              else if h.machine != 62 then Some(NotX86)
              else if h.phentsize != 56 then Some(BadHeaderSize)
              else if h.phoff + h.phnum * 56 > 64 + |rest| then Some(HeadersOutside)
              else None
  {
    var elf := EncodeElf(h) + rest;
    ElfHeaderReadsBack(h, rest);
    assert elf[..4] == elf[..16][..4] && elf[4] == elf[..16][4];
    hide EncodeElf, U16, PhOff, PhNum;
  }
}
