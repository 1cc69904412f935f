/** src/tools/riru_pack.c as functions on values: which ELF files are packed, into what, and what a loader
    reads back. */
module RiruPack {
  import opened LittleEndian
  import opened RiruFormat

  const ELF_HEADER_SIZE: nat := 64
  const PH_SIZE: nat := 56
  const PT_LOAD: nat := 1
  const U64_MAX: u64 := 0xFFFF_FFFF_FFFF_FFFF
  const DEFAULT_STACK_SIZE: u64 := 0x10_0000

  function U16(b: seq<byte>, at: nat): u16
    requires at + 2 <= |b|
  {
    Pow256Values();
    FromLe(b[at..at + 2])
  }

  function U32(b: seq<byte>, at: nat): u32
    requires at + 4 <= |b|
  {
    Pow256Values();
    FromLe(b[at..at + 4])
  }

  function U64(b: seq<byte>, at: nat): u64
    requires at + 8 <= |b|
  {
    Pow256Values();
    FromLe(b[at..at + 8])
  }

  /** The fields of an ELF program header that the packer reads. */
  datatype Ph = Ph(kind: u32, flags: u32, offset: u64, vaddr: u64, filesz: u64, memsz: u64)

  function PhAt(elf: seq<byte>, at: nat): Ph
    requires at + PH_SIZE <= |elf|
  {
    Ph(U32(elf, at), U32(elf, at + 4), U64(elf, at + 8), U64(elf, at + 16), U64(elf, at + 32), U64(elf, at + 40))
  }

  function ElfEntry(elf: seq<byte>): u64
    requires ELF_HEADER_SIZE <= |elf|
  {
    U64(elf, 24)
  }

  function PhOff(elf: seq<byte>): u64
    requires ELF_HEADER_SIZE <= |elf|
  {
    U64(elf, 32)
  }

  function PhNum(elf: seq<byte>): u16
    requires ELF_HEADER_SIZE <= |elf|
  {
    U16(elf, 56)
  }

  /** The program header table, when it lies in the file. */
  function Headers(elf: seq<byte>): (phs: seq<Ph>)
    requires ELF_HEADER_SIZE <= |elf| && PhOff(elf) + PhNum(elf) * PH_SIZE <= |elf|
    ensures |phs| == PhNum(elf)
  {
    seq(PhNum(elf), i requires 0 <= i < PhNum(elf) => HeaderInTable(elf, i))
  }

  function HeaderInTable(elf: seq<byte>, i: nat): Ph
    requires ELF_HEADER_SIZE <= |elf| && PhOff(elf) + PhNum(elf) * PH_SIZE <= |elf| && i < PhNum(elf)
  {
    EntryFits(i, PhNum(elf));
    PhAt(elf, PhOff(elf) + i * PH_SIZE)
  }

  lemma EntryFits(i: nat, n: nat)
    requires i < n
    ensures i * PH_SIZE + PH_SIZE <= n * PH_SIZE
  {
  }

  // ---- which files are packed ------------------------------------------------------------------------

  datatype PackError =
    | TooShort | NotElf | NotElf64 | NotX86 | BadHeaderSize
    | HeadersOutside | InvalidSegment | SegmentOutside | NoExecutable

  /** The end of the program header table does not wrap round 2^64; the check on it would be blind if it did. */
  predicate TableEndFits(elf: seq<byte>) {
    ELF_HEADER_SIZE <= |elf| ==> PhOff(elf) + PhNum(elf) * PH_SIZE <= U64_MAX
  }

  /** The checks of main up to the program header table, in order. */
  function TableError(elf: seq<byte>): (e: Option<PackError>)
    ensures e == None ==> ELF_HEADER_SIZE <= |elf| && PhOff(elf) + PhNum(elf) * PH_SIZE <= |elf|
  {
    if |elf| < ELF_HEADER_SIZE then Some(TooShort)
    else if elf[..4] != [0x7F, 69, 76, 70] then Some(NotElf)
    else if elf[4] != 2 then Some(NotElf64)
    else if U16(elf, 18) != 62 then Some(NotX86)
    else if U16(elf, 54) != PH_SIZE then Some(BadHeaderSize)
    else if PhOff(elf) + PhNum(elf) * PH_SIZE > |elf| then Some(HeadersOutside)
    else None
  }

  predicate IsLoad(ph: Ph) {
    ph.kind == PT_LOAD
  }

  /** The first loadable segment that is ill-formed or leaves the file, from header i on. */
  function SegmentError(phs: seq<Ph>, size: nat, i: nat): (e: Option<PackError>)
    requires i <= |phs|
    ensures e == None <==> forall k :: i <= k < |phs| && IsLoad(phs[k]) ==>
            phs[k].filesz <= phs[k].memsz && phs[k].offset + phs[k].filesz <= size
    decreases |phs| - i
  {
    if i == |phs| then None
    else if IsLoad(phs[i]) && phs[i].memsz < phs[i].filesz then Some(InvalidSegment)
    else if IsLoad(phs[i]) && !RangeValid(phs[i].offset, phs[i].filesz, size) then Some(SegmentOutside)
    else SegmentError(phs, size, i + 1)
  }

  predicate IsExecutable(ph: Ph) {
    ph.flags % 2 == 1
  }

  predicate IsWritable(ph: Ph) {
    ph.flags / 2 % 2 == 1
  }

  /** The lowest address of executable code, or all ones. */
  function FirstCode(phs: seq<Ph>): u64 {
    if phs == [] then U64_MAX
    else
      var rest, last := FirstCode(phs[..|phs| - 1]), phs[|phs| - 1];
      if IsLoad(last) && IsExecutable(last) && last.vaddr < rest then last.vaddr else rest
  }

  function PackErrorOf(elf: seq<byte>): Option<PackError> {
    if TableError(elf) != None then TableError(elf)
    else if SegmentError(Headers(elf), |elf|, 0) != None then SegmentError(Headers(elf), |elf|, 0)
    else if FirstCode(Headers(elf)) == U64_MAX then Some(NoExecutable)
    else None
  }

  // ---- three merged spans ----------------------------------------------------------------------------

  datatype Class = Code | Rodata | Data | Skipped

  /** Executable, else writable, else read-only; read-only segments below the code are not kept. */
  function ClassOf(ph: Ph, firstCode: u64): Class {
    if !IsLoad(ph) then Skipped
    else if IsExecutable(ph) then Code
    else if IsWritable(ph) then Data
    else if ph.vaddr < firstCode then Skipped
    else Rodata
  }

  /** segment_info_t. */
  datatype Span = Span(found: bool, offset: u64, vaddr: u64, filesz: u64, memsz: u64, flags: u32)

  const NO_SPAN: Span := Span(false, 0, 0, 0, 0, 0)

  function Wrap(v: int): u64 {
    v % 0x1_0000_0000_0000_0000
  }

  lemma WrapSmall(v: int)
    ensures 0 <= v <= U64_MAX ==> Wrap(v) == v
  {
  }

  /** add_segment: the first segment starts the span, later ones can only move its ends up. */
  function Added(s: Span, ph: Ph): Span {
    if !s.found then Span(true, ph.offset, ph.vaddr, ph.filesz, ph.memsz, ph.flags)
    else
      var fileEnd, oldFileEnd := Wrap(ph.offset + ph.filesz), Wrap(s.offset + s.filesz);
      var memEnd, oldMemEnd := Wrap(ph.vaddr + ph.memsz), Wrap(s.vaddr + s.memsz);
      s.(filesz := if fileEnd > oldFileEnd then Wrap(fileEnd - s.offset) else s.filesz,
         memsz := if memEnd > oldMemEnd then Wrap(memEnd - s.vaddr) else s.memsz)
  }

  function Gather(phs: seq<Ph>, firstCode: u64, class_: Class): Span {
    if phs == [] then NO_SPAN
    else
      var s := Gather(phs[..|phs| - 1], firstCode, class_);
      if ClassOf(phs[|phs| - 1], firstCode) == class_ then Added(s, phs[|phs| - 1]) else s
  }

  /** Zero-filled memory of writable segments, added up. */
  function BssSize(phs: seq<Ph>, firstCode: u64): u64 {
    if phs == [] then 0
    else
      var rest, last := BssSize(phs[..|phs| - 1], firstCode), phs[|phs| - 1];
      if ClassOf(last, firstCode) == Data && last.memsz > last.filesz then Wrap(rest + (last.memsz - last.filesz))
      else rest
  }

  /** The segments of one class, in table order. */
  function Members(phs: seq<Ph>, firstCode: u64, class_: Class): (m: seq<Ph>)
    ensures |m| <= |phs|
  {
    if phs == [] then []
    else
      var m := Members(phs[..|phs| - 1], firstCode, class_);
      if ClassOf(phs[|phs| - 1], firstCode) == class_ then m + [phs[|phs| - 1]] else m
  }

  predicate InFileSegment(ph: Ph, size: nat) {
    ph.offset + ph.filesz <= size
  }

  /** What a merged span is: it starts where its first member does and ends at the highest member end. */
  predicate IsMerge(s: Span, m: seq<Ph>) {
    && s.found == (|m| > 0)
    && (|m| == 0 ==> s == NO_SPAN)
    && (|m| > 0 ==>
          && s.offset == m[0].offset && s.vaddr == m[0].vaddr && s.flags == m[0].flags
          && (forall k :: 0 <= k < |m| ==> m[k].offset + m[k].filesz <= s.offset + s.filesz)
          && exists k :: 0 <= k < |m| && m[k].offset + m[k].filesz == s.offset + s.filesz)
  }

  /** Inside a file nothing wraps: the start stays and the end is the higher of the two. */
  lemma AddedEnd(s: Span, ph: Ph, size: nat)
    requires size <= U64_MAX && InFileSegment(ph, size) && s.found && s.offset + s.filesz <= size
    ensures var t := Added(s, ph);
            && t.found && t.offset == s.offset && t.vaddr == s.vaddr && t.flags == s.flags
            && t.offset + t.filesz == if ph.offset + ph.filesz > s.offset + s.filesz then ph.offset + ph.filesz
                                      else s.offset + s.filesz
  {
    WrapSmall(ph.offset + ph.filesz);
    WrapSmall(s.offset + s.filesz);
    WrapSmall(ph.offset + ph.filesz - s.offset);
    hide Wrap;
  }

  lemma AddedIsMerge(s: Span, m: seq<Ph>, ph: Ph, size: nat)
    requires size <= U64_MAX && IsMerge(s, m) && InFileSegment(ph, size) && s.offset + s.filesz <= size
    ensures IsMerge(Added(s, ph), m + [ph]) && Added(s, ph).offset + Added(s, ph).filesz <= size
  {
    var t, n := Added(s, ph), m + [ph];
    assert n[|m|] == ph && forall k :: 0 <= k < |m| ==> n[k] == m[k];
    if s.found {
      AddedEnd(s, ph, size);
      hide Added;
      var top :| 0 <= top < |m| && m[top].offset + m[top].filesz == s.offset + s.filesz;
      assert n[top].offset + n[top].filesz == s.offset + s.filesz && n[0] == m[0];
      forall k | 0 <= k < |n|
        ensures n[k].offset + n[k].filesz <= t.offset + t.filesz
      {
      }
    }
  }

  /** The merging loop over a table whose segments lie in the file: the span is the merge of its class and lies
      in the file too. */
  lemma {:induction false} GatherIsMerge(phs: seq<Ph>, firstCode: u64, class_: Class, size: nat)
    requires size <= U64_MAX && forall k :: 0 <= k < |phs| && IsLoad(phs[k]) ==> InFileSegment(phs[k], size)
    requires class_ != Skipped
    ensures var s := Gather(phs, firstCode, class_);
            IsMerge(s, Members(phs, firstCode, class_)) && s.offset + s.filesz <= size
  {
    if phs != [] {
      var before, last := phs[..|phs| - 1], phs[|phs| - 1];
      GatherIsMerge(before, firstCode, class_, size);
      hide IsMerge, Added;
      if ClassOf(last, firstCode) == class_ {
        AddedIsMerge(Gather(before, firstCode, class_), Members(before, firstCode, class_), last, size);
      }
    }
  }

  /** The bytes of a span. */
  function SpanBytes(elf: seq<byte>, s: Span): (b: seq<byte>)
    requires s.offset + s.filesz <= |elf|
    ensures |b| == s.filesz
  {
    elf[s.offset..s.offset + s.filesz]
  }

  /** A member that does not start below the first is wholly in the span, at its own distance from the start. */
  lemma SpanHoldsMember(elf: seq<byte>, s: Span, m: seq<Ph>, k: nat)
    requires IsMerge(s, m) && k < |m| && s.offset + s.filesz <= |elf| && s.offset <= m[k].offset
    ensures var at := m[k].offset - s.offset;
            && at + m[k].filesz <= s.filesz
            && SpanBytes(elf, s)[at..at + m[k].filesz] == elf[m[k].offset..m[k].offset + m[k].filesz]
  {
    assert m[k].offset + m[k].filesz <= s.offset + s.filesz;
    SliceOfSlice(elf, s.offset, s.offset + s.filesz, m[k].offset, m[k].offset + m[k].filesz);
  }

  /** A file with executable code always has a code span: the packer's last check cannot fail. */
  lemma {:induction false} ExecutableIsFound(phs: seq<Ph>, firstCode: u64)
    requires FirstCode(phs) != U64_MAX
    ensures Gather(phs, firstCode, Code).found
  {
    if FirstCode(phs[..|phs| - 1]) != U64_MAX {
      ExecutableIsFound(phs[..|phs| - 1], firstCode);
    }
  }

  // ---- layout ----------------------------------------------------------------------------------------

  /** align_up to 16; the original masks the low four bits. */
  function AlignUp(v: nat): (r: nat)
    ensures v <= r < v + 16 && r % 16 == 0
  {
    (v + 15) / 16 * 16
  }

  function Padded16(b: seq<byte>): (p: seq<byte>)
    ensures |p| == AlignUp(|b|) && p[..|b|] == b
  {
    b + Zeros(AlignUp(|b|) - |b|)
  }

  datatype Spans = Spans(code: Span, rodata: Span, data: Span, bssSize: u64)

  function SpansOf(elf: seq<byte>): Spans
    requires TableError(elf) == None
  {
    var phs := Headers(elf);
    var first := FirstCode(phs);
    Spans(Gather(phs, first, Code), Gather(phs, first, Rodata), Gather(phs, first, Data), BssSize(phs, first))
  }

  predicate SpansFit(s: Spans, size: nat) {
    && s.code.offset + s.code.filesz <= size
    && s.rodata.offset + s.rodata.filesz <= size
    && s.data.offset + s.data.filesz <= size
  }

  lemma SpansInFile(elf: seq<byte>)
    requires PackErrorOf(elf) == None && |elf| <= U64_MAX
    ensures SpansFit(SpansOf(elf), |elf|)
    ensures var phs := Headers(elf); var first := FirstCode(phs);
            && IsMerge(SpansOf(elf).code, Members(phs, first, Code))
            && IsMerge(SpansOf(elf).rodata, Members(phs, first, Rodata))
            && IsMerge(SpansOf(elf).data, Members(phs, first, Data))
    ensures SpansOf(elf).code.found
  {
    var phs := Headers(elf);
    GatherIsMerge(phs, FirstCode(phs), Code, |elf|);
    GatherIsMerge(phs, FirstCode(phs), Rodata, |elf|);
    GatherIsMerge(phs, FirstCode(phs), Data, |elf|);
    ExecutableIsFound(phs, FirstCode(phs));
  }

  const BODY_START: nat := 128

  /** Where a section starts: 0 when it is empty. */
  function OffsetOf(at: nat, size: nat): nat {
    if size == 0 then 0 else at
  }

  function RodataStart(s: Spans): nat {
    BODY_START + AlignUp(s.code.filesz)
  }

  function DataStart(s: Spans): nat {
    RodataStart(s) + AlignUp(s.rodata.filesz)
  }

  function ImageSize(s: Spans): nat {
    DataStart(s) + AlignUp(s.data.filesz)
  }

  function PackedHeader(entry: u64, s: Spans): Header
    requires ImageSize(s) <= U64_MAX
  {
    Header(RIRU_MAGIC, RIRU_VERSION, RIRU_ARCH_X86_64, RIRU_TYPE_EXECUTABLE, 0, entry,
           OffsetOf(BODY_START, s.code.filesz), s.code.vaddr, s.code.filesz,
           OffsetOf(RodataStart(s), s.rodata.filesz), s.rodata.vaddr, s.rodata.filesz,
           OffsetOf(DataStart(s), s.data.filesz), s.data.vaddr, s.data.filesz,
           s.bssSize, DEFAULT_STACK_SIZE, ImageSize(s))
  }

  /** The output file: header, then the three sections, each padded to 16 bytes. */
  function PackedFrom(elf: seq<byte>, entry: u64, s: Spans): (out: seq<byte>)
    requires SpansFit(s, |elf|) && ImageSize(s) <= U64_MAX
    ensures |out| == ImageSize(s)
  {
    Encode(PackedHeader(entry, s)) + Zeros(8)
    + Padded16(SpanBytes(elf, s.code)) + Padded16(SpanBytes(elf, s.rodata)) + Padded16(SpanBytes(elf, s.data))
  }

  /** File sizes that cannot overflow the output's 64-bit offsets. */
  predicate Packable(elf: seq<byte>) {
    |elf| <= 0x1000_0000_0000_0000 && PackErrorOf(elf) == None
  }

  function Packed(elf: seq<byte>): seq<byte>
    requires Packable(elf)
  {
    SpansInFile(elf);
    PackedFrom(elf, ElfEntry(elf), SpansOf(elf))
  }

  // ---- what the loader gets --------------------------------------------------------------------------

  /** Non-empty sections are 16-aligned, follow the header in order, do not overlap and end inside the image. */
  lemma LayoutIsSound(s: Spans)
    ensures BODY_START % 16 == 0 && HEADER_SIZE <= BODY_START && BODY_START + s.code.filesz <= RodataStart(s)
    ensures RodataStart(s) % 16 == 0 && RodataStart(s) + s.rodata.filesz <= DataStart(s)
    ensures DataStart(s) % 16 == 0 && DataStart(s) + s.data.filesz <= ImageSize(s) && ImageSize(s) % 16 == 0
  {
  }

  /** The pieces of the output, cut back out. */
  lemma PiecesOf(head: seq<byte>, c: seq<byte>, r: seq<byte>, d: seq<byte>)
    requires |head| == BODY_START
    ensures var out := head + Padded16(c) + Padded16(r) + Padded16(d);
            var rs := BODY_START + AlignUp(|c|);
            var ds := rs + AlignUp(|r|);
            && out[BODY_START..BODY_START + |c|] == c && out[rs..rs + |r|] == r && out[ds..ds + |d|] == d
  {
    var pc, pr, pd := Padded16(c), Padded16(r), Padded16(d);
    var out := head + pc + pr + pd;
    var rs := BODY_START + AlignUp(|c|);
    var ds := rs + AlignUp(|r|);
    hide Padded16;
    assert out[BODY_START..rs] == pc && out[rs..ds] == pr && out[ds..] == pd;
    assert out[BODY_START..BODY_START + |c|] == pc[..|c|];
    assert out[rs..rs + |r|] == pr[..|r|];
    assert out[ds..ds + |d|] == pd[..|d|];
  }

  /** When the kernel's parser takes a packed file. */
  predicate Loadable(entry: u64, s: Spans) {
    && entry != 0
    && (s.code.filesz > 0 ==> s.code.vaddr != 0)
    && (s.rodata.filesz > 0 ==> s.rodata.vaddr != 0)
    && (s.data.filesz > 0 ==> s.data.vaddr != 0)
  }

  /** Pack, then parse: every packed file is accepted exactly when its entry point and the addresses of its
      non-empty sections are not zero, and the parser then finds the merged bytes of each class. */
  lemma PackThenParse(elf: seq<byte>)
    requires Packable(elf)
    ensures SpansFit(SpansOf(elf), |elf|)
    ensures Parse(Packed(elf)).Parsed? <==> Loadable(ElfEntry(elf), SpansOf(elf))
    ensures Parse(Packed(elf)).Parsed? ==> GivesBack(Parse(Packed(elf)).image, Packed(elf), elf, ElfEntry(elf),
                                                     SpansOf(elf))
  {
    SpansInFile(elf);
    hide PackErrorOf, SpansOf, IsMerge, Members, TableError;
    PackedParses(elf, ElfEntry(elf), SpansOf(elf));
  }

  /** The parsed image has the program's entry and addresses, and section pointers to the span bytes. */
  predicate GivesBack(m: Image, file: seq<byte>, elf: seq<byte>, entry: u64, s: Spans)
    requires SpansFit(s, |elf|)
  {
    && InFile(file, m)
    && m.entry == entry && m.codeVaddr == s.code.vaddr && m.rodataVaddr == s.rodata.vaddr && m.dataVaddr == s.data.vaddr
    && SectionBytes(file, m.code, m.header.codeSize) == SpanBytes(elf, s.code)
    && SectionBytes(file, m.rodata, m.header.rodataSize) == SpanBytes(elf, s.rodata)
    && SectionBytes(file, m.data, m.header.dataSize) == SpanBytes(elf, s.data)
    && m.header.bssSize == s.bssSize && m.header.imageSize == |file|
  }

  /** The output starts with its header. */
  lemma PackedHeaderOf(elf: seq<byte>, entry: u64, s: Spans)
    requires SpansFit(s, |elf|) && ImageSize(s) <= U64_MAX
    ensures HeaderOf(PackedFrom(elf, entry, s)) == PackedHeader(entry, s)
  {
    var h := PackedHeader(entry, s);
    var c, r, d := SpanBytes(elf, s.code), SpanBytes(elf, s.rodata), SpanBytes(elf, s.data);
    var body := Zeros(8) + Padded16(c) + Padded16(r) + Padded16(d);
    hide Encode, HeaderOf, Padded16, SpanBytes, PackedHeader, AlignUp, ImageSize;
    BodyApart(Encode(h), Zeros(8), Padded16(c), Padded16(r), Padded16(d));
    HeaderRoundTrip(h, body);
  }

  lemma BodyApart(h: seq<byte>, z: seq<byte>, c: seq<byte>, r: seq<byte>, d: seq<byte>)
    ensures h + z + c + r + d == h + (z + c + r + d)
  {
  }

  /** The three sections sit where the layout says. */
  lemma PackedSections(elf: seq<byte>, entry: u64, s: Spans)
    requires SpansFit(s, |elf|) && ImageSize(s) <= U64_MAX
    ensures var out := PackedFrom(elf, entry, s);
            && RodataStart(s) + s.rodata.filesz <= DataStart(s) && DataStart(s) + s.data.filesz <= |out|
            && BODY_START + s.code.filesz <= RodataStart(s)
            && out[BODY_START..BODY_START + s.code.filesz] == SpanBytes(elf, s.code)
            && out[RodataStart(s)..RodataStart(s) + s.rodata.filesz] == SpanBytes(elf, s.rodata)
            && out[DataStart(s)..DataStart(s) + s.data.filesz] == SpanBytes(elf, s.data)
  {
    LayoutIsSound(s);
    var c, r, d := SpanBytes(elf, s.code), SpanBytes(elf, s.rodata), SpanBytes(elf, s.data);
    var head := Encode(PackedHeader(entry, s)) + Zeros(8);
    hide Encode, Padded16, SpanBytes, PackedHeader, AlignUp;
    PiecesOf(head, c, r, d);
  }

  lemma PackedAcceptable(elf: seq<byte>, entry: u64, s: Spans)
    requires SpansFit(s, |elf|) && ImageSize(s) <= U64_MAX
    ensures Acceptable(PackedFrom(elf, entry, s)) <==> Loadable(entry, s)
  {
    hide HeaderOf, PackedFrom, AlignUp, RodataStart, DataStart, ImageSize;
    PackedHeaderOf(elf, entry, s);
    LayoutIsSound(s);
    PackedLength(elf, entry, s);
  }

  lemma PackedParses(elf: seq<byte>, entry: u64, s: Spans)
    requires SpansFit(s, |elf|) && ImageSize(s) <= U64_MAX
    ensures var out := PackedFrom(elf, entry, s);
            && (Parse(out).Parsed? <==> Loadable(entry, s))
            && (Parse(out).Parsed? ==> GivesBack(Parse(out).image, out, elf, entry, s))
  {
    var out := PackedFrom(elf, entry, s);
    hide HeaderOf, PackedFrom, AlignUp, RodataStart, DataStart, ImageSize, Acceptable, Loadable, SpanBytes, GivesBack;
    PackedAcceptable(elf, entry, s);
    if Parse(out).Parsed? {
      PackedGivesBack(elf, entry, s);
    }
  }

  lemma PackedLength(elf: seq<byte>, entry: u64, s: Spans)
    requires SpansFit(s, |elf|) && ImageSize(s) <= U64_MAX
    ensures |PackedFrom(elf, entry, s)| == ImageSize(s)
  {
    LayoutIsSound(s);
    hide AlignUp;
  }

  lemma PackedGivesBack(elf: seq<byte>, entry: u64, s: Spans)
    requires SpansFit(s, |elf|) && ImageSize(s) <= U64_MAX && Parse(PackedFrom(elf, entry, s)).Parsed?
    ensures var out := PackedFrom(elf, entry, s); GivesBack(Parse(out).image, out, elf, entry, s)
  {
    hide HeaderOf, PackedFrom, AlignUp, RodataStart, DataStart, ImageSize, Acceptable, Loadable, SpanBytes;
    PackedLength(elf, entry, s);
    PackedHeaderOf(elf, entry, s);
    PackedSections(elf, entry, s);
  }
}
