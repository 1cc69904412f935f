/** Pack, then load: what each byte of user memory holds, and exactly which segments of the program are where they
    asked to be. */
module RiruLoadLaws {
  import opened LittleEndian
  import opened RiruFormat
  import opened RiruPack
  import opened RiruLoad

  // ---- bytes by origin -------------------------------------------------------------------------------

  /** Where the last byte stored at an address came from. */
  datatype Origin = Before | FromFile(offset: nat) | Zeroed

  predicate Covers(s: Span, a: nat) {
    s.vaddr <= a < s.vaddr + s.filesz
  }

  function FileOffset(s: Span, a: nat): nat
    requires Covers(s, a)
  {
    s.offset + (a - s.vaddr)
  }

  predicate InBss(s: Spans, a: nat) {
    BssAt(s) <= a < BssAt(s) + s.bssSize
  }

  /** Later stores win: zeros over data over read-only data over code. */
  function OriginOf(s: Spans, a: nat): Origin {
    if InBss(s, a) then Zeroed
    else if Covers(s.data, a) then FromFile(FileOffset(s.data, a))
    else if Covers(s.rodata, a) then FromFile(FileOffset(s.rodata, a))
    else if Covers(s.code, a) then FromFile(FileOffset(s.code, a))
    else Before
  }

  function EndOf(s: Spans): nat {
    Highest(s.data.filesz, s.data.vaddr,
            Highest(s.rodata.filesz, s.rodata.vaddr, Highest(s.code.filesz, s.code.vaddr, 0)))
  }

  function BaseOf(s: Spans): nat {
    Lowest(s.data.filesz, s.data.vaddr,
           Lowest(s.rodata.filesz, s.rodata.vaddr, Lowest(s.code.filesz, s.code.vaddr, U64_MAX)))
  }

  function BssAt(s: Spans): nat {
    BssStart(s.code.filesz, s.code.vaddr, s.data.filesz, s.data.vaddr, EndOf(s))
  }

  /** What the loader stores for an ELF file with these spans. */
  function ElfParts(elf: seq<byte>, s: Spans): Parts
    requires SpansFit(s, |elf|)
  {
    Parts(SpanBytes(elf, s.code), s.code.vaddr, SpanBytes(elf, s.rodata), s.rodata.vaddr,
          SpanBytes(elf, s.data), s.data.vaddr, s.bssSize, BssAt(s))
  }

  predicate SpansInRange(s: Spans) {
    && InUserRange(s.code.vaddr, s.code.filesz) && InUserRange(s.rodata.vaddr, s.rodata.filesz)
    && InUserRange(s.data.vaddr, s.data.filesz) && InUserRange(BssAt(s), s.bssSize)
  }

  lemma PlacedByte(mem: Memory, at: nat, b: seq<byte>, a: nat)
    requires (b == [] || at + |b| <= |mem|) && a < |mem|
    ensures Place(mem, at, b)[a] == if at <= a < at + |b| then b[a - at] else mem[a]
  {
  }

  /** The bytes of a span at one address. */
  lemma PlacedSpan(mem: Memory, elf: seq<byte>, s: Span, a: nat)
    requires s.offset + s.filesz <= |elf| && (s.filesz == 0 || s.vaddr + s.filesz <= |mem|) && a < |mem|
    ensures Place(mem, s.vaddr, SpanBytes(elf, s))[a] == if Covers(s, a) then elf[FileOffset(s, a)] else mem[a]
  {
    PlacedByte(mem, s.vaddr, SpanBytes(elf, s), a);
  }

  lemma ElfPartsFit(elf: seq<byte>, s: Spans, limit: nat)
    requires SpansFit(s, |elf|) && SpansInRange(s) && USER_MAX <= limit
    ensures PartsFit(ElfParts(elf, s), limit)
  {
    hide BssAt;
  }

  /** Every byte of memory after the stores. */
  lemma StoredByte(mem: Memory, elf: seq<byte>, s: Spans, a: nat)
    requires SpansFit(s, |elf|) && PartsFit(ElfParts(elf, s), |mem|) && a < |mem|
    ensures Stored(mem, ElfParts(elf, s))[a] ==
              match OriginOf(s, a)
              case Before => mem[a]
              case FromFile(o) => elf[o]
              case Zeroed => 0
  {
    hide Place, BssAt, SpanBytes;
    var m1 := Place(mem, s.code.vaddr, SpanBytes(elf, s.code));
    var m2 := Place(m1, s.rodata.vaddr, SpanBytes(elf, s.rodata));
    var m3 := Place(m2, s.data.vaddr, SpanBytes(elf, s.data));
    PlacedSpan(mem, elf, s.code, a);
    PlacedSpan(m1, elf, s.rodata, a);
    PlacedSpan(m2, elf, s.data, a);
    PlacedByte(m3, BssAt(s), Zeros(s.bssSize), a);
  }

  // ---- which programs are loaded ---------------------------------------------------------------------

  /** The packed program gets as far as being stored. */
  predicate Storable(entry: u64, s: Spans) {
    entry != 0 && SpansInRange(s) && (s.code.filesz > 0 || s.rodata.filesz > 0 || s.data.filesz > 0)
  }

  predicate Runnable(entry: u64, s: Spans) {
    Storable(entry, s) && BaseOf(s) <= entry < EndOf(s)
  }

  /** Pack, then load, with the address space set up: the program is loaded exactly if it has a non-empty section,
      all of them and the zeroed part lie in the user range, and the entry point lies between the first and the last
      page of the sections; memory then holds the program's own bytes. */
  lemma PackThenLoad(elf: seq<byte>, mem: Memory)
    requires Packable(elf) && USER_MAX <= |mem|
    ensures SpansFit(SpansOf(elf), |elf|)
    ensures LoadOutcome(Packed(elf), 0).Loaded? <==> Runnable(ElfEntry(elf), SpansOf(elf))
    ensures LoadOutcome(Packed(elf), 0).Loaded? ==>
              LoadOutcome(Packed(elf), 0) == Loaded(ElfEntry(elf), BaseOf(SpansOf(elf)), EndOf(SpansOf(elf)))
    ensures Storable(ElfEntry(elf), SpansOf(elf)) && !Runnable(ElfEntry(elf), SpansOf(elf)) ==>
              LoadOutcome(Packed(elf), 0) == NotLoaded(-13)
    ensures Storable(ElfEntry(elf), SpansOf(elf)) ==>
              && PartsFit(ElfParts(elf, SpansOf(elf)), |mem|)
              && MemoryAfter(mem, Packed(elf), 0) == Stored(mem, ElfParts(elf, SpansOf(elf)))
    ensures !Storable(ElfEntry(elf), SpansOf(elf)) ==> MemoryAfter(mem, Packed(elf), 0) == mem
  {
    PackThenParse(elf);
    SpansInFile(elf);
    PackedSmall(elf);
    var entry, s := ElfEntry(elf), SpansOf(elf);
    PackedHeaderOf(elf, entry, s);
    assert Packed(elf) == PackedFrom(elf, entry, s);
    hide Packed, PackedFrom, SpansOf, PackErrorOf, IsMerge, Parse, SpanBytes, HeaderOf, PackedHeader;
    LoadGivenBack(Packed(elf), elf, entry, s, mem);
  }

  lemma LowestMore(size: nat, at: nat, rest: nat)
    ensures var b := Lowest(size, at, rest);
            b <= rest && (size > 0 ==> b <= at) && (b == rest || (size > 0 && b % 4096 == 0 && at < b + 4096))
  {
  }

  lemma HighestMore(size: nat, at: nat, rest: nat)
    ensures var e := Highest(size, at, rest);
            && e >= rest && (size > 0 ==> at + size <= e)
            && (e == rest || (size > 0 && e % 4096 == 0 && e < at + size + 4096))
  {
  }

  /** The pages from base to end are those of this section and perhaps others. */
  predicate OnPages(p: Span, base: nat, end: nat) {
    p.filesz > 0 ==> base <= p.vaddr && p.vaddr + p.filesz <= end
  }

  predicate OnFirstPage(p: Span, base: nat) {
    p.filesz > 0 && base <= p.vaddr < base + 4096
  }

  predicate OnLastPage(p: Span, end: nat) {
    p.filesz > 0 && p.vaddr + p.filesz <= end < p.vaddr + p.filesz + 4096
  }

  /** The base is the start of the lowest page of the sections, the end that of the page after the highest. */
  lemma BoundsAreTight(s: Spans)
    requires SpansInRange(s) && (s.code.filesz > 0 || s.rodata.filesz > 0 || s.data.filesz > 0)
    ensures var base, end := BaseOf(s), EndOf(s);
            && base % 4096 == 0 && end % 4096 == 0
            && OnPages(s.code, base, end) && OnPages(s.rodata, base, end) && OnPages(s.data, base, end)
            && (OnFirstPage(s.code, base) || OnFirstPage(s.rodata, base) || OnFirstPage(s.data, base))
            && (OnLastPage(s.code, end) || OnLastPage(s.rodata, end) || OnLastPage(s.data, end))
  {
    BaseMeans(s);
    hide Lowest, Highest, BssAt;
    var b1 := Lowest(s.code.filesz, s.code.vaddr, U64_MAX);
    LowestMore(s.code.filesz, s.code.vaddr, U64_MAX);
    LowestMore(s.rodata.filesz, s.rodata.vaddr, b1);
    LowestMore(s.data.filesz, s.data.vaddr, Lowest(s.rodata.filesz, s.rodata.vaddr, b1));
    var e1 := Highest(s.code.filesz, s.code.vaddr, 0);
    HighestMore(s.code.filesz, s.code.vaddr, 0);
    HighestMore(s.rodata.filesz, s.rodata.vaddr, e1);
    HighestMore(s.data.filesz, s.data.vaddr, Highest(s.rodata.filesz, s.rodata.vaddr, e1));
  }

  /** Addresses open to programs. */
  predicate UserArea(at: nat, size: nat) {
    size == 0 || (0x40_0000 <= at && at + size <= 0x4000_0000)
  }

  predicate SectionsInUserArea(h: Header) {
    UserArea(h.codeVaddr, h.codeSize) && UserArea(h.rodataVaddr, h.rodataSize) && UserArea(h.dataVaddr, h.dataSize)
  }

  /** Where the zeroed part starts: after the data, without any after the code, without any after the last page. */
  predicate ZerosInUserArea(h: Header) {
    if h.dataSize > 0 then UserArea(h.dataVaddr + h.dataSize, h.bssSize)
    else if h.codeSize > 0 then UserArea(h.codeVaddr + h.codeSize, h.bssSize)
    else UserArea(ImageEnd(h), h.bssSize)
  }

  /** Which code the loader refuses a parsed file with, before it has stored anything. */
  lemma LoadCodes(h: Header, space: int)
    requires SpaceCode(space)
    ensures var c := CheckCode(h, space);
            var empty := h.codeSize == 0 && h.rodataSize == 0 && h.dataSize == 0;
            && (c == -2 <==> !UserArea(h.codeVaddr, h.codeSize))
            && (c == -3 <==> UserArea(h.codeVaddr, h.codeSize) && !UserArea(h.rodataVaddr, h.rodataSize))
            && (c == -4 <==>
                  && UserArea(h.codeVaddr, h.codeSize) && UserArea(h.rodataVaddr, h.rodataSize)
                  && !UserArea(h.dataVaddr, h.dataSize))
            && (c == -5 <==> SectionsInUserArea(h) && empty)
            && (c == -10 <==> SectionsInUserArea(h) && !empty && !(-9 <= space <= -6) && !ZerosInUserArea(h))
            && (c != space ==> c == -2 || c == -3 || c == -4 || c == -5 || c == -10)
  {
    hide ImageEnd, Lowest;
    LowestMore(h.codeSize, h.codeVaddr, U64_MAX);
    var b1 := Lowest(h.codeSize, h.codeVaddr, U64_MAX);
    LowestMore(h.rodataSize, h.rodataVaddr, b1);
    LowestMore(h.dataSize, h.dataVaddr, Lowest(h.rodataSize, h.rodataVaddr, b1));
  }

  lemma PackedSmall(elf: seq<byte>)
    requires Packable(elf)
    ensures SpansFit(SpansOf(elf), |elf|) && ImageSize(SpansOf(elf)) <= U64_MAX
  {
    SpansInFile(elf);
    hide SpansOf, PackErrorOf, IsMerge;
  }

  /** The loader's checks, from the packed header. */
  lemma HeaderChecks(entry: u64, s: Spans)
    requires ImageSize(s) <= U64_MAX
    ensures var h := PackedHeader(entry, s);
            && ImageBase(h) == BaseOf(s) && ImageEnd(h) == EndOf(s)
            && (CheckCode(h, 0) == 0 <==> SpansInRange(s) && BaseOf(s) != U64_MAX)
            && h.entry == entry
  {
    hide Lowest, Highest, BssStart, ImageSize, RodataStart, DataStart;
  }

  lemma BaseMeans(s: Spans)
    requires SpansInRange(s)
    ensures BaseOf(s) != U64_MAX <==> s.code.filesz > 0 || s.rodata.filesz > 0 || s.data.filesz > 0
    ensures BaseOf(s) >= USER_MIN
  {
    hide BssAt;
  }

  lemma PartsGivenBack(file: seq<byte>, elf: seq<byte>, entry: u64, s: Spans, m: Image)
    requires SpansFit(s, |elf|) && ImageSize(s) <= U64_MAX && GivesBack(m, file, elf, entry, s)
    requires m.header == PackedHeader(entry, s)
    ensures PartsOf(file, m) == ElfParts(elf, s)
  {
    HeaderChecks(entry, s);
    hide Highest, BssStart, ImageSize, RodataStart, DataStart, SpanBytes, SectionBytes, ImageEnd, EndOf, CheckCode;
  }

  lemma LoadGivenBack(file: seq<byte>, elf: seq<byte>, entry: u64, s: Spans, mem: Memory)
    requires SpansFit(s, |elf|) && ImageSize(s) <= U64_MAX && USER_MAX <= |mem|
    requires Parse(file).Parsed? <==> Loadable(entry, s)
    requires Parse(file).Parsed? ==> GivesBack(Parse(file).image, file, elf, entry, s)
    requires Parse(file).Parsed? ==> HeaderOf(file) == PackedHeader(entry, s)
    ensures LoadOutcome(file, 0).Loaded? <==> Runnable(entry, s)
    ensures LoadOutcome(file, 0).Loaded? ==> LoadOutcome(file, 0) == Loaded(entry, BaseOf(s), EndOf(s))
    ensures Storable(entry, s) && !Runnable(entry, s) ==> LoadOutcome(file, 0) == NotLoaded(-13)
    ensures Storable(entry, s) ==>
              PartsFit(ElfParts(elf, s), |mem|) && MemoryAfter(mem, file, 0) == Stored(mem, ElfParts(elf, s))
    ensures !Storable(entry, s) ==> MemoryAfter(mem, file, 0) == mem
  {
    hide Parse, HeaderOf, PackedHeader, SpansInRange, BaseOf, EndOf, ImageBase, ImageEnd, CheckCode, GivesBack;
    hide PartsFit, Stored, ElfParts, PartsOf, Loadable, SpansFit;
    HeaderChecks(entry, s);
    if SpansInRange(s) {
      BaseMeans(s);
      ElfPartsFit(elf, s, |mem|);
    }
    if Parse(file).Parsed? {
      ParsedHeader(file);
      PartsGivenBack(file, elf, entry, s, Parse(file).image);
    }
    LoadableWhenInRange(s, entry);
  }

  lemma ParsedHeader(file: seq<byte>)
    requires Parse(file).Parsed?
    ensures |file| >= HEADER_SIZE && Parse(file).image.header == HeaderOf(file)
  {
    hide HeaderOf;
  }

  lemma LoadableWhenInRange(s: Spans, entry: u64)
    ensures SpansInRange(s) && entry != 0 ==> Loadable(entry, s)
  {
    hide BssAt;
  }

  // ---- which segments are where they asked to be -----------------------------------------------------

  function SegmentBytes(file: seq<byte>, ph: Ph): (b: seq<byte>)
    requires InFileSegment(ph, |file|)
    ensures |b| == ph.filesz
  {
    file[ph.offset..ph.offset + ph.filesz]
  }

  predicate Holds(mem: Memory, at: nat, b: seq<byte>) {
    at + |b| <= |mem| && mem[at..at + |b|] == b
  }

  lemma FirstByteDiffers(mem: Memory, at: nat, b: seq<byte>)
    requires |b| > 0 && (at < |mem| ==> mem[at] != b[0])
    ensures !Holds(mem, at, b)
  {
    if at + |b| <= |mem| {
      assert mem[at..at + |b|][0] == mem[at];
    }
  }

  /** A file with a single 1 in it, which tells one offset from all others. */
  function Marked(size: nat, o: nat): (file: seq<byte>)
    ensures |file| == size && forall j :: 0 <= j < size ==> file[j] == if j == o then 1 else 0
  {
    seq(size, j => if j == o then 1 else 0)
  }

  /** Both span and segment lie in files of this size, and the span in memory. */
  predicate Fits(s: Span, ph: Ph, size: nat, limit: nat) {
    s.offset + s.filesz <= size && (s.filesz == 0 || s.vaddr + s.filesz <= limit) && InFileSegment(ph, size)
  }

  /** After its own section is copied the segment is in place, whatever the bytes of file and memory. */
  ghost predicate CopiedInPlace(s: Span, ph: Ph, size: nat, limit: nat)
    requires Fits(s, ph, size, limit)
  {
    forall file: seq<byte>, mem: Memory :: |file| == size && |mem| == limit ==>
      Holds(Place(mem, s.vaddr, SpanBytes(file, s)), ph.vaddr, SegmentBytes(file, ph))
  }

  /** The segment does not start below the span in the file, and its address is as far from its offset. */
  predicate InStep(s: Span, ph: Ph) {
    s.offset <= ph.offset && ph.vaddr - ph.offset == s.vaddr - s.offset
  }

  /** A merged segment is put in place by the copy of its section if and only if it is in step with it. */
  lemma CopiedExactly(s: Span, m: seq<Ph>, k: nat, size: nat, limit: nat)
    requires IsMerge(s, m) && k < |m| && m[k].filesz > 0 && Fits(s, m[k], size, limit)
    ensures CopiedInPlace(s, m[k], size, limit) <==> InStep(s, m[k])
  {
    var ph := m[k];
    assert ph.offset + ph.filesz <= s.offset + s.filesz;
    if InStep(s, ph) {
      forall file: seq<byte>, mem: Memory | |file| == size && |mem| == limit
        ensures Holds(Place(mem, s.vaddr, SpanBytes(file, s)), ph.vaddr, SegmentBytes(file, ph))
      {
        InStepIsCopied(file, mem, s, ph);
      }
    } else {
      var file, mem := Marked(size, ph.offset), Zeros(limit);
      PlacedElsewhere(s, ph, size, limit);
      assert !Holds(Place(mem, s.vaddr, SpanBytes(file, s)), ph.vaddr, SegmentBytes(file, ph));
    }
  }

  lemma InStepIsCopied(file: seq<byte>, mem: Memory, s: Span, ph: Ph)
    requires Fits(s, ph, |file|, |mem|) && InStep(s, ph) && ph.filesz > 0
    requires ph.offset + ph.filesz <= s.offset + s.filesz
    ensures Holds(Place(mem, s.vaddr, SpanBytes(file, s)), ph.vaddr, SegmentBytes(file, ph))
  {
    var n := Place(mem, s.vaddr, SpanBytes(file, s));
    hide Place, SpanBytes;
    forall i | 0 <= i < ph.filesz
      ensures n[ph.vaddr + i] == SegmentBytes(file, ph)[i]
    {
      PlacedSpan(mem, file, s, ph.vaddr + i);
    }
  }

  /** Out of step, the first byte of the segment is not the one found at its address. */
  lemma PlacedElsewhere(s: Span, ph: Ph, size: nat, limit: nat)
    requires Fits(s, ph, size, limit) && ph.filesz > 0 && !InStep(s, ph)
    ensures var file, mem := Marked(size, ph.offset), Zeros(limit);
            !Holds(Place(mem, s.vaddr, SpanBytes(file, s)), ph.vaddr, SegmentBytes(file, ph))
  {
    var file, mem := Marked(size, ph.offset), Zeros(limit);
    var n := Place(mem, s.vaddr, SpanBytes(file, s));
    hide Place, SpanBytes;
    if ph.vaddr < limit {
      PlacedSpan(mem, file, s, ph.vaddr);
    }
    FirstByteDiffers(n, ph.vaddr, SegmentBytes(file, ph));
  }

  /** The span contains a member, whatever its bytes, exactly if the member does not start below the first. */
  lemma SpanHoldsExactly(s: Span, m: seq<Ph>, k: nat, size: nat)
    requires IsMerge(s, m) && k < |m| && m[k].filesz > 0 && s.offset + s.filesz <= size && InFileSegment(m[k], size)
    ensures (forall file: seq<byte> :: |file| == size ==>
             exists at: nat :: Holds(SpanBytes(file, s), at, SegmentBytes(file, m[k])))
            <==> s.offset <= m[k].offset
  {
    var ph := m[k];
    if s.offset <= ph.offset {
      forall file: seq<byte> | |file| == size
        ensures exists at: nat :: Holds(SpanBytes(file, s), at, SegmentBytes(file, ph))
      {
        SpanHoldsMember(file, s, m, k);
        assert Holds(SpanBytes(file, s), ph.offset - s.offset, SegmentBytes(file, ph));
      }
    } else {
      var file := Marked(size, ph.offset);
      forall at: nat
        ensures !Holds(SpanBytes(file, s), at, SegmentBytes(file, ph))
      {
        FirstByteDiffers(SpanBytes(file, s), at, SegmentBytes(file, ph));
      }
    }
  }

  // ---- after all stores ------------------------------------------------------------------------------

  /** The byte of the file at offset o ends up at address a, whatever the bytes of file and memory. */
  ghost predicate AlwaysAt(s: Spans, size: nat, limit: nat, a: nat, o: nat)
    requires SpansFit(s, size) && SpansInRange(s) && USER_MAX <= limit && a < limit && o < size
  {
    forall file: seq<byte>, mem: Memory :: |file| == size && |mem| == limit ==>
      LoadedByte(mem, file, s, a) == file[o]
  }

  function LoadedByte(mem: Memory, file: seq<byte>, s: Spans, a: nat): byte
    requires SpansFit(s, |file|) && SpansInRange(s) && USER_MAX <= |mem| && a < |mem|
  {
    ElfPartsFit(file, s, |mem|);
    Stored(mem, ElfParts(file, s))[a]
  }

  lemma OriginInFile(s: Spans, a: nat, size: nat)
    requires SpansFit(s, size)
    ensures OriginOf(s, a).FromFile? ==> OriginOf(s, a).offset < size
  {
    hide BssAt;
  }

  lemma LoadedByteIs(mem: Memory, file: seq<byte>, s: Spans, a: nat)
    requires SpansFit(s, |file|) && SpansInRange(s) && USER_MAX <= |mem| && a < |mem|
    ensures OriginOf(s, a).FromFile? ==> OriginOf(s, a).offset < |file|
    ensures LoadedByte(mem, file, s, a) ==
              match OriginOf(s, a)
              case Before => mem[a]
              case FromFile(o) => file[o]
              case Zeroed => 0
  {
    ElfPartsFit(file, s, |mem|);
    OriginInFile(s, a, |file|);
    hide SpansInRange, OriginOf, ElfParts, SpansFit;
    StoredByte(mem, file, s, a);
  }

  /** Exactly when that is so: the last store that covers the address copies that byte. */
  lemma AlwaysAtExactly(s: Spans, size: nat, limit: nat, a: nat, o: nat)
    requires SpansFit(s, size) && SpansInRange(s) && USER_MAX <= limit && a < limit && o < size
    ensures AlwaysAt(s, size, limit, a, o) <==> OriginOf(s, a) == FromFile(o)
  {
    hide OriginOf, LoadedByte, SpansInRange, SpansFit;
    var zeros, marked := Zeros(limit), Marked(size, o);
    LoadedByteIs(zeros, marked, s, a);
    assert OriginOf(s, a) != FromFile(o) ==> LoadedByte(zeros, marked, s, a) != marked[o];
    if OriginOf(s, a) == FromFile(o) {
      forall file: seq<byte>, mem: Memory | |file| == size && |mem| == limit
        ensures LoadedByte(mem, file, s, a) == file[o]
      {
        LoadedByteIs(mem, file, s, a);
      }
    }
  }

  /** A segment is in memory once loading is done, whatever the bytes of file and memory. */
  ghost predicate EndsInPlace(s: Spans, ph: Ph, size: nat, limit: nat)
    requires SpansFit(s, size) && SpansInRange(s) && USER_MAX <= limit && InFileSegment(ph, size)
  {
    forall i: nat :: i < ph.filesz ==> EndsAt(s, ph, size, limit, i)
  }

  ghost predicate EndsAt(s: Spans, ph: Ph, size: nat, limit: nat, i: nat)
    requires SpansFit(s, size) && SpansInRange(s) && USER_MAX <= limit && InFileSegment(ph, size) && i < ph.filesz
  {
    ph.vaddr + i < limit && AlwaysAt(s, size, limit, ph.vaddr + i, ph.offset + i)
  }

  /** The last store at the address of byte i copies byte i. */
  predicate LastStored(s: Spans, ph: Ph, i: nat) {
    OriginOf(s, ph.vaddr + i) == FromFile(ph.offset + i)
  }

  lemma CoveredInRange(s: Spans, a: nat)
    requires SpansInRange(s) && OriginOf(s, a).FromFile?
    ensures a < USER_MAX
  {
    hide BssAt;
  }

  lemma EndsInPlaceExactly(s: Spans, ph: Ph, size: nat, limit: nat)
    requires SpansFit(s, size) && SpansInRange(s) && USER_MAX <= limit && InFileSegment(ph, size)
    ensures EndsInPlace(s, ph, size, limit) <==>
            forall i: nat :: i < ph.filesz ==> LastStored(s, ph, i)
  {
    hide OriginOf, SpansInRange, AlwaysAt, SpansFit;
    forall i: nat | i < ph.filesz
      ensures EndsAt(s, ph, size, limit, i) <==> LastStored(s, ph, i)
    {
      if OriginOf(s, ph.vaddr + i).FromFile? {
        CoveredInRange(s, ph.vaddr + i);
      }
      if ph.vaddr + i < limit {
        AlwaysAtExactly(s, size, limit, ph.vaddr + i, ph.offset + i);
      }
    }
  }

  function SpanOf(s: Spans, class_: Class): Span {
    match class_
    case Code => s.code
    case Rodata => s.rodata
    case Data => s.data
    case Skipped => NO_SPAN
  }

  /** How far a section's addresses are from its file offsets. */
  function Shift(s: Span): int {
    s.vaddr - s.offset
  }

  /** A later store puts another byte at the address of byte i: a zero, or one from a later section that is not in
      step with this one. */
  predicate Overwritten(s: Spans, class_: Class, ph: Ph, i: nat) {
    var a, own := ph.vaddr + i, Shift(SpanOf(s, class_));
    || InBss(s, a)
    || (class_ != Data && Covers(s.data, a) && Shift(s.data) != own)
    || (class_ == Code && Covers(s.rodata, a) && !Covers(s.data, a) && Shift(s.rodata) != own)
  }

  lemma LastStoredExactly(s: Spans, class_: Class, ph: Ph, i: nat)
    requires class_ != Skipped && InStep(SpanOf(s, class_), ph) && i < ph.filesz
    requires ph.offset + ph.filesz <= SpanOf(s, class_).offset + SpanOf(s, class_).filesz
    ensures LastStored(s, ph, i) <==> !Overwritten(s, class_, ph, i)
  {
    hide InBss;
  }

  /** A segment in step with its section is in memory at the end exactly if no byte of it is overwritten. */
  lemma StaysExactly(s: Spans, class_: Class, ph: Ph, size: nat, limit: nat)
    requires SpansFit(s, size) && SpansInRange(s) && USER_MAX <= limit && InFileSegment(ph, size)
    requires class_ != Skipped && InStep(SpanOf(s, class_), ph)
    requires ph.offset + ph.filesz <= SpanOf(s, class_).offset + SpanOf(s, class_).filesz
    ensures EndsInPlace(s, ph, size, limit) <==> forall i: nat :: i < ph.filesz ==> !Overwritten(s, class_, ph, i)
  {
    EndsInPlaceExactly(s, ph, size, limit);
    hide EndsInPlace, SpansInRange, SpansFit, BssAt, LastStored, Overwritten;
    forall i: nat | i < ph.filesz
      ensures LastStored(s, ph, i) <==> !Overwritten(s, class_, ph, i)
    {
      LastStoredExactly(s, class_, ph, i);
    }
  }

  /** Nothing is stored over data: segments in step with the data section are always in memory at the end. */
  lemma DataStays(s: Spans, ph: Ph, size: nat, limit: nat)
    requires SpansFit(s, size) && SpansInRange(s) && USER_MAX <= limit && InFileSegment(ph, size)
    requires InStep(s.data, ph) && ph.offset + ph.filesz <= s.data.offset + s.data.filesz
    ensures EndsInPlace(s, ph, size, limit)
  {
    StaysExactly(s, Data, ph, size, limit);
    hide EndsInPlace, SpansInRange, SpansFit;
  }

  /** The program itself, packed and loaded: such a segment of any class is in user memory, byte for byte. */
  lemma ProgramInMemory(elf: seq<byte>, mem: Memory, class_: Class, k: nat)
    requires Packable(elf) && Storable(ElfEntry(elf), SpansOf(elf)) && USER_MAX <= |mem| && class_ != Skipped
    requires var phs := Headers(elf); k < |Members(phs, FirstCode(phs), class_)|
    requires var phs := Headers(elf);
             var ph := Members(phs, FirstCode(phs), class_)[k];
             && InStep(SpanOf(SpansOf(elf), class_), ph)
             && forall i: nat :: i < ph.filesz ==> !Overwritten(SpansOf(elf), class_, ph, i)
    ensures var phs := Headers(elf);
            var ph := Members(phs, FirstCode(phs), class_)[k];
            && InFileSegment(ph, |elf|)
            && (ph.filesz > 0 ==> Holds(MemoryAfter(mem, Packed(elf), 0), ph.vaddr, SegmentBytes(elf, ph)))
  {
    var phs, s := Headers(elf), SpansOf(elf);
    var ph := Members(phs, FirstCode(phs), class_)[k];
    hide Packed, SpansOf, PackErrorOf, IsMerge, Members, Headers, Overwritten, MemoryAfter, InStep, SpansInRange;
    hide ElfParts, Stored, PartsFit, Holds, FirstCode, TableError, EndsInPlace;
    SpansInFile(elf);
    PackThenLoad(elf, mem);
    MergedInSpan(SpanOf(s, class_), Members(phs, FirstCode(phs), class_), k);
    StaysExactly(s, class_, ph, |elf|, |mem|);
    if ph.filesz > 0 {
      EndedInPlace(elf, mem, s, ph);
    }
  }

  lemma MergedInSpan(s: Span, m: seq<Ph>, k: nat)
    requires IsMerge(s, m) && k < |m|
    ensures m[k].offset + m[k].filesz <= s.offset + s.filesz
  {
  }

  lemma EndedInPlace(elf: seq<byte>, mem: Memory, s: Spans, ph: Ph)
    requires SpansFit(s, |elf|) && SpansInRange(s) && USER_MAX <= |mem| && InFileSegment(ph, |elf|) && ph.filesz > 0
    requires PartsFit(ElfParts(elf, s), |mem|) && EndsInPlace(s, ph, |elf|, |mem|)
    ensures Holds(Stored(mem, ElfParts(elf, s)), ph.vaddr, SegmentBytes(elf, ph))
  {
    hide Stored, SpansInRange, SpansFit, PartsFit, ElfParts;
    assert EndsAt(s, ph, |elf|, |mem|, ph.filesz - 1);
    forall i | 0 <= i < ph.filesz
      ensures Stored(mem, ElfParts(elf, s))[ph.vaddr + i] == SegmentBytes(elf, ph)[i]
    {
      assert EndsAt(s, ph, |elf|, |mem|, i) && LoadedByte(mem, elf, s, ph.vaddr + i) == elf[ph.offset + i];
    }
  }

  // ---- zeroed memory ---------------------------------------------------------------------------------

  /** The zeroed memory the data segments ask for, added up. */
  function ZerosOf(m: seq<Ph>): u64 {
    if m == [] then 0
    else
      var rest, last := ZerosOf(m[..|m| - 1]), m[|m| - 1];
      if last.memsz > last.filesz then Wrap(rest + (last.memsz - last.filesz)) else rest
  }

  lemma {:induction false} BssIsZerosOf(phs: seq<Ph>, firstCode: u64)
    ensures BssSize(phs, firstCode) == ZerosOf(Members(phs, firstCode, Data))
  {
    if phs != [] {
      var before, last := phs[..|phs| - 1], phs[|phs| - 1];
      BssIsZerosOf(before, firstCode);
      var m := Members(before, firstCode, Data);
      assert (m + [last])[..|m|] == m;
      hide Wrap;
    }
  }

  /** A program with one data segment gets the zeroed memory it asks for, and nothing else is zeroed, exactly if
      the segment has bytes in the file or happens to lie where the loader puts zeros without them: at the end of
      the code. */
  lemma ZeroedExactly(phs: seq<Ph>, d: Ph, s: Spans)
    requires var first := FirstCode(phs);
             && Members(phs, first, Data) == [d] && s.bssSize == BssSize(phs, first) && IsMerge(s.data, [d])
    requires d.filesz < d.memsz
    ensures (forall a: nat :: InBss(s, a) <==> d.vaddr + d.filesz <= a < d.vaddr + d.memsz)
            <==> d.filesz > 0 || d.vaddr == if s.code.filesz > 0 then s.code.vaddr + s.code.filesz else EndOf(s)
  {
    BssIsZerosOf(phs, FirstCode(phs));
    OneSegmentZeros(d);
    var m := [d];
    assert m[0] == d && s.data.filesz == d.filesz && s.data.vaddr == d.vaddr;
    hide EndOf, IsMerge, Members, BssSize, ZerosOf;
    if forall a: nat :: InBss(s, a) <==> d.vaddr + d.filesz <= a < d.vaddr + d.memsz {
      assert InBss(s, BssAt(s)) && InBss(s, d.vaddr + d.filesz);
    }
  }

  lemma OneSegmentZeros(d: Ph)
    requires d.filesz < d.memsz
    ensures ZerosOf([d]) == d.memsz - d.filesz
  {
    assert [d][..0] == [];
  }

  // ---- a segment that is lost ------------------------------------------------------------------------

  const UPPER: Ph := Ph(PT_LOAD, 5, 0x2000, 0x40_2000, 0x1000, 0x1000)
  const LOWER: Ph := Ph(PT_LOAD, 5, 0x1000, 0x40_1000, 0x1000, 0x1000)

  /** Two code segments, the upper one first: the packer accepts them, their addresses are equally far from their
      offsets, and the lower one is in no section. */
  lemma LowerSegmentIsLost(size: nat, limit: nat)
    requires 0x3000 <= size && USER_MAX <= limit
    ensures var phs := [UPPER, LOWER];
            var first := FirstCode(phs);
            var s := Gather(phs, first, Code);
            && SegmentError(phs, size, 0) == None && first == LOWER.vaddr
            && IsMerge(s, Members(phs, first, Code)) && Members(phs, first, Code) == phs
            && Shift(s) == LOWER.vaddr - LOWER.offset
            && Fits(s, LOWER, size, limit) && !CopiedInPlace(s, LOWER, size, limit)
            && forall a: nat :: LOWER.vaddr <= a < LOWER.vaddr + LOWER.filesz ==> !Covers(s, a)
  {
    var phs := [UPPER, LOWER];
    var s := Span(true, 0x2000, 0x40_2000, 0x1000, 0x1000, 5);
    BothGathered(phs);
    GatherIsMerge(phs, LOWER.vaddr, Code, 0x3000);
    hide Gather, Members, FirstCode, CopiedInPlace, IsMerge;
    CopiedExactly(s, phs, 1, size, limit);
  }

  lemma BothGathered(phs: seq<Ph>)
    requires phs == [UPPER, LOWER]
    ensures FirstCode(phs) == LOWER.vaddr && Members(phs, LOWER.vaddr, Code) == phs
    ensures Gather(phs, LOWER.vaddr, Code) == Span(true, 0x2000, 0x40_2000, 0x1000, 0x1000, 5)
  {
    var none, one := phs[..0], phs[..1];
    assert one == none + [UPPER] && phs == one + [LOWER];
    NothingGathered(none);
    hide Gather, Members, FirstCode;
    OneMoreGathered(none, UPPER, LOWER.vaddr);
    OneMoreGathered(one, LOWER, LOWER.vaddr);
  }

  lemma NothingGathered(none: seq<Ph>)
    requires |none| == 0
    ensures FirstCode(none) == U64_MAX
    ensures forall first, c :: Members(none, first, c) == none && Gather(none, first, c) == NO_SPAN
  {
  }

  /** One more program header. */
  lemma OneMoreGathered(phs: seq<Ph>, ph: Ph, first: u64)
    ensures FirstCode(phs + [ph]) == if IsLoad(ph) && IsExecutable(ph) && ph.vaddr < FirstCode(phs) then ph.vaddr
                                     else FirstCode(phs)
    ensures ClassOf(ph, first) == Code ==>
              && Members(phs + [ph], first, Code) == Members(phs, first, Code) + [ph]
              && Gather(phs + [ph], first, Code) == Added(Gather(phs, first, Code), ph)
  {
    var all := phs + [ph];
    assert all[..|all| - 1] == phs && all[|all| - 1] == ph;
    hide Added;
  }

  /** Two segments that overlap in memory: the code is copied, and then data over its second page. */
  lemma DataOverCode(size: nat, limit: nat)
    requires 0x3000 <= size && USER_MAX <= limit
    ensures var ph := Ph(PT_LOAD, 5, 0, 0x40_0000, 0x2000, 0x2000);
            var code := Span(true, 0, 0x40_0000, 0x2000, 0x2000, 5);
            var s := Spans(code, NO_SPAN, Span(true, 0x2000, 0x40_1000, 0x1000, 0x1000, 6), 0);
            && SpansFit(s, size) && SpansInRange(s) && Fits(code, ph, size, limit)
            && CopiedInPlace(code, ph, size, limit) && !EndsInPlace(s, ph, size, limit)
  {
    var ph := Ph(PT_LOAD, 5, 0, 0x40_0000, 0x2000, 0x2000);
    var code := Span(true, 0, 0x40_0000, 0x2000, 0x2000, 5);
    var s := Spans(code, NO_SPAN, Span(true, 0x2000, 0x40_1000, 0x1000, 0x1000, 6), 0);
    var m := [ph];
    OneMerged(code, m);
    assert InBss(s, 0x40_1000) || Covers(s.data, 0x40_1000);
    assert Overwritten(s, Code, ph, 0x1000);
    hide CopiedInPlace, EndsInPlace, IsMerge, Overwritten, InBss, BssAt, Covers;
    assert SpansInRange(s) && SpansFit(s, size);
    hide SpansInRange, SpansFit;
    CopiedExactly(code, m, 0, size, limit);
    StaysExactly(s, Code, ph, size, limit);
  }

  lemma OneMerged(s: Span, m: seq<Ph>)
    requires |m| == 1 && s.found && s.offset == m[0].offset && s.vaddr == m[0].vaddr && s.flags == m[0].flags
    requires s.filesz == m[0].filesz
    ensures IsMerge(s, m)
  {
    assert m[0].offset + m[0].filesz == s.offset + s.filesz;
  }
}
