/** src/tools/riru_pack.c as the program runs: loops over the header table and an output buffer filled in place. */
module RiruPacker {
  import opened LittleEndian
  import opened RiruFormat
  import opened RiruPack

  class SegmentInfo {
    var found: bool
    var offset: u64
    var vaddr: u64
    var filesz: u64
    var memsz: u64
    var flags: u32

    function Value(): Span
      reads this
    {
      Span(found, offset, vaddr, filesz, memsz, flags)
    }

    constructor ()
      ensures Value() == NO_SPAN
    {
      found, offset, vaddr, filesz, memsz, flags := false, 0, 0, 0, 0, 0;
    }

    method AddSegment(ph: Ph)
      modifies this
      ensures Value() == Added(old(Value()), ph)
    {
      hide Wrap;
      if !found {
        found := true;
        offset := ph.offset;
        vaddr := ph.vaddr;
        filesz := ph.filesz;
        memsz := ph.memsz;
        flags := ph.flags;
        return;
      }
      var fileEnd, oldFileEnd := Wrap(ph.offset + ph.filesz), Wrap(offset + filesz);
      if fileEnd > oldFileEnd {
        filesz := Wrap(fileEnd - offset);
      }
      var memEnd, oldMemEnd := Wrap(ph.vaddr + ph.memsz), Wrap(vaddr + memsz);
      if memEnd > oldMemEnd {
        memsz := Wrap(memEnd - vaddr);
      }
    }
  }

  datatype Outcome = Ok(file: seq<byte>) | Failed(error: PackError)

  /** The first loop of main: range checks, and the lowest code address. */
  method CheckSegments(phs: seq<Ph>, size: nat) returns (error: Option<PackError>, firstCode: u64)
    ensures error == SegmentError(phs, size, 0)
    ensures error == None ==> firstCode == FirstCode(phs)
  {
    firstCode := U64_MAX;
    var i := 0;
    while i < |phs|
      invariant 0 <= i <= |phs| && SegmentError(phs, size, i) == SegmentError(phs, size, 0)
      invariant firstCode == FirstCode(phs[..i])
    {
      var ph := phs[i];
      assert phs[..i + 1][..i] == phs[..i];
      if IsLoad(ph) {
        if ph.memsz < ph.filesz {
          return Some(InvalidSegment), firstCode;
        }
        if !RangeValid(ph.offset, ph.filesz, size) {
          return Some(SegmentOutside), firstCode;
        }
        if IsExecutable(ph) && ph.vaddr < firstCode {
          firstCode := ph.vaddr;
        }
      }
      i := i + 1;
    }
    assert phs[..i] == phs;
    return None, firstCode;
  }

  /** The second loop of main: each segment goes to its class. */
  method GatherSegments(phs: seq<Ph>, firstCode: u64)
    returns (code: SegmentInfo, rodata: SegmentInfo, data: SegmentInfo, bssSize: u64)
    ensures code.Value() == Gather(phs, firstCode, Code) && rodata.Value() == Gather(phs, firstCode, Rodata)
    ensures data.Value() == Gather(phs, firstCode, Data) && bssSize == BssSize(phs, firstCode)
  {
    code := new SegmentInfo();
    rodata := new SegmentInfo();
    data := new SegmentInfo();
    bssSize := 0;
    var i := 0;
    while i < |phs|
      invariant 0 <= i <= |phs| && fresh(code) && fresh(rodata) && fresh(data)
      invariant code != rodata && code != data && rodata != data
      invariant code.Value() == Gather(phs[..i], firstCode, Code)
                && rodata.Value() == Gather(phs[..i], firstCode, Rodata)
      invariant data.Value() == Gather(phs[..i], firstCode, Data) && bssSize == BssSize(phs[..i], firstCode)
    {
      var ph := phs[i];
      assert phs[..i + 1][..i] == phs[..i];
      hide Added;
      if IsLoad(ph) {
        if IsExecutable(ph) {
          code.AddSegment(ph);
        } else if IsWritable(ph) {
          data.AddSegment(ph);
          if ph.memsz > ph.filesz {
            bssSize := Wrap(bssSize + (ph.memsz - ph.filesz));
          }
        } else if ph.vaddr >= firstCode {
          rodata.AddSegment(ph);
        }
      }
      i := i + 1;
    }
    assert phs[..i] == phs;
  }

  /** memcpy into the output buffer. */
  method CopyInto(output: array<byte>, at: nat, bytes: seq<byte>)
    requires at + |bytes| <= output.Length
    modifies output
    ensures output[..] == old(output[..at]) + bytes + old(output[at + |bytes|..])
  {
    var i := 0;
    while i < |bytes|
      invariant 0 <= i <= |bytes| && output[..at + i] == old(output[..at]) + bytes[..i]
      invariant forall k :: at + i <= k < output.Length ==> output[k] == old(output[k])
    {
      output[at + i] := bytes[i];
      i := i + 1;
    }
    assert output[..] == output[..at + i] + output[at + i..];
    assert output[at + i..] == old(output[at + |bytes|..]);
  }

  /** The buffer filled up to `done`, zero above. */
  ghost predicate FilledTo(output: array<byte>, done: seq<byte>)
    reads output
  {
    |done| <= output.Length && output[..] == done + Zeros(output.Length - |done|)
  }

  /** One section: copied at its offset, its padding left zero; an empty one is not copied. */
  method PutSection(output: array<byte>, ghost done: seq<byte>, at: nat, elf: seq<byte>, span: Span)
    requires span.offset + span.filesz <= |elf| && at == OffsetOf(|done|, span.filesz)
    requires FilledTo(output, done) && |done| + AlignUp(span.filesz) <= output.Length
    modifies output
    ensures FilledTo(output, done + Padded16(SpanBytes(elf, span)))
  {
    var bytes := elf[span.offset..span.offset + span.filesz];
    if span.filesz != 0 {
      CopyInto(output, at, bytes);
    } else {
      assert Padded16(bytes) == [];
    }
  }

  /** The layout and copy part of main. */
  method BuildImage(elf: seq<byte>, entry: u64, code: SegmentInfo, rodata: SegmentInfo, data: SegmentInfo, bssSize: u64)
    returns (output: array<byte>)
    requires var s := Spans(code.Value(), rodata.Value(), data.Value(), bssSize);
             SpansFit(s, |elf|) && ImageSize(s) <= U64_MAX
    ensures output[..] == PackedFrom(elf, entry, Spans(code.Value(), rodata.Value(), data.Value(), bssSize))
  {
    hide AlignUp;
    var s := Spans(code.Value(), rodata.Value(), data.Value(), bssSize);
    AlignAfter(BODY_START, code.filesz);
    AlignAfter(RodataStart(s), rodata.filesz);
    AlignAfter(DataStart(s), data.filesz);
    var currentOffset := AlignUp(HEADER_SIZE);
    var codeOffset, rodataOffset, dataOffset := 0, 0, 0;
    if code.filesz != 0 {
      codeOffset := currentOffset;
      currentOffset := AlignUp(currentOffset + code.filesz);
    }
    assert currentOffset == RodataStart(s);
    if rodata.filesz != 0 {
      rodataOffset := currentOffset;
      currentOffset := AlignUp(currentOffset + rodata.filesz);
    }
    assert currentOffset == DataStart(s);
    if data.filesz != 0 {
      dataOffset := currentOffset;
      currentOffset := AlignUp(currentOffset + data.filesz);
    }
    var header := Header(RIRU_MAGIC, RIRU_VERSION, RIRU_ARCH_X86_64, RIRU_TYPE_EXECUTABLE, 0, entry,
                         codeOffset, code.vaddr, code.filesz, rodataOffset, rodata.vaddr, rodata.filesz,
                         dataOffset, data.vaddr, data.filesz, bssSize, DEFAULT_STACK_SIZE, currentOffset);
    assert header == PackedHeader(entry, s);
    hide PackedHeader;
    output := CopyAll(elf, s, header, currentOffset, codeOffset, rodataOffset, dataOffset);
  }

  /** The four memcpy calls into the zeroed buffer. */
  method CopyAll(elf: seq<byte>, s: Spans, header: Header, imageSize: nat, codeOffset: nat, rodataOffset: nat,
                 dataOffset: nat)
    returns (output: array<byte>)
    requires SpansFit(s, |elf|) && imageSize == ImageSize(s) && |header.magic| == 4
    requires codeOffset == OffsetOf(BODY_START, s.code.filesz)
    requires rodataOffset == OffsetOf(RodataStart(s), s.rodata.filesz)
             && dataOffset == OffsetOf(DataStart(s), s.data.filesz)
    ensures output[..] == Encode(header) + Zeros(8)
                          + Padded16(SpanBytes(elf, s.code)) + Padded16(SpanBytes(elf, s.rodata))
                            + Padded16(SpanBytes(elf, s.data))
  {
    output := new byte[imageSize](_ => 0);
    ghost var done := Encode(header) + Zeros(8);
    hide Encode, Padded16, SpanBytes;
    CopyInto(output, 0, Encode(header));
    assert FilledTo(output, done);
    hide FilledTo, AlignUp;
    PutSection(output, done, codeOffset, elf, s.code);
    done := done + Padded16(SpanBytes(elf, s.code));
    PutSection(output, done, rodataOffset, elf, s.rodata);
    done := done + Padded16(SpanBytes(elf, s.rodata));
    PutSection(output, done, dataOffset, elf, s.data);
    FullBuffer(output, done + Padded16(SpanBytes(elf, s.data)));
  }

  lemma FullBuffer(output: array<byte>, done: seq<byte>)
    requires FilledTo(output, done) && |done| == output.Length
    ensures output[..] == done
  {
  }

  lemma AlignAfter(base: nat, size: nat)
    requires base % 16 == 0
    ensures AlignUp(base + size) == base + AlignUp(size) && AlignUp(0) == 0 && AlignUp(HEADER_SIZE) == BODY_START
    ensures (base + AlignUp(size)) % 16 == 0
  {
  }

  lemma SizesFit(s: Spans, size: nat)
    requires SpansFit(s, size) && size <= 0x1000_0000_0000_0000
    ensures ImageSize(s) <= U64_MAX
  {
  }

  /** main, from the bytes of the ELF file to the bytes of the RIRU file. */
  method Pack(elf: seq<byte>) returns (r: Outcome)
    requires |elf| <= 0x1000_0000_0000_0000 && TableEndFits(elf)
    ensures r.Ok? <==> PackErrorOf(elf) == None
    ensures r.Ok? ==> r.file == Packed(elf)
    ensures r.Failed? ==> Some(r.error) == PackErrorOf(elf)
  {
    if |elf| < ELF_HEADER_SIZE {
      return Failed(TooShort);
    }
    if elf[0] != 0x7F || elf[1] != 69 || elf[2] != 76 || elf[3] != 70 {
      assert elf[..4] != [0x7F, 69, 76, 70];
      return Failed(NotElf);
    }
    assert elf[..4] == [0x7F, 69, 76, 70];
    hide U16, U64;
    if elf[4] != 2 {
      return Failed(NotElf64);
    }
    if U16(elf, 18) != 62 {
      return Failed(NotX86);
    }
    if U16(elf, 54) != PH_SIZE {
      return Failed(BadHeaderSize);
    }
    if PhOff(elf) + PhNum(elf) * PH_SIZE > |elf| {
      return Failed(HeadersOutside);
    }
    var phs := Headers(elf);
    hide TableError, Headers, PhOff, PhNum;
    var error, firstCode := CheckSegments(phs, |elf|);
    if error != None {
      return Failed(error.value);
    }
    if firstCode == U64_MAX {
      return Failed(NoExecutable);
    }
    var code, rodata, data, bssSize := GatherSegments(phs, firstCode);
    SpansInFile(elf);
    if !code.found {
      assert false;
    }
    SizesFit(SpansOf(elf), |elf|);
    var output := BuildImage(elf, ElfEntry(elf), code, rodata, data, bssSize);
    return Ok(output[..]);
  }
}
