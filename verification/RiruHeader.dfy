/** The RIRU header byte by byte: where its fields are, which check refuses which file, and what the packer writes. */
module RiruHeader {
  import opened LittleEndian
  import opened RiruFormat
  import opened RiruPack

  // ---- where the fields are --------------------------------------------------------------------------

  lemma HeaderInFile(file: seq<byte>)
    requires 120 <= |file|
    ensures var h := HeaderOf(file);
            && h.magic == file[..4] && h.version == U16(file, 4) && h.architecture == U16(file, 6)
            && h.kind == U16(file, 8) && h.flags == U16(file, 10) && h.entry == U64(file, 16)
            && h.codeOffset == U64(file, 24) && h.codeVaddr == U64(file, 32) && h.codeSize == U64(file, 40)
            && h.rodataOffset == U64(file, 48) && h.rodataVaddr == U64(file, 56) && h.rodataSize == U64(file, 64)
            && h.dataOffset == U64(file, 72) && h.dataVaddr == U64(file, 80) && h.dataSize == U64(file, 88)
            && h.bssSize == U64(file, 96) && h.stackSize == U64(file, 104) && h.imageSize == U64(file, 112)
  {
  }

  // ---- the checks, by number -------------------------------------------------------------------------

  /** The section with these fields ends inside the image. */
  predicate Inside(file: seq<byte>, offset: nat, size: nat)
    requires 120 <= |file| && offset + 8 <= 120 && size + 8 <= 120
  {
    U64(file, offset) + U64(file, size) <= U64(file, 112)
  }

  predicate HasAddress(file: seq<byte>, vaddr: nat, size: nat)
    requires 120 <= |file| && vaddr + 8 <= 120 && size + 8 <= 120
  {
    U64(file, size) == 0 || U64(file, vaddr) != 0
  }

  /** The file passes check k of riru_validate. */
  predicate PassesCheck(file: seq<byte>, k: int) {
    if |file| < 120 then k != 2
    else match k
      case 3 => file[0] == 'R' as int && file[1] == 'I' as int && file[2] == 'R' as int && file[3] == 'U' as int
      case 4 => U16(file, 4) == 1
      case 5 => U16(file, 6) == 1
      case 6 => U16(file, 8) == 1
      case 7 => U64(file, 112) <= |file|
      case 8 => 120 <= U64(file, 112)
      case 9 => Inside(file, 24, 40)
      case 10 => Inside(file, 48, 64)
      case 11 => Inside(file, 72, 88)
      case 12 => U64(file, 16) != 0
      case 13 => HasAddress(file, 32, 40)
      case 14 => HasAddress(file, 56, 64)
      case 15 => HasAddress(file, 80, 88)
      case _ => true
  }

  /** A file is refused with the number of the first check it does not pass. */
  lemma RefusedByFirst(file: seq<byte>, k: int)
    requires 2 <= k <= 15
    ensures Validate(file) == -k <==> !PassesCheck(file, k) && forall j :: 2 <= j < k ==> PassesCheck(file, j)
  {
    hide PassesCheck, Validate;
    Numbered(file);
    if 2 <= -Validate(file) {
      CheckOrder(file, -Validate(file));
    }
    forall j | 2 <= j <= k
      ensures Validate(file) == 0 || Validate(file) < -j ==> PassesCheck(file, j)
      ensures Validate(file) == -j ==> !PassesCheck(file, j)
    {
      CheckOrder(file, j);
    }
  }

  lemma Numbered(file: seq<byte>)
    ensures Validate(file) == 0 || -15 <= Validate(file) <= -2
  {
    hide HeaderOf;
  }

  lemma MagicBytes(file: seq<byte>)
    requires 120 <= |file|
    ensures file[..4] == RIRU_MAGIC <==>
              file[0] == 'R' as int && file[1] == 'I' as int && file[2] == 'R' as int && file[3] == 'U' as int
  {
    assert file[..4] == [file[0], file[1], file[2], file[3]];
  }

  lemma CheckOrder(file: seq<byte>, j: int)
    requires 2 <= j <= 15
    ensures Validate(file) == 0 || Validate(file) < -j ==> PassesCheck(file, j)
    ensures Validate(file) == -j ==> !PassesCheck(file, j)
  {
    if 120 <= |file| {
      HeaderInFile(file);
      MagicBytes(file);
      hide U16, U64, HeaderOf;
    }
  }

  // ---- what the packer writes ------------------------------------------------------------------------

  /** The output's own header: version 1 for the x86-64, an executable without flags, a stack of 1 MB, and sizes and
      addresses of the three spans; sections that are not empty start at multiples of 16, the first at 128. */
  lemma PackedHeaderFields(elf: seq<byte>)
    requires Packable(elf)
    ensures var f, s := Packed(elf), SpansOf(elf);
            && 120 <= |f| && |f| % 16 == 0 && U64(f, 112) == |f|
            && f[0] == 'R' as int && f[1] == 'I' as int && f[2] == 'R' as int && f[3] == 'U' as int
            && U16(f, 4) == 1 && U16(f, 6) == 1 && U16(f, 8) == 1 && U16(f, 10) == 0
            && U64(f, 16) == ElfEntry(elf) && U64(f, 96) == s.bssSize && U64(f, 104) == 0x10_0000
            && U64(f, 32) == s.code.vaddr && U64(f, 40) == s.code.filesz
            && U64(f, 56) == s.rodata.vaddr && U64(f, 64) == s.rodata.filesz
            && U64(f, 80) == s.data.vaddr && U64(f, 88) == s.data.filesz
            && U64(f, 24) % 16 == 0 && U64(f, 48) % 16 == 0 && U64(f, 72) % 16 == 0
            && U64(f, 24) == (if s.code.filesz == 0 then 0 else 128)
            && U64(f, 48) == (if s.rodata.filesz == 0 then 0 else 128 + AlignUp(s.code.filesz))
            && U64(f, 72) ==
               (if s.data.filesz == 0 then 0 else 128 + AlignUp(s.code.filesz) + AlignUp(s.rodata.filesz))
  {
    var f, s := Packed(elf), SpansOf(elf);
    SpansInFile(elf);
    LayoutIsSound(s);
    PackedHeaderOf(elf, ElfEntry(elf), s);
    PackedLength(elf, ElfEntry(elf), s);
    assert f == PackedFrom(elf, ElfEntry(elf), s);
    hide Packed, PackedFrom, SpansOf, PackErrorOf, IsMerge, AlignUp, HeaderOf, U16, U64;
    HeaderInFile(f);
    MagicBytes(f);
  }
}
