/** src/riru/riru.h and src/riru/riru.c: the RIRU executable format, its validation and its parser. */
module RiruFormat {
  import opened LittleEndian

  const HEADER_SIZE: nat := 120
  const RIRU_MAGIC: seq<byte> := [82, 73, 82, 85]
  const RIRU_VERSION: u16 := 1
  const RIRU_ARCH_X86_64: u16 := 1
  const RIRU_TYPE_EXECUTABLE: u16 := 1

  datatype Header = Header(
    magic: seq<byte>, version: u16, architecture: u16, kind: u16, flags: u16, entry: u64,
    codeOffset: u64, codeVaddr: u64, codeSize: u64,
    rodataOffset: u64, rodataVaddr: u64, rodataSize: u64,
    dataOffset: u64, dataVaddr: u64, dataSize: u64,
    bssSize: u64, stackSize: u64, imageSize: u64)

  // ---- the header in memory --------------------------------------------------------------------------

  /** The thirteen 64-bit fields, which the compiler aligns to offset 16. */
  function WordsOf(h: Header): (w: seq<u64>)
    ensures |w| == 13
  {
    [h.entry, h.codeOffset, h.codeVaddr, h.codeSize, h.rodataOffset, h.rodataVaddr, h.rodataSize,
     h.dataOffset, h.dataVaddr, h.dataSize, h.bssSize, h.stackSize, h.imageSize]
  }

  function EncodeWords(w: seq<u64>): (b: seq<byte>)
    ensures |b| == 8 * |w|
  {
    if w == [] then [] else Le(w[0], 8) + EncodeWords(w[1..])
  }

  function Encode(h: Header): (b: seq<byte>)
    requires |h.magic| == 4
    ensures |b| == HEADER_SIZE
  {
    h.magic + Le(h.version, 2) + Le(h.architecture, 2) + Le(h.kind, 2) + Le(h.flags, 2) + Zeros(4)
      + EncodeWords(WordsOf(h))
  }

  function Short(file: seq<byte>, at: nat): (v: u16)
    requires at + 2 <= |file|
  {
    Pow256Values();
    FromLe(file[at..at + 2])
  }

  /** The k-th 64-bit field. */
  function Word(file: seq<byte>, k: nat): (v: u64)
    requires 16 + 8 * k + 8 <= |file|
  {
    Pow256Values();
    FromLe(file[16 + 8 * k..16 + 8 * k + 8])
  }

  /** Reading the header struct at the start of a file. */
  function HeaderOf(file: seq<byte>): (h: Header)
    requires HEADER_SIZE <= |file|
    ensures |h.magic| == 4
  {
    Header(file[..4], Short(file, 4), Short(file, 6), Short(file, 8), Short(file, 10), Word(file, 0),
           Word(file, 1), Word(file, 2), Word(file, 3), Word(file, 4), Word(file, 5), Word(file, 6),
           Word(file, 7), Word(file, 8), Word(file, 9), Word(file, 10), Word(file, 11), Word(file, 12))
  }

  lemma {:induction false} WordAt(w: seq<u64>, k: nat)
    requires k < |w|
    ensures EncodeWords(w)[8 * k..8 * k + 8] == Le(w[k], 8)
  {
    if k > 0 {
      WordAt(w[1..], k - 1);
      assert EncodeWords(w)[8 * k..8 * k + 8] == EncodeWords(w[1..])[8 * (k - 1)..8 * (k - 1) + 8];
    }
  }

  lemma WordOfEncoded(h: Header, rest: seq<byte>, k: nat)
    requires |h.magic| == 4 && k < 13
    ensures Word(Encode(h) + rest, k) == WordsOf(h)[k]
  {
    var file, w := Encode(h) + rest, WordsOf(h);
    assert |w| == 13;
    hide WordsOf, EncodeWords, Encode;
    EncodedWords(h, rest);
    SliceOfSlice(file, 16, 16 + 8 * |w|, 16 + 8 * k, 16 + 8 * k + 8);
    WordAt(w, k);
    Pow256Values();
    LeRoundTrip(w[k], 8);
  }

  lemma EncodedWords(h: Header, rest: seq<byte>)
    requires |h.magic| == 4
    ensures (Encode(h) + rest)[16..16 + 8 * |WordsOf(h)|] == EncodeWords(WordsOf(h))
  {
    var head := h.magic + Le(h.version, 2) + Le(h.architecture, 2) + Le(h.kind, 2) + Le(h.flags, 2) + Zeros(4);
    var words := EncodeWords(WordsOf(h));
    assert |head| == 16 && Encode(h) == head + words && |words| == 8 * |WordsOf(h)|;
    hide *;
    assert (head + words + rest)[16..16 + |words|] == words;
  }

  lemma SliceOfSlice(b: seq<byte>, from: nat, to: nat, x: nat, y: nat)
    requires from <= x <= y <= to <= |b|
    ensures b[from..to][x - from..y - from] == b[x..y]
  {
    var c := b[from..to];
    var l, r := c[x - from..y - from], b[x..y];
    assert |l| == |r|;
    forall i | 0 <= i < y - x
      ensures l[i] == r[i]
    {
      assert l[i] == c[x - from + i] && c[x - from + i] == b[x + i];
    }
  }

  lemma ShortsOfEncoded(h: Header, rest: seq<byte>)
    requires |h.magic| == 4
    ensures var file := Encode(h) + rest;
            Short(file, 4) == h.version && Short(file, 6) == h.architecture && Short(file, 8) == h.kind
            && Short(file, 10) == h.flags
  {
    var file := Encode(h) + rest;
    hide EncodeWords;
    Pow256Values();
    assert file[4..6] == Le(h.version, 2) && file[6..8] == Le(h.architecture, 2);
    assert file[8..10] == Le(h.kind, 2) && file[10..12] == Le(h.flags, 2);
    LeRoundTrip(h.version, 2);
    LeRoundTrip(h.architecture, 2);
    LeRoundTrip(h.kind, 2);
    LeRoundTrip(h.flags, 2);
  }

  /** A header written at the start of a file reads back as itself. */
  lemma HeaderRoundTrip(h: Header, rest: seq<byte>)
    requires |h.magic| == 4
    ensures HeaderOf(Encode(h) + rest) == h
  {
    ShortsOfEncoded(h, rest);
    forall k | 0 <= k < 13
      ensures Word(Encode(h) + rest, k) == WordsOf(h)[k]
    {
      WordOfEncoded(h, rest, k);
    }
    assert (Encode(h) + rest)[..4] == h.magic;
    hide Encode, Short, Word;
  }

  // ---- validation ------------------------------------------------------------------------------------

  /** Written without a sum, so that nothing can overflow. */
  function RangeValid(offset: nat, size: nat, fileSize: nat): (ok: bool)
    ensures ok <==> offset + size <= fileSize
  {
    if offset > fileSize then false else if size > fileSize - offset then false else true
  }

  /** What an acceptable file is. */
  predicate Acceptable(file: seq<byte>) {
    && HEADER_SIZE <= |file|
    && var h := HeaderOf(file);
       && h.magic == RIRU_MAGIC && h.version == 1 && h.architecture == 1 && h.kind == 1
       && HEADER_SIZE <= h.imageSize <= |file|
       && SectionFits(h.codeOffset, h.codeVaddr, h.codeSize, h.imageSize)
       && SectionFits(h.rodataOffset, h.rodataVaddr, h.rodataSize, h.imageSize)
       && SectionFits(h.dataOffset, h.dataVaddr, h.dataSize, h.imageSize)
       && h.entry != 0
  }

  /** A section inside the image; a non-empty one has a load address. */
  predicate SectionFits(offset: nat, vaddr: nat, size: nat, imageSize: nat) {
    offset + size <= imageSize && (size > 0 ==> vaddr != 0)
  }

  /** riru_validate: zero exactly for an acceptable file, otherwise the number of the first check that fails. */
  function Validate(file: seq<byte>): (code: int)
    ensures code == 0 <==> Acceptable(file)
    ensures -15 <= code <= 0
  {
    if |file| < HEADER_SIZE then -2
    else
      var h := HeaderOf(file);
      if h.magic != RIRU_MAGIC then -3
      else if h.version != RIRU_VERSION then -4
      else if h.architecture != RIRU_ARCH_X86_64 then -5
      else if h.kind != RIRU_TYPE_EXECUTABLE then -6
      else if h.imageSize > |file| then -7
      else if h.imageSize < HEADER_SIZE then -8
      else if !RangeValid(h.codeOffset, h.codeSize, h.imageSize) then -9
      else if !RangeValid(h.rodataOffset, h.rodataSize, h.imageSize) then -10
      else if !RangeValid(h.dataOffset, h.dataSize, h.imageSize) then -11
      else if h.entry == 0 then -12
      else if h.codeSize != 0 && h.codeVaddr == 0 then -13
      else if h.rodataSize != 0 && h.rodataVaddr == 0 then -14
      else if h.dataSize != 0 && h.dataVaddr == 0 then -15
      else 0
  }

  // ---- parsing ---------------------------------------------------------------------------------------

  datatype Option<T> = None | Some(value: T)

  /** riru_image_t; a section pointer is an offset into the file, None for the null pointer. */
  datatype Image = Image(header: Header, code: Option<nat>, rodata: Option<nat>, data: Option<nat>,
                         codeVaddr: u64, rodataVaddr: u64, dataVaddr: u64, entry: u64)

  datatype Parsed = Parsed(image: Image) | Refused(code: int)

  function Pointer(offset: nat, size: nat): Option<nat> {
    if size != 0 then Some(offset) else None
  }

  /** The bytes a loader may read through a section pointer. */
  function SectionBytes(file: seq<byte>, at: Option<nat>, size: nat): (b: seq<byte>)
    requires at.Some? ==> at.value + size <= |file|
    ensures |b| == if at.Some? then size else 0
  {
    if at.Some? then file[at.value..at.value + size] else []
  }

  /** Every section pointer of a parsed image stays inside the file. */
  predicate InFile(file: seq<byte>, m: Image) {
    && (m.code.Some? ==> m.code.value + m.header.codeSize <= |file|)
    && (m.rodata.Some? ==> m.rodata.value + m.header.rodataSize <= |file|)
    && (m.data.Some? ==> m.data.value + m.header.dataSize <= |file|)
  }

  function Parse(file: seq<byte>): (p: Parsed)
    ensures p.Parsed? <==> Acceptable(file)
    ensures p.Parsed? ==> InFile(file, p.image)
    ensures p.Refused? ==> p.code == Validate(file) < 0
  {
    if Validate(file) != 0 then Refused(Validate(file))
    else
      var h := HeaderOf(file);
      Parsed(Image(h, Pointer(h.codeOffset, h.codeSize), Pointer(h.rodataOffset, h.rodataSize),
                   Pointer(h.dataOffset, h.dataSize),
                   h.codeVaddr, h.rodataVaddr, h.dataVaddr, h.entry))
  }
}
