/** riru_load of src/riru/loader.c: the checks and the byte loops, over user memory. */
module RiruLoader {
  import opened LittleEndian
  import opened RiruFormat
  import opened RiruPack
  import opened RiruLoad

  // ---- the stores ------------------------------------------------------------------------------------

  /** One of the three copy loops. */
  method CopySection(memory: array<byte>, destination: nat, file: seq<byte>, source: nat, size: nat)
    requires destination + size <= memory.Length && source + size <= |file|
    modifies memory
    ensures memory[..] == Place(old(memory[..]), destination, file[source..source + size])
  {
    ghost var was, b := memory[..], file[source..source + size];
    NothingPlaced(was, destination, b[..0]);
    hide Place;
    var i := 0;
    while i < size
      invariant 0 <= i <= size && memory[..] == Place(was, destination, b[..i])
    {
      PlacedNext(was, destination, b, i);
      memory[destination + i] := file[source + i];
      i := i + 1;
    }
    assert b[..size] == b;
  }

  lemma NothingPlaced(was: Memory, at: nat, none: seq<byte>)
    requires none == []
    ensures Place(was, at, none) == was
  {
  }

  lemma ZeroNext(was: Memory, at: nat, i: nat)
    requires at + i < |was|
    ensures Place(was, at, Zeros(i))[at + i := 0] == Place(was, at, Zeros(i + 1))
  {
    assert Zeros(i + 1) == Zeros(i) + [0];
  }

  lemma PlacedNext(was: Memory, at: nat, b: seq<byte>, i: nat)
    requires i < |b| && at + |b| <= |was|
    ensures Place(was, at, b[..i])[at + i := b[i]] == Place(was, at, b[..i + 1])
  {
    assert b[..i + 1] == b[..i] + [b[i]];
  }

  /** zero_memory. */
  method ZeroMemory(memory: array<byte>, address: nat, size: nat)
    requires size == 0 || address + size <= memory.Length
    modifies memory
    ensures memory[..] == Place(old(memory[..]), address, Zeros(size))
  {
    ghost var was := memory[..];
    NothingPlaced(was, address, Zeros(0));
    hide Place;
    var i := 0;
    while i < size
      invariant 0 <= i <= size && memory[..] == Place(was, address, Zeros(i))
    {
      ZeroNext(was, address, i);
      memory[address + i] := 0;
      i := i + 1;
    }
  }

  /** A section of a parsed image, if it is not empty. */
  method StoreSection(memory: array<byte>, destination: nat, file: seq<byte>, section: Option<nat>, size: nat)
    requires section == None <==> size == 0
    requires section.Some? ==> section.value + size <= |file| && destination + size <= memory.Length
    modifies memory
    ensures memory[..] == Place(old(memory[..]), destination, SectionBytes(file, section, size))
  {
    if size != 0 {
      CopySection(memory, destination, file, section.value, size);
    }
  }

  /** The stores of riru_load. */
  method StoreParts(memory: array<byte>, file: seq<byte>, image: Image, bssStart: nat)
    requires InFile(file, image) && PointersMatch(image) && PartsFit(PartsOf(file, image), memory.Length)
    requires image.header.bssSize != 0 ==> bssStart == PartsOf(file, image).bssAt
    modifies memory
    ensures memory[..] == Stored(old(memory[..]), PartsOf(file, image))
  {
    hide Place, SectionBytes, BssStart, ImageEnd;
    var h := image.header;
    StoreSection(memory, h.codeVaddr, file, image.code, h.codeSize);
    StoreSection(memory, h.rodataVaddr, file, image.rodata, h.rodataSize);
    StoreSection(memory, h.dataVaddr, file, image.data, h.dataSize);
    if h.bssSize != 0 {
      ZeroMemory(memory, bssStart, h.bssSize);
    } else {
      NoZeros(memory[..], PartsOf(file, image).bssAt);
    }
  }

  lemma NoZeros(mem: Memory, at: nat)
    ensures Zeros(0) == [] && Place(mem, at, Zeros(0)) == mem
  {
  }

  /** Empty sections and null pointers go together. */
  predicate PointersMatch(m: Image) {
    && (m.code == None <==> m.header.codeSize == 0)
    && (m.rodata == None <==> m.header.rodataSize == 0)
    && (m.data == None <==> m.header.dataSize == 0)
  }

  lemma ParsedMatches(file: seq<byte>)
    requires Parse(file).Parsed?
    ensures PointersMatch(Parse(file).image)
  {
  }

  lemma CheckedFits(file: seq<byte>, m: Image, limit: nat)
    requires InFile(file, m) && PointersMatch(m) && CheckCode(m.header, 0) == 0 && USER_MAX <= limit
    ensures PartsFit(PartsOf(file, m), limit)
  {
    hide BssStart, ImageEnd, ImageBase;
  }

  lemma FirstSection(size: nat, at: nat)
    requires InUserRange(at, size) && size > 0
    ensures Lowest(size, at, U64_MAX) == PageDown(at) && Highest(size, at, 0) == PageUp(at + size)
  {
  }

  /** riru_load, with the outcome of the address-space steps given. */
  method Load(file: seq<byte>, memory: array<byte>, space: int) returns (r: LoadResult)
    requires SpaceCode(space) && USER_MAX <= memory.Length
    modifies memory
    ensures r == LoadOutcome(file, space)
    ensures memory[..] == MemoryAfter(old(memory[..]), file, space)
  {
    hide Parse, Stored, PartsFit, PointersMatch, SectionBytes, PageUp, PageDown, InFile;
    var parsed := Parse(file);
    if parsed.Refused? {
      return NotLoaded(parsed.code);
    }
    var image := parsed.image;
    ParsedMatches(file);
    var h := image.header;
    var imageBase, imageEnd := U64_MAX, 0;
    if h.codeSize != 0 {
      if !InUserRange(h.codeVaddr, h.codeSize) {
        return NotLoaded(-2);
      }
      FirstSection(h.codeSize, h.codeVaddr);
      imageBase, imageEnd := PageDown(h.codeVaddr), PageUp(h.codeVaddr + h.codeSize);
    }
    if h.rodataSize != 0 {
      if !InUserRange(h.rodataVaddr, h.rodataSize) {
        return NotLoaded(-3);
      }
      imageBase := Lowest(h.rodataSize, h.rodataVaddr, imageBase);
      imageEnd := Highest(h.rodataSize, h.rodataVaddr, imageEnd);
    }
    if h.dataSize != 0 {
      if !InUserRange(h.dataVaddr, h.dataSize) {
        return NotLoaded(-4);
      }
      imageBase := Lowest(h.dataSize, h.dataVaddr, imageBase);
      imageEnd := Highest(h.dataSize, h.dataVaddr, imageEnd);
    }
    if imageBase == U64_MAX {
      return NotLoaded(-5);
    }
    if -9 <= space <= -6 {
      return NotLoaded(space);
    }
    var bssStart := 0;
    if h.bssSize != 0 {
      bssStart := if h.dataSize != 0 then h.dataVaddr + h.dataSize
                  else if h.codeSize != 0 then h.codeVaddr + h.codeSize else imageEnd;
      if !InUserRange(bssStart, h.bssSize) {
        return NotLoaded(-10);
      }
    }
    if space != 0 {
      return NotLoaded(space);
    }
    CheckedFits(file, image, memory.Length);
    StoreParts(memory, file, image, bssStart);
    if h.entry < imageBase || h.entry >= imageEnd {
      return NotLoaded(-13);
    }
    return Loaded(h.entry, imageBase, imageEnd);
  }
}
