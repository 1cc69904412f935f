/** src/riru/loader.c as functions on values: which files are loaded, what each byte of memory is afterwards, and
    which segments of the program are then where they asked to be. */
module RiruLoad {
  import opened LittleEndian
  import opened RiruFormat
  import opened RiruPack

  /** Addresses a program may occupy. */
  const USER_MIN: nat := 0x40_0000
  const USER_MAX: nat := 0x4000_0000
  const PAGE: nat := 4096

  /** User memory, byte by byte from address 0. */
  type Memory = seq<byte>

  /** valid_range, written without a sum. */
  function InUserRange(address: nat, size: nat): (ok: bool)
    ensures ok <==> size == 0 || (USER_MIN <= address && address + size <= USER_MAX)
  {
    if size == 0 then true
    else if address < USER_MIN then false
    else if address >= USER_MAX then false
    else if size > USER_MAX - address then false
    else true
  }

  function PageDown(v: nat): nat {
    v / PAGE * PAGE
  }

  function PageUp(v: nat): nat {
    (v + PAGE - 1) / PAGE * PAGE
  }

  // ---- what is stored --------------------------------------------------------------------------------

  /** Bytes copied to an address; nothing at all for no bytes. */
  function Place(mem: Memory, at: nat, b: seq<byte>): (n: Memory)
    requires b == [] || at + |b| <= |mem|
    ensures |n| == |mem|
  {
    if b == [] then mem else mem[..at] + b + mem[at + |b|..]
  }

  /** What riru_load stores, and where. */
  datatype Parts = Parts(code: seq<byte>, codeAt: nat, rodata: seq<byte>, rodataAt: nat, data: seq<byte>, dataAt: nat,
                         bss: nat, bssAt: nat)

  predicate PartsFit(p: Parts, limit: nat) {
    && (p.code == [] || p.codeAt + |p.code| <= limit)
    && (p.rodata == [] || p.rodataAt + |p.rodata| <= limit)
    && (p.data == [] || p.dataAt + |p.data| <= limit)
    && (p.bss == 0 || p.bssAt + p.bss <= limit)
  }

  /** Code, then read-only data, then data, then zeros. */
  function Stored(mem: Memory, p: Parts): (n: Memory)
    requires PartsFit(p, |mem|)
    ensures |n| == |mem|
  {
    Place(Place(Place(Place(mem, p.codeAt, p.code), p.rodataAt, p.rodata), p.dataAt, p.data), p.bssAt, Zeros(p.bss))
  }

  /** The end of the zeroed part's predecessor: data, else code, else the end of the image. */
  function BssStart(code: nat, codeAt: nat, data: nat, dataAt: nat, imageEnd: nat): nat {
    if data != 0 then dataAt + data else if code != 0 then codeAt + code else imageEnd
  }

  /** image_base and image_end: the pages of the non-empty sections. */
  function Lowest(size: nat, at: nat, rest: nat): nat {
    if size != 0 && PageDown(at) < rest then PageDown(at) else rest
  }

  function Highest(size: nat, at: nat, rest: nat): nat {
    if size != 0 && PageUp(at + size) > rest then PageUp(at + size) else rest
  }

  function ImageBase(h: Header): nat {
    Lowest(h.dataSize, h.dataVaddr, Lowest(h.rodataSize, h.rodataVaddr, Lowest(h.codeSize, h.codeVaddr, U64_MAX)))
  }

  function ImageEnd(h: Header): nat {
    Highest(h.dataSize, h.dataVaddr, Highest(h.rodataSize, h.rodataVaddr, Highest(h.codeSize, h.codeVaddr, 0)))
  }

  function PartsOf(file: seq<byte>, m: Image): Parts
    requires InFile(file, m)
  {
    var h := m.header;
    Parts(SectionBytes(file, m.code, h.codeSize), h.codeVaddr,
          SectionBytes(file, m.rodata, h.rodataSize), h.rodataVaddr,
          SectionBytes(file, m.data, h.dataSize), h.dataVaddr,
          h.bssSize, BssStart(h.codeSize, h.codeVaddr, h.dataSize, h.dataVaddr, ImageEnd(h)))
  }

  // ---- which files are loaded ------------------------------------------------------------------------

  /** The outcome of setting up the address space: 0, or the code of the step that failed. */
  predicate SpaceCode(code: int) {
    code == 0 || -9 <= code <= -6 || code == -11 || code == -12
  }

  datatype LoadResult = Loaded(entry: nat, base: nat, end: nat) | NotLoaded(code: int)

  /** The checks up to the stores, in order; 0 when the stores are reached. */
  function CheckCode(h: Header, space: int): int
    requires SpaceCode(space)
  {
    if !InUserRange(h.codeVaddr, h.codeSize) then -2
    else if !InUserRange(h.rodataVaddr, h.rodataSize) then -3
    else if !InUserRange(h.dataVaddr, h.dataSize) then -4
    else if ImageBase(h) == U64_MAX then -5
    else if -9 <= space <= -6 then space
    else if !InUserRange(BssStart(h.codeSize, h.codeVaddr, h.dataSize, h.dataVaddr, ImageEnd(h)), h.bssSize) then -10
    else space
  }

  /** riru_load: the result; the entry point is checked only after the stores. */
  function LoadOutcome(file: seq<byte>, space: int): LoadResult
    requires SpaceCode(space)
  {
    match Parse(file)
    case Refused(code) => NotLoaded(code)
    case Parsed(m) =>
      var h := m.header;
      if CheckCode(h, space) != 0 then NotLoaded(CheckCode(h, space))
      else if h.entry < ImageBase(h) || h.entry >= ImageEnd(h) then NotLoaded(-13)
      else Loaded(h.entry, ImageBase(h), ImageEnd(h))
  }

  /** riru_load: user memory afterwards. */
  function MemoryAfter(mem: Memory, file: seq<byte>, space: int): Memory
    requires SpaceCode(space) && USER_MAX <= |mem|
  {
    match Parse(file)
    case Refused(_) => mem
    case Parsed(m) => if CheckCode(m.header, space) != 0 then mem else Stored(mem, PartsOf(file, m))
  }
}
