/** The memory map in the Multiboot2 boot information (section 3.6 of the Multiboot2 specification), read from bytes. */
module BootInfo {
  import opened LittleEndian
  import opened FrameSets

  const TAG_END: nat := 0
  const TAG_MMAP: nat := 6

  /** The n-byte number at an offset; every use is inside the boot information of a readable one. */
  function Number(info: seq<byte>, at: nat, n: nat): nat {
    if at + n <= |info| then FromLe(info[at..at + n]) else 0
  }

  /** The next multiple of 8. */
  function Step8(size: nat): (step: nat)
    ensures step % 8 == 0 && size <= step < size + 8
  {
    (size + 7) / 8 * 8
  }

  function RegionAt(info: seq<byte>, at: nat): Region {
    Region(Number(info, at, 8), Number(info, at + 8, 8), Number(info, at + 16, 4))
  }

  /** The entries of one memory map, `step` bytes apart. */
  function Entries(info: seq<byte>, at: nat, end: nat, step: nat): seq<Region>
    decreases end - at
  {
    if at >= end || step == 0 then [] else [RegionAt(info, at)] + Entries(info, at + step, end, step)
  }

  /** Every memory-map entry before the first end tag. */
  function Regions(info: seq<byte>, at: nat, end: nat): seq<Region>
    decreases end - at
  {
    if at >= end || Number(info, at, 4) == TAG_END then []
    else
      var step := Step8(Number(info, at + 4, 4));
      TagRegions(info, at) + (if step == 0 then [] else Regions(info, at + step, end))
  }

  function TagRegions(info: seq<byte>, at: nat): seq<Region> {
    if Number(info, at, 4) != TAG_MMAP then []
    else Entries(info, at + 16, at + Number(info, at + 4, 4), Number(info, at + 8, 4))
  }

  function BootRegions(info: seq<byte>): seq<Region> {
    Regions(info, 8, Number(info, 0, 4))
  }

  /** Entry sizes are positive and entries lie in the information. */
  predicate EntriesReadable(info: seq<byte>, at: nat, end: nat, step: nat)
    decreases end - at
  {
    at >= end || (step > 0 && at + 20 <= |info| && EntriesReadable(info, at + step, end, step))
  }

  /** Tag sizes are positive, do not wrap when rounded, and tags lie in the information. */
  predicate Readable(info: seq<byte>, at: nat, end: nat)
    decreases end - at, 1
  {
    at >= end
    || (at + 8 <= |info| && (Number(info, at, 4) == TAG_END || TagReadable(info, at, end)))
  }

  predicate TagReadable(info: seq<byte>, at: nat, end: nat)
    requires at < end
    decreases end - at, 0
  {
    var size := Number(info, at + 4, 4);
    && 0 < size <= 0xFFFF_FFF8
    && (Number(info, at, 4) == TAG_MMAP ==>
          at + 12 <= |info| && EntriesReadable(info, at + 16, at + size, Number(info, at + 8, 4)))
    && Readable(info, at + Step8(size), end)
  }

  /** There is only one. */
  lemma StepIs(size: nat, length: nat)
    requires length % 8 == 0 && size <= length < size + 8
    ensures Step8(size) == length
  {
  }

  // ---- a memory map as a boot loader writes it -------------------------------------------------------

  /** One 24-byte entry: base, length, type, and four reserved bytes. */
  function EncodeEntry(r: Region): (b: seq<byte>)
    ensures |b| == 24
  {
    Le(r.base, 8) + Le(r.length, 8) + Le(r.kind, 4) + Zeros(4)
  }

  function EncodeEntries(entries: seq<Region>): (b: seq<byte>)
    ensures |b| == 24 * |entries|
  {
    if entries == [] then [] else EncodeEntry(entries[0]) + EncodeEntries(entries[1..])
  }

  predicate Encodable(r: Region) {
    r.base < Pow256(8) && r.length < Pow256(8) && r.kind < Pow256(4)
  }

  lemma EntryReadsBack(before: seq<byte>, r: Region, after: seq<byte>)
    requires Encodable(r)
    ensures RegionAt(before + EncodeEntry(r) + after, |before|) == r
  {
    var info := before + EncodeEntry(r) + after;
    var at := |before|;
    hide Le, FromLe;
    assert info[at..at + 8] == Le(r.base, 8) && info[at + 8..at + 16] == Le(r.length, 8)
           && info[at + 16..at + 20] == Le(r.kind, 4);
    LeRoundTrip(r.base, 8);
    LeRoundTrip(r.length, 8);
    LeRoundTrip(r.kind, 4);
  }

  /** Wherever it stands, a memory map reads back as the entries written. */
  lemma {:induction false} EntriesRoundTrip(before: seq<byte>, entries: seq<Region>, after: seq<byte>)
    requires forall i :: 0 <= i < |entries| ==> Encodable(entries[i])
    ensures var info := before + EncodeEntries(entries) + after;
            Entries(info, |before|, |before| + 24 * |entries|, 24) == entries
    decreases |entries|
  {
    if |entries| > 0 {
      var head, rest := EncodeEntry(entries[0]), EncodeEntries(entries[1..]);
      hide EncodeEntry, RegionAt, Encodable;
      assert before + (head + rest) + after == (before + head) + rest + after == before + head + (rest + after);
      EntryReadsBack(before, entries[0], rest + after);
      EntriesRoundTrip(before + head, entries[1..], after);
    }
  }
}
