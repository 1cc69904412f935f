/** Boot information as a Multiboot2 boot loader writes it, and what pmm_init reads from it. */
module BootTags {
  import opened LittleEndian
  import opened FrameSets
  import opened BootInfo

  /** A memory map, or any other tag but the end tag. */
  datatype Tag = MemoryMap(entries: seq<Region>) | OtherTag(kind: u32, body: seq<byte>)

  function KindOf(t: Tag): u32 {
    if t.MemoryMap? then 6 else t.kind
  }

  function SizeOf(t: Tag): nat {
    match t
    case MemoryMap(entries) => 16 + 24 * |entries|
    case OtherTag(_, body) => 8 + |body|
  }

  /** Tag sizes fit their field, also when rounded up, and other tags have their own kinds. */
  predicate WellMade(t: Tag) {
    && SizeOf(t) <= 0xFFFF_FFF8
    && match t
       case MemoryMap(entries) => forall i :: 0 <= i < |entries| ==> Encodable(entries[i])
       case OtherTag(kind, _) => kind != 0 && kind != 6
  }

  /** What follows the kind and the size. */
  function TagBody(t: Tag): (b: seq<byte>)
    ensures |b| == SizeOf(t) - 8
  {
    match t
    case MemoryMap(entries) => Le(24, 4) + Zeros(4) + EncodeEntries(entries)
    case OtherTag(_, body) => body
  }

  /** Zeros up to a length that 8 divides. */
  function Filled(b: seq<byte>): (p: seq<byte>)
    ensures |p| % 8 == 0 && |b| <= |p| < |b| + 8 && p[..|b|] == b
  {
    if |b| % 8 == 0 then b else b + Zeros(8 - |b| % 8)
  }

  /** A tag takes as many bytes as its size says, and fewer than 8 more to end at a multiple of 8. */
  function EncodeTag(t: Tag): (b: seq<byte>)
    ensures |b| % 8 == 0 && SizeOf(t) <= |b| < SizeOf(t) + 8
  {
    Filled(Le(KindOf(t), 4) + Le(SizeOf(t), 4) + TagBody(t))
  }

  function EncodeTags(tags: seq<Tag>): seq<byte> {
    if tags == [] then [] else EncodeTag(tags[0]) + EncodeTags(tags[1..])
  }

  /** The end tag. */
  function EndTag(): (b: seq<byte>)
    ensures |b| == 8
  {
    Le(0, 4) + Le(8, 4)
  }

  function EncodeInfo(tags: seq<Tag>): (b: seq<byte>)
    ensures |b| == 16 + |EncodeTags(tags)|
  {
    Le(16 + |EncodeTags(tags)|, 4) + Zeros(4) + EncodeTags(tags) + EndTag()
  }

  /** All memory maps, in order. */
  function MapsOf(tags: seq<Tag>): seq<Region> {
    if tags == [] then []
    else (if tags[0].MemoryMap? then tags[0].entries else []) + MapsOf(tags[1..])
  }

  // ---- reading back ----------------------------------------------------------------------------------

  lemma NumberReadsBack(before: seq<byte>, v: nat, n: nat, after: seq<byte>)
    requires v < Pow256(n)
    ensures Number(before + Le(v, n) + after, |before|, n) == v
  {
    LeRoundTrip(v, n);
    hide Le, FromLe;
    assert (before + Le(v, n) + after)[|before|..|before| + n] == Le(v, n);
  }

  lemma Regroup(a: seq<byte>, b: seq<byte>, c: seq<byte>, d: seq<byte>)
    ensures a + (b + c) + d == (a + b) + c + d && a + (b + c) + d == a + b + (c + d)
  {
  }

  lemma TagPieces(k: seq<byte>, s: seq<byte>, body: seq<byte>)
    requires |k| == 4 && |s| == 4
    ensures var p := Filled(k + s + body);
            && 8 + |body| <= |p| && p == k + (s + p[8..]) == (k + s) + p[8..]
            && p == k + s + (body + p[8 + |body|..])
  {
    var p := Filled(k + s + body);
    assert (k + s + body)[..8] == k + s && p[..8] == (k + s + body)[..8];
    assert p == p[..8] + p[8..] && p[8..] == body + p[8 + |body|..];
  }

  /** Kind and size of a tag, wherever it stands. */
  lemma HeadReadsBack(before: seq<byte>, t: Tag, after: seq<byte>)
    requires WellMade(t)
    ensures var info := before + EncodeTag(t) + after;
            Number(info, |before|, 4) == KindOf(t) && Number(info, |before| + 4, 4) == SizeOf(t)
  {
    var k, s := Le(KindOf(t), 4), Le(SizeOf(t), 4);
    var b := EncodeTag(t)[8..];
    Pow256Values();
    hide Le, TagBody, Number, WellMade;
    TagPieces(k, s, TagBody(t));
    hide EncodeTag;
    Regroup(before, k, s + b, after);
    NumberReadsBack(before, KindOf(t), 4, (s + b) + after);
    Regroup(before + k, s, b, after);
    NumberReadsBack(before + k, SizeOf(t), 4, b + after);
  }

  lemma {:induction false} EntriesFit(info: seq<byte>, at: nat, n: nat)
    requires at + 24 * n <= |info|
    ensures EntriesReadable(info, at, at + 24 * n, 24)
    decreases n
  {
    if n > 0 {
      EntriesFit(info, at + 24, n - 1);
    }
  }

  /** A memory map reads back as its entries. */
  lemma MapReadsBack(before: seq<byte>, t: Tag, after: seq<byte>)
    requires WellMade(t) && t.MemoryMap?
    ensures var info := before + EncodeTag(t) + after;
            var at := |before|;
            && Number(info, at + 8, 4) == 24 && at + 12 <= |info|
            && Entries(info, at + 16, at + SizeOf(t), 24) == t.entries
            && EntriesReadable(info, at + 16, at + SizeOf(t), 24)
  {
    hide Le, Number, EncodeEntries, Entries, EntriesReadable, Zeros, Filled;
    var k, s, w, z, e := Le(6, 4), Le(SizeOf(t), 4), Le(24, 4), Zeros(4), EncodeEntries(t.entries);
    var info := before + EncodeTag(t) + after;
    TagPieces(k, s, w + z + e);
    var g := EncodeTag(t)[8 + |w + z + e|..];
    assert EncodeTag(t) == k + s + (w + z + e + g);
    Pow256Values();
    hide EncodeTag, TagBody;
    MapPieces(before, k, s, w, z, e, g, after);
    NumberReadsBack(before + k + s, 24, 4, z + e + (g + after));
    EntriesRoundTrip(before + k + s + w + z, t.entries, g + after);
    EntriesFit(info, |before| + 16, |t.entries|);
  }

  lemma MapPieces(b: seq<byte>, k: seq<byte>, s: seq<byte>, w: seq<byte>, z: seq<byte>, e: seq<byte>, g: seq<byte>,
                  a: seq<byte>)
    ensures b + (k + s + (w + z + e + g)) + a == (b + k + s) + w + (z + e + (g + a))
    ensures b + (k + s + (w + z + e + g)) + a == (b + k + s + w + z) + e + (g + a)
  {
  }

  /** From a tag on, the walk finds the memory maps written, and can read all it looks at. */
  lemma {:induction false} TagsReadBack(before: seq<byte>, tags: seq<Tag>)
    requires forall i :: 0 <= i < |tags| ==> WellMade(tags[i])
    ensures var info := before + EncodeTags(tags) + EndTag();
            Regions(info, |before|, |info|) == MapsOf(tags) && Readable(info, |before|, |info|)
    decreases |tags|
  {
    hide EncodeTag, EndTag, Number, Entries, EntriesReadable, Regions, Readable, WellMade, Step8;
    if |tags| == 0 {
      OnlyEnd(before, EncodeTags(tags));
    } else {
      var info, at := before + EncodeTags(tags) + EndTag(), |before|;
      var t, rest := tags[0], EncodeTags(tags[1..]);
      TagsReadBack(before + EncodeTag(t), tags[1..]);
      assert EncodeTags(tags) == EncodeTag(t) + rest;
      hide EncodeTags;
      Regroup(before, EncodeTag(t), rest, EndTag());
      HeadReadsBack(before, t, rest + EndTag());
      if t.MemoryMap? {
        MapReadsBack(before, t, rest + EndTag());
      }
      StepIs(SizeOf(t), |EncodeTag(t)|);
      TagPassed(info, at, |info|, t);
    }
  }

  lemma OnlyEnd(before: seq<byte>, none: seq<byte>)
    requires none == []
    ensures var info := before + none + EndTag();
            Regions(info, |before|, |info|) == [] && Readable(info, |before|, |info|)
  {
    hide Number, Le;
    EndPieces(before, none, Le(0, 4), Le(8, 4));
    Pow256Values();
    NumberReadsBack(before, 0, 4, Le(8, 4));
  }

  lemma EndPieces(before: seq<byte>, none: seq<byte>, k: seq<byte>, s: seq<byte>)
    requires none == []
    ensures before + none + (k + s) == before + k + s
  {
  }

  /** One step of the walk. */
  lemma TagPassed(info: seq<byte>, at: nat, end: nat, t: Tag)
    requires WellMade(t) && at + 8 <= end <= |info| && Number(info, at, 4) == KindOf(t)
             && Number(info, at + 4, 4) == SizeOf(t)
    requires t.MemoryMap? ==>
               && Number(info, at + 8, 4) == 24 && at + 12 <= |info|
               && Entries(info, at + 16, at + SizeOf(t), 24) == t.entries
               && EntriesReadable(info, at + 16, at + SizeOf(t), 24)
    requires Readable(info, at + Step8(SizeOf(t)), end)
    ensures Readable(info, at, end)
    ensures Regions(info, at, end) ==
              (if t.MemoryMap? then t.entries else []) + Regions(info, at + Step8(SizeOf(t)), end)
  {
    hide Number, Entries, EntriesReadable, Step8;
  }

  /** pmm_init can read boot information written so, whatever the tags, and finds exactly the memory maps in it. */
  lemma InfoReadsBack(tags: seq<Tag>)
    requires forall i :: 0 <= i < |tags| ==> WellMade(tags[i])
    requires 16 + |EncodeTags(tags)| < 0x1_0000_0000
    ensures var info := EncodeInfo(tags);
            && 8 <= |info| && Number(info, 0, 4) == |info|
            && Readable(info, 8, Number(info, 0, 4)) && BootRegions(info) == MapsOf(tags)
  {
    var size, body := 16 + |EncodeTags(tags)|, EncodeTags(tags) + EndTag();
    var none: seq<byte> := [];
    Pow256Values();
    hide Number, Le, EncodeTags, EndTag, Regions, Readable;
    assert EncodeInfo(tags) == none + Le(size, 4) + (Zeros(4) + body);
    NumberReadsBack(none, size, 4, Zeros(4) + body);
    TagsReadBack(Le(size, 4) + Zeros(4), tags);
    assert EncodeInfo(tags) == (Le(size, 4) + Zeros(4)) + EncodeTags(tags) + EndTag();
  }
}
