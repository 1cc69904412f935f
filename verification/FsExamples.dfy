/** Runs in which the file system does less than its callers might expect. */
module FsExamples {
  import opened LittleEndian
  import opened FsBytes
  import opened FsSpec
  import opened FsInvariants
  import opened FsTree
  import opened FsContents
  import opened FsBlockNumbers

  // ---- blocks shared within a file -------------------------------------------------------------------

  /** Three chunks that differ. */
  function ThreeChunks(): (bytes: seq<byte>)
    ensures |bytes| == 2 * CHUNK + 1
  {
    seq(2 * CHUNK + 1, i => if i < CHUNK then 1 else if i < 2 * CHUNK then 2 else 3)
  }

  /** Three full chunks that are equal. */
  function EqualChunks(): (bytes: seq<byte>)
    ensures |bytes| == 3 * CHUNK
  {
    seq(3 * CHUNK, _ => 7)
  }

  lemma ThreeNeed()
    ensures Needed(|ThreeChunks()|) == 3 && Needed(|EqualChunks()|) == 3
  {
  }

  /** When the second and third chunk share a block, three different chunks cannot all be stored. */
  lemma ThreeDisagree(g: seq<u32>)
    requires |g| == FS_MAX_BLOCKS && g[1] == g[2]
    ensures !SharedChunksAgree(g, ThreeChunks())
  {
    var bytes := ThreeChunks();
    assert Chunks(|bytes|) == 3;
    assert LastIn(g, 3, g[1]) == 2;
    assert ChunkAt(bytes, 2)[0] == 3 && ChunkAt(bytes, 1)[0] == 2;
    assert Padded(ChunkAt(bytes, 2))[..|ChunkAt(bytes, 1)|][0] == 3;
    assert !SharesWell(g, bytes, 1);
  }

  lemma EqualAgree(g: seq<u32>)
    requires |g| == FS_MAX_BLOCKS
    ensures SharedChunksAgree(g, EqualChunks())
  {
    var bytes := EqualChunks();
    assert Chunks(|bytes|) == 3;
    forall i | 0 <= i < |g| && i * CHUNK < |bytes|
      ensures SharesWell(g, bytes, i)
    {
      var j := LastIn(g, 3, g[i]);
      assert j < 3;
      assert ChunkAt(bytes, i) == ChunkAt(bytes, j) == seq(CHUNK, _ => 7);
      assert Padded(ChunkAt(bytes, j))[..CHUNK] == ChunkAt(bytes, j);
    }
  }

  /** One file, nothing else, with these blocks. */
  predicate OneFile(s: Fs, name: seq<byte>, blocks: seq<u32>) {
    && Shaped(s) && s.cwd == 0 && s.nodes[0].name == StoredName(name) && s.nodes[0].parent == 0
    && s.nodes[0].isDirectory == 0 && s.nodes[0].blocks == blocks
    && forall i :: 1 <= i < FS_MAX_INODES ==> !Live(s.nodes[i])
  }

  lemma OneFileMeaning(s: Fs, name: seq<byte>, blocks: seq<u32>, top: nat)
    requires OneFile(s, name, blocks) && ValidName(name)
    requires FS_DATA_START <= top && top in blocks && forall b :: b in blocks ==> b <= top
    ensures Live(s.nodes[0]) && Lookup(s.nodes, name, 0) == 1 && HighWater(s.nodes) == top
  {
    StoredNameReadsBack(name);
    var b :| 0 <= b < |blocks| && blocks[b] == top;
    hide StoredName, CString;
    assert NameOf(s.nodes[0]) == name && Matches(s.nodes[0], name, 0);
    MarkReaches(s.nodes, 0, b);
    assert BlocksUpTo(s.nodes[0], top);
    HighWaterBound(s.nodes, top);
  }

  lemma WriteIsStore(s: Fs, name: seq<byte>, bytes: seq<byte>)
    requires Shaped(s) && BlockNumbersLeft(s.nodes) && |bytes| <= MAX_SIZE
    requires Lookup(s.nodes, name, s.cwd) == 1 && s.nodes[0].isDirectory == 0
    ensures Write(s, name, bytes) == (Store(s, 1, bytes, false), 0)
  {
    assert bytes[..|bytes|] == bytes;
    hide HighWater, Store, Lookup, Shaped;
  }

  /** Every block named lies on the disk, with room for one more. */
  predicate Placed(s: Fs, blocks: seq<u32>, top: nat) {
    && |blocks| == FS_MAX_BLOCKS && FS_DATA_START <= top && top in blocks && top + 1 < FS_DATA_START + |s.data|
    && top + 1 < 0x1_0000_0000
    && forall b :: 0 <= b < |blocks| ==> blocks[b] == 0 || FS_DATA_START <= blocks[b] <= top
  }

  lemma StoredOne(s: Fs, name: seq<byte>, blocks: seq<u32>, bytes: seq<byte>)
    requires OneFile(s, name, blocks) && BlockNumbersLeft(s.nodes) && |bytes| <= MAX_SIZE
    ensures OneFile(Store(s, 1, bytes, false), name, Grown(blocks, Needed(|bytes|), FreshBlock(s.nodes)))
    ensures |Store(s, 1, bytes, false).data| == |s.data|
  {
    hide StoredName, HighWater, CString;
  }

  /** A write to the one file is a store in inode 1, with top + 1 as the next block. */
  lemma StepIsStore(s: Fs, name: seq<byte>, blocks: seq<u32>, top: nat, bytes: seq<byte>)
    requires OneFile(s, name, blocks) && ValidName(name) && Placed(s, blocks, top) && |bytes| <= MAX_SIZE
    ensures BlockNumbersLeft(s.nodes) && FreshBlock(s.nodes) == top + 1 && Live(s.nodes[0])
    ensures Write(s, name, bytes) == (Store(s, 1, bytes, false), 0)
    ensures Step(s, OpWrite(name, bytes)) == Store(s, 1, bytes, false)
  {
    OneFileMeaning(s, name, blocks, top);
    hide HighWater, StoredName, CString, Lookup, Store, Write;
    WriteIsStore(s, name, bytes);
  }

  /** A write to the one file. */
  lemma OneFileWritten(s: Fs, name: seq<byte>, blocks: seq<u32>, top: nat, bytes: seq<byte>)
    requires OneFile(s, name, blocks) && ValidName(name) && Placed(s, blocks, top) && Inv(s) && |bytes| <= MAX_SIZE
    ensures BlockNumbersLeft(s.nodes) && Write(s, name, bytes).1 == 0
    ensures var t := Step(s, OpWrite(name, bytes));
            var g := Grown(blocks, Needed(|bytes|), top + 1);
            && OneFile(t, name, g) && Inv(t) && |t.data| == |s.data|
            && (Content(t, 1) == bytes <==> SharedChunksAgree(g, bytes))
  {
    StepIsStore(s, name, blocks, top, bytes);
    StoredOne(s, name, blocks, bytes);
    StepKeepsInv(s, OpWrite(name, bytes));
    assert BlocksOnDisk(s.data, blocks, |bytes|, FreshBlock(s.nodes));
    assert s.nodes[0].blocks == blocks;
    hide HighWater, StoredName, CString, Lookup, Content, SharedChunksAgree, Needed, Store, Inv, BlocksOnDisk, Grown;
    hide Write;
    hide OneFile, Step;
    StoreReadsBackExactly(s, 1, bytes, false);
  }

  /** Format, create, write three different chunks: the write succeeds and the file does not hold them. */
  lemma AliasedFileReadsWrong(data: seq<Sector>, name: seq<byte>)
    requires ValidName(name) && |data| >= 2
    ensures var s := Formatted(data);
            && BlockNumbersLeft(s.nodes) && Shaped(s)
            && var t := Step(s, OpCreate(name));
               && Shaped(t) && BlockNumbersLeft(t.nodes) && Write(t, name, ThreeChunks()).1 == 0
               && Content(Step(t, OpWrite(name, ThreeChunks())), 1) != ThreeChunks()
  {
    var t := CreatedOne(data, name);
    OneFileMeaning(t, name, [9, 0, 0, 0], 9);
    OneFileWritten(t, name, [9, 0, 0, 0], 9, ThreeChunks());
    ThreeNeed();
    hide OneFile, Content, SharedChunksAgree, ThreeChunks, Inv, Lookup, HighWater, Step, Write;
    ThreeDisagree(Grown([9, 0, 0, 0], 3, 10));
  }

  lemma CreatedOne(data: seq<Sector>, name: seq<byte>) returns (t: Fs)
    requires ValidName(name)
    ensures var s := Formatted(data); BlockNumbersLeft(s.nodes) && Shaped(s) && t == Step(s, OpCreate(name))
    ensures OneFile(t, name, [9, 0, 0, 0]) && Inv(t) && |t.data| == |data|
  {
    FirstFile(data, name);
    FormattedMark(data);
    StepKeepsInv(Formatted(data), OpCreate(name));
    hide HighWater, StoredName, Lookup, Inv;
    t := Step(Formatted(data), OpCreate(name));
  }

  /** Sharing outlives the write that made it: format, create, write equal chunks, which read back; then
      three different chunks, which need no new block at all, do not. */
  lemma AliasOutlivesWrite(data: seq<Sector>, name: seq<byte>) returns (s: Fs, t: Fs)
    requires ValidName(name) && |data| >= 3
    ensures var f := Formatted(data); Shaped(f) && BlockNumbersLeft(f.nodes) && s == Step(f, OpCreate(name))
    ensures Shaped(s) && BlockNumbersLeft(s.nodes) && t == Step(s, OpWrite(name, EqualChunks()))
    ensures Content(t, 1) == EqualChunks()
    ensures Shaped(t) && BlockNumbersLeft(t.nodes) && Write(t, name, ThreeChunks()).1 == 0
    ensures !LacksBlock(t.nodes[0].blocks, |ThreeChunks()|)
            && Content(Step(t, OpWrite(name, ThreeChunks())), 1) != ThreeChunks()
  {
    s := CreatedOne(data, name);
    hide Content, SharedChunksAgree, ThreeChunks, EqualChunks, Inv, Lookup, HighWater, StoredName, Step, Write, OneFile;
    t := EqualWritten(s, name);
    ThreeOver(t, name);
  }

  lemma ThreeOver(t: Fs, name: seq<byte>)
    requires OneFile(t, name, [9, 10, 10, 0]) && Inv(t) && ValidName(name) && |t.data| >= 3
    ensures Shaped(t) && BlockNumbersLeft(t.nodes) && Write(t, name, ThreeChunks()).1 == 0
    ensures !LacksBlock(t.nodes[0].blocks, |ThreeChunks()|)
            && Content(Step(t, OpWrite(name, ThreeChunks())), 1) != ThreeChunks()
  {
    ThreeNeed();
    hide Content, SharedChunksAgree, ThreeChunks, Inv, Lookup, HighWater, StoredName, Step, Write, Needed;
    OneFileWritten(t, name, [9, 10, 10, 0], 10, ThreeChunks());
    ThreeDisagree(Grown([9, 10, 10, 0], 3, 11));
  }

  lemma EqualWritten(s: Fs, name: seq<byte>) returns (t: Fs)
    requires OneFile(s, name, [9, 0, 0, 0]) && Inv(s) && ValidName(name) && |s.data| >= 3
    ensures Shaped(s) && BlockNumbersLeft(s.nodes) && t == Step(s, OpWrite(name, EqualChunks()))
    ensures OneFile(t, name, [9, 10, 10, 0]) && Inv(t) && |t.data| == |s.data| && Content(t, 1) == EqualChunks()
  {
    ThreeNeed();
    assert Shaped(s);
    var g := Grown([9, 0, 0, 0], 3, 10);
    assert g == [9, 10, 10, 0];
    hide Content, SharedChunksAgree, ThreeChunks, EqualChunks, Inv, Lookup, HighWater, StoredName, Step, Write;
    hide OneFile, Needed;
    OneFileWritten(s, name, [9, 0, 0, 0], 9, EqualChunks());
    EqualAgree(g);
    t := Step(s, OpWrite(name, EqualChunks()));
  }

  // ---- names longer than 27 bytes --------------------------------------------------------------------

  /** 27 bytes and one more. */
  function LongName(last: byte): (name: seq<byte>)
    ensures |name| == FS_NAME_MAX
  {
    seq(FS_NAME_MAX, i => if i < FS_NAME_MAX - 1 then 97 else last)
  }

  /** Names alike in their first 27 bytes are stored alike. */
  lemma LongNamesAlike(p: byte, q: byte)
    requires p != q && p != 0 && q != 0
    ensures Truncated(LongName(p)) == Truncated(LongName(q)) && LongName(p) != LongName(q)
    ensures CString(StoredName(LongName(p))) == Truncated(LongName(p))
    ensures IsText(LongName(p)) && IsText(LongName(q)) && |Truncated(LongName(p))| > 0
  {
    var x, y := LongName(p), LongName(q);
    assert x[FS_NAME_MAX - 1] == p && y[FS_NAME_MAX - 1] == q;
    assert Truncated(x) == x[..FS_NAME_MAX - 1] == Truncated(y);
    StoredNameReadsBack(x);
  }

  /** The first file created on a fresh disk. */
  lemma FirstCreated(data: seq<Sector>, name: seq<byte>)
    requires IsText(name) && name != []
    ensures var s := Formatted(data);
            && Shaped(s) && BlockNumbersLeft(s.nodes) && Create(s, name).1 == 0
            && var t := Create(s, name).0;
               && Shaped(t) && BlockNumbersLeft(t.nodes) && t.cwd == 0
               && Live(t.nodes[0]) && t.nodes[0].name == StoredName(name) && t.nodes[0].parent == 0
               && forall i :: 1 <= i < FS_MAX_INODES ==> !Live(t.nodes[i])
  {
    var s := Formatted(data);
    FormattedMark(data);
    StoredNameReadsBack(name);
    EmptyTable(s);
    hide StoredName, CString, HighWater, Formatted, FreeInode, Lookup;
    StepRaises(s, OpCreate(name));
  }

  lemma EmptyTable(s: Fs)
    requires |s.nodes| == FS_MAX_INODES && forall i :: 0 <= i < |s.nodes| ==> !Live(s.nodes[i])
    ensures FreeInode(s.nodes) == 1 && forall name :: Lookup(s.nodes, name, 0) == 0
  {
  }

  /** Format, then create two files whose names differ in the 28th byte: both succeed, and both are stored
      under the same name in the same directory. */
  lemma LongNamesCollide(data: seq<Sector>, p: byte, q: byte)
    requires p != q && p != 0 && q != 0
    ensures var s := Formatted(data);
            && Shaped(s) && BlockNumbersLeft(s.nodes) && Create(s, LongName(p)).1 == 0
            && var t := Create(s, LongName(p)).0;
               && Shaped(t) && BlockNumbersLeft(t.nodes) && Create(t, LongName(q)).1 == 0
               && UniqueNames(t.nodes) && !UniqueNames(Create(t, LongName(q)).0.nodes)
  {
    var x, y := LongName(p), LongName(q);
    LongNamesAlike(p, q);
    FirstCreated(data, x);
    hide StoredName, CString, HighWater, LongName, Truncated, Formatted;
    SecondCreated(Create(Formatted(data), x).0, x, y);
  }

  lemma SecondCreated(t: Fs, x: seq<byte>, y: seq<byte>)
    requires Shaped(t) && BlockNumbersLeft(t.nodes) && t.cwd == 0 && Live(t.nodes[0])
    requires t.nodes[0].name == StoredName(x) && t.nodes[0].parent == 0
    requires forall i :: 1 <= i < FS_MAX_INODES ==> !Live(t.nodes[i])
    requires IsText(y) && y != [] && CString(StoredName(x)) == Truncated(x) == Truncated(y) && Truncated(x) != y
    requires |Truncated(x)| > 0
    ensures Create(t, y).1 == 0 && UniqueNames(t.nodes) && !UniqueNames(Create(t, y).0.nodes)
  {
    hide StoredName, CString, HighWater, Truncated;
    assert !Live(t.nodes[1]) && FreeInode(t.nodes) == 2;
    assert Lookup(t.nodes, y, 0) == 0;
    assert Matches(t.nodes[0], Truncated(y), 0);
    CreateUniqueExactly(t, y);
  }
}
