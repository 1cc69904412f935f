/** What a file reads back as after a write: the bytes written exactly when chunks that share a block number
    repeat each other, so always when no number is shared.  Other files never change. */
module FsContents {
  import opened LittleEndian
  import opened FsBytes
  import opened FsSpec
  import opened FsInvariants

  /** How many chunks these bytes take. */
  function Chunks(length: nat): nat {
    (length + CHUNK - 1) / CHUNK
  }

  predicate InDisk(data: seq<Sector>, lba: nat) {
    FS_DATA_START <= lba < FS_DATA_START + |data|
  }

  // ---- the chunk loops -------------------------------------------------------------------------------

  lemma ReadAfterWrite(data: seq<Sector>, lba: nat, sector: Sector, other: nat)
    ensures ReadSector(WriteSector(data, lba, sector), other) ==
              if other == lba && InDisk(data, lba) then sector else ReadSector(data, other)
  {
  }

  /** A sector whose number is not among the blocks written keeps its content. */
  lemma {:induction false} OtherSectorsKept(data: seq<Sector>, blocks: seq<u32>, bytes: seq<byte>, b: nat, lba: nat)
    requires |bytes| <= |blocks| * CHUNK
    requires forall i :: b <= i < Chunks(|bytes|) && i < |blocks| ==> blocks[i] != lba
    ensures ReadSector(WriteChunks(data, blocks, bytes, b), lba) == ReadSector(data, lba)
    decreases |bytes| - b * CHUNK
  {
    if b * CHUNK < |bytes| {
      ChunkInRange(|bytes|, |blocks|, b);
      var d := WriteSector(data, blocks[b], Padded(ChunkAt(bytes, b)));
      ReadAfterWrite(data, blocks[b], Padded(ChunkAt(bytes, b)), lba);
      hide ReadSector, WriteSector, Padded;
      OtherSectorsKept(d, blocks, bytes, b + 1, lba);
    }
  }

  lemma ChunkInRange(length: nat, count: nat, b: nat)
    requires length <= count * CHUNK && b * CHUNK < length
    ensures b < count && b < Chunks(length)
  {
  }

  /** After the loop a block holds the last chunk written to its number. */
  lemma {:induction false} SectorWritten(data: seq<Sector>, blocks: seq<u32>, bytes: seq<byte>, b: nat, i: nat)
    requires |bytes| <= |blocks| * CHUNK && b <= i && i * CHUNK < |bytes| && i < |blocks| && InDisk(data, blocks[i])
    requires forall j :: i < j < Chunks(|bytes|) && j < |blocks| ==> blocks[j] != blocks[i]
    ensures ReadSector(WriteChunks(data, blocks, bytes, b), blocks[i]) == Padded(ChunkAt(bytes, i))
    decreases |bytes| - b * CHUNK
  {
    assert b * CHUNK <= i * CHUNK;
    ChunkInRange(|bytes|, |blocks|, b);
    var d := WriteSector(data, blocks[b], Padded(ChunkAt(bytes, b)));
    if b < i {
      SectorWritten(d, blocks, bytes, b + 1, i);
    } else {
      OtherSectorsKept(d, blocks, bytes, b + 1, blocks[i]);
      ReadAfterWrite(data, blocks[b], Padded(ChunkAt(bytes, b)), blocks[i]);
    }
  }

  /** The bytes of chunk i as they sit in its block. */
  predicate ChunkStored(data: seq<Sector>, blocks: seq<u32>, bytes: seq<byte>, i: nat)
    requires i < |blocks| && i * CHUNK <= |bytes|
  {
    ReadSector(data, blocks[i])[..|ChunkAt(bytes, i)|] == ChunkAt(bytes, i)
  }

  /** All the chunks from b on are in their blocks. */
  predicate ChunksStored(data: seq<Sector>, blocks: seq<u32>, bytes: seq<byte>, b: nat) {
    forall i :: b <= i < |blocks| && i * CHUNK < |bytes| ==> ChunkStored(data, blocks, bytes, i)
  }

  lemma NextChunkStored(data: seq<Sector>, blocks: seq<u32>, bytes: seq<byte>, b: nat)
    requires b < |blocks| && b * CHUNK < |bytes|
    ensures ChunksStored(data, blocks, bytes, b) <==>
            ChunkStored(data, blocks, bytes, b) && ChunksStored(data, blocks, bytes, b + 1)
  {
    hide ChunkStored;
  }

  lemma {:induction false} ReadLength(data: seq<Sector>, blocks: seq<u32>, total: nat, b: nat)
    requires total <= |blocks| * CHUNK
    requires forall i :: 0 <= i < |blocks| && i < Chunks(total) ==> blocks[i] != 0
    ensures |ReadChunks(data, blocks, total, b)| == if b * CHUNK <= total then total - b * CHUNK else 0
    decreases |blocks| - b
  {
    if b < |blocks| && b * CHUNK < total {
      ChunkInRange(total, |blocks|, b);
      ReadLength(data, blocks, total, b + 1);
    }
  }

  /** Reading gives these bytes if and only if every chunk sits in its block. */
  lemma {:induction false} ReadsBackExactly(data: seq<Sector>, blocks: seq<u32>, bytes: seq<byte>, b: nat)
    requires |bytes| <= |blocks| * CHUNK && b * CHUNK <= |bytes|
    requires forall i :: 0 <= i < |blocks| && i < Chunks(|bytes|) ==> blocks[i] != 0
    ensures ReadChunks(data, blocks, |bytes|, b) == bytes[b * CHUNK..] <==> ChunksStored(data, blocks, bytes, b)
    decreases |blocks| - b
  {
    if b < |blocks| && b * CHUNK < |bytes| {
      ChunkInRange(|bytes|, |blocks|, b);
      var here := ReadSector(data, blocks[b])[..Min(CHUNK, |bytes| - b * CHUNK)];
      var rest := ReadChunks(data, blocks, |bytes|, b + 1);
      assert ReadChunks(data, blocks, |bytes|, b) == here + rest;
      assert |ChunkAt(bytes, b)| == Min(CHUNK, |bytes| - b * CHUNK) == |here|;
      assert ChunkStored(data, blocks, bytes, b) <==> here == ChunkAt(bytes, b);
      NextChunkStored(data, blocks, bytes, b);
      hide ReadSector, ChunkStored;
      if (b + 1) * CHUNK <= |bytes| {
        ReadsBackExactly(data, blocks, bytes, b + 1);
        ChunkThenRest(bytes, b);
        SplitEqual(here, rest, ChunkAt(bytes, b), bytes[(b + 1) * CHUNK..]);
      } else {
        assert bytes[b * CHUNK..] == ChunkAt(bytes, b);
        assert rest == [] && here + rest == here;
        assert forall i :: b < i < |blocks| ==> (b + 1) * CHUNK <= i * CHUNK;
      }
    }
  }

  lemma ChunkThenRest(bytes: seq<byte>, b: nat)
    requires (b + 1) * CHUNK <= |bytes|
    ensures bytes[b * CHUNK..] == ChunkAt(bytes, b) + bytes[(b + 1) * CHUNK..]
  {
  }

  lemma SplitEqual(a: seq<byte>, b: seq<byte>, c: seq<byte>, d: seq<byte>)
    requires |a| == |c|
    ensures a + b == c + d <==> a == c && b == d
  {
    if a + b == c + d {
      assert a == (a + b)[..|a|] && c == (c + d)[..|c|];
      assert b == (a + b)[|a|..] && d == (c + d)[|c|..];
    }
  }

  // ---- one write -------------------------------------------------------------------------------------

  /** No block number occurs twice in the inode. */
  predicate NoAlias(blocks: seq<u32>) {
    forall b, c :: 0 <= b < c < |blocks| && blocks[b] != 0 ==> blocks[b] != blocks[c]
  }

  /** The last missing block below `count`, or `count` when none is missing. */
  function LastMissing(blocks: seq<u32>, count: nat): (m: nat)
    requires count <= |blocks|
    ensures m <= count && (m < count ==> blocks[m] == 0)
    ensures forall i :: 0 <= i < count && (m == count || i > m) ==> blocks[i] != 0
    decreases count
  {
    if count == 0 then 0
    else if blocks[count - 1] == 0 then count - 1
    else
      var m := LastMissing(blocks, count - 1);
      if m == count - 1 then count else m
  }

  /** At most one block below `needed` is missing, so a write to this length adds at most one. */
  predicate AtMostOneMissing(blocks: seq<u32>, needed: nat) {
    forall b, c :: 0 <= b < c < |blocks| && c < needed ==> blocks[b] != 0 || blocks[c] != 0
  }

  /** Every chunk that falls in a missing block equals the start of the last one that does. */
  predicate NewChunksRepeat(blocks: seq<u32>, bytes: seq<byte>)
    requires |bytes| <= |blocks| * CHUNK
  {
    forall i :: 0 <= i < |blocks| && i * CHUNK < |bytes| && blocks[i] == 0 ==>
      RepeatsLast(blocks, bytes, i)
  }

  predicate RepeatsLast(blocks: seq<u32>, bytes: seq<byte>, i: nat)
    requires |bytes| <= |blocks| * CHUNK && i < |blocks| && i * CHUNK < |bytes|
  {
    ChunksFit(|bytes|, |blocks|);
    var last := LastMissing(blocks, Chunks(|bytes|));
    last * CHUNK <= |bytes| && Padded(ChunkAt(bytes, last))[..|ChunkAt(bytes, i)|] == ChunkAt(bytes, i)
  }

  lemma ChunksFit(length: nat, count: nat)
    requires length <= count * CHUNK
    ensures Chunks(length) <= count
  {
  }

  /** The blocks a write to this length uses, the spare one included if one is missing, all lie on the disk. */
  predicate BlocksOnDisk(data: seq<Sector>, blocks: seq<u32>, length: nat, spare: nat) {
    forall b :: 0 <= b < |blocks| && b < Needed(length) ==> InDisk(data, if blocks[b] == 0 then spare else blocks[b])
  }

  /** The last of the first `count` chunks that goes to this block number; `count` when none does. */
  function LastIn(g: seq<u32>, count: nat, block: nat): (j: nat)
    requires count <= |g|
    ensures j <= count && (j < count ==> g[j] == block)
    ensures forall i :: 0 <= i < count && (j == count || i > j) ==> g[i] != block
    decreases count
  {
    if count == 0 then 0
    else if g[count - 1] == block then count - 1
    else
      var j := LastIn(g, count - 1, block);
      if j == count - 1 then count else j
  }

  /** Chunk i is the start of what its block holds in the end: the last chunk, padded, with its number. */
  predicate SharesWell(g: seq<u32>, bytes: seq<byte>, i: nat)
    requires |bytes| <= |g| * CHUNK && i < |g| && i * CHUNK < |bytes|
  {
    ChunksFit(|bytes|, |g|);
    var j := LastIn(g, Chunks(|bytes|), g[i]);
    j * CHUNK <= |bytes| && Padded(ChunkAt(bytes, j))[..|ChunkAt(bytes, i)|] == ChunkAt(bytes, i)
  }

  /** All chunks with the same block number agree that far. */
  predicate SharedChunksAgree(g: seq<u32>, bytes: seq<byte>)
    requires |bytes| <= |g| * CHUNK
  {
    forall i :: 0 <= i < |g| && i * CHUNK < |bytes| ==> SharesWell(g, bytes, i)
  }

  lemma ChunkCount(length: nat, i: nat)
    ensures i * CHUNK < length <==> i < Chunks(length)
    ensures Chunks(length) <= Needed(length)
  {
  }

  /** After the chunk loop a block holds the last chunk with its number. */
  lemma BlockHolds(data: seq<Sector>, g: seq<u32>, bytes: seq<byte>, i: nat)
    requires |bytes| <= |g| * CHUNK && i < |g| && i * CHUNK < |bytes| && InDisk(data, g[i])
    ensures Chunks(|bytes|) <= |g|
    ensures var j := LastIn(g, Chunks(|bytes|), g[i]);
            j * CHUNK < |bytes| && ReadSector(WriteChunks(data, g, bytes, 0), g[i]) == Padded(ChunkAt(bytes, j))
  {
    ChunksFit(|bytes|, |g|);
    ChunkCount(|bytes|, i);
    var j := LastIn(g, Chunks(|bytes|), g[i]);
    ChunkCount(|bytes|, j);
    hide Chunks, ReadSector, Padded, InDisk;
    SectorWritten(data, g, bytes, 0, j);
  }

  /** Writing and reading through the same block list gives the bytes exactly when shared chunks agree. */
  lemma WrittenReadsBack(data: seq<Sector>, g: seq<u32>, bytes: seq<byte>)
    requires |bytes| <= |g| * CHUNK && forall i :: 0 <= i < |g| && i < Chunks(|bytes|) ==> InDisk(data, g[i])
    ensures ReadChunks(WriteChunks(data, g, bytes, 0), g, |bytes|, 0) == bytes <==> SharedChunksAgree(g, bytes)
  {
    var after := WriteChunks(data, g, bytes, 0);
    ReadsBackExactly(after, g, bytes, 0);
    assert bytes[0..] == bytes;
    forall i | 0 <= i < |g| && i * CHUNK < |bytes|
      ensures ChunkStored(after, g, bytes, i) <==> SharesWell(g, bytes, i)
    {
      ChunkCount(|bytes|, i);
      BlockHolds(data, g, bytes, i);
    }
    hide ChunkStored, SharesWell, ReadChunks, WriteChunks;
  }

  /** For a block list without repetitions, only the chunks in new blocks have to agree. */
  lemma UnaliasedShares(blocks: seq<u32>, spare: u32, bytes: seq<byte>)
    requires |bytes| <= |blocks| * CHUNK && NoAlias(blocks) && spare != 0
    requires forall b :: 0 <= b < |blocks| ==> blocks[b] != spare
    ensures SharedChunksAgree(Grown(blocks, Needed(|bytes|), spare), bytes) <==> NewChunksRepeat(blocks, bytes)
  {
    var g := Grown(blocks, Needed(|bytes|), spare);
    forall i | 0 <= i < |g| && i * CHUNK < |bytes|
      ensures SharesWell(g, bytes, i) <==> (blocks[i] == 0 ==> RepeatsLast(blocks, bytes, i))
    {
      UnaliasedShare(blocks, spare, bytes, i);
    }
    hide SharesWell, RepeatsLast;
  }

  lemma UnaliasedShare(blocks: seq<u32>, spare: u32, bytes: seq<byte>, i: nat)
    requires |bytes| <= |blocks| * CHUNK && NoAlias(blocks) && spare != 0
    requires forall b :: 0 <= b < |blocks| ==> blocks[b] != spare
    requires i < |blocks| && i * CHUNK < |bytes|
    ensures SharesWell(Grown(blocks, Needed(|bytes|), spare), bytes, i) <==>
            (blocks[i] == 0 ==> RepeatsLast(blocks, bytes, i))
  {
    var g := Grown(blocks, Needed(|bytes|), spare);
    ChunksFit(|bytes|, |blocks|);
    var count := Chunks(|bytes|);
    ChunkCount(|bytes|, i);
    var last := LastMissing(blocks, count);
    hide Needed, Chunks;
    if blocks[i] == 0 {
      assert LastIn(g, count, g[i]) == last;
    } else {
      assert LastIn(g, count, g[i]) == i;
    }
  }

  /** One missing block cannot collide. */
  lemma OneNewChunkIsFine(blocks: seq<u32>, bytes: seq<byte>)
    requires |bytes| <= |blocks| * CHUNK && AtMostOneMissing(blocks, Needed(|bytes|))
    ensures NewChunksRepeat(blocks, bytes)
  {
    ChunksFit(|bytes|, |blocks|);
    var last := LastMissing(blocks, Chunks(|bytes|));
    forall i | 0 <= i < |blocks| && i * CHUNK < |bytes| && blocks[i] == 0
      ensures RepeatsLast(blocks, bytes, i)
    {
      ChunkCount(|bytes|, i);
      hide Needed, Chunks;
      assert last == i;
    }
  }

  /** fs_write and fs_write_binary, in every state: the file reads back as the bytes stored if and only if
      all chunks that end up with the same block number agree.  The block list is the inode's, with every
      missing block below the length replaced by the one fresh number. */
  lemma StoreReadsBackExactly(s: Fs, id: nat, bytes: seq<byte>, clearWhenEmpty: bool)
    requires Inv(s) && BlockNumbersLeft(s.nodes) && 1 <= id <= |s.nodes| && |bytes| <= MAX_SIZE
    requires BlocksOnDisk(s.data, s.nodes[id - 1].blocks, |bytes|, FreshBlock(s.nodes))
    ensures Content(Store(s, id, bytes, clearWhenEmpty), id) == bytes <==>
              SharedChunksAgree(Grown(s.nodes[id - 1].blocks, Needed(|bytes|), FreshBlock(s.nodes)), bytes)
  {
    var n := s.nodes[id - 1];
    var g := Grown(n.blocks, Needed(|bytes|), FreshBlock(s.nodes));
    forall i | 0 <= i < |g| && i < Chunks(|bytes|)
      ensures InDisk(s.data, g[i])
    {
      ChunkCount(|bytes|, i);
    }
    hide HighWater, Inv, SharedChunksAgree, BlocksOnDisk, Chunks;
    WrittenReadsBack(s.data, g, bytes);
    var t := Store(s, id, bytes, clearWhenEmpty);
    assert NodeAt(t.nodes, id).blocks == g && NodeAt(t.nodes, id).size == |bytes|;
    if bytes == [] {
      ReadsNothing(t.data, g);
      ReadsNothing(WriteChunks(s.data, g, bytes, 0), g);
    }
  }

  lemma ReadsNothing(data: seq<Sector>, blocks: seq<u32>)
    ensures ReadChunks(data, blocks, 0, 0) == []
  {
  }

  /** For a file whose block numbers are distinct: exactly when the chunks that need new blocks repeat the
      last of them, in particular whenever at most one block is missing. */
  lemma UnaliasedReadsBackExactly(s: Fs, id: nat, bytes: seq<byte>, clearWhenEmpty: bool)
    requires Inv(s) && BlockNumbersLeft(s.nodes) && 1 <= id <= |s.nodes| && |bytes| <= MAX_SIZE
    requires Live(s.nodes[id - 1]) && NoAlias(s.nodes[id - 1].blocks)
    requires BlocksOnDisk(s.data, s.nodes[id - 1].blocks, |bytes|, FreshBlock(s.nodes))
    ensures Content(Store(s, id, bytes, clearWhenEmpty), id) == bytes <==>
            NewChunksRepeat(s.nodes[id - 1].blocks, bytes)
  {
    var n := s.nodes[id - 1];
    forall b | 0 <= b < |n.blocks|
      ensures n.blocks[b] != FreshBlock(s.nodes)
    {
    }
    hide HighWater, Inv, SharedChunksAgree, NewChunksRepeat, BlocksOnDisk, NoAlias, Content, Store, Grown, Needed;
    StoreReadsBackExactly(s, id, bytes, clearWhenEmpty);
    UnaliasedShares(n.blocks, FreshBlock(s.nodes), bytes);
  }

  // ---- the disk after a write ------------------------------------------------------------------------

  /** A block is taken for every started 511 bytes, and one at least. */
  lemma NeededMeans(length: nat, b: nat)
    ensures b < Needed(length) <==> b == 0 || 511 * b < length
  {
  }

  /** Byte k of a stored chunk. */
  lemma PaddedByte(bytes: seq<byte>, i: nat, k: nat)
    requires 511 * i <= |bytes| && k < 512
    ensures Padded(ChunkAt(bytes, i))[k] == if k < 511 && 511 * i + k < |bytes| then bytes[511 * i + k] else 0
  {
  }

  /** Every byte of the disk after a write: block i of the file, unless a later block has the same number, holds bytes
      511 * i to 511 * i + 510 and zeros after them, an empty binary file has a cleared first block, and all other
      sectors are as they were.  Missing blocks have been filled in with the one new number. */
  lemma StoreOnDisk(s: Fs, id: nat, bytes: seq<byte>, clearWhenEmpty: bool, lba: nat, i: nat, k: nat)
    requires Shaped(s) && BlockNumbersLeft(s.nodes) && 1 <= id <= |s.nodes| && |bytes| <= 2044
    requires InDisk(s.data, lba) && i < 4 && k < 512
    ensures var t, was := Store(s, id, bytes, clearWhenEmpty), s.nodes[id - 1].blocks;
            var g := t.nodes[id - 1].blocks;
            && g[i] == (if was[i] == 0 && (i == 0 || 511 * i < |bytes|) then HighWater(s.nodes) + 1 else was[i])
            && (511 * i < |bytes| && g[i] == lba && (forall j :: i < j < 4 && 511 * j < |bytes| ==> g[j] != lba) ==>
                  ReadSector(t.data, lba)[k] == if k < 511 && 511 * i + k < |bytes| then bytes[511 * i + k] else 0)
            && (bytes == [] && clearWhenEmpty && g[0] == lba ==> ReadSector(t.data, lba)[k] == 0)
            && ((forall j :: 0 <= j < 4 && 511 * j < |bytes| ==> g[j] != lba)
                && (bytes == [] && clearWhenEmpty ==> g[0] != lba) ==>
                  ReadSector(t.data, lba) == ReadSector(s.data, lba))
  {
    var g := Store(s, id, bytes, clearWhenEmpty).nodes[id - 1].blocks;
    NeededMeans(|bytes|, i);
    hide HighWater, Needed, WriteChunks, ReadSector, Shaped, Padded, WriteSector;
    if bytes == [] {
      ReadAfterWrite(s.data, g[0], Zeros(SECTOR_SIZE), lba);
      NothingStored(s.data, g, bytes);
    } else {
      if 511 * i < |bytes| && g[i] == lba && forall j :: i < j < 4 && 511 * j < |bytes| ==> g[j] != lba {
        ChunksBelow(|bytes|);
        SectorWritten(s.data, g, bytes, 0, i);
        PaddedByte(bytes, i, k);
      }
      if forall j :: 0 <= j < 4 && 511 * j < |bytes| ==> g[j] != lba {
        ChunksBelow(|bytes|);
        OtherSectorsKept(s.data, g, bytes, 0, lba);
      }
    }
  }

  lemma NothingStored(data: seq<Sector>, blocks: seq<u32>, bytes: seq<byte>)
    requires |blocks| == 4 && bytes == []
    ensures WriteChunks(data, blocks, bytes, 0) == data
  {
  }

  lemma ChunksBelow(length: nat)
    ensures forall j: nat :: j < Chunks(length) <==> 511 * j < length
  {
    forall j: nat
      ensures j < Chunks(length) <==> 511 * j < length
    {
      ChunkCount(length, j);
    }
  }

  // ---- other files -----------------------------------------------------------------------------------

  lemma {:induction false} SameSectorsSameRead(data: seq<Sector>, data': seq<Sector>, blocks: seq<u32>, total: nat,
                                               b: nat)
    requires forall i :: 0 <= i < |blocks| && blocks[i] != 0 ==>
             ReadSector(data', blocks[i]) == ReadSector(data, blocks[i])
    ensures ReadChunks(data', blocks, total, b) == ReadChunks(data, blocks, total, b)
    decreases |blocks| - b
  {
    if b < |blocks| && b * CHUNK < total && blocks[b] != 0 {
      SameSectorsSameRead(data, data', blocks, total, b + 1);
    }
  }

  /** With no condition on growth at all: a write to one file changes no other inode and no other content. */
  lemma StoreLeavesOthers(s: Fs, id: nat, bytes: seq<byte>, clearWhenEmpty: bool, other: nat)
    requires Inv(s) && BlockNumbersLeft(s.nodes) && 1 <= id <= |s.nodes| && |bytes| <= MAX_SIZE
    requires Live(s.nodes[id - 1]) && 1 <= other <= |s.nodes| && other != id && Live(s.nodes[other - 1])
    ensures NodeAt(Store(s, id, bytes, clearWhenEmpty).nodes, other) == NodeAt(s.nodes, other)
    ensures Content(Store(s, id, bytes, clearWhenEmpty), other) == Content(s, other)
  {
    var n, o := s.nodes[id - 1], s.nodes[other - 1];
    var spare := FreshBlock(s.nodes);
    var g := Grown(n.blocks, Needed(|bytes|), spare);
    var t := Store(s, id, bytes, clearWhenEmpty);
    assert Apart(o, n);
    forall i | 0 <= i < |o.blocks| && o.blocks[i] != 0
      ensures ReadSector(t.data, o.blocks[i]) == ReadSector(s.data, o.blocks[i])
    {
      forall b | 0 <= b < |g|
        ensures g[b] != o.blocks[i]
      {
      }
      OtherSectorsKept(s.data, g, bytes, 0, o.blocks[i]);
      ReadAfterWrite(s.data, g[0], Zeros(SECTOR_SIZE), o.blocks[i]);
    }
    hide Inv, HighWater, Grown, Needed, WriteChunks, ReadChunks;
    SameSectorsSameRead(s.data, t.data, o.blocks, o.size, 0);
  }

  /** A live file's content is as long as its size says. */
  lemma ContentLength(s: Fs, id: nat)
    requires Inv(s) && 1 <= id <= |s.nodes| && Live(s.nodes[id - 1]) && s.nodes[id - 1].isDirectory == 0
    ensures |Content(s, id)| == s.nodes[id - 1].size <= MAX_SIZE
  {
    var n := s.nodes[id - 1];
    assert NodeSane(n);
    forall i | 0 <= i < |n.blocks| && i < Chunks(n.size)
      ensures n.blocks[i] != 0
    {
      ChunkCount(n.size, i);
    }
    ReadLength(s.data, n.blocks, n.size, 0);
  }

  /** fs_append when `extra` of the new bytes fit: nothing to do, or the old content and those bytes written back. */
  lemma AppendIsRewrite(s: Fs, name: seq<byte>, text: seq<byte>, id: nat, extra: nat)
    requires Shaped(s) && BlockNumbersLeft(s.nodes) && id == Lookup(s.nodes, name, s.cwd)
    requires id != 0 && s.nodes[id - 1].isDirectory == 0
    requires s.nodes[id - 1].size + extra == Min(s.nodes[id - 1].size + |text|, MAX_SIZE)
    ensures Append(s, name, text) ==
              if extra == 0 then (s, 0) else WriteBinary(s, name, Content(s, id) + text[..extra])
  {
    hide WriteBinary, HighWater, ReadChunks, Shaped, Lookup, NodeAt;
  }

  lemma AppendFails(s: Fs, name: seq<byte>, text: seq<byte>, id: nat)
    requires Shaped(s) && BlockNumbersLeft(s.nodes) && id == Lookup(s.nodes, name, s.cwd)
    ensures id == 0 ==> Append(s, name, text) == (s, -1)
    ensures id != 0 && s.nodes[id - 1].isDirectory != 0 ==> Append(s, name, text) == (s, -2)
  {
    hide WriteBinary, HighWater, ReadChunks, Shaped, Lookup, NodeAt;
  }
}
