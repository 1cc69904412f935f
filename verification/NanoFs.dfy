/** src/fs/fs.c on a disk of 512-byte sectors, updated in place. */
module NanoFsDisk {
  import opened LittleEndian
  import opened FsBytes
  import opened FsSpec
  import opened FsInvariants
  import opened FsTree
  import opened FsContents

  function NodesOf(d: Disk): (nodes: seq<Inode>)
    requires FS_DATA_START <= |d|
    ensures |nodes| == FS_MAX_INODES
  {
    seq(FS_MAX_INODES, i requires 0 <= i < FS_MAX_INODES => StoredInode(d, i + 1))
  }

  /** The state a disk and a current directory stand for. */
  function StateOf(d: Disk, cwd: nat): Fs
    requires FS_DATA_START <= |d|
  {
    Fs(NodesOf(d), d[FS_DATA_START..], cwd)
  }

  /** Writing one packed inode back is replacing that inode. */
  lemma InodeWritten(d: Disk, cwd: nat, id: nat, n: Inode)
    requires FS_DATA_START <= |d| && 1 <= id <= FS_MAX_INODES
    ensures StateOf(WithInode(d, id, n), cwd) == PutNode(StateOf(d, cwd), id, n)
  {
    hide StoredInode, WithInode, Encode, Decode;
    forall i | 0 <= i < FS_MAX_INODES
      ensures NodesOf(WithInode(d, id, n))[i] == PutNode(StateOf(d, cwd), id, n).nodes[i]
    {
      InodeOfWithInode(d, id, n, i + 1);
    }
    DataOfWithInode(d, id, n);
  }

  /** Writing a data sector leaves the inode table alone; writing past the end of the disk does nothing. */
  lemma DataWritten(d: Disk, cwd: nat, lba: nat, sector: Sector)
    requires FS_DATA_START <= lba && FS_DATA_START <= |d|
    ensures StateOf(if lba < |d| then d[lba := sector] else d, cwd) ==
              StateOf(d, cwd).(data := WriteSector(StateOf(d, cwd).data, lba, sector))
  {
    if lba < |d| {
      var e := d[lba := sector];
      forall i | 0 <= i < FS_MAX_INODES
        ensures NodesOf(e)[i] == NodesOf(d)[i]
      {
      }
      assert e[FS_DATA_START..] == d[FS_DATA_START..][lba - FS_DATA_START := sector];
    }
  }

  lemma {:induction false} HighWaterOfConcat(a: seq<Inode>, b: seq<Inode>)
    ensures HighWater(a + b) == Max(HighWater(a), HighWater(b))
  {
    if a == [] {
      assert a + b == b;
    } else {
      assert (a + b)[1..] == a[1..] + b;
      hide MaxBlock;
      HighWaterOfConcat(a[1..], b);
    }
  }

  /** The running maximum of block_alloc, one inode further. */
  lemma HighWaterStep(nodes: seq<Inode>, k: nat)
    requires k < |nodes|
    ensures HighWater(nodes[..k + 1]) ==
              if Live(nodes[k]) then Max(HighWater(nodes[..k]), MaxBlock(nodes[k].blocks)) else HighWater(nodes[..k])
  {
    assert nodes[..k + 1] == nodes[..k] + [nodes[k]];
    HighWaterOfConcat(nodes[..k], [nodes[k]]);
    assert [nodes[k]][1..] == [];
  }

  lemma {:induction false} MaxBlockOfConcat(a: seq<u32>, x: u32)
    ensures MaxBlock(a + [x]) == Max(MaxBlock(a), x)
  {
    if a == [] {
      assert a + [x] == [x] && [x][1..] == [];
    } else {
      assert (a + [x])[1..] == a[1..] + [x];
      MaxBlockOfConcat(a[1..], x);
    }
  }

  /** How far fs_write_binary has stored the bytes before block b; an empty file still gets one zeroed sector. */
  predicate StoredUpTo(was: seq<Sector>, now: seq<Sector>, blocks: seq<u32>, bytes: seq<byte>, b: nat)
    requires 0 < |blocks| && |bytes| <= |blocks| * CHUNK
  {
    if bytes == [] then now == if b == 0 then was else StoredData(was, blocks, bytes, true)
    else WriteChunks(now, blocks, bytes, b) == WriteChunks(was, blocks, bytes, 0)
  }

  lemma StoresStart(data: seq<Sector>, blocks: seq<u32>, bytes: seq<byte>)
    requires 0 < |blocks| && |bytes| <= |blocks| * CHUNK
    ensures StoredUpTo(data, data, blocks, bytes, 0)
  {
  }

  lemma StoresOn(was: seq<Sector>, now: seq<Sector>, blocks: seq<u32>, bytes: seq<byte>, b: nat)
    requires b < |blocks| && |bytes| <= |blocks| * CHUNK && (b * CHUNK < |bytes| || b == 0)
    requires StoredUpTo(was, now, blocks, bytes, b)
    ensures var chunk := bytes[b * CHUNK..b * CHUNK + Min(CHUNK, |bytes| - b * CHUNK)];
            StoredUpTo(was, WriteSector(now, blocks[b], Padded(chunk)), blocks, bytes, b + 1)
  {
    if bytes == [] {
      assert Padded(bytes[..0]) == Zeros(SECTOR_SIZE);
    } else {
      NextChunk(now, blocks, bytes, b);
      hide WriteChunks, Padded, WriteSector;
    }
  }

  lemma StoresEnd(was: seq<Sector>, now: seq<Sector>, blocks: seq<u32>, bytes: seq<byte>, b: nat)
    requires 0 < |blocks| && |bytes| <= |blocks| * CHUNK && 0 < b && |bytes| <= b * CHUNK
    requires StoredUpTo(was, now, blocks, bytes, b)
    ensures now == StoredData(was, blocks, bytes, true)
  {
    NothingToWrite(now, blocks, bytes, b);
    hide WriteChunks;
  }

  lemma NeededForAll(size: nat)
    ensures size <= Needed(size) * CHUNK && 0 < Needed(size)
  {
  }

  lemma InDataAt(blocks: seq<u32>, needed: nat, b: nat)
    requires AllInData(blocks, needed) && b < needed <= |blocks|
    ensures FS_DATA_START <= blocks[b]
  {
  }

  lemma NothingToWrite(data: seq<Sector>, blocks: seq<u32>, bytes: seq<byte>, b: nat)
    requires |bytes| <= |blocks| * CHUNK
    ensures |bytes| <= b * CHUNK ==> WriteChunks(data, blocks, bytes, b) == data
  {
  }

  lemma NextChunk(data: seq<Sector>, blocks: seq<u32>, bytes: seq<byte>, b: nat)
    requires |bytes| <= |blocks| * CHUNK
    ensures b * CHUNK < |bytes| ==>
              WriteChunks(WriteSector(data, blocks[b], Padded(ChunkAt(bytes, b))), blocks, bytes, b + 1) ==
                WriteChunks(data, blocks, bytes, b)
  {
  }

  class NanoFs {
    const disk: array<Sector>
    var currentDir: nat
    var mountedTotalSectors: nat

    ghost function Model(): Fs
      reads this, disk
      requires FS_DATA_START <= disk.Length
    {
      StateOf(disk[..], currentDir)
    }

    ghost predicate Valid()
      reads this, disk
    {
      FS_DATA_START <= disk.Length && Inv(Model())
    }

    constructor (sectors: nat)
      requires FS_DATA_START <= sectors
      ensures fresh(disk) && disk.Length == sectors
    {
      disk := new Sector[sectors](_ => Zeros(SECTOR_SIZE));
      currentDir, mountedTotalSectors := 0, 131072;
    }

    /** A reliable disk; past its end the original leaves the caller's buffer as it was. */
    method AtaReadSector(lba: nat) returns (buffer: Sector)
      requires FS_DATA_START <= disk.Length
      ensures lba < disk.Length ==> buffer == disk[lba]
      ensures FS_DATA_START <= lba ==> buffer == ReadSector(Model().data, lba)
    {
      if lba < disk.Length {
        return disk[lba];
      }
      return Zeros(SECTOR_SIZE);
    }

    method AtaWriteSector(lba: nat, buffer: Sector)
      requires FS_DATA_START <= disk.Length
      modifies disk
      ensures disk[..] == if lba < disk.Length then old(disk[..])[lba := buffer] else old(disk[..])
    {
      if lba < disk.Length {
        disk[lba] := buffer;
      }
    }

    method InodeRead(id: nat) returns (n: Inode)
      requires FS_DATA_START <= disk.Length
      ensures n == NodeAt(Model().nodes, id)
    {
      if id == 0 || id > FS_MAX_INODES {
        return NO_INODE;
      }
      var index := id - 1;
      var sector := FS_INODE_TABLE_START + index / INODES_PER_SECTOR;
      var slot := index % INODES_PER_SECTOR;
      var buffer := AtaReadSector(sector);
      return Decode(SlotBytes(buffer, slot));
    }

    method InodeWrite(id: nat, n: Inode)
      requires FS_DATA_START <= disk.Length
      modifies disk
      ensures disk[0] == old(disk[0])
      ensures id == 0 || id > FS_MAX_INODES ==> disk[..] == old(disk[..])
      ensures 1 <= id <= FS_MAX_INODES ==>
                Model() == PutNode(old(Model()), id, n) && disk[..] == WithInode(old(disk[..]), id, n)
    {
      if id == 0 || id > FS_MAX_INODES {
        return;
      }
      var index := id - 1;
      var sector := FS_INODE_TABLE_START + index / INODES_PER_SECTOR;
      var slot := index % INODES_PER_SECTOR;
      var buffer := AtaReadSector(sector);
      buffer := WithSlot(buffer, slot, Encode(n));
      InodeWritten(disk[..], currentDir, id, n);
      hide StateOf, Encode, WithSlot;
      AtaWriteSector(sector, buffer);
      assert disk[..] == WithInode(old(disk[..]), id, n);
    }

    method InodeAlloc() returns (id: nat)
      requires FS_DATA_START <= disk.Length
      ensures id == FreeInode(Model().nodes)
    {
      id := 1;
      while id <= FS_MAX_INODES
        invariant 1 <= id <= FS_MAX_INODES + 1
        invariant FreeFrom(Model().nodes, id) == FreeInode(Model().nodes)
      {
        var node := InodeRead(id);
        if node.name[0] == 0 {
          return;
        }
        id := id + 1;
      }
      return 0;
    }

    method BlockAlloc() returns (block: u32)
      requires FS_DATA_START <= disk.Length && BlockNumbersLeft(Model().nodes)
      ensures block == FreshBlock(Model().nodes)
    {
      ghost var nodes := Model().nodes;
      var highest := FS_DATA_START - 1;
      var id := 1;
      while id <= FS_MAX_INODES
        invariant 1 <= id <= FS_MAX_INODES + 1 && highest == HighWater(nodes[..id - 1])
      {
        var node := InodeRead(id);
        HighWaterStep(nodes, id - 1);
        if node.name[0] != 0 {
          highest := Highest(node.blocks, highest);
        }
        id := id + 1;
      }
      assert nodes[..FS_MAX_INODES] == nodes;
      return highest + 1;
    }

    /** The inner loop of block_alloc. */
    method Highest(blocks: seq<u32>, start: nat) returns (highest: nat)
      requires |blocks| == FS_MAX_BLOCKS
      ensures highest == Max(start, MaxBlock(blocks))
    {
      highest := start;
      var b := 0;
      while b < FS_MAX_BLOCKS
        invariant 0 <= b <= FS_MAX_BLOCKS && highest == Max(start, MaxBlock(blocks[..b]))
      {
        assert blocks[..b + 1] == blocks[..b] + [blocks[b]];
        MaxBlockOfConcat(blocks[..b], blocks[b]);
        if blocks[b] > highest {
          highest := blocks[b];
        }
        b := b + 1;
      }
      assert blocks[..FS_MAX_BLOCKS] == blocks;
    }

    method LookupName(name: seq<byte>, parent: nat) returns (id: nat)
      requires FS_DATA_START <= disk.Length
      ensures id == Lookup(Model().nodes, name, parent)
    {
      id := 1;
      while id <= FS_MAX_INODES
        invariant 1 <= id <= FS_MAX_INODES + 1
        invariant LookupFrom(Model().nodes, name, parent, id) == Lookup(Model().nodes, name, parent)
      {
        var node := InodeRead(id);
        if node.name[0] != 0 && node.parent == parent && CString(node.name) == name {
          return;
        }
        id := id + 1;
      }
      return 0;
    }

    // ---- the calls ----------------------------------------------------------------------------------

    method FsFormat()
      requires FS_DATA_START <= disk.Length
      modifies this, disk
      ensures Model() == Formatted(old(disk[FS_DATA_START..])) && mountedTotalSectors == 131072
      ensures Mountable(disk[0]) && Word32(disk[0], 12) == 131072 && Word32(disk[0], 16) == 0
      ensures Valid()
    {
      SuperBlockBytes();
      hide SuperBlock;
      AtaWriteSector(0, SuperBlock());
      var i := 0;
      while i < FS_INODE_TABLE_SECTORS
        invariant 0 <= i <= FS_INODE_TABLE_SECTORS
        invariant disk[0] == SuperBlock()
        invariant disk[FS_DATA_START..] == old(disk[FS_DATA_START..])
        invariant forall k :: FS_INODE_TABLE_START <= k < FS_INODE_TABLE_START + i ==> disk[k] == Zeros(SECTOR_SIZE)
      {
        AtaWriteSector(FS_INODE_TABLE_START + i, Zeros(SECTOR_SIZE));
        i := i + 1;
      }
      currentDir := 0;
      mountedTotalSectors := 131072;
      EmptyTable(disk[..]);
      FormattedInv(Model().data);
    }

    /** fs_mount, on a disk that can be read. */
    method FsMount() returns (r: int)
      requires FS_DATA_START <= disk.Length
      modifies this`currentDir, this`mountedTotalSectors
      ensures r == if Mountable(disk[0]) then 1 else 0
      ensures r == 1 ==> Model() == old(Model()).(cwd := 0) && mountedTotalSectors == Word32(disk[0], 12)
      ensures r == 0 ==> Model() == old(Model()) && mountedTotalSectors == old(mountedTotalSectors)
      ensures old(Valid()) ==> Valid()
    {
      var sector := AtaReadSector(0);
      MountsExactly(sector);
      Word32Is(sector, 12);
      hide NodesOf, CString, Mountable, FromLe32;
      if CString(sector) != FS_MAGIC {
        return 0;
      }
      if FromLe32(sector[8..12]) != FS_VERSION {
        return 0;
      }
      currentDir := 0;
      mountedTotalSectors := FromLe32(sector[12..16]);
      return 1;
    }

    method FsCreate(name: seq<byte>) returns (r: int)
      requires Valid() && BlockNumbersLeft(Model().nodes)
      modifies disk
      ensures disk[0] == old(disk[0])
      ensures Valid() && (Model(), r) == Create(old(Model()), name)
    {
      CreateKeepsInv(Model(), name);
      FreeInodeBound(Model());
      CreateCases(Model(), name);
      hide Inv, StateOf, HighWater, Lookup, FreeInode, StoredName, Shaped, Create, NodeAt, NodesOf, PutNode;
      hide WithInode, Encode, Live, FreshBlock;
      var existing := LookupName(name, currentDir);
      if existing != 0 {
        return -1;
      }
      var id := InodeAlloc();
      if id == 0 {
        return -2;
      }
      var block := BlockAlloc();
      assert Model() == old(Model()) && disk[0] == old(disk[0]);
      InodeWrite(id, Inode(StoredName(name), currentDir, [block, 0, 0, 0], 0, 0, 0));
      return 0;
    }

    method FsMkdir(name: seq<byte>) returns (r: int)
      requires Valid()
      modifies disk
      ensures disk[0] == old(disk[0])
      ensures Valid() && (Model(), r) == Mkdir(old(Model()), name)
    {
      MkdirKeepsInv(Model(), name);
      hide Inv, StateOf, Lookup, FreeInode, StoredName, Shaped;
      var existing := LookupName(name, currentDir);
      if existing != 0 {
        return -1;
      }
      var id := InodeAlloc();
      if id == 0 {
        return -2;
      }
      FreeInodeBound(Model());
      InodeWrite(id, Inode(StoredName(name), currentDir, [0, 0, 0, 0], 0, 1, 0));
      return 0;
    }

    method FsDelete(name: seq<byte>) returns (r: int)
      requires Valid()
      modifies disk
      ensures disk[0] == old(disk[0])
      ensures Valid() && (Model(), r) == Delete(old(Model()), name)
    {
      DeleteKeepsInv(Model(), name);
      LookupBound(Model(), name);
      hide Inv, StateOf, Lookup, Shaped;
      var id := LookupName(name, currentDir);
      if id == 0 {
        return -1;
      }
      InodeWrite(id, NO_INODE);
      return 0;
    }

    method FsRename(oldName: seq<byte>, newName: seq<byte>) returns (r: int)
      requires Valid()
      modifies disk
      ensures disk[0] == old(disk[0])
      ensures Valid() && (Model(), r) == Rename(old(Model()), oldName, newName)
    {
      RenameKeepsInv(Model(), oldName, newName);
      LookupBound(Model(), oldName);
      hide Inv, StateOf, Lookup, StoredName, Shaped;
      var id := LookupName(oldName, currentDir);
      if id == 0 {
        return -1;
      }
      var taken := LookupName(newName, currentDir);
      if taken != 0 {
        return -2;
      }
      var node := InodeRead(id);
      InodeWrite(id, node.(name := StoredName(newName)));
      return 0;
    }

    method FsChangeDir(name: seq<byte>) returns (r: int)
      requires Valid()
      modifies this`currentDir
      ensures Valid() && (Model(), r) == ChangeDir(old(Model()), name)
    {
      ChangeDirKeepsInv(Model(), name);
      LookupBound(Model(), name);
      hide Inv, Lookup, Shaped, NodesOf, StoredInode, LookupFrom;
      if name == [SLASH] {
        currentDir := 0;
        return 0;
      }
      if name == [DOT, DOT] {
        if currentDir != 0 {
          var node := InodeRead(currentDir);
          currentDir := node.parent;
        }
        return 0;
      }
      if name == [DOT] {
        return 0;
      }
      var id := LookupName(name, currentDir);
      if id == 0 {
        return -1;
      }
      var node := InodeRead(id);
      if node.isDirectory == 0 {
        return -2;
      }
      currentDir := id;
      return 0;
    }

    method BlocksNeeded(length: nat) returns (needed: nat)
      ensures needed == Needed(length)
    {
      needed := (length + 510) / 511;
      if needed < 1 {
        needed := 1;
      }
    }

    /** The growth loop of both writers.  block_alloc scans the table on disk each time, so every missing
        block of one call gets the same number. */
    method GrowBlocks(node: Inode, needed: nat) returns (blocks: seq<u32>)
      requires FS_DATA_START <= disk.Length && BlockNumbersLeft(Model().nodes) && needed <= FS_MAX_BLOCKS
      ensures blocks == Grown(node.blocks, needed, FreshBlock(Model().nodes))
    {
      hide StateOf, HighWater;
      blocks := node.blocks;
      assert blocks == Grown(node.blocks, 0, FreshBlock(Model().nodes));
      var b := 0;
      while b < needed
        invariant 0 <= b <= needed && blocks == Grown(node.blocks, b, FreshBlock(Model().nodes))
      {
        if blocks[b] == 0 {
          var spare := BlockAlloc();
          blocks := blocks[b := spare];
        }
        b := b + 1;
      }
    }

    /** One pass of the chunk loop of both writers: a zeroed buffer, the chunk copied in, one sector written. */
    method WriteChunk(lba: nat, bytes: seq<byte>, written: nat, chunk: nat)
      requires FS_DATA_START <= disk.Length && FS_DATA_START <= lba && chunk <= CHUNK && written + chunk <= |bytes|
      modifies disk
      ensures disk[0] == old(disk[0])
      ensures Model() == old(Model()).(data := WriteSector(old(Model()).data, lba,
                                                           Padded(bytes[written..written + chunk])))
    {
      var buffer := new byte[SECTOR_SIZE](_ => 0);
      var j := 0;
      while j < chunk
        invariant 0 <= j <= chunk && buffer[..] == bytes[written..written + j] + Zeros(SECTOR_SIZE - j)
        invariant disk[..] == old(disk[..])
      {
        buffer[j] := bytes[written + j];
        j := j + 1;
      }
      assert buffer[..] == Padded(bytes[written..written + chunk]);
      hide StateOf, Padded;
      DataWritten(disk[..], currentDir, lba, buffer[..]);
      AtaWriteSector(lba, buffer[..]);
    }

    /** The chunk loop of fs_write. */
    method WriteText(blocks: seq<u32>, bytes: seq<byte>, needed: nat)
      requires FS_DATA_START <= disk.Length && |blocks| == FS_MAX_BLOCKS
      requires needed == Needed(|bytes|) <= FS_MAX_BLOCKS && AllInData(blocks, needed)
      modifies disk
      ensures disk[0] == old(disk[0])
      ensures Model() == old(Model()).(data := WriteChunks(old(Model()).data, blocks, bytes, 0))
    {
      hide StateOf, Padded, WriteChunks;
      var b, written := 0, 0;
      while b < needed && written < |bytes|
        invariant 0 <= b <= needed && written == Min(b * CHUNK, |bytes|)
        invariant disk[0] == old(disk[0])
        invariant Model() == old(Model()).(data := Model().data)
        invariant WriteChunks(Model().data, blocks, bytes, b) == WriteChunks(old(Model()).data, blocks, bytes, 0)
      {
        var chunk := |bytes| - written;
        if chunk > CHUNK {
          chunk := CHUNK;
        }
        NextChunk(Model().data, blocks, bytes, b);
        WriteChunk(blocks[b], bytes, written, chunk);
        written := written + chunk;
        b := b + 1;
      }
      NothingToWrite(Model().data, blocks, bytes, b);
    }

    /** The chunk loop of fs_write_binary: always at least one sector. */
    method WriteBytes(blocks: seq<u32>, bytes: seq<byte>, needed: nat)
      requires FS_DATA_START <= disk.Length && |blocks| == FS_MAX_BLOCKS
      requires needed == Needed(|bytes|) <= FS_MAX_BLOCKS && AllInData(blocks, needed)
      modifies disk
      ensures disk[0] == old(disk[0])
      ensures Model() == old(Model()).(data := StoredData(old(Model()).data, blocks, bytes, true))
    {
      NeededForAll(|bytes|);
      StoresStart(Model().data, blocks, bytes);
      hide StateOf, Padded, WriteSector, NodesOf, Needed, WriteChunks, StoredUpTo, StoredData, AllInData;
      var b, written := 0, 0;
      while b < needed
        invariant 0 <= b <= needed && written == b * CHUNK && (written < |bytes| || b == 0)
        invariant disk[0] == old(disk[0])
        invariant Model() == old(Model()).(data := Model().data)
        invariant StoredUpTo(old(Model()).data, Model().data, blocks, bytes, b)
      {
        var chunk := |bytes| - written;
        if chunk > CHUNK {
          chunk := CHUNK;
        }
        StoresOn(old(Model()).data, Model().data, blocks, bytes, b);
        InDataAt(blocks, needed, b);
        WriteChunk(blocks[b], bytes, written, chunk);
        written := written + chunk;
        b := b + 1;
        if written >= |bytes| {
          break;
        }
      }
      StoresEnd(old(Model()).data, Model().data, blocks, bytes, b);
    }

    method FsWrite(name: seq<byte>, text: seq<byte>) returns (r: int)
      requires Valid() && BlockNumbersLeft(Model().nodes)
      modifies disk
      ensures disk[0] == old(disk[0])
      ensures Valid() && (Model(), r) == Write(old(Model()), name, text)
    {
      WriteKeepsInv(Model(), name, text);
      LookupBound(Model(), name);
      hide Inv, StateOf, Lookup, Shaped, HighWater, WriteChunks, Grown, Live, Needed, AllInData, Write;
      var id := LookupName(name, currentDir);
      WriteCases(Model(), name, text, id);
      if id == 0 {
        return -1;
      }
      var node := InodeRead(id);
      if node.isDirectory != 0 {
        return -2;
      }
      var len := |text|;
      if len > MAX_SIZE {
        len := MAX_SIZE;
      }
      var needed := BlocksNeeded(len);
      StoreTargets(Model(), id, len);
      StoreText(Model(), id, text[..len]);
      hide Store, StoredData;
      var blocks := GrowBlocks(node, needed);
      WriteText(blocks, text[..len], needed);
      InodeWrite(id, node.(blocks := blocks, size := len));
      return 0;
    }

    method FsWriteBinary(name: seq<byte>, bytes: seq<byte>) returns (r: int)
      requires Valid() && BlockNumbersLeft(Model().nodes)
      modifies disk
      ensures disk[0] == old(disk[0])
      ensures Valid() && (Model(), r) == WriteBinary(old(Model()), name, bytes)
    {
      WriteBinaryKeepsInv(Model(), name, bytes);
      LookupBound(Model(), name);
      hide Inv, StateOf, Lookup, Shaped, HighWater, StoredData, Grown, Live, Needed, AllInData, WriteBinary;
      var id := LookupName(name, currentDir);
      WriteBinaryCases(Model(), name, bytes, id);
      if id == 0 {
        return -1;
      }
      var node := InodeRead(id);
      if node.isDirectory != 0 {
        return -2;
      }
      if |bytes| > MAX_SIZE {
        return -3;
      }
      var needed := BlocksNeeded(|bytes|);
      StoreTargets(Model(), id, |bytes|);
      var blocks := GrowBlocks(node, needed);
      WriteBytes(blocks, bytes, needed);
      InodeWrite(id, node.(blocks := blocks, size := |bytes|));
      return 0;
    }

    /** The block loop of fs_read and of fs_append. */
    method ReadBlocks(blocks: seq<u32>, total: nat, buffer: array<byte>) returns (pos: nat)
      requires FS_DATA_START <= disk.Length && |blocks| == FS_MAX_BLOCKS && total <= buffer.Length
      requires NoneBelowData(blocks)
      modifies buffer
      ensures pos <= total && buffer[..pos] == ReadChunks(Model().data, blocks, total, 0)
      ensures forall k :: pos <= k < buffer.Length ==> buffer[k] == old(buffer[k])
      ensures Model() == old(Model())
    {
      ghost var data, read := Model().data, [];
      ReadStarts(data, blocks, total);
      hide StateOf, ReadSector, ReadChunks, ReadUpTo;
      pos := 0;
      var b := 0;
      while b < FS_MAX_BLOCKS && pos < total
        invariant 0 <= b <= FS_MAX_BLOCKS && pos == Min(b * CHUNK, total)
        invariant ReadUpTo(read, data, blocks, total, b) && buffer[..pos] == read
        invariant Model() == old(Model()) && forall k :: pos <= k < buffer.Length ==> buffer[k] == old(buffer[k])
      {
        if blocks[b] == 0 {
          break;
        }
        var sector := AtaReadSector(blocks[b]);
        var chunk := total - pos;
        if chunk > CHUNK {
          chunk := CHUNK;
        }
        ReadsOn(read, data, blocks, total, b);
        CopyChunk(sector, chunk, buffer, pos);
        read := read + sector[..chunk];
        pos := pos + chunk;
        b := b + 1;
      }
      ReadEnds(read, data, blocks, total, b);
    }

    /** The byte loop inside both. */
    method CopyChunk(sector: Sector, chunk: nat, buffer: array<byte>, pos: nat)
      requires chunk <= CHUNK && pos + chunk <= buffer.Length
      modifies buffer
      ensures buffer[..pos + chunk] == old(buffer[..pos]) + sector[..chunk]
      ensures forall k :: pos + chunk <= k < buffer.Length ==> buffer[k] == old(buffer[k])
    {
      var j := 0;
      while j < chunk
        invariant 0 <= j <= chunk && buffer[..pos + j] == old(buffer[..pos]) + sector[..j]
        invariant forall k :: pos + j <= k < buffer.Length ==> buffer[k] == old(buffer[k])
      {
        buffer[pos + j] := sector[j];
        j := j + 1;
      }
    }

    method FsRead(name: seq<byte>, buffer: array<byte>, bufSize: nat) returns (r: int)
      requires Valid() && bufSize <= buffer.Length
      modifies buffer
      ensures Valid() && Model() == old(Model()) && r <= bufSize
      ensures (r, if r > 0 then buffer[..r] else []) == Read(old(Model()), name, bufSize)
      ensures forall k :: 0 <= k < buffer.Length && r <= k ==> buffer[k] == old(buffer[k])
    {
      LookupBound(Model(), name);
      hide Inv, StateOf, Lookup, Shaped, ReadChunks, Live, NoneBelowData, NodeAt, NodesOf, Read;
      var id := LookupName(name, currentDir);
      ReadCases(Model(), name, bufSize, id);
      if id == 0 {
        return -1;
      }
      var node := InodeRead(id);
      if node.isDirectory != 0 {
        return -2;
      }
      var toRead := node.size;
      if toRead > bufSize {
        toRead := bufSize;
      }
      BlocksInData(Model(), id);
      var pos := ReadBlocks(node.blocks, toRead, buffer);
      return pos;
    }

    /** The scratch buffer of fs_append: the old content, then the new bytes. */
    method OldAndNew(id: nat, node: Inode, text: seq<byte>, extra: nat) returns (scratch: array<byte>)
      requires FS_DATA_START <= disk.Length && node == NodeAt(Model().nodes, id) && NoneBelowData(node.blocks)
      requires extra <= |text| && node.size + extra <= MAX_SIZE && |Content(Model(), id)| == node.size
      ensures fresh(scratch) && scratch.Length >= node.size + extra
      ensures scratch[..node.size + extra] == Content(Model(), id) + text[..extra]
    {
      hide StateOf, ReadChunks, NodeAt;
      scratch := new byte[FS_MAX_BLOCKS * SECTOR_SIZE](_ => 0);
      var pos := ReadBlocks(node.blocks, node.size, scratch);
      CopyText(text, extra, scratch, node.size);
    }

    method FsAppend(name: seq<byte>, text: seq<byte>) returns (r: int)
      requires Valid() && BlockNumbersLeft(Model().nodes)
      modifies disk
      ensures disk[0] == old(disk[0])
      ensures Valid() && (Model(), r) == Append(old(Model()), name, text)
    {
      AppendKeepsInv(Model(), name, text);
      LookupBound(Model(), name);
      hide Inv, StateOf, Lookup, Shaped, ReadChunks, HighWater, WriteBinary, NoneBelowData, NodeAt, Append, Live;
      hide Content;
      var id := LookupName(name, currentDir);
      AppendFails(Model(), name, text, id);
      if id == 0 {
        return -1;
      }
      var node := InodeRead(id);
      if node.isDirectory != 0 {
        return -2;
      }
      BlocksInData(Model(), id);
      ContentLength(Model(), id);
      var newSize := node.size + |text|;
      if newSize > MAX_SIZE {
        newSize := MAX_SIZE;
      }
      var extra := newSize - node.size;
      AppendIsRewrite(Model(), name, text, id, extra);
      if extra == 0 {
        return 0;
      }
      var scratch := OldAndNew(id, node, text, extra);
      assert disk[0] == old(disk[0]) && Model() == old(Model());
      r := FsWriteBinary(name, scratch[..newSize]);
    }

    /** The byte loop of fs_append. */
    method CopyText(text: seq<byte>, extra: nat, scratch: array<byte>, at: nat)
      requires extra <= |text| && at + extra <= scratch.Length
      modifies scratch
      ensures scratch[..at + extra] == old(scratch[..at]) + text[..extra]
    {
      var i := 0;
      while i < extra
        invariant 0 <= i <= extra && scratch[..at + i] == old(scratch[..at]) + text[..i]
      {
        scratch[at + i] := text[i];
        i := i + 1;
      }
    }

    /** fs_disk_stats: the end of the used part of the disk is one above the highest live block number. */
    method FsDiskStats() returns (usedSectors: nat, totalSectors: nat)
      requires FS_DATA_START <= disk.Length && BlockNumbersLeft(Model().nodes)
      ensures usedSectors == HighWater(Model().nodes) + 1 && totalSectors == mountedTotalSectors
    {
      ghost var nodes := Model().nodes;
      var used := FS_DATA_START;
      var id := 1;
      while id <= FS_MAX_INODES
        invariant 1 <= id <= FS_MAX_INODES + 1 && used == HighWater(nodes[..id - 1]) + 1
      {
        var node := InodeRead(id);
        HighWaterStep(nodes, id - 1);
        if node.name[0] != 0 {
          used := UsedUpTo(node.blocks, used);
        }
        id := id + 1;
      }
      assert nodes[..FS_MAX_INODES] == nodes;
      return used, mountedTotalSectors;
    }

    /** The inner loop of fs_disk_stats. */
    method UsedUpTo(blocks: seq<u32>, start: nat) returns (used: nat)
      requires |blocks| == FS_MAX_BLOCKS && start > 0
      ensures used == Max(start - 1, MaxBlock(blocks)) + 1
    {
      used := start;
      var b := 0;
      while b < FS_MAX_BLOCKS
        invariant 0 <= b <= FS_MAX_BLOCKS && used == Max(start - 1, MaxBlock(blocks[..b])) + 1
      {
        assert blocks[..b + 1] == blocks[..b] + [blocks[b]];
        MaxBlockOfConcat(blocks[..b], blocks[b]);
        var block: nat := blocks[b];
        if block >= used {
          used := block + 1;
        }
        b := b + 1;
      }
      assert blocks[..FS_MAX_BLOCKS] == blocks;
    }

    /** The byte loop of fs_get_pwd, and the slash before the name. */
    method PutBefore(name: seq<byte>, tmp: array<byte>, end: nat) returns (pos: nat)
      requires |name| < end <= tmp.Length
      modifies tmp
      ensures pos == end - |name| - 1 && tmp[pos..] == [SLASH] + name + old(tmp[end..])
    {
      ghost var tail := tmp[end..];
      pos := end;
      var i := |name|;
      while i > 0
        invariant 0 <= i <= |name| && pos == end - (|name| - i) && tmp[pos..] == name[i..] + tail
      {
        i := i - 1;
        pos := pos - 1;
        assert name[i..] + tail == [name[i]] + (name[i + 1..] + tail);
        tmp[pos] := name[i];
        assert tmp[pos..] == [name[i]] + tmp[pos + 1..];
      }
      assert name[0..] == name;
      pos := pos - 1;
      tmp[pos] := SLASH;
      assert tmp[pos..] == [SLASH] + tmp[pos + 1..];
      Regrouped([SLASH], name, tail);
    }

    /** fs_get_pwd: the path is built backwards in a 256-byte buffer that ends in a zero byte. */
    method FsGetPwd(ghost k: nat) returns (path: seq<byte>)
      requires FS_DATA_START <= disk.Length && Home(Model().nodes, currentDir, k)
      requires |Rendered(Components(Model().nodes, currentDir, k))| <= 255
      ensures path == if currentDir == 0 then [SLASH] else Rendered(Components(Model().nodes, currentDir, k))
    {
      hide NodesOf, CString, Components, Home, Rendered, NodeAt;
      if currentDir == 0 {
        return [SLASH];
      }
      ghost var nodes := Model().nodes;
      ghost var whole := Rendered(Components(nodes, currentDir, k));
      var tmp := new byte[256](_ => 0);
      var pos := 255;
      assert tmp[pos..] == [0];
      var dir := currentDir;
      ghost var left := k;
      while dir != 0
        invariant 0 <= pos <= 255 && nodes == Model().nodes && Home(nodes, dir, left)
        invariant Rendered(Components(nodes, dir, left)) + tmp[pos..] == whole + [0]
        decreases left
      {
        var node := InodeRead(dir);
        RenderedLast(nodes, dir, left);
        ghost var up := Rendered(Components(nodes, node.parent, left - 1));
        Regrouped(up, [SLASH] + CString(node.name), tmp[pos..]);
        assert |up + [SLASH] + CString(node.name)| + (256 - pos) == |whole| + 1;
        pos := PutBefore(CString(node.name), tmp, pos);
        dir := node.parent;
        left := left - 1;
      }
      RenderedRoot(nodes, left);
      assert tmp[pos..255] == (whole + [0])[..|whole|];
      return tmp[pos..255];
    }
  }

  const FS_MAGIC: seq<byte> := [78, 65, 78, 79, 70, 83, 50]
  const FS_VERSION: nat := 2

  function SuperBlock(): Sector {
    FS_MAGIC + [0] + Le32(FS_VERSION) + Le32(131072) + Le32(0) + Zeros(SECTOR_SIZE - 20)
  }

  /** The sector starts with the text NANOFS2, its zero byte, and the version. */
  predicate Mountable(s: Sector) {
    && s[0] == 'N' as int && s[1] == 'A' as int && s[2] == 'N' as int && s[3] == 'O' as int && s[4] == 'F' as int
    && s[5] == 'S' as int && s[6] == '2' as int && s[7] == 0
    && s[8] == 2 && s[9] == 0 && s[10] == 0 && s[11] == 0
  }

  lemma {:induction false} CStringIs(b: seq<byte>, t: seq<byte>)
    requires IsText(t) && |t| < |b|
    ensures CString(b) == t <==> b[..|t|] == t && b[|t|] == 0
    decreases |t|
  {
    if t != [] && b[0] != 0 {
      CStringIs(b[1..], t[1..]);
      assert t == [t[0]] + t[1..] && b[..|t|] == [b[0]] + b[1..][..|t| - 1];
    } else if t != [] {
      assert b[..|t|][0] == 0;
    }
  }

  lemma MountableIs(s: Sector)
    ensures Mountable(s) <==> s[..7] == FS_MAGIC && s[7] == 0 && Word32(s, 8) == 2
  {
    hide Word32;
    VersionBytes(s);
    MagicBytes(s);
  }

  lemma VersionBytes(s: Sector)
    ensures Word32(s, 8) == 2 <==> s[8] == 2 && s[9] == 0 && s[10] == 0 && s[11] == 0
  {
  }

  lemma MagicBytes(s: Sector)
    ensures s[..7] == FS_MAGIC <==>
              && s[0] == 'N' as int && s[1] == 'A' as int && s[2] == 'N' as int && s[3] == 'O' as int
              && s[4] == 'F' as int && s[5] == 'S' as int && s[6] == '2' as int
  {
    assert s[..7] == [s[0], s[1], s[2], s[3], s[4], s[5], s[6]];
  }

  /** The two comparisons of fs_mount. */
  lemma MountsExactly(s: Sector)
    ensures CString(s) == FS_MAGIC && FromLe32(s[8..12]) == FS_VERSION <==> Mountable(s)
  {
    hide CString, FromLe32, Word32, Mountable;
    CStringIs(s, FS_MAGIC);
    Word32Is(s, 8);
    MountableIs(s);
  }

  lemma SuperBlockFields()
    ensures var s := SuperBlock();
            && s[..7] == FS_MAGIC && s[7] == 0
            && s[8..12] == Le32(2) && s[12..16] == Le32(131072) && s[16..20] == Le32(0)
  {
    hide Le32;
  }

  /** fs_format leaves a sector that fs_mount accepts. */
  lemma SuperBlockBytes()
    ensures Mountable(SuperBlock()) && Word32(SuperBlock(), 12) == 131072 && Word32(SuperBlock(), 16) == 0
  {
    hide *;
    var s := SuperBlock();
    SuperBlockFields();
    SmallField(s, 8, 2);
    SmallField(s, 12, 131072);
    SmallField(s, 16, 0);
    MountableIs(s);
  }

  lemma SmallField(s: Sector, o: nat, v: u32)
    requires o + 4 <= 512 && s[o..o + 4] == Le32(v)
    ensures Word32(s, o) == v
  {
    hide *;
    Word32Is(s, o);
    Le32RoundTrip(v);
  }

  lemma EmptyTable(d: Disk)
    requires FS_DATA_START <= |d|
    requires forall k :: FS_INODE_TABLE_START <= k < FS_DATA_START ==> d[k] == Zeros(SECTOR_SIZE)
    ensures StateOf(d, 0) == Formatted(d[FS_DATA_START..])
  {
    ZeroInode();
    hide Decode;
    forall i | 0 <= i < FS_MAX_INODES
      ensures NodesOf(d)[i] == NO_INODE
    {
      assert d[SectorOf(i + 1)] == Zeros(SECTOR_SIZE);
      assert SlotBytes(Zeros(SECTOR_SIZE), SlotOf(i + 1)) == Zeros(INODE_SIZE);
      assert NodesOf(d)[i] == StoredInode(d, i + 1);
    }
  }

  lemma FormattedInv(data: seq<Sector>)
    ensures Inv(Formatted(data))
  {
    assert NodeSane(NO_INODE);
  }

  lemma FreeInodeBound(s: Fs)
    requires Inv(s)
    ensures FreeInode(s.nodes) <= FS_MAX_INODES && s.cwd <= FS_MAX_INODES
  {
  }

  /** The ways fs_write and fs_write_binary can go. */
  lemma WriteCases(s: Fs, name: seq<byte>, text: seq<byte>, id: nat)
    requires Shaped(s) && BlockNumbersLeft(s.nodes) && id == Lookup(s.nodes, name, s.cwd)
    ensures id == 0 ==> Write(s, name, text) == (s, -1)
    ensures id != 0 && s.nodes[id - 1].isDirectory != 0 ==> Write(s, name, text) == (s, -2)
    ensures id != 0 && s.nodes[id - 1].isDirectory == 0 ==>
              Write(s, name, text) == (Store(s, id, text[..Min(|text|, MAX_SIZE)], false), 0)
  {
    hide HighWater, Lookup, Shaped, Store;
  }

  lemma WriteBinaryCases(s: Fs, name: seq<byte>, bytes: seq<byte>, id: nat)
    requires Shaped(s) && BlockNumbersLeft(s.nodes) && id == Lookup(s.nodes, name, s.cwd)
    ensures id == 0 ==> WriteBinary(s, name, bytes) == (s, -1)
    ensures id != 0 && s.nodes[id - 1].isDirectory != 0 ==> WriteBinary(s, name, bytes) == (s, -2)
    ensures id != 0 && s.nodes[id - 1].isDirectory == 0 ==>
              WriteBinary(s, name, bytes) == if |bytes| > MAX_SIZE then (s, -3) else (Store(s, id, bytes, true), 0)
  {
    hide HighWater, Lookup, Shaped, Store;
  }

  lemma StoreText(s: Fs, id: nat, bytes: seq<byte>)
    requires Shaped(s) && BlockNumbersLeft(s.nodes) && 1 <= id <= |s.nodes| && |bytes| <= MAX_SIZE
    ensures var n := s.nodes[id - 1];
            var blocks := Grown(n.blocks, Needed(|bytes|), FreshBlock(s.nodes));
            Store(s, id, bytes, false)
            == PutNode(s, id, n.(blocks := blocks, size := |bytes|)).(data := WriteChunks(s.data, blocks, bytes, 0))
  {
    hide HighWater, WriteChunks, Grown, Shaped;
  }

  /** The ways fs_create can go. */
  lemma CreateCases(s: Fs, name: seq<byte>)
    requires Shaped(s) && BlockNumbersLeft(s.nodes)
    ensures Lookup(s.nodes, name, s.cwd) != 0 ==> Create(s, name) == (s, -1)
    ensures Lookup(s.nodes, name, s.cwd) == 0 && FreeInode(s.nodes) == 0 ==> Create(s, name) == (s, -2)
    ensures Lookup(s.nodes, name, s.cwd) == 0 && FreeInode(s.nodes) != 0 ==>
              Create(s, name) ==
                (PutNode(s, FreeInode(s.nodes),
                         Inode(StoredName(name), s.cwd, [FreshBlock(s.nodes), 0, 0, 0], 0, 0, 0)), 0)
  {
    hide HighWater, StoredName;
  }

  lemma LookupBound(s: Fs, name: seq<byte>)
    requires Inv(s)
    ensures Lookup(s.nodes, name, s.cwd) != 0 ==>
              NodeAt(s.nodes, Lookup(s.nodes, name, s.cwd)) == s.nodes[Lookup(s.nodes, name, s.cwd) - 1]
    ensures Shaped(s) && |s.nodes| == FS_MAX_INODES && Lookup(s.nodes, name, s.cwd) <= FS_MAX_INODES
    ensures Lookup(s.nodes, name, s.cwd) != 0 ==> Live(s.nodes[Lookup(s.nodes, name, s.cwd) - 1])
  {
  }

  predicate AllInData(blocks: seq<u32>, count: nat) {
    count <= |blocks| && forall b :: 0 <= b < count ==> FS_DATA_START <= blocks[b]
  }

  predicate NoneBelowData(blocks: seq<u32>) {
    forall b :: 0 <= b < |blocks| ==> blocks[b] == 0 || FS_DATA_START <= blocks[b]
  }

  /** Blocks a write to a live file goes to are all in the data area. */
  lemma StoreTargets(s: Fs, id: nat, length: nat)
    requires Inv(s) && BlockNumbersLeft(s.nodes) && 1 <= id <= |s.nodes| && length <= MAX_SIZE
    requires Live(s.nodes[id - 1])
    ensures Needed(length) <= FS_MAX_BLOCKS
    ensures AllInData(Grown(s.nodes[id - 1].blocks, Needed(length), FreshBlock(s.nodes)), Needed(length))
  {
    var blocks, spare := s.nodes[id - 1].blocks, FreshBlock(s.nodes);
    assert NodeSane(s.nodes[id - 1]);
    GrownCovers(blocks, length, spare);
    hide HighWater, Needed;
    forall b | 0 <= b < Needed(length)
      ensures FS_DATA_START <= Grown(blocks, Needed(length), spare)[b]
    {
      assert blocks[b] == 0 || FS_DATA_START <= blocks[b];
    }
  }

  /** What has been read before block b. */
  predicate ReadUpTo(read: seq<byte>, data: seq<Sector>, blocks: seq<u32>, total: nat, b: nat) {
    read + ReadChunks(data, blocks, total, b) == ReadChunks(data, blocks, total, 0)
  }

  lemma ReadStarts(data: seq<Sector>, blocks: seq<u32>, total: nat)
    ensures ReadUpTo([], data, blocks, total, 0)
  {
    hide ReadChunks;
  }

  /** One pass of the reading loop. */
  lemma ReadsOn(read: seq<byte>, data: seq<Sector>, blocks: seq<u32>, total: nat, b: nat)
    requires ReadUpTo(read, data, blocks, total, b) && b < |blocks| && b * CHUNK < total && blocks[b] != 0
    ensures ReadUpTo(read + ReadSector(data, blocks[b])[..Min(CHUNK, total - b * CHUNK)], data, blocks, total, b + 1)
  {
    var chunk := ReadSector(data, blocks[b])[..Min(CHUNK, total - b * CHUNK)];
    var rest := ReadChunks(data, blocks, total, b + 1);
    assert ReadChunks(data, blocks, total, b) == chunk + rest;
    hide ReadChunks, ReadSector;
    Regrouped(read, chunk, rest);
  }

  lemma ReadEnds(read: seq<byte>, data: seq<Sector>, blocks: seq<u32>, total: nat, b: nat)
    requires ReadUpTo(read, data, blocks, total, b) && (b >= |blocks| || b * CHUNK >= total || blocks[b] == 0)
    ensures read == ReadChunks(data, blocks, total, 0)
  {
    assert ReadChunks(data, blocks, total, b) == [];
    hide ReadChunks;
  }

  lemma Regrouped(a: seq<byte>, b: seq<byte>, c: seq<byte>)
    ensures (a + b) + c == a + (b + c)
  {
  }

  lemma BlocksInData(s: Fs, id: nat)
    requires Inv(s) && 1 <= id <= |s.nodes| && Live(s.nodes[id - 1])
    ensures NoneBelowData(s.nodes[id - 1].blocks)
  {
    assert NodeSane(s.nodes[id - 1]);
  }

  /** The ways fs_read can go. */
  lemma ReadCases(s: Fs, name: seq<byte>, bufSize: nat, id: nat)
    requires Shaped(s) && id == Lookup(s.nodes, name, s.cwd)
    ensures id == 0 ==> Read(s, name, bufSize) == (-1, [])
    ensures id != 0 && s.nodes[id - 1].isDirectory != 0 ==> Read(s, name, bufSize) == (-2, [])
    ensures id != 0 && s.nodes[id - 1].isDirectory == 0 ==>
              Read(s, name, bufSize) == Counted(ReadChunks(s.data, s.nodes[id - 1].blocks,
                                                           Min(s.nodes[id - 1].size, bufSize), 0))
  {
    hide ReadChunks, Shaped, Lookup;
  }

  function Counted(bytes: seq<byte>): (int, seq<byte>) {
    (|bytes|, bytes)
  }

  lemma RenderedRoot(nodes: seq<Inode>, k: nat)
    requires Home(nodes, 0, k)
    ensures Rendered(Components(nodes, 0, k)) == []
  {
  }

  lemma RenderedLast(nodes: seq<Inode>, id: nat, k: nat)
    requires Home(nodes, id, k) && id != 0
    ensures k > 0 && id <= |nodes| && Home(nodes, nodes[id - 1].parent, k - 1)
    ensures Rendered(Components(nodes, id, k)) ==
              Rendered(Components(nodes, nodes[id - 1].parent, k - 1)) + ([SLASH] + CString(nodes[id - 1].name))
    ensures NodeAt(nodes, id) == nodes[id - 1]
  {
    var up := Components(nodes, nodes[id - 1].parent, k - 1);
    var all := up + [NameOf(nodes[id - 1])];
    assert all[..|all| - 1] == up && Components(nodes, id, k) == all;
    Regrouped(Rendered(up), [SLASH], NameOf(nodes[id - 1]));
  }
}
