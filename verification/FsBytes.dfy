/** src/fs/fs.h: the packed on-disk inode, nine to a sector. */
module FsBytes {
  import opened LittleEndian

  const FS_MAX_INODES: nat := 72
  const FS_INODE_TABLE_START: nat := 1
  const FS_INODE_TABLE_SECTORS: nat := 8
  const FS_DATA_START: nat := 9
  const FS_MAX_BLOCKS: nat := 4
  const FS_NAME_MAX: nat := 28
  const SECTOR_SIZE: nat := 512
  const INODE_SIZE: nat := 54
  const INODES_PER_SECTOR: nat := 9

  datatype RawInode = Inode(name: seq<byte>, parent: u32, blocks: seq<u32>, size: u32, isDirectory: byte, pad: byte)

  type Inode = n: RawInode | |n.name| == FS_NAME_MAX && |n.blocks| == FS_MAX_BLOCKS
    witness Inode(Zeros(FS_NAME_MAX), 0, [0, 0, 0, 0], 0, 0, 0)

  const NO_INODE: Inode := Inode(Zeros(FS_NAME_MAX), 0, [0, 0, 0, 0], 0, 0, 0)

  type Sector = s: seq<byte> | |s| == SECTOR_SIZE witness Zeros(SECTOR_SIZE)

  // ---- little-endian words ---------------------------------------------------------------------------

  function Le32(v: u32): (b: seq<byte>)
    ensures |b| == 4
  {
    Le(v, 4)
  }

  function FromLe32(b: seq<byte>): u32
    requires |b| == 4
  {
    Pow256Values();
    FromLe(b)
  }

  lemma Le32RoundTrip(v: u32)
    ensures FromLe32(Le32(v)) == v
  {
    Pow256Values();
    LeRoundTrip(v, 4);
  }

  lemma FromLe32RoundTrip(b: seq<byte>)
    requires |b| == 4
    ensures Le32(FromLe32(b)) == b
  {
    FromLeRoundTrip(b);
  }

  // ---- packed inodes ---------------------------------------------------------------------------------

  function Encode(n: Inode): (b: seq<byte>)
    ensures |b| == INODE_SIZE
  {
    n.name + Le32(n.parent) + Le32(n.blocks[0]) + Le32(n.blocks[1]) + Le32(n.blocks[2]) + Le32(n.blocks[3])
    + Le32(n.size) + [n.isDirectory, n.pad]
  }

  function Decode(b: seq<byte>): Inode
    requires |b| == INODE_SIZE
  {
    Inode(b[..28], FromLe32(b[28..32]),
          [FromLe32(b[32..36]), FromLe32(b[36..40]), FromLe32(b[40..44]), FromLe32(b[44..48])],
          FromLe32(b[48..52]), b[52], b[53])
  }

  /** Writing an inode and reading it back gives the inode. */
  lemma InodeRoundTrip(n: Inode)
    ensures Decode(Encode(n)) == n
  {
    var b := Encode(n);
    assert b[..28] == n.name;
    assert b[28..32] == Le32(n.parent);
    assert b[32..36] == Le32(n.blocks[0]) && b[36..40] == Le32(n.blocks[1]);
    assert b[40..44] == Le32(n.blocks[2]) && b[44..48] == Le32(n.blocks[3]);
    assert b[48..52] == Le32(n.size);
    hide Le32, FromLe32;
    Le32RoundTrip(n.parent);
    Le32RoundTrip(n.blocks[0]);
    Le32RoundTrip(n.blocks[1]);
    Le32RoundTrip(n.blocks[2]);
    Le32RoundTrip(n.blocks[3]);
    Le32RoundTrip(n.size);
    assert Decode(b).blocks == n.blocks;
  }

  /** Reading an inode and writing it back gives the same bytes. */
  lemma BytesRoundTrip(b: seq<byte>)
    requires |b| == INODE_SIZE
    ensures Encode(Decode(b)) == b
  {
    hide Le32, FromLe32;
    FromLe32RoundTrip(b[28..32]);
    FromLe32RoundTrip(b[32..36]);
    FromLe32RoundTrip(b[36..40]);
    FromLe32RoundTrip(b[40..44]);
    FromLe32RoundTrip(b[44..48]);
    FromLe32RoundTrip(b[48..52]);
    assert b == b[..28] + b[28..32] + b[32..36] + b[36..40] + b[40..44] + b[44..48] + b[48..52] + [b[52], b[53]];
  }

  /** A zeroed slot is the empty inode. */
  lemma ZeroInode()
    ensures Decode(Zeros(INODE_SIZE)) == NO_INODE
  {
    var z := Zeros(INODE_SIZE);
    assert z[..28] == Zeros(28);
    assert z[28..32] == z[32..36] == z[36..40] == z[40..44] == z[44..48] == z[48..52] == Zeros(4);
    FromLeZeros(4);
  }

  // ---- nine inodes in a sector -----------------------------------------------------------------------

  function SlotBytes(s: Sector, k: nat): (b: seq<byte>)
    requires k < INODES_PER_SECTOR
    ensures |b| == INODE_SIZE
  {
    s[INODE_SIZE * k..INODE_SIZE * k + INODE_SIZE]
  }

  function WithSlot(s: Sector, k: nat, b: seq<byte>): Sector
    requires k < INODES_PER_SECTOR && |b| == INODE_SIZE
  {
    s[..INODE_SIZE * k] + b + s[INODE_SIZE * k + INODE_SIZE..]
  }

  /** Writing one slot leaves the other eight inodes of the sector alone. */
  lemma SlotOfWithSlot(s: Sector, k: nat, b: seq<byte>, j: nat)
    requires k < INODES_PER_SECTOR && |b| == INODE_SIZE && j < INODES_PER_SECTOR
    ensures SlotBytes(WithSlot(s, k, b), j) == if j == k then b else SlotBytes(s, j)
  {
  }

  // ---- the inode table -------------------------------------------------------------------------------

  type Disk = seq<Sector>

  /** The sector of the table and the slot in it that hold inode `id`. */
  function SectorOf(id: nat): (sector: nat)
    requires 1 <= id <= FS_MAX_INODES
    ensures FS_INODE_TABLE_START <= sector < FS_DATA_START
  {
    FS_INODE_TABLE_START + (id - 1) / INODES_PER_SECTOR
  }

  function SlotOf(id: nat): (slot: nat)
    requires 1 <= id <= FS_MAX_INODES
    ensures slot < INODES_PER_SECTOR
  {
    (id - 1) % INODES_PER_SECTOR
  }

  /** Inode `id` (1 to 72) as stored on a disk. */
  function StoredInode(d: Disk, id: nat): Inode
    requires FS_DATA_START <= |d| && 1 <= id <= FS_MAX_INODES
  {
    Decode(SlotBytes(d[SectorOf(id)], SlotOf(id)))
  }

  function WithInode(d: Disk, id: nat, n: Inode): (e: Disk)
    requires FS_DATA_START <= |d| && 1 <= id <= FS_MAX_INODES
    ensures |e| == |d|
  {
    d[SectorOf(id) := WithSlot(d[SectorOf(id)], SlotOf(id), Encode(n))]
  }

  /** Inodes in the same sector and slot are the same inode. */
  lemma SamePlace(i: nat, j: nat)
    requires 1 <= i <= FS_MAX_INODES && 1 <= j <= FS_MAX_INODES
    ensures SectorOf(i) == SectorOf(j) && SlotOf(i) == SlotOf(j) <==> i == j
  {
  }

  /** Storing one inode changes that inode and no other. */
  lemma InodeOfWithInode(d: Disk, id: nat, n: Inode, other: nat)
    requires FS_DATA_START <= |d| && 1 <= id <= FS_MAX_INODES && 1 <= other <= FS_MAX_INODES
    ensures StoredInode(WithInode(d, id, n), other) == if other == id then n else StoredInode(d, other)
  {
    hide Encode, Decode, SlotBytes, WithSlot, SectorOf, SlotOf;
    InodeRoundTrip(n);
    SamePlace(id, other);
    SlotOfWithSlot(d[SectorOf(id)], SlotOf(id), Encode(n), SlotOf(other));
  }

  lemma DataOfWithInode(d: Disk, id: nat, n: Inode)
    requires FS_DATA_START <= |d| && 1 <= id <= FS_MAX_INODES
    ensures WithInode(d, id, n)[FS_DATA_START..] == d[FS_DATA_START..]
  {
  }

  // ---- bytes on disk ---------------------------------------------------------------------------------

  /** The four bytes from offset o, lowest first. */
  function Word32(s: Sector, o: nat): nat
    requires o + 4 <= 512
  {
    Number32(s[o], s[o + 1], s[o + 2], s[o + 3])
  }

  lemma Word32Is(s: Sector, o: nat)
    requires o + 4 <= 512
    ensures FromLe32(s[o..o + 4]) == Word32(s, o)
  {
    FromLeFour(s[o..o + 4]);
  }

  /** The bytes of inode `id`: record (id - 1) % 9 of sector 1 + (id - 1) / 9, 54 bytes each. */
  lemma InodeOnDisk(d: Disk, id: nat)
    requires 9 <= |d| && 1 <= id <= 72
    ensures var s, o, n := d[1 + (id - 1) / 9], 54 * ((id - 1) % 9), StoredInode(d, id);
            && n.name == s[o..o + 28]
            && n.parent == Word32(s, o + 28)
            && n.blocks == [Word32(s, o + 32), Word32(s, o + 36), Word32(s, o + 40), Word32(s, o + 44)]
            && n.size == Word32(s, o + 48)
            && n.isDirectory == s[o + 52] && n.pad == s[o + 53]
  {
    var s, o := d[1 + (id - 1) / 9], 54 * ((id - 1) % 9);
    var b := s[o..o + 54];
    assert b == SlotBytes(d[SectorOf(id)], SlotOf(id));
    Slice(s, o, 0, 28);
    Slice(s, o, 28, 32);
    Slice(s, o, 32, 36);
    Slice(s, o, 36, 40);
    Slice(s, o, 40, 44);
    Slice(s, o, 44, 48);
    Slice(s, o, 48, 52);
    hide FromLe32, Word32, SlotBytes, SectorOf, SlotOf;
    Word32Is(s, o + 28);
    Word32Is(s, o + 32);
    Word32Is(s, o + 36);
    Word32Is(s, o + 40);
    Word32Is(s, o + 44);
    Word32Is(s, o + 48);
  }

  /** Writing inode `id` changes its own 54 bytes and no other byte of the disk. */
  lemma InodeBytesWritten(d: Disk, id: nat, n: Inode, sector: nat, k: nat)
    requires 9 <= |d| && 1 <= id <= 72 && sector < |d| && k < 512
    ensures var o := 54 * ((id - 1) % 9);
            WithInode(d, id, n)[sector][k] ==
              if sector == 1 + (id - 1) / 9 && o <= k < o + 54 then Encode(n)[k - o] else d[sector][k]
  {
    hide Encode;
  }

  lemma Slice(s: Sector, o: nat, i: nat, j: nat)
    requires o + 54 <= 512 && i <= j <= 54
    ensures s[o..o + 54][i..j] == s[o + i..o + j]
  {
    var a, b: seq<byte> := s[o..o + 54][i..j], s[o + i..o + j];
    assert |a| == |b| && forall k :: 0 <= k < |a| ==> a[k] == b[k];
  }
}
