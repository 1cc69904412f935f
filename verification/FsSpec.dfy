/** src/fs/fs.c as functions on values: the 72 inodes, the data sectors and the current directory. */
module FsSpec {
  import opened LittleEndian
  import opened FsBytes

  const CHUNK: nat := 511
  const MAX_SIZE: nat := FS_MAX_BLOCKS * CHUNK

  /** The file system: inode id is nodes[id - 1]; data sector n is disk sector 9 + n. */
  datatype Fs = Fs(nodes: seq<Inode>, data: seq<Sector>, cwd: nat)

  /** What every state has: 72 inodes whose names end in a zero byte, and a current directory id. */
  predicate Shaped(s: Fs) {
    |s.nodes| == FS_MAX_INODES && s.cwd <= FS_MAX_INODES && forall i :: 0 <= i < |s.nodes| ==>
      s.nodes[i].name[FS_NAME_MAX - 1] == 0
  }

  /** A C string: no zero byte inside. */
  predicate IsText(t: seq<byte>) {
    0 !in t
  }

  function CString(b: seq<byte>): (t: seq<byte>)
    ensures IsText(t) && |t| <= |b|
  {
    if b == [] || b[0] == 0 then [] else [b[0]] + CString(b[1..])
  }

  predicate Live(n: Inode) {
    n.name[0] != 0
  }

  function NameOf(n: Inode): seq<byte> {
    CString(n.name)
  }

  function Min(a: nat, b: nat): nat {
    if a <= b then a else b
  }

  /** strncpy into the 28-byte field, then a forced final zero: at most 27 bytes survive. */
  function Truncated(name: seq<byte>): seq<byte> {
    name[..Min(|name|, FS_NAME_MAX - 1)]
  }

  function StoredName(name: seq<byte>): (b: seq<byte>)
    ensures |b| == FS_NAME_MAX && b[FS_NAME_MAX - 1] == 0
  {
    Truncated(name) + Zeros(FS_NAME_MAX - |Truncated(name)|)
  }

  /** inode_read: id 0 and ids past the table read as zeros. */
  function NodeAt(nodes: seq<Inode>, id: nat): Inode {
    if 1 <= id <= |nodes| then nodes[id - 1] else NO_INODE
  }

  predicate Matches(n: Inode, name: seq<byte>, parent: nat) {
    Live(n) && n.parent == parent && NameOf(n) == name
  }

  /** lookup: the first live inode with this name and parent, or 0. */
  function LookupFrom(nodes: seq<Inode>, name: seq<byte>, parent: nat, id: nat): (r: nat)
    requires 1 <= id
    ensures r != 0 ==> id <= r <= |nodes| && Matches(nodes[r - 1], name, parent)
    ensures forall i :: id - 1 <= i < |nodes| && (r == 0 || i < r - 1) ==> !Matches(nodes[i], name, parent)
    decreases |nodes| + 1 - id
  {
    if id > |nodes| then 0
    else if Matches(nodes[id - 1], name, parent) then id
    else LookupFrom(nodes, name, parent, id + 1)
  }

  function Lookup(nodes: seq<Inode>, name: seq<byte>, parent: nat): nat {
    LookupFrom(nodes, name, parent, 1)
  }

  /** inode_alloc: the first dead inode, or 0. */
  function FreeFrom(nodes: seq<Inode>, id: nat): (r: nat)
    requires 1 <= id
    ensures r != 0 ==> id <= r <= |nodes| && !Live(nodes[r - 1])
    ensures forall i :: id - 1 <= i < |nodes| && (r == 0 || i < r - 1) ==> Live(nodes[i])
    decreases |nodes| + 1 - id
  {
    if id > |nodes| then 0 else if !Live(nodes[id - 1]) then id else FreeFrom(nodes, id + 1)
  }

  function FreeInode(nodes: seq<Inode>): nat {
    FreeFrom(nodes, 1)
  }

  function Max(a: nat, b: nat): nat {
    if a >= b then a else b
  }

  function MaxBlock(blocks: seq<u32>): (h: nat)
    ensures forall b :: 0 <= b < |blocks| ==> blocks[b] <= h
    ensures h == 0 || h in blocks
  {
    if blocks == [] then 0 else Max(blocks[0], MaxBlock(blocks[1..]))
  }

  /** The highest block number of any live inode, at least 8. */
  function HighWater(nodes: seq<Inode>): (h: nat)
    ensures FS_DATA_START - 1 <= h
    ensures forall i, b :: 0 <= i < |nodes| && 0 <= b < FS_MAX_BLOCKS && Live(nodes[i]) ==> nodes[i].blocks[b] <= h
    ensures || h == FS_DATA_START - 1
            || exists i, b :: 0 <= i < |nodes| && 0 <= b < FS_MAX_BLOCKS && Live(nodes[i]) && nodes[i].blocks[b] == h
  {
    if nodes == [] then FS_DATA_START - 1
    else
      var rest := HighWater(nodes[1..]);
      if !Live(nodes[0]) then rest else Max(MaxBlock(nodes[0].blocks), rest)
  }

  /** block_alloc hands out numbers above every live one; it never runs out before 32 bits do. */
  predicate BlockNumbersLeft(nodes: seq<Inode>) {
    HighWater(nodes) + 1 < 0x1_0000_0000
  }

  function FreshBlock(nodes: seq<Inode>): u32
    requires BlockNumbersLeft(nodes)
  {
    HighWater(nodes) + 1
  }

  // ---- data ------------------------------------------------------------------------------------------

  function ReadSector(data: seq<Sector>, lba: nat): Sector {
    if FS_DATA_START <= lba < FS_DATA_START + |data| then data[lba - FS_DATA_START] else Zeros(SECTOR_SIZE)
  }

  function WriteSector(data: seq<Sector>, lba: nat, sector: Sector): (d: seq<Sector>)
    ensures |d| == |data|
  {
    if FS_DATA_START <= lba < FS_DATA_START + |data| then data[lba - FS_DATA_START := sector] else data
  }

  /** How many blocks a file of this length uses; never none. */
  function Needed(length: nat): nat {
    Max(1, (length + CHUNK - 1) / CHUNK)
  }

  /** The growth loop of the writers: every missing block below `needed` gets the same fresh number, because
      block_alloc scans the table on disk, where this inode has not been written back yet. */
  function Grown(blocks: seq<u32>, needed: nat, spare: u32): (g: seq<u32>)
    ensures |g| == |blocks|
    ensures forall i :: 0 <= i < |g| ==> g[i] == if i < needed && blocks[i] == 0 then spare else blocks[i]
  {
    seq(|blocks|, i requires 0 <= i < |blocks| => if i < needed && blocks[i] == 0 then spare else blocks[i])
  }

  function ChunkAt(bytes: seq<byte>, b: nat): (c: seq<byte>)
    requires b * CHUNK <= |bytes|
    ensures |c| <= CHUNK
  {
    bytes[b * CHUNK..Min(|bytes|, (b + 1) * CHUNK)]
  }

  function Padded(c: seq<byte>): Sector
    requires |c| <= SECTOR_SIZE
  {
    c + Zeros(SECTOR_SIZE - |c|)
  }

  /** The chunk loop of the writers from block b on. */
  function WriteChunks(data: seq<Sector>, blocks: seq<u32>, bytes: seq<byte>, b: nat): (d: seq<Sector>)
    requires |bytes| <= |blocks| * CHUNK
    ensures |d| == |data|
    decreases |bytes| - b * CHUNK
  {
    if b * CHUNK >= |bytes| then data
    else WriteChunks(WriteSector(data, blocks[b], Padded(ChunkAt(bytes, b))), blocks, bytes, b + 1)
  }

  /** The loop of fs_read from block b on: `total` bytes in all, stopping at a missing block. */
  function ReadChunks(data: seq<Sector>, blocks: seq<u32>, total: nat, b: nat): seq<byte>
    decreases |blocks| - b
  {
    if b >= |blocks| || b * CHUNK >= total || blocks[b] == 0 then []
    else ReadSector(data, blocks[b])[..Min(CHUNK, total - b * CHUNK)] + ReadChunks(data, blocks, total, b + 1)
  }

  /** What reading a whole file gives. */
  function Content(s: Fs, id: nat): seq<byte> {
    ReadChunks(s.data, NodeAt(s.nodes, id).blocks, NodeAt(s.nodes, id).size, 0)
  }

  // ---- operations ------------------------------------------------------------------------------------

  function PutNode(s: Fs, id: nat, n: Inode): Fs
    requires 1 <= id <= |s.nodes|
  {
    s.(nodes := s.nodes[id - 1 := n])
  }

  function Create(s: Fs, name: seq<byte>): (Fs, int)
    requires Shaped(s) && BlockNumbersLeft(s.nodes)
  {
    if Lookup(s.nodes, name, s.cwd) != 0 then (s, -1)
    else if FreeInode(s.nodes) == 0 then (s, -2)
    else (PutNode(s, FreeInode(s.nodes), Inode(StoredName(name), s.cwd, [FreshBlock(s.nodes), 0, 0, 0], 0, 0, 0)), 0)
  }

  function Mkdir(s: Fs, name: seq<byte>): (Fs, int)
    requires Shaped(s)
  {
    if Lookup(s.nodes, name, s.cwd) != 0 then (s, -1)
    else if FreeInode(s.nodes) == 0 then (s, -2)
    else (PutNode(s, FreeInode(s.nodes), Inode(StoredName(name), s.cwd, [0, 0, 0, 0], 0, 1, 0)), 0)
  }

  /** The data sectors after a write; an empty binary write clears the first block. */
  function StoredData(data: seq<Sector>, blocks: seq<u32>, bytes: seq<byte>, clearWhenEmpty: bool): seq<Sector>
    requires 0 < |blocks| && |bytes| <= |blocks| * CHUNK
  {
    if bytes == [] && clearWhenEmpty then WriteSector(data, blocks[0], Zeros(SECTOR_SIZE))
    else WriteChunks(data, blocks, bytes, 0)
  }

  /** Both writers store these bytes in file `id`. */
  function Store(s: Fs, id: nat, bytes: seq<byte>, clearWhenEmpty: bool): Fs
    requires Shaped(s) && BlockNumbersLeft(s.nodes) && 1 <= id <= |s.nodes| && |bytes| <= MAX_SIZE
  {
    var n := s.nodes[id - 1];
    var blocks := Grown(n.blocks, Needed(|bytes|), FreshBlock(s.nodes));
    PutNode(s, id, n.(blocks := blocks, size := |bytes|)).(data := StoredData(s.data, blocks, bytes, clearWhenEmpty))
  }

  /** fs_write: text, silently cut to four chunks. */
  function Write(s: Fs, name: seq<byte>, text: seq<byte>): (Fs, int)
    requires Shaped(s) && BlockNumbersLeft(s.nodes)
  {
    var id := Lookup(s.nodes, name, s.cwd);
    if id == 0 then (s, -1)
    else if s.nodes[id - 1].isDirectory != 0 then (s, -2)
    else (Store(s, id, text[..Min(|text|, MAX_SIZE)], false), 0)
  }

  function WriteBinary(s: Fs, name: seq<byte>, bytes: seq<byte>): (Fs, int)
    requires Shaped(s) && BlockNumbersLeft(s.nodes)
  {
    var id := Lookup(s.nodes, name, s.cwd);
    if id == 0 then (s, -1)
    else if s.nodes[id - 1].isDirectory != 0 then (s, -2)
    else if |bytes| > MAX_SIZE then (s, -3)
    else (Store(s, id, bytes, true), 0)
  }

  /** fs_read: the number of bytes read (or an error), and the bytes. */
  function Read(s: Fs, name: seq<byte>, bufSize: nat): (int, seq<byte>)
    requires Shaped(s)
  {
    var id := Lookup(s.nodes, name, s.cwd);
    if id == 0 then (-1, [])
    else if s.nodes[id - 1].isDirectory != 0 then (-2, [])
    else
      var bytes := ReadChunks(s.data, s.nodes[id - 1].blocks, Min(s.nodes[id - 1].size, bufSize), 0);
      (|bytes|, bytes)
  }

  /** fs_append: the old content and as much of the text as fits, written back whole. */
  function Append(s: Fs, name: seq<byte>, text: seq<byte>): (Fs, int)
    requires Shaped(s) && BlockNumbersLeft(s.nodes)
  {
    var id := Lookup(s.nodes, name, s.cwd);
    if id == 0 then (s, -1)
    else if s.nodes[id - 1].isDirectory != 0 then (s, -2)
    else
      var size := s.nodes[id - 1].size;
      if Min(size + |text|, MAX_SIZE) <= size then (s, 0)
      else WriteBinary(s, name, Content(s, id) + text[..Min(|text|, MAX_SIZE - size)])
  }

  function Delete(s: Fs, name: seq<byte>): (Fs, int)
    requires Shaped(s)
  {
    var id := Lookup(s.nodes, name, s.cwd);
    if id == 0 then (s, -1) else (PutNode(s, id, NO_INODE), 0)
  }

  function Rename(s: Fs, oldName: seq<byte>, newName: seq<byte>): (Fs, int)
    requires Shaped(s)
  {
    var id := Lookup(s.nodes, oldName, s.cwd);
    if id == 0 then (s, -1)
    else if Lookup(s.nodes, newName, s.cwd) != 0 then (s, -2)
    else (PutNode(s, id, s.nodes[id - 1].(name := StoredName(newName))), 0)
  }

  const SLASH: byte := 47
  const DOT: byte := 46

  function ChangeDir(s: Fs, name: seq<byte>): (Fs, int)
    requires Shaped(s)
  {
    if name == [SLASH] then (s.(cwd := 0), 0)
    else if name == [DOT, DOT] then (if s.cwd != 0 then s.(cwd := NodeAt(s.nodes, s.cwd).parent) else s, 0)
    else if name == [DOT] then (s, 0)
    else
      var id := Lookup(s.nodes, name, s.cwd);
      if id == 0 then (s, -1)
      else if s.nodes[id - 1].isDirectory == 0 then (s, -2)
      else (s.(cwd := id), 0)
  }

  /** The inode table after fs_format. */
  function Formatted(data: seq<Sector>): Fs {
    Fs(seq(FS_MAX_INODES, _ => NO_INODE), data, 0)
  }

  // ---- runs ------------------------------------------------------------------------------------------

  datatype Op =
    | OpCreate(name: seq<byte>)
    | OpMkdir(name: seq<byte>)
    | OpWrite(name: seq<byte>, text: seq<byte>)
    | OpWriteBinary(name: seq<byte>, bytes: seq<byte>)
    | OpAppend(name: seq<byte>, text: seq<byte>)
    | OpDelete(name: seq<byte>)
    | OpRename(name: seq<byte>, newName: seq<byte>)
    | OpChangeDir(name: seq<byte>)

  function Step(s: Fs, op: Op): Fs
    requires Shaped(s) && BlockNumbersLeft(s.nodes)
  {
    match op
    case OpCreate(name) => Create(s, name).0
    case OpMkdir(name) => Mkdir(s, name).0
    case OpWrite(name, text) => Write(s, name, text).0
    case OpWriteBinary(name, bytes) => WriteBinary(s, name, bytes).0
    case OpAppend(name, text) => Append(s, name, text).0
    case OpDelete(name) => Delete(s, name).0
    case OpRename(name, newName) => Rename(s, name, newName).0
    case OpChangeDir(name) => ChangeDir(s, name).0
  }

  /** What the operation returns. */
  function Code(s: Fs, op: Op): int
    requires Shaped(s) && BlockNumbersLeft(s.nodes)
  {
    match op
    case OpCreate(name) => Create(s, name).1
    case OpMkdir(name) => Mkdir(s, name).1
    case OpWrite(name, text) => Write(s, name, text).1
    case OpWriteBinary(name, bytes) => WriteBinary(s, name, bytes).1
    case OpAppend(name, text) => Append(s, name, text).1
    case OpDelete(name) => Delete(s, name).1
    case OpRename(name, newName) => Rename(s, name, newName).1
    case OpChangeDir(name) => ChangeDir(s, name).1
  }
}
