/** What every file-system operation keeps: block ownership, for all names and all growth. */
module FsInvariants {
  import opened LittleEndian
  import opened FsBytes
  import opened FsSpec

  /** A live directory owns no blocks; a live file owns the blocks its length needs, all in the data area. */
  predicate NodeSane(n: Inode) {
    n.parent <= FS_MAX_INODES && (Live(n) ==> BlocksSane(n.blocks, n.size, n.isDirectory != 0))
  }

  predicate BlocksSane(blocks: seq<u32>, size: nat, isDirectory: bool) {
    && |blocks| == FS_MAX_BLOCKS
    && (forall b :: 0 <= b < FS_MAX_BLOCKS ==> blocks[b] == 0 || FS_DATA_START <= blocks[b])
    && size <= MAX_SIZE
    && (if isDirectory then forall b :: 0 <= b < FS_MAX_BLOCKS ==> blocks[b] == 0
        else forall b :: 0 <= b < Needed(size) ==> b < FS_MAX_BLOCKS && blocks[b] != 0)
  }

  /** Two inodes share no block. */
  predicate Apart(m: Inode, n: Inode) {
    forall b, c :: 0 <= b < FS_MAX_BLOCKS && 0 <= c < FS_MAX_BLOCKS && m.blocks[b] != 0 ==> m.blocks[b] != n.blocks[c]
  }

  ghost predicate BlocksDisjoint(nodes: seq<Inode>) {
    forall i, j :: 0 <= i < |nodes| && 0 <= j < |nodes| && i != j && Live(nodes[i]) && Live(nodes[j]) ==>
      Apart(nodes[i], nodes[j])
  }

  ghost predicate Inv(s: Fs) {
    Shaped(s) && (forall i :: 0 <= i < |s.nodes| ==> NodeSane(s.nodes[i])) && BlocksDisjoint(s.nodes)
  }

  lemma InvIsShaped(s: Fs)
    requires Inv(s)
    ensures Shaped(s)
  {
  }

  /** The blocks of n are its own old ones, absent, or above every live block. */
  predicate BlocksFrom(nodes: seq<Inode>, i: nat, n: Inode)
    requires i < |nodes|
  {
    forall b :: 0 <= b < FS_MAX_BLOCKS ==>
      n.blocks[b] == 0 || n.blocks[b] > HighWater(nodes) || (Live(nodes[i]) && n.blocks[b] == nodes[i].blocks[b])
  }

  /** Replacing one inode by one with such blocks keeps the invariant. */
  lemma PutKeepsInv(s: Fs, id: nat, n: Inode)
    requires Inv(s) && 1 <= id <= |s.nodes| && NodeSane(n) && n.name[FS_NAME_MAX - 1] == 0
    requires Live(n) ==> BlocksFrom(s.nodes, id - 1, n)
    ensures Inv(PutNode(s, id, n))
  {
    var nodes := PutNode(s, id, n).nodes;
    hide NodeSane;
    forall j | 0 <= j < |nodes| && j != id - 1 && Live(nodes[j]) && Live(n)
      ensures Apart(nodes[j], n) && Apart(n, nodes[j])
    {
      assert Live(s.nodes[j]) && nodes[j] == s.nodes[j];
    }
  }

  lemma DataKeepsInv(s: Fs, data: seq<Sector>)
    requires Inv(s)
    ensures Inv(s.(data := data))
  {
  }

  lemma GrownCovers(blocks: seq<u32>, length: nat, spare: u32)
    requires |blocks| == FS_MAX_BLOCKS && length <= MAX_SIZE && spare != 0
    ensures Needed(length) <= FS_MAX_BLOCKS
    ensures forall b :: 0 <= b < Needed(length) ==> Grown(blocks, Needed(length), spare)[b] != 0
  {
  }

  lemma StoreKeepsInv(s: Fs, id: nat, bytes: seq<byte>, clearWhenEmpty: bool)
    requires Inv(s) && BlockNumbersLeft(s.nodes) && 1 <= id <= |s.nodes| && |bytes| <= MAX_SIZE
    requires Live(s.nodes[id - 1]) && s.nodes[id - 1].isDirectory == 0
    ensures Inv(Store(s, id, bytes, clearWhenEmpty))
  {
    var n := s.nodes[id - 1];
    var spare := FreshBlock(s.nodes);
    var blocks := Grown(n.blocks, Needed(|bytes|), spare);
    GrownCovers(n.blocks, |bytes|, spare);
    assert NodeSane(n);
    hide HighWater, Needed, WriteChunks, BlocksDisjoint;
    var n' := n.(blocks := blocks, size := |bytes|);
    assert NodeSane(n') && BlocksFrom(s.nodes, id - 1, n');
    PutKeepsInv(s, id, n');
    DataKeepsInv(PutNode(s, id, n'), Store(s, id, bytes, clearWhenEmpty).data);
  }

  /** Every operation keeps block ownership, whatever the names and however much a write grows a file. */
  lemma StepKeepsInv(s: Fs, op: Op)
    requires Inv(s) && BlockNumbersLeft(s.nodes)
    ensures Inv(Step(s, op))
  {
    hide StoredName, HighWater, Content, PutNode;
    hide BlocksDisjoint, WriteChunks, ReadChunks, Grown, Store, Lookup, FreeInode, CString;
    match op
    case OpCreate(name) =>
      CreateKeepsInv(s, name);
    case OpMkdir(name) =>
      MkdirKeepsInv(s, name);
    case OpWrite(name, text) =>
      WriteKeepsInv(s, name, text);
    case OpWriteBinary(name, bytes) =>
      WriteBinaryKeepsInv(s, name, bytes);
    case OpAppend(name, text) =>
      AppendKeepsInv(s, name, text);
    case OpDelete(name) =>
      DeleteKeepsInv(s, name);
    case OpRename(name, newName) =>
      RenameKeepsInv(s, name, newName);
    case OpChangeDir(name) =>
      ChangeDirKeepsInv(s, name);
  }

  lemma CreateKeepsInv(s: Fs, name: seq<byte>)
    requires Inv(s) && BlockNumbersLeft(s.nodes)
    ensures Inv(Create(s, name).0)
  {
    hide HighWater, BlocksDisjoint;
    var id := FreeInode(s.nodes);
    if Lookup(s.nodes, name, s.cwd) == 0 && id != 0 {
      var n: Inode := Inode(StoredName(name), s.cwd, [FreshBlock(s.nodes), 0, 0, 0], 0, 0, 0);
      assert Needed(n.size) == 1;
      assert NodeSane(n);
      PutKeepsInv(s, id, n);
    }
  }

  lemma MkdirKeepsInv(s: Fs, name: seq<byte>)
    requires Inv(s)
    ensures Inv(Mkdir(s, name).0)
  {
    hide HighWater, BlocksDisjoint;
    var id := FreeInode(s.nodes);
    if Lookup(s.nodes, name, s.cwd) == 0 && id != 0 {
      PutKeepsInv(s, id, Inode(StoredName(name), s.cwd, [0, 0, 0, 0], 0, 1, 0));
    }
  }

  lemma WriteKeepsInv(s: Fs, name: seq<byte>, text: seq<byte>)
    requires Inv(s) && BlockNumbersLeft(s.nodes)
    ensures Inv(Write(s, name, text).0)
  {
    var id := Lookup(s.nodes, name, s.cwd);
    if id != 0 && s.nodes[id - 1].isDirectory == 0 {
      StoreKeepsInv(s, id, text[..Min(|text|, MAX_SIZE)], false);
    }
  }

  lemma WriteBinaryKeepsInv(s: Fs, name: seq<byte>, bytes: seq<byte>)
    requires Inv(s) && BlockNumbersLeft(s.nodes)
    ensures Inv(WriteBinary(s, name, bytes).0)
  {
    var id := Lookup(s.nodes, name, s.cwd);
    if id != 0 && s.nodes[id - 1].isDirectory == 0 && |bytes| <= MAX_SIZE {
      StoreKeepsInv(s, id, bytes, true);
    }
  }

  lemma AppendKeepsInv(s: Fs, name: seq<byte>, text: seq<byte>)
    requires Inv(s) && BlockNumbersLeft(s.nodes)
    ensures Inv(Append(s, name, text).0)
  {
    var id := Lookup(s.nodes, name, s.cwd);
    hide WriteBinary, Content, Inv, HighWater;
    if id != 0 && s.nodes[id - 1].isDirectory == 0
       && Min(s.nodes[id - 1].size + |text|, MAX_SIZE) > s.nodes[id - 1].size {
      WriteBinaryKeepsInv(s, name, Content(s, id) + text[..Min(|text|, MAX_SIZE - s.nodes[id - 1].size)]);
    }
  }

  lemma DeleteKeepsInv(s: Fs, name: seq<byte>)
    requires Inv(s)
    ensures Inv(Delete(s, name).0)
  {
    if Lookup(s.nodes, name, s.cwd) != 0 {
      PutKeepsInv(s, Lookup(s.nodes, name, s.cwd), NO_INODE);
    }
  }

  lemma RenamedSane(n: Inode, renamed: Inode)
    requires NodeSane(n) && Live(n) && renamed == n.(name := renamed.name)
    ensures NodeSane(renamed)
  {
    hide BlocksSane;
  }

  lemma RenameKeepsInv(s: Fs, name: seq<byte>, newName: seq<byte>)
    requires Inv(s)
    ensures Inv(Rename(s, name, newName).0)
  {
    var id := Lookup(s.nodes, name, s.cwd);
    if id != 0 && Lookup(s.nodes, newName, s.cwd) == 0 {
      var n := s.nodes[id - 1];
      assert NodeSane(n) && Live(n);
      var renamed: Inode := n.(name := StoredName(newName));
      RenamedSane(n, renamed);
      hide BlocksDisjoint, HighWater;
      PutKeepsInv(s, id, renamed);
    }
  }

  lemma ChangeDirKeepsInv(s: Fs, name: seq<byte>)
    requires Inv(s)
    ensures Inv(ChangeDir(s, name).0)
  {
  }
}
