/** NanoFS as a tree of named byte strings, and the concrete operations as operations on that tree. */
module FsRefinement {
  import opened LittleEndian
  import opened FsBytes
  import opened FsSpec
  import opened FsInvariants
  import opened FsTree
  import opened FsContents

  // ---- the abstract file system ----------------------------------------------------------------------

  datatype Entry = File(parent: nat, name: seq<byte>, bytes: seq<byte>) | Dir(parent: nat, name: seq<byte>)

  /** Entries by id; 0 is the root directory. */
  type Tree = map<nat, Entry>

  datatype View = View(tree: Tree, cwd: nat)

  predicate EntryMatches(tree: Tree, id: nat, name: seq<byte>, parent: nat) {
    id in tree && tree[id].parent == parent && tree[id].name == name
  }

  function FindFrom(tree: Tree, name: seq<byte>, parent: nat, id: nat): nat
    decreases 73 - id
  {
    if id > 72 then 0 else if EntryMatches(tree, id, name, parent) then id
    else FindFrom(tree, name, parent, id + 1)
  }

  function Find(v: View, name: seq<byte>): nat {
    FindFrom(v.tree, name, v.cwd, 1)
  }

  function UnusedFrom(tree: Tree, id: nat): nat
    decreases 73 - id
  {
    if id > 72 then 0 else if id !in tree then id else UnusedFrom(tree, id + 1)
  }

  function Unused(v: View): nat {
    UnusedFrom(v.tree, 1)
  }

  /** Find gives the first of the 72 entries with this name in the current directory, Unused the first id without an
      entry. */
  lemma {:induction false} FirstFound(tree: Tree, name: seq<byte>, parent: nat, id: nat)
    requires 1 <= id
    ensures var r := FindFrom(tree, name, parent, id);
            && (r != 0 ==> id <= r <= 72 && EntryMatches(tree, r, name, parent))
            && (forall i :: id <= i <= 72 && (r == 0 || i < r) ==> !EntryMatches(tree, i, name, parent))
    decreases 73 - id
  {
    if id <= 72 {
      FirstFound(tree, name, parent, id + 1);
    }
  }

  lemma {:induction false} FirstUnused(tree: Tree, id: nat)
    requires 1 <= id
    ensures var r := UnusedFrom(tree, id);
            && (r != 0 ==> id <= r <= 72 && r !in tree)
            && (forall i :: id <= i <= 72 && (r == 0 || i < r) ==> i in tree)
    decreases 73 - id
  {
    if id <= 72 {
      FirstUnused(tree, id + 1);
    }
  }

  /** Names are cut to 27 bytes. */
  function Cut(name: seq<byte>): seq<byte> {
    if |name| > 27 then name[..27] else name
  }

  lemma CutIsTruncated(name: seq<byte>)
    ensures Cut(name) == Truncated(name)
  {
  }

  /** New entries get the first unused id. */
  function Added(v: View, name: seq<byte>, e: Entry): View {
    if Find(v, name) != 0 || Unused(v) == 0 then v else v.(tree := v.tree[Unused(v) := e])
  }

  /** Replaces the bytes of the file with this name, if there is one. */
  function Rewritten(v: View, name: seq<byte>, bytes: seq<byte>): View {
    var id := Find(v, name);
    if id in v.tree && v.tree[id].File? then v.(tree := v.tree[id := v.tree[id].(bytes := bytes)]) else v
  }

  function OldBytes(v: View, name: seq<byte>): seq<byte> {
    var id := Find(v, name);
    if id in v.tree && v.tree[id].File? then v.tree[id].bytes else []
  }

  function ViewStep(v: View, op: Op): View {
    match op
    case OpCreate(name) => Added(v, name, File(v.cwd, Cut(name), []))
    case OpMkdir(name) => Added(v, name, Dir(v.cwd, Cut(name)))
    case OpWrite(name, text) => Rewritten(v, name, text[..Min(|text|, 2044)])
    case OpWriteBinary(name, bytes) => if |bytes| > 2044 then v else Rewritten(v, name, bytes)
    case OpAppend(name, text) =>
      var was := OldBytes(v, name);
      Rewritten(v, name, was + text[..Min(|text|, if |was| <= 2044 then 2044 - |was| else 0)])
    case OpDelete(name) => v.(tree := v.tree - {Find(v, name)})
    case OpRename(name, newName) =>
      var id := Find(v, name);
      if id !in v.tree || Find(v, newName) != 0 then v
      else v.(tree := v.tree[id := v.tree[id].(name := Cut(newName))])
    case OpChangeDir(name) => v.(cwd := MovedTo(v, name))
  }

  function Text(s: string): (t: seq<byte>)
    ensures |t| == |s|
  {
    seq(|s|, i requires 0 <= i < |s| => s[i] as int % 256)
  }

  /** Where cd leads; a missing name or a file leads nowhere. */
  function MovedTo(v: View, name: seq<byte>): nat {
    if name == Text("/") then 0
    else if name == Text("..") then (if v.cwd in v.tree then v.tree[v.cwd].parent else v.cwd)
    else if name == Text(".") then v.cwd
    else
      var id := Find(v, name);
      if id in v.tree && v.tree[id].Dir? then id else v.cwd
  }

  /** What each operation answers. */
  function ViewResult(v: View, op: Op): int {
    match op
    case OpCreate(name) => NewResult(v, name)
    case OpMkdir(name) => NewResult(v, name)
    case OpWrite(name, _) => FileResult(v, name)
    case OpWriteBinary(name, bytes) => if FileResult(v, name) == 0 && |bytes| > 2044 then -3 else FileResult(v, name)
    case OpAppend(name, _) => FileResult(v, name)
    case OpDelete(name) => if Find(v, name) != 0 then 0 else -1
    case OpRename(name, newName) => if Find(v, name) == 0 then -1 else if Find(v, newName) == 0 then 0 else -2
    case OpChangeDir(name) =>
      if name == Text("/") || name == Text("..") || name == Text(".") then 0
      else if Find(v, name) in v.tree then (if v.tree[Find(v, name)].Dir? then 0 else -2)
      else -1
  }

  /** A new name must be free, and an id for it. */
  function NewResult(v: View, name: seq<byte>): int {
    if Find(v, name) != 0 then -1 else if Unused(v) != 0 then 0 else -2
  }

  /** Only files can be written to. */
  function FileResult(v: View, name: seq<byte>): int {
    if Find(v, name) !in v.tree then -1 else if v.tree[Find(v, name)].File? then 0 else -2
  }

  /** Reading: the bytes of the file, cut to the buffer, and their number; or an error. */
  function ViewRead(v: View, name: seq<byte>, bufSize: nat): (r: (int, seq<byte>)) {
    var id := Find(v, name);
    if id == 0 then (-1, [])
    else if id in v.tree && v.tree[id].File? then
      var count := Min(|v.tree[id].bytes|, bufSize);
      (count, v.tree[id].bytes[..count])
    else (-2, [])
  }

  // ---- the abstraction -------------------------------------------------------------------------------

  function EntryOf(s: Fs, id: nat): Entry {
    var n := NodeAt(s.nodes, id);
    if n.isDirectory != 0 then Dir(n.parent, NameOf(n)) else File(n.parent, NameOf(n), Content(s, id))
  }

  function TreeOf(s: Fs): Tree {
    map id: nat | 1 <= id <= FS_MAX_INODES && Live(NodeAt(s.nodes, id)) :: EntryOf(s, id)
  }

  function ViewOf(s: Fs): View {
    View(TreeOf(s), s.cwd)
  }

  lemma {:induction false} FindIsLookup(s: Fs, name: seq<byte>, id: nat)
    requires |s.nodes| == FS_MAX_INODES && 1 <= id
    ensures FindFrom(TreeOf(s), name, s.cwd, id) == LookupFrom(s.nodes, name, s.cwd, id)
    decreases FS_MAX_INODES + 1 - id
  {
    if id <= FS_MAX_INODES {
      hide Content, CString;
      assert id in TreeOf(s) <==> Live(s.nodes[id - 1]);
      assert EntryMatches(TreeOf(s), id, name, s.cwd) <==> Matches(s.nodes[id - 1], name, s.cwd);
      FindIsLookup(s, name, id + 1);
    }
  }

  lemma {:induction false} UnusedIsFree(s: Fs, id: nat)
    requires |s.nodes| == FS_MAX_INODES && 1 <= id
    ensures UnusedFrom(TreeOf(s), id) == FreeFrom(s.nodes, id)
    decreases FS_MAX_INODES + 1 - id
  {
    if id <= FS_MAX_INODES {
      hide Content, CString;
      UnusedIsFree(s, id + 1);
    }
  }

  /** Lookup and allocation agree with their abstract counterparts. */
  lemma SameSearch(s: Fs, name: seq<byte>)
    requires |s.nodes| == FS_MAX_INODES
    ensures Find(ViewOf(s), name) == Lookup(s.nodes, name, s.cwd)
    ensures Unused(ViewOf(s)) == FreeInode(s.nodes)
    ensures Lookup(s.nodes, name, s.cwd) != 0 ==> Lookup(s.nodes, name, s.cwd) in TreeOf(s)
  {
    FindIsLookup(s, name, 1);
    UnusedIsFree(s, 1);
  }

  // ---- clean states ----------------------------------------------------------------------------------

  /** Every live file's blocks are distinct and on the disk. */
  ghost predicate Clean(s: Fs) {
    forall i :: 0 <= i < |s.nodes| && Live(s.nodes[i]) ==> CleanNode(s.data, s.nodes[i])
  }

  predicate CleanNode(data: seq<Sector>, n: Inode) {
    NoAlias(n.blocks) && forall b :: 0 <= b < |n.blocks| && n.blocks[b] != 0 ==> InDisk(data, n.blocks[b])
  }

  /** The length a write or append leaves the file with, if it writes. */
  function NewLength(s: Fs, op: Op): nat
    requires Shaped(s)
  {
    match op
    case OpWrite(name, text) => Min(|text|, MAX_SIZE)
    case OpWriteBinary(name, bytes) => |bytes|
    case OpAppend(name, text) =>
      var id := Lookup(s.nodes, name, s.cwd);
      Min(NodeAt(s.nodes, id).size + |text|, MAX_SIZE)
    case _ => 0
  }

  function TargetName(op: Op): seq<byte> {
    match op
    case OpWrite(name, _) => name
    case OpWriteBinary(name, _) => name
    case OpAppend(name, _) => name
    case _ => []
  }

  /** Giving file `id` this length takes at most one new block, and that one is on the disk. */
  predicate GrowsSafely(s: Fs, id: nat, length: nat)
    requires BlockNumbersLeft(s.nodes)
  {
    var blocks := NodeAt(s.nodes, id).blocks;
    && AtMostOneMissing(blocks, Needed(length))
    && forall b :: 0 <= b < |blocks| && b < Needed(length) && blocks[b] == 0 ==> InDisk(s.data, FreshBlock(s.nodes))
  }

  /** Names are non-empty text; whatever takes a new block takes one, on the disk.  Operations that fail, or
      need no new block, are careful on a full disk too. */
  predicate Careful(s: Fs, op: Op)
    requires Shaped(s) && BlockNumbersLeft(s.nodes)
  {
    match op
    case OpCreate(name) =>
      IsText(name) && name != []
      && (Lookup(s.nodes, name, s.cwd) == 0 && FreeInode(s.nodes) != 0 ==> InDisk(s.data, FreshBlock(s.nodes)))
    case OpMkdir(name) => IsText(name) && name != []
    case OpRename(_, newName) => IsText(newName) && newName != []
    case OpDelete(_) => true
    case OpChangeDir(_) => true
    case _ =>
      var id := Lookup(s.nodes, TargetName(op), s.cwd);
      id != 0 && NodeAt(s.nodes, id).isDirectory == 0 && NewLength(s, op) <= MAX_SIZE ==>
        GrowsSafely(s, id, NewLength(s, op))
  }

  // ---- the answers -----------------------------------------------------------------------------------

  /** The cases in which every operation succeeds or fails are those of the tree, whatever the blocks look like. */
  lemma CodesAgree(s: Fs, op: Op)
    requires Inv(s) && BlockNumbersLeft(s.nodes)
    ensures Code(s, op) == ViewResult(ViewOf(s), op)
  {
    InvIsShaped(s);
    CwdBound(s);
    match op
    case OpCreate(name) => SearchCode(s, name, op);
    case OpMkdir(name) => SearchCode(s, name, op);
    case OpWrite(name, _) => SearchCode(s, name, op);
    case OpWriteBinary(name, _) => SearchCode(s, name, op);
    case OpAppend(name, _) => AppendCode(s, name, op);
    case OpDelete(name) => SearchCode(s, name, op);
    case OpRename(name, newName) => SameSearch(s, newName); SearchCode(s, name, op);
    case OpChangeDir(name) => CdNames(); SearchCode(s, name, op);
  }

  lemma SearchCode(s: Fs, name: seq<byte>, op: Op)
    requires Inv(s) && BlockNumbersLeft(s.nodes) && Shaped(s)
    requires match op
             case OpCreate(n) => n == name
             case OpMkdir(n) => n == name
             case OpWrite(n, _) => n == name
             case OpWriteBinary(n, _) => n == name
             case OpAppend(_, _) => false
             case OpDelete(n) => n == name
             case OpRename(n, newName) => n == name && Find(ViewOf(s), newName) == Lookup(s.nodes, newName, s.cwd)
             case OpChangeDir(n) => n == name && Text("/") == [SLASH] && Text("..") == [DOT, DOT] && Text(".") == [DOT]
    ensures Code(s, op) == ViewResult(ViewOf(s), op)
  {
    hide Inv, HighWater, CString, Find, Unused, Store, Content, Lookup, FreeInode, TreeOf, EntryOf, StoredName, Text;
    CwdBound(s);
    SameSearch(s, name);
    Found(s, name);
  }

  lemma CdNames()
    ensures Text("/") == [SLASH] && Text("..") == [DOT, DOT] && Text(".") == [DOT]
  {
  }

  lemma AppendCode(s: Fs, name: seq<byte>, op: Op)
    requires Inv(s) && BlockNumbersLeft(s.nodes) && Shaped(s) && op.OpAppend? && op.name == name
    ensures Code(s, op) == ViewResult(ViewOf(s), op)
  {
    hide HighWater, CString, Find, Unused, Store, Content, Lookup, FreeInode, TreeOf, EntryOf, StoredName, Inv;
    CwdBound(s);
    SameSearch(s, name);
    Found(s, name);
    var id := Lookup(s.nodes, name, s.cwd);
    if id != 0 && s.nodes[id - 1].isDirectory == 0 {
      ContentLength(s, id);
    }
  }

  // ---- content lengths -------------------------------------------------------------------------------

  lemma {:induction false} ReadPrefix(data: seq<Sector>, blocks: seq<u32>, total: nat, limit: nat, b: nat)
    requires total <= |blocks| * CHUNK && limit <= total
    requires forall i :: 0 <= i < |blocks| && i < Chunks(total) ==> blocks[i] != 0
    ensures b * CHUNK <= limit ==>
              limit - b * CHUNK <= |ReadChunks(data, blocks, total, b)|
              && ReadChunks(data, blocks, limit, b) == ReadChunks(data, blocks, total, b)[..limit - b * CHUNK]
    decreases |blocks| - b
  {
    ReadLength(data, blocks, total, b);
    if b < |blocks| && b * CHUNK < limit {
      ChunkInRange(total, |blocks|, b);
      ReadPrefix(data, blocks, total, limit, b + 1);
      ReadLength(data, blocks, total, b + 1);
    }
  }

  /** fs_read with a buffer of any size gives the content, cut to the buffer. */
  lemma ReadGivesContent(s: Fs, name: seq<byte>, bufSize: nat)
    requires Inv(s)
    ensures Read(s, name, bufSize) == ViewRead(ViewOf(s), name, bufSize)
  {
    SameSearch(s, name);
    var id := Lookup(s.nodes, name, s.cwd);
    if id != 0 && s.nodes[id - 1].isDirectory == 0 {
      ContentLength(s, id);
      var n := s.nodes[id - 1];
      assert NodeSane(n);
      forall i | 0 <= i < |n.blocks| && i < Chunks(n.size)
        ensures n.blocks[i] != 0
      {
        ChunkCount(n.size, i);
      }
      hide LookupFrom, Chunks, CString;
      ReadPrefix(s.data, n.blocks, n.size, Min(n.size, bufSize), 0);
    }
  }

  // ---- one step --------------------------------------------------------------------------------------

  /** Replacing inode `id` and leaving every other live inode and its content alone changes one entry. */
  lemma OneEntryChanged(s: Fs, t: Fs, id: nat)
    requires |s.nodes| == |t.nodes| == FS_MAX_INODES && 1 <= id <= FS_MAX_INODES
    requires forall i :: 0 <= i < FS_MAX_INODES && i != id - 1 ==> t.nodes[i] == s.nodes[i]
    requires forall j :: 1 <= j <= FS_MAX_INODES && j != id && Live(s.nodes[j - 1]) ==> Content(t, j) == Content(s, j)
    ensures TreeOf(t) == if Live(t.nodes[id - 1]) then TreeOf(s)[id := EntryOf(t, id)] else TreeOf(s) - {id}
  {
    hide Content, CString;
  }

  lemma SameDataSameContent(s: Fs, t: Fs, j: nat)
    requires NodeAt(t.nodes, j) == NodeAt(s.nodes, j) && t.data == s.data
    ensures Content(t, j) == Content(s, j)
  {
  }

  lemma PutRefines(s: Fs, id: nat, n: Inode)
    requires |s.nodes| == FS_MAX_INODES && 1 <= id <= FS_MAX_INODES
    ensures TreeOf(PutNode(s, id, n)) == if Live(n) then TreeOf(s)[id := EntryOf(PutNode(s, id, n), id)]
                                         else TreeOf(s) - {id}
  {
    var t := PutNode(s, id, n);
    hide Content;
    forall j | 1 <= j <= FS_MAX_INODES && j != id
      ensures Content(t, j) == Content(s, j)
    {
      SameDataSameContent(s, t, j);
    }
    OneEntryChanged(s, t, id);
  }

  lemma StoreRefines(s: Fs, id: nat, bytes: seq<byte>, clearWhenEmpty: bool)
    requires Inv(s) && Clean(s) && BlockNumbersLeft(s.nodes) && 1 <= id <= |s.nodes| && |bytes| <= MAX_SIZE
    requires Live(s.nodes[id - 1]) && s.nodes[id - 1].isDirectory == 0
    requires GrowsSafely(s, id, |bytes|)
    ensures TreeOf(Store(s, id, bytes, clearWhenEmpty)) ==
            TreeOf(s)[id := File(s.nodes[id - 1].parent, NameOf(s.nodes[id - 1]), bytes)]
  {
    var t := Store(s, id, bytes, clearWhenEmpty);
    assert CleanNode(s.data, s.nodes[id - 1]);
    UnaliasedReadsBackExactly(s, id, bytes, clearWhenEmpty);
    OneNewChunkIsFine(s.nodes[id - 1].blocks, bytes);
    hide Content, Inv, Clean, HighWater, Grown, Needed, WriteChunks, CString;
    forall j | 1 <= j <= FS_MAX_INODES && j != id && Live(s.nodes[j - 1])
      ensures Content(t, j) == Content(s, j)
    {
      StoreLeavesOthers(s, id, bytes, clearWhenEmpty, j);
    }
    OneEntryChanged(s, t, id);
    assert EntryOf(t, id) == File(s.nodes[id - 1].parent, NameOf(s.nodes[id - 1]), bytes);
  }

  lemma StoreKeepsClean(s: Fs, id: nat, bytes: seq<byte>, clearWhenEmpty: bool)
    requires Clean(s) && Shaped(s) && BlockNumbersLeft(s.nodes) && 1 <= id <= |s.nodes| && |bytes| <= MAX_SIZE
             && Live(s.nodes[id - 1])
    requires GrowsSafely(s, id, |bytes|)
    ensures Clean(Store(s, id, bytes, clearWhenEmpty))
  {
    var n := s.nodes[id - 1];
    var spare := FreshBlock(s.nodes);
    assert CleanNode(s.data, n);
    forall b | 0 <= b < FS_MAX_BLOCKS
      ensures n.blocks[b] < spare
    {
    }
    hide HighWater, Needed, WriteChunks;
    var t := Store(s, id, bytes, clearWhenEmpty);
    assert CleanNode(t.data, t.nodes[id - 1]);
    forall i | 0 <= i < |t.nodes| && Live(t.nodes[i])
      ensures CleanNode(t.data, t.nodes[i])
    {
      if i != id - 1 {
        assert CleanNode(s.data, s.nodes[i]);
      }
    }
  }

  lemma PutKeepsClean(s: Fs, id: nat, n: Inode)
    requires Clean(s) && 1 <= id <= |s.nodes| && (Live(n) ==> CleanNode(s.data, n))
    ensures Clean(PutNode(s, id, n))
  {
    hide CleanNode;
  }

  /** The invariants under which the abstract reading holds. */
  ghost predicate Good(s: Fs) {
    Inv(s) && TreeInv(s) && Clean(s)
  }

  lemma NewFileEntry(s: Fs, id: nat, n: Inode)
    requires 1 <= id <= |s.nodes| && n.isDirectory == 0 && n.size == 0 && InDisk(s.data, n.blocks[0])
    requires n.blocks[1] == 0 && n.blocks[2] == 0 && n.blocks[3] == 0
    ensures EntryOf(PutNode(s, id, n), id) == File(n.parent, NameOf(n), []) && CleanNode(s.data, n)
  {
  }

  lemma NewDirEntry(s: Fs, id: nat, n: Inode)
    requires 1 <= id <= |s.nodes| && n.isDirectory != 0 && forall b :: 0 <= b < FS_MAX_BLOCKS ==> n.blocks[b] == 0
    ensures EntryOf(PutNode(s, id, n), id) == Dir(n.parent, NameOf(n)) && CleanNode(s.data, n)
  {
  }

  lemma CreateRefines(s: Fs, name: seq<byte>)
    requires Good(s) && BlockNumbersLeft(s.nodes) && Careful(s, OpCreate(name))
    ensures ViewOf(Create(s, name).0) == ViewStep(ViewOf(s), OpCreate(name)) && Clean(Create(s, name).0)
  {
    hide Inv, TreeInv, Clean, HighWater, CString, StoredName, Lookup, FreeInode, Find, Unused, TreeOf, EntryOf;
    hide Truncated, Cut, CleanNode;
    CwdBound(s);
    SameSearch(s, name);
    CutIsTruncated(name);
    StoredNameReadsBack(name);
    var id := FreeInode(s.nodes);
    if Lookup(s.nodes, name, s.cwd) == 0 && id != 0 {
      var n: Inode := Inode(StoredName(name), s.cwd, [FreshBlock(s.nodes), 0, 0, 0], 0, 0, 0);
      FreeBound(s.nodes);
      NewFileEntry(s, id, n);
      PutRefines(s, id, n);
      PutKeepsClean(s, id, n);
    }
  }

  lemma CwdBound(s: Fs)
    requires Inv(s)
    ensures s.cwd <= FS_MAX_INODES && |s.nodes| == FS_MAX_INODES
  {
  }

  lemma FreeBound(nodes: seq<Inode>)
    ensures FreeInode(nodes) <= |nodes|
  {
  }

  lemma MkdirRefines(s: Fs, name: seq<byte>)
    requires Good(s) && BlockNumbersLeft(s.nodes) && Careful(s, OpMkdir(name))
    ensures ViewOf(Mkdir(s, name).0) == ViewStep(ViewOf(s), OpMkdir(name)) && Clean(Mkdir(s, name).0)
  {
    hide Inv, TreeInv, Clean, HighWater, CString, StoredName, Lookup, FreeInode, Find, Unused, TreeOf, EntryOf;
    hide Truncated, Cut, CleanNode;
    CwdBound(s);
    SameSearch(s, name);
    CutIsTruncated(name);
    StoredNameReadsBack(name);
    var id := FreeInode(s.nodes);
    if Lookup(s.nodes, name, s.cwd) == 0 && id != 0 {
      var n: Inode := Inode(StoredName(name), s.cwd, [0, 0, 0, 0], 0, 1, 0);
      FreeBound(s.nodes);
      NewDirEntry(s, id, n);
      PutRefines(s, id, n);
      PutKeepsClean(s, id, n);
    }
  }

  /** What both writers do: the file of this name, if there is one, gets the bytes. */
  function StoreByName(s: Fs, name: seq<byte>, bytes: seq<byte>, clearWhenEmpty: bool): Fs
    requires Shaped(s) && BlockNumbersLeft(s.nodes) && |bytes| <= MAX_SIZE
  {
    var id := Lookup(s.nodes, name, s.cwd);
    if id != 0 && s.nodes[id - 1].isDirectory == 0 then Store(s, id, bytes, clearWhenEmpty) else s
  }

  predicate RoomByName(s: Fs, name: seq<byte>, size: nat)
    requires Shaped(s) && BlockNumbersLeft(s.nodes)
  {
    var id := Lookup(s.nodes, name, s.cwd);
    id != 0 && s.nodes[id - 1].isDirectory == 0 ==> GrowsSafely(s, id, size)
  }

  lemma RewriteRefines(s: Fs, name: seq<byte>, bytes: seq<byte>, clearWhenEmpty: bool)
    requires Good(s) && BlockNumbersLeft(s.nodes) && |bytes| <= MAX_SIZE && RoomByName(s, name, |bytes|)
    ensures var t := StoreByName(s, name, bytes, clearWhenEmpty);
            ViewOf(t) == Rewritten(ViewOf(s), name, bytes) && Clean(t)
  {
    SameSearch(s, name);
    var id := Lookup(s.nodes, name, s.cwd);
    hide HighWater, CString, Find, Needed, Grown, WriteChunks, Content, LookupFrom, GrowsSafely;
    if id != 0 && s.nodes[id - 1].isDirectory == 0 {
      StoreRefines(s, id, bytes, clearWhenEmpty);
      StoreKeepsClean(s, id, bytes, clearWhenEmpty);
    }
  }

  lemma AppendRefines(s: Fs, name: seq<byte>, text: seq<byte>)
    requires Good(s) && BlockNumbersLeft(s.nodes) && Careful(s, OpAppend(name, text))
    ensures ViewOf(Append(s, name, text).0) == ViewStep(ViewOf(s), OpAppend(name, text))
            && Clean(Append(s, name, text).0)
  {
    hide HighWater, CString, Find, Needed, Store, Content, Lookup, TreeOf, Inv, TreeInv, Clean, WriteBinary;
    hide GrowsSafely;
    CwdBound(s);
    SameSearch(s, name);
    Found(s, name);
    var id := Lookup(s.nodes, name, s.cwd);
    if id != 0 && s.nodes[id - 1].isDirectory == 0 {
      ContentLength(s, id);
      var size := s.nodes[id - 1].size;
      var bytes := Content(s, id) + text[..Min(|text|, MAX_SIZE - size)];
      assert OldBytes(ViewOf(s), name) == Content(s, id);
      if Min(size + |text|, MAX_SIZE) <= size {
        assert bytes == Content(s, id);
        assert Rewritten(ViewOf(s), name, bytes).tree == TreeOf(s);
      } else {
        assert |bytes| == Min(size + |text|, MAX_SIZE);
        AppendWrites(s, name, bytes);
      }
    }
  }

  lemma AppendWrites(s: Fs, name: seq<byte>, bytes: seq<byte>)
    requires Good(s) && BlockNumbersLeft(s.nodes) && |bytes| <= MAX_SIZE
    requires var id := Lookup(s.nodes, name, s.cwd);
             id != 0 && s.nodes[id - 1].isDirectory == 0
             && GrowsSafely(s, id, |bytes|)
    ensures ViewOf(WriteBinary(s, name, bytes).0) == Rewritten(ViewOf(s), name, bytes)
            && Clean(WriteBinary(s, name, bytes).0)
  {
    RewriteRefines(s, name, bytes, true);
    hide Content, Store, ViewOf, HighWater, Clean, Inv, TreeInv, Lookup;
  }

  lemma DeleteRefines(s: Fs, name: seq<byte>)
    requires Good(s)
    ensures ViewOf(Delete(s, name).0) == ViewStep(ViewOf(s), OpDelete(name)) && Clean(Delete(s, name).0)
  {
    SameSearch(s, name);
    hide Content, CString, Find, TreeInv, Inv;
    var id := Lookup(s.nodes, name, s.cwd);
    if id != 0 {
      CwdBound(s);
      PutRefines(s, id, NO_INODE);
      PutKeepsClean(s, id, NO_INODE);
    } else {
      assert TreeOf(s) - {0} == TreeOf(s);
    }
  }

  /** What lookup finds is in the tree. */
  lemma Found(s: Fs, name: seq<byte>)
    requires |s.nodes| == FS_MAX_INODES
    ensures var id := Lookup(s.nodes, name, s.cwd);
            && id <= FS_MAX_INODES
            && (id != 0 ==> Live(s.nodes[id - 1]) && id in TreeOf(s) && TreeOf(s)[id] == EntryOf(s, id))
            && (id != 0 ==> (EntryOf(s, id).File? <==> s.nodes[id - 1].isDirectory == 0))
    ensures 0 !in TreeOf(s)
  {
    hide Content, CString;
  }

  lemma CleanAt(s: Fs, id: nat)
    requires Clean(s)
    ensures 1 <= id <= |s.nodes| && Live(s.nodes[id - 1]) ==> CleanNode(s.data, s.nodes[id - 1])
  {
  }

  lemma RenamedEntry(s: Fs, id: nat, n: Inode)
    requires 1 <= id <= |s.nodes| && n == s.nodes[id - 1].(name := n.name)
    ensures EntryOf(PutNode(s, id, n), id) == EntryOf(s, id).(name := NameOf(n))
    ensures CleanNode(s.data, s.nodes[id - 1]) ==> CleanNode(s.data, n)
  {
  }

  lemma RenameRefines(s: Fs, name: seq<byte>, newName: seq<byte>)
    requires Good(s) && BlockNumbersLeft(s.nodes) && Careful(s, OpRename(name, newName))
    ensures ViewOf(Rename(s, name, newName).0) == ViewStep(ViewOf(s), OpRename(name, newName))
            && Clean(Rename(s, name, newName).0)
  {
    hide Content, CString, StoredName, Find, TreeInv, Inv, HighWater, Truncated, Cut, Lookup, TreeOf, EntryOf;
    hide CleanNode;
    hide Clean;
    CwdBound(s);
    SameSearch(s, name);
    SameSearch(s, newName);
    CutIsTruncated(newName);
    StoredNameReadsBack(newName);
    Found(s, name);
    var id := Lookup(s.nodes, name, s.cwd);
    CleanAt(s, id);
    if id != 0 && Lookup(s.nodes, newName, s.cwd) == 0 {
      var n: Inode := s.nodes[id - 1].(name := StoredName(newName));
      RenamedEntry(s, id, n);
      PutRefines(s, id, n);
      PutKeepsClean(s, id, n);
    }
  }

  lemma MovedTree(s: Fs, cwd: nat)
    ensures TreeOf(s.(cwd := cwd)) == TreeOf(s)
  {
    hide Content, CString;
    forall j: nat
      ensures Content(s.(cwd := cwd), j) == Content(s, j)
    {
      SameDataSameContent(s, s.(cwd := cwd), j);
    }
  }

  /** The current directory, if not the root, is in the tree. */
  lemma CwdInTree(s: Fs)
    requires Good(s)
    ensures s.cwd != 0 ==> s.cwd in TreeOf(s) && TreeOf(s)[s.cwd].parent == NodeAt(s.nodes, s.cwd).parent
    ensures s.cwd == 0 ==> s.cwd !in TreeOf(s)
  {
    hide Content, CString, Inv, Acyclic, Clean;
    var k: nat :| Home(s.nodes, s.cwd, k);
  }

  lemma MovedClean(s: Fs, cwd: nat)
    requires Clean(s)
    ensures Clean(s.(cwd := cwd))
  {
    hide CleanNode;
  }

  lemma ChangeDirMoves(s: Fs, name: seq<byte>)
    requires Good(s)
    ensures ChangeDir(s, name).0 == s.(cwd := MovedTo(ViewOf(s), name))
  {
    hide Inv, TreeInv, Clean, Content, CString, Find, Lookup, TreeOf, EntryOf, NodeAt, Text;
    CdNames();
    CwdBound(s);
    SameSearch(s, name);
    Found(s, name);
    CwdInTree(s);
  }

  lemma ChangeDirRefines(s: Fs, name: seq<byte>)
    requires Good(s)
    ensures ViewOf(ChangeDir(s, name).0) == ViewStep(ViewOf(s), OpChangeDir(name)) && Clean(ChangeDir(s, name).0)
  {
    ChangeDirMoves(s, name);
    MovedTree(s, MovedTo(ViewOf(s), name));
    MovedClean(s, MovedTo(ViewOf(s), name));
    hide Good, ChangeDir, MovedTo, TreeOf, Clean, Shaped;
  }

  /** One operation on the disk is one operation on the tree, with the same answer. */
  lemma StepRefines(s: Fs, op: Op)
    requires Good(s) && BlockNumbersLeft(s.nodes) && Careful(s, op)
    ensures ViewOf(Step(s, op)) == ViewStep(ViewOf(s), op) && Good(Step(s, op))
    ensures Code(s, op) == ViewResult(ViewOf(s), op)
  {
    CodesAgree(s, op);
    hide Code, ViewResult;
    StepKeepsInv(s, op);
    ParentsBounded(s);
    StepKeepsTree(s, op);
    match op
    case OpCreate(name) => CreateRefines(s, name);
    case OpMkdir(name) => MkdirRefines(s, name);
    case OpWrite(name, text) => WriteRefines(s, name, text);
    case OpWriteBinary(name, bytes) => WriteBinaryRefines(s, name, bytes);
    case OpAppend(name, text) => AppendRefines(s, name, text);
    case OpDelete(name) => DeleteRefines(s, name);
    case OpRename(name, newName) => RenameRefines(s, name, newName);
    case OpChangeDir(name) => ChangeDirRefines(s, name);
  }

  lemma ParentsBounded(s: Fs)
    requires Inv(s)
    ensures forall i :: 0 <= i < |s.nodes| ==> s.nodes[i].parent <= FS_MAX_INODES
  {
    forall i | 0 <= i < |s.nodes|
      ensures s.nodes[i].parent <= FS_MAX_INODES
    {
      assert NodeSane(s.nodes[i]);
    }
  }

  lemma WriteRefines(s: Fs, name: seq<byte>, text: seq<byte>)
    requires Good(s) && BlockNumbersLeft(s.nodes) && Careful(s, OpWrite(name, text))
    ensures ViewOf(Write(s, name, text).0) == ViewStep(ViewOf(s), OpWrite(name, text)) && Clean(Write(s, name, text).0)
  {
    var bytes := text[..Min(|text|, MAX_SIZE)];
    WriteStores(s, name, text);
    CarefulHasRoom(s, OpWrite(name, text), |bytes|);
    hide Write, StoreByName, RoomByName, Careful, ViewOf, HighWater, Clean, Inv, Shaped, Rewritten;
    RewriteRefines(s, name, bytes, false);
  }

  lemma WriteStores(s: Fs, name: seq<byte>, text: seq<byte>)
    requires Shaped(s) && BlockNumbersLeft(s.nodes)
    ensures Write(s, name, text).0 == StoreByName(s, name, text[..Min(|text|, MAX_SIZE)], false)
  {
    hide Store, HighWater, Lookup, Shaped;
  }

  lemma WriteBinaryStores(s: Fs, name: seq<byte>, bytes: seq<byte>)
    requires Shaped(s) && BlockNumbersLeft(s.nodes)
    ensures WriteBinary(s, name, bytes).0 == if |bytes| <= MAX_SIZE then StoreByName(s, name, bytes, true) else s
  {
    hide Store, HighWater, Lookup, Shaped;
  }

  lemma CarefulHasRoom(s: Fs, op: Op, size: nat)
    requires Good(s) && BlockNumbersLeft(s.nodes) && Careful(s, op) && (op.OpWrite? || op.OpWriteBinary?)
    requires size == NewLength(s, op) <= MAX_SIZE
    ensures RoomByName(s, TargetName(op), size)
  {
    hide HighWater, Lookup, GrowsSafely;
  }

  lemma WriteBinaryRefines(s: Fs, name: seq<byte>, bytes: seq<byte>)
    requires Good(s) && BlockNumbersLeft(s.nodes) && Careful(s, OpWriteBinary(name, bytes))
    ensures ViewOf(WriteBinary(s, name, bytes).0) == ViewStep(ViewOf(s), OpWriteBinary(name, bytes))
            && Clean(WriteBinary(s, name, bytes).0)
  {
    WriteBinaryStores(s, name, bytes);
    if |bytes| <= MAX_SIZE {
      CarefulHasRoom(s, OpWriteBinary(name, bytes), |bytes|);
      hide WriteBinary, StoreByName, RoomByName, Careful, ViewOf, HighWater, Clean, Inv, Shaped, Rewritten;
      RewriteRefines(s, name, bytes, true);
    }
  }

  // ---- whole runs ------------------------------------------------------------------------------------

  /** A run all of whose steps are careful. */
  predicate CarefulRun(s: Fs, ops: seq<Op>)
    requires Shaped(s)
    decreases |ops|
  {
    ops == [] ||
    (BlockNumbersLeft(s.nodes) && Careful(s, ops[0])
     && (Shaped(Step(s, ops[0])) ==> CarefulRun(Step(s, ops[0]), ops[1..])))
  }

  function Run(s: Fs, ops: seq<Op>): Fs
    requires Shaped(s)
    decreases |ops|
  {
    if ops == [] || !BlockNumbersLeft(s.nodes) || !Shaped(Step(s, ops[0])) then s else Run(Step(s, ops[0]), ops[1..])
  }

  /** The answers of a run. */
  function Codes(s: Fs, ops: seq<Op>): seq<int>
    requires Shaped(s)
    decreases |ops|
  {
    if ops == [] || !BlockNumbersLeft(s.nodes) || !Shaped(Step(s, ops[0])) then []
    else [Code(s, ops[0])] + Codes(Step(s, ops[0]), ops[1..])
  }

  function ViewCodes(v: View, ops: seq<Op>): seq<int>
    decreases |ops|
  {
    if ops == [] then [] else [ViewResult(v, ops[0])] + ViewCodes(ViewStep(v, ops[0]), ops[1..])
  }

  function ViewRun(v: View, ops: seq<Op>): View
    decreases |ops|
  {
    if ops == [] then v else ViewRun(ViewStep(v, ops[0]), ops[1..])
  }

  /** Over any careful run the disk behaves as the tree: in particular every file reads back as the bytes
      last written, appended to and renamed as the abstract operations say. */
  lemma {:induction false} RunRefines(s: Fs, ops: seq<Op>)
    requires Good(s) && CarefulRun(s, ops)
    ensures ViewOf(Run(s, ops)) == ViewRun(ViewOf(s), ops) && Good(Run(s, ops))
    ensures Codes(s, ops) == ViewCodes(ViewOf(s), ops)
    decreases |ops|
  {
    if ops != [] {
      hide ViewOf, ViewStep, Step, Careful, TreeInv, Clean, Code, ViewResult;
      StepRefines(s, ops[0]);
      RunRefines(Step(s, ops[0]), ops[1..]);
    }
  }

  /** A freshly formatted disk is an empty tree. */
  lemma FormattedIsEmpty(data: seq<Sector>)
    ensures Good(Formatted(data)) && ViewOf(Formatted(data)) == View(map[], 0)
  {
    var s := Formatted(data);
    assert forall i :: 0 <= i < |s.nodes| ==> !Live(s.nodes[i]);
    assert TreeOf(s) == map[];
    forall id: nat
      ensures Rooted(s.nodes, id)
    {
      assert Grounded(s.nodes, ParentOf(s.nodes, id), 0);
      assert Grounded(s.nodes, id, 1);
    }
    assert Home(s.nodes, 0, 0);
  }

  /** What holds in every state reached from a formatted disk, with any names, any growth and any order of
      operations: block ownership, and a tree whose current directory leads home. */
  lemma {:induction false} RunKeepsInvariants(s: Fs, ops: seq<Op>)
    requires Inv(s) && TreeInv(s)
    ensures Inv(Run(s, ops)) && TreeInv(Run(s, ops))
    decreases |ops|
  {
    if ops != [] && BlockNumbersLeft(s.nodes) {
      ParentsBounded(s);
      hide Inv, TreeInv, Step;
      StepKeepsInv(s, ops[0]);
      StepKeepsTree(s, ops[0]);
      RunKeepsInvariants(Step(s, ops[0]), ops[1..]);
    }
  }

  lemma {:induction false} RunKeepsNames(s: Fs, ops: seq<Op>)
    requires Shaped(s) && NamesInv(s.nodes) && forall i :: 0 <= i < |ops| ==> PlainOp(ops[i])
    ensures Shaped(Run(s, ops)) && NamesInv(Run(s, ops).nodes)
    decreases |ops|
  {
    if ops != [] && BlockNumbersLeft(s.nodes) && Shaped(Step(s, ops[0])) {
      hide NamesInv, Step, PlainOp, Shaped, HighWater;
      StepKeepsNames(s, ops[0]);
      RunKeepsNames(Step(s, ops[0]), ops[1..]);
    }
  }

  /** In every state reached from a formatted disk with plain names, the path pwd shows leads from the root
      back to the current directory. */
  lemma ReachablePwdRoundTrip(data: seq<Sector>, ops: seq<Op>)
    requires forall i :: 0 <= i < |ops| ==> PlainOp(ops[i])
    ensures var s := Run(Formatted(data), ops);
            exists k: nat :: Shaped(s) && Home(s.nodes, s.cwd, k)
              && ChangeDirs(s.(cwd := 0), Components(s.nodes, s.cwd, k)) == s
  {
    var s := Run(Formatted(data), ops);
    FormattedIsEmpty(data);
    assert NamesInv(Formatted(data).nodes);
    hide PlainOp, NamesInv, Formatted, Acyclic, Inv;
    RunKeepsNames(Formatted(data), ops);
    RunKeepsInvariants(Formatted(data), ops);
    hide Run;
    var k: nat :| Home(s.nodes, s.cwd, k);
    PwdRoundTrip(s, s.cwd, k);
    assert s.(cwd := s.cwd) == s;
  }

  /** Appending at most 511 bytes never needs two blocks, so small appends are always careful while the disk
      has a block left. */
  lemma SmallAppendIsCareful(s: Fs, name: seq<byte>, text: seq<byte>)
    requires Inv(s) && BlockNumbersLeft(s.nodes) && InDisk(s.data, FreshBlock(s.nodes)) && |text| <= CHUNK
    ensures Careful(s, OpAppend(name, text))
  {
    var id := Lookup(s.nodes, name, s.cwd);
    if id != 0 && s.nodes[id - 1].isDirectory == 0 {
      var n := s.nodes[id - 1];
      assert NodeSane(n);
      hide HighWater;
      GrowsByOne(n.size, Min(n.size + |text|, MAX_SIZE));
    }
  }

  lemma GrowsByOne(size: nat, length: nat)
    requires length <= size + CHUNK
    ensures Needed(length) <= Needed(size) + 1
  {
  }
}
