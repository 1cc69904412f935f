/** Block numbers are a high-water mark: each operation that takes a new block raises it by exactly one, nothing
    else raises it, and creating and deleting files does so without any data. */
module FsBlockNumbers {
  import opened LittleEndian
  import opened FsBytes
  import opened FsSpec
  import opened FsInvariants
  import opened FsTree
  import opened FsContents
  import opened FsRefinement

  // ---- how far one operation raises the mark ---------------------------------------------------------

  predicate BlocksUpTo(n: Inode, limit: nat) {
    forall b :: 0 <= b < FS_MAX_BLOCKS ==> n.blocks[b] <= limit
  }

  lemma HighWaterBound(nodes: seq<Inode>, limit: nat)
    requires FS_DATA_START - 1 <= limit
    requires forall i :: 0 <= i < |nodes| && Live(nodes[i]) ==> BlocksUpTo(nodes[i], limit)
    ensures HighWater(nodes) <= limit
  {
  }

  lemma BelowHighWater(nodes: seq<Inode>, i: nat)
    requires i < |nodes| && Live(nodes[i])
    ensures BlocksUpTo(nodes[i], HighWater(nodes))
  {
  }

  /** One inode replaced: the mark stays at or below any limit above the old mark and the new blocks ... */
  lemma PutStaysBelow(nodes: seq<Inode>, id: nat, n: Inode, limit: nat)
    requires 1 <= id <= |nodes| && HighWater(nodes) <= limit && (Live(n) ==> BlocksUpTo(n, limit))
    ensures HighWater(nodes[id - 1 := n]) <= limit
  {
    var after := nodes[id - 1 := n];
    forall i | 0 <= i < |after| && Live(after[i])
      ensures BlocksUpTo(after[i], limit)
    {
      if i != id - 1 {
        BelowHighWater(nodes, i);
        hide HighWater;
      }
    }
    HighWaterBound(after, limit);
  }

  /** ... and reaches every block of a live inode. */
  lemma MarkReaches(nodes: seq<Inode>, i: nat, b: nat)
    requires i < |nodes| && Live(nodes[i]) && b < FS_MAX_BLOCKS
    ensures nodes[i].blocks[b] <= HighWater(nodes)
  {
    BelowHighWater(nodes, i);
  }

  /** Some block that a file of this length uses is missing. */
  predicate LacksBlock(blocks: seq<u32>, length: nat) {
    exists b :: 0 <= b < |blocks| && b < Needed(length) && blocks[b] == 0
  }

  /** The operation takes a new block: a creation that succeeds, or a write or append that grows its file. */
  predicate TakesBlock(s: Fs, op: Op)
    requires Shaped(s)
  {
    match op
    case OpCreate(name) =>
      Lookup(s.nodes, name, s.cwd) == 0 && FreeInode(s.nodes) != 0 && name != [] && name[0] != 0
    case OpWrite(_, _) => Grows(s, op)
    case OpWriteBinary(_, _) => Grows(s, op)
    case OpAppend(_, _) => Grows(s, op)
    case _ => false
  }

  predicate Grows(s: Fs, op: Op)
    requires Shaped(s)
  {
    var id := Lookup(s.nodes, TargetName(op), s.cwd);
    id != 0 && s.nodes[id - 1].isDirectory == 0 && NewLength(s, op) <= MAX_SIZE
    && LacksBlock(s.nodes[id - 1].blocks, NewLength(s, op))
  }

  function One(b: bool): nat {
    if b then 1 else 0
  }

  /** What an operation does to the mark: exactly one more if it takes a block, otherwise not higher. */
  predicate Raised(s: Fs, t: Fs, taken: bool) {
    if taken then HighWater(t.nodes) == HighWater(s.nodes) + 1 else HighWater(t.nodes) <= HighWater(s.nodes)
  }

  lemma NotRaised(s: Fs)
    ensures Raised(s, s, false)
  {
  }

  lemma StoreRaises(s: Fs, id: nat, bytes: seq<byte>, clearWhenEmpty: bool)
    requires Shaped(s) && BlockNumbersLeft(s.nodes) && 1 <= id <= |s.nodes| && Live(s.nodes[id - 1])
             && |bytes| <= MAX_SIZE
    ensures Raised(s, Store(s, id, bytes, clearWhenEmpty), LacksBlock(s.nodes[id - 1].blocks, |bytes|))
  {
    var n := s.nodes[id - 1];
    var mark := HighWater(s.nodes);
    var g := Grown(n.blocks, Needed(|bytes|), FreshBlock(s.nodes));
    var n': Inode := n.(blocks := g, size := |bytes|);
    BelowHighWater(s.nodes, id - 1);
    var lacks := LacksBlock(n.blocks, |bytes|);
    hide HighWater, Needed, StoredData;
    PutStaysBelow(s.nodes, id, n', mark + One(lacks));
    if lacks {
      var b :| 0 <= b < |n.blocks| && b < Needed(|bytes|) && n.blocks[b] == 0;
      MarkReaches(s.nodes[id - 1 := n'], id - 1, b);
    }
  }

  lemma CreateRaises(s: Fs, name: seq<byte>)
    requires Shaped(s) && BlockNumbersLeft(s.nodes)
    ensures Raised(s, Create(s, name).0, TakesBlock(s, OpCreate(name)))
  {
    var id := FreeInode(s.nodes);
    var mark := HighWater(s.nodes);
    var n: Inode := Inode(StoredName(name), s.cwd, [FreshBlock(s.nodes), 0, 0, 0], 0, 0, 0);
    assert Live(n) <==> name != [] && name[0] != 0;
    hide HighWater, StoredName, Lookup;
    if Lookup(s.nodes, name, s.cwd) == 0 && id != 0 {
      PutStaysBelow(s.nodes, id, n, mark + One(Live(n)));
      if Live(n) {
        MarkReaches(s.nodes[id - 1 := n], id - 1, 0);
      }
    }
  }

  lemma MkdirRaises(s: Fs, name: seq<byte>)
    requires Shaped(s)
    ensures Raised(s, Mkdir(s, name).0, false)
  {
    var id := FreeInode(s.nodes);
    hide HighWater, StoredName, Lookup;
    if Lookup(s.nodes, name, s.cwd) == 0 && id != 0 {
      PutStaysBelow(s.nodes, id, Inode(StoredName(name), s.cwd, [0, 0, 0, 0], 0, 1, 0), HighWater(s.nodes));
    }
  }

  lemma DeleteRaises(s: Fs, name: seq<byte>)
    requires Shaped(s)
    ensures Raised(s, Delete(s, name).0, false)
  {
    hide HighWater;
    var id := Lookup(s.nodes, name, s.cwd);
    if id != 0 {
      PutStaysBelow(s.nodes, id, NO_INODE, HighWater(s.nodes));
    }
  }

  lemma RenameRaises(s: Fs, oldName: seq<byte>, newName: seq<byte>)
    requires Shaped(s)
    ensures Raised(s, Rename(s, oldName, newName).0, false)
  {
    var id := Lookup(s.nodes, oldName, s.cwd);
    if id != 0 && Lookup(s.nodes, newName, s.cwd) == 0 {
      assert Live(s.nodes[id - 1]);
      BelowHighWater(s.nodes, id - 1);
      hide HighWater, StoredName, Lookup;
      PutStaysBelow(s.nodes, id, s.nodes[id - 1].(name := StoredName(newName)), HighWater(s.nodes));
    }
  }

  /** When the writers and append take a block, for a file found by name. */
  lemma GrowsMeans(s: Fs, name: seq<byte>, text: seq<byte>, bytes: seq<byte>, id: nat)
    requires Shaped(s) && id == Lookup(s.nodes, name, s.cwd) && |bytes| <= MAX_SIZE
    ensures id <= |s.nodes| && (id != 0 ==> Live(s.nodes[id - 1]))
    ensures TakesBlock(s, OpWrite(name, text)) <==>
              id != 0 && s.nodes[id - 1].isDirectory == 0 && LacksBlock(s.nodes[id - 1].blocks, Min(|text|, MAX_SIZE))
    ensures TakesBlock(s, OpAppend(name, text)) <==>
              id != 0 && s.nodes[id - 1].isDirectory == 0
              && LacksBlock(s.nodes[id - 1].blocks, Min(s.nodes[id - 1].size + |text|, MAX_SIZE))
    ensures TakesBlock(s, OpWriteBinary(name, bytes)) <==>
              id != 0 && s.nodes[id - 1].isDirectory == 0 && LacksBlock(s.nodes[id - 1].blocks, |bytes|)
  {
    hide LacksBlock, CString;
  }

  lemma WriteRaises(s: Fs, name: seq<byte>, text: seq<byte>)
    requires Shaped(s) && BlockNumbersLeft(s.nodes)
    ensures Raised(s, Write(s, name, text).0, TakesBlock(s, OpWrite(name, text)))
  {
    var id := Lookup(s.nodes, name, s.cwd);
    GrowsMeans(s, name, text, [], id);
    NotRaised(s);
    hide HighWater, Lookup, Store, LacksBlock, Shaped, TakesBlock, Live, Raised;
    if id != 0 && s.nodes[id - 1].isDirectory == 0 {
      StoreRaises(s, id, text[..Min(|text|, MAX_SIZE)], false);
    }
  }

  lemma WriteBinaryRaises(s: Fs, name: seq<byte>, bytes: seq<byte>)
    requires Shaped(s) && BlockNumbersLeft(s.nodes) && |bytes| <= MAX_SIZE
    ensures Raised(s, WriteBinary(s, name, bytes).0, TakesBlock(s, OpWriteBinary(name, bytes)))
  {
    var id := Lookup(s.nodes, name, s.cwd);
    GrowsMeans(s, name, [], bytes, id);
    NotRaised(s);
    hide HighWater, Lookup, Store, LacksBlock, Shaped, TakesBlock, Live, Raised;
    if id != 0 && s.nodes[id - 1].isDirectory == 0 {
      StoreRaises(s, id, bytes, true);
    }
  }

  lemma TooLongTakesNothing(s: Fs, name: seq<byte>, bytes: seq<byte>)
    requires Shaped(s) && BlockNumbersLeft(s.nodes) && |bytes| > MAX_SIZE
    ensures WriteBinary(s, name, bytes).0 == s && !TakesBlock(s, OpWriteBinary(name, bytes))
  {
    hide Lookup, HighWater, Store, LacksBlock;
  }

  lemma NothingLacking(s: Fs, id: nat)
    requires Inv(s) && 1 <= id <= |s.nodes| && Live(s.nodes[id - 1]) && s.nodes[id - 1].isDirectory == 0
    ensures !LacksBlock(s.nodes[id - 1].blocks, s.nodes[id - 1].size)
  {
    assert NodeSane(s.nodes[id - 1]);
  }

  /** An append does nothing, or is the binary write of its bytes, which then takes a block exactly if it does. */
  lemma AppendStores(s: Fs, name: seq<byte>, text: seq<byte>) returns (bytes: seq<byte>)
    requires Inv(s) && BlockNumbersLeft(s.nodes)
    ensures |bytes| <= MAX_SIZE
    ensures (Append(s, name, text).0 == s && !TakesBlock(s, OpAppend(name, text)))
            || (Append(s, name, text) == WriteBinary(s, name, bytes)
                && (TakesBlock(s, OpAppend(name, text)) <==> TakesBlock(s, OpWriteBinary(name, bytes))))
  {
    hide HighWater, Lookup, WriteBinary, Append, Inv, Content, LacksBlock, Shaped, TakesBlock, Live;
    InvIsShaped(s);
    var id := Lookup(s.nodes, name, s.cwd);
    bytes := [];
    AppendFails(s, name, text, id);
    GrowsMeans(s, name, text, bytes, id);
    if id != 0 && s.nodes[id - 1].isDirectory == 0 {
      NothingLacking(s, id);
      ContentLength(s, id);
      var size := s.nodes[id - 1].size;
      var extra := Min(size + |text|, MAX_SIZE) - size;
      AppendIsRewrite(s, name, text, id, extra);
      if extra > 0 {
        bytes := Content(s, id) + text[..extra];
        GrowsMeans(s, name, text, bytes, id);
      }
    }
  }

  lemma AppendRaises(s: Fs, name: seq<byte>, text: seq<byte>)
    requires Inv(s) && BlockNumbersLeft(s.nodes)
    ensures Raised(s, Append(s, name, text).0, TakesBlock(s, OpAppend(name, text)))
  {
    hide HighWater, WriteBinary, Append, Inv, Shaped, TakesBlock, Raised;
    InvIsShaped(s);
    var bytes := AppendStores(s, name, text);
    NotRaised(s);
    WriteBinaryRaises(s, name, bytes);
  }

  lemma ChangeDirRaises(s: Fs, name: seq<byte>)
    requires Shaped(s)
    ensures Raised(s, ChangeDir(s, name).0, false)
  {
    hide HighWater, Lookup;
    assert ChangeDir(s, name).0.nodes == s.nodes;
  }

  lemma NoBlockTaken(s: Fs, op: Op)
    requires Shaped(s) && (op.OpMkdir? || op.OpDelete? || op.OpRename? || op.OpChangeDir?)
    ensures !TakesBlock(s, op)
  {
  }

  lemma QuietStep(s: Fs, op: Op)
    requires Shaped(s) && BlockNumbersLeft(s.nodes) && (op.OpMkdir? || op.OpDelete? || op.OpRename? || op.OpChangeDir?)
    ensures Raised(s, Step(s, op), false)
  {
    hide HighWater, Mkdir, Delete, Rename, ChangeDir, Shaped, Raised;
    match op
    case OpMkdir(name) => MkdirRaises(s, name);
    case OpDelete(name) => DeleteRaises(s, name);
    case OpRename(name, newName) => RenameRaises(s, name, newName);
    case OpChangeDir(name) => ChangeDirRaises(s, name);
  }

  /** Every operation raises the mark by exactly one if it takes a block, and not at all otherwise. */
  lemma StepRaises(s: Fs, op: Op)
    requires Inv(s) && BlockNumbersLeft(s.nodes)
    ensures Raised(s, Step(s, op), TakesBlock(s, op))
  {
    hide HighWater, Inv, Create, Write, WriteBinary, Append, Shaped, TakesBlock, Raised;
    InvIsShaped(s);
    match op
    case OpCreate(name) => CreateRaises(s, name);
    case OpWrite(name, text) => WriteRaises(s, name, text);
    case OpWriteBinary(name, bytes) =>
      if |bytes| <= MAX_SIZE {
        WriteBinaryRaises(s, name, bytes);
      } else {
        TooLongTakesNothing(s, name, bytes);
        NotRaised(s);
      }
    case OpAppend(name, text) => AppendRaises(s, name, text);
    case _ =>
      hide Step;
      QuietStep(s, op);
      NoBlockTaken(s, op);
  }

  /** Exactly when a bound on all block numbers survives an operation. */
  lemma BoundSurvivesExactly(s: Fs, op: Op, limit: nat)
    requires Inv(s) && BlockNumbersLeft(s.nodes) && HighWater(s.nodes) <= limit
    ensures HighWater(Step(s, op).nodes) <= limit <==> HighWater(s.nodes) < limit || !TakesBlock(s, op)
  {
    StepRaises(s, op);
    hide HighWater, Step, TakesBlock;
  }

  // ---- whole runs ------------------------------------------------------------------------------------

  /** How many operations of a run take a block. */
  function BlocksTaken(s: Fs, ops: seq<Op>): nat
    requires Shaped(s)
    decreases |ops|
  {
    if |ops| == 0 || !BlockNumbersLeft(s.nodes) || !Shaped(Step(s, ops[0])) then 0
    else One(TakesBlock(s, ops[0])) + BlocksTaken(Step(s, ops[0]), ops[1..])
  }

  lemma {:induction false} RunRaises(s: Fs, ops: seq<Op>)
    requires Inv(s)
    ensures HighWater(Run(s, ops).nodes) <= HighWater(s.nodes) + BlocksTaken(s, ops)
    decreases |ops|
  {
    if |ops| > 0 && BlockNumbersLeft(s.nodes) {
      StepRaises(s, ops[0]);
      StepKeepsInv(s, ops[0]);
      RunRaises(Step(s, ops[0]), ops[1..]);
      hide HighWater, Step, TakesBlock, NodeSane, BlocksDisjoint;
    }
  }

  // ---- the churn that attains it ---------------------------------------------------------------------

  /** One empty file at the root, with block h, and nothing else. */
  predicate OnlyFile(s: Fs, id: nat, name: seq<byte>, h: u32) {
    && Shaped(s) && s.cwd == 0 && 1 <= id <= FS_MAX_INODES && FS_DATA_START <= h
    && s.nodes[id - 1] == EmptyFile(name, h)
    && forall i :: 0 <= i < FS_MAX_INODES && i != id - 1 ==> !Live(s.nodes[i])
  }

  function EmptyFile(name: seq<byte>, h: u32): Inode {
    Inode(StoredName(name), 0, [h, 0, 0, 0], 0, 0, 0)
  }

  lemma FileMeaning(name: seq<byte>, h: u32)
    requires ValidName(name)
    ensures Live(EmptyFile(name, h)) && NameOf(EmptyFile(name, h)) == name
  {
    StoredNameReadsBack(name);
  }

  lemma OnlyFileIsHighest(s: Fs, id: nat, name: seq<byte>, h: u32)
    requires OnlyFile(s, id, name, h) && ValidName(name)
    ensures HighWater(s.nodes) == h
  {
    FileMeaning(name, h);
    hide StoredName;
    assert s.nodes[id - 1].blocks[0] == h;
    forall i, b | 0 <= i < |s.nodes| && 0 <= b < FS_MAX_BLOCKS && Live(s.nodes[i])
      ensures s.nodes[i].blocks[b] <= h
    {
    }
  }

  /** Creating y beside x takes the next block number and a free inode. */
  lemma CreateBeside(s: Fs, id: nat, x: seq<byte>, y: seq<byte>, h: u32) returns (spare: nat)
    requires OnlyFile(s, id, x, h) && ValidName(x) && ValidName(y) && x != y && h + 1 < 0x1_0000_0000
             && BlockNumbersLeft(s.nodes)
    ensures 1 <= spare <= FS_MAX_INODES && spare != id
    ensures Step(s, OpCreate(y)) == PutNode(s, spare, EmptyFile(y, h + 1)) && TakesBlock(s, OpCreate(y))
  {
    hide StoredName, HighWater, CString, FreeInode, Lookup, PutNode, OnlyFile, Shaped;
    OnlyFileIsHighest(s, id, x, h);
    RoomBeside(s, id, x, y, h);
    spare := FreeInode(s.nodes);
  }

  lemma RoomBeside(s: Fs, id: nat, x: seq<byte>, y: seq<byte>, h: u32)
    requires OnlyFile(s, id, x, h) && ValidName(x) && x != y
    ensures Lookup(s.nodes, y, 0) == 0 && s.cwd == 0
    ensures 1 <= FreeInode(s.nodes) <= FS_MAX_INODES && FreeInode(s.nodes) != id
  {
    FileMeaning(x, h);
    hide StoredName, CString;
    assert !Live(s.nodes[if id == 1 then 1 else 0]);
  }

  /** Two empty files, x with block h and y with the next. */
  predicate TwoFiles(t: Fs, id: nat, id': nat, x: seq<byte>, y: seq<byte>, h: u32) {
    && Shaped(t) && t.cwd == 0 && 1 <= id <= FS_MAX_INODES && 1 <= id' <= FS_MAX_INODES && id != id'
    && FS_DATA_START <= h && h + 1 < 0x1_0000_0000
    && t.nodes[id - 1] == EmptyFile(x, h) && t.nodes[id' - 1] == EmptyFile(y, h + 1)
    && forall i :: 0 <= i < FS_MAX_INODES && i != id - 1 && i != id' - 1 ==> !Live(t.nodes[i])
  }

  lemma CreateGivesTwo(s: Fs, id: nat, x: seq<byte>, y: seq<byte>, h: u32) returns (id': nat)
    requires OnlyFile(s, id, x, h) && ValidName(x) && ValidName(y) && x != y && h + 2 < 0x1_0000_0000
    ensures BlockNumbersLeft(s.nodes) && TwoFiles(Step(s, OpCreate(y)), id, id', x, y, h) && TakesBlock(s, OpCreate(y))
  {
    OnlyFileIsHighest(s, id, x, h);
    hide HighWater, StoredName, CString, Lookup, FreeInode;
    id' := CreateBeside(s, id, x, y, h);
    hide TakesBlock;
    assert EmptyFile(y, h + 1).name[FS_NAME_MAX - 1] == 0;
    hide Step;
  }

  lemma TwoFilesHighest(t: Fs, id: nat, id': nat, x: seq<byte>, y: seq<byte>, h: u32)
    requires TwoFiles(t, id, id', x, y, h)
    ensures HighWater(t.nodes) <= h + 1
  {
    BlocksOfEmpty(x, h, h + 1);
    BlocksOfEmpty(y, h + 1, h + 1);
    HighWaterBound(t.nodes, h + 1) by {
      hide EmptyFile, BlocksUpTo;
    }
  }

  lemma BlocksOfEmpty(x: seq<byte>, h: u32, limit: nat)
    requires h <= limit
    ensures BlocksUpTo(EmptyFile(x, h), limit)
  {
  }

  /** Deleting x then leaves y alone, one block number higher. */
  lemma DeleteGivesOne(t: Fs, id: nat, id': nat, x: seq<byte>, y: seq<byte>, h: u32)
    requires TwoFiles(t, id, id', x, y, h) && ValidName(x) && ValidName(y) && x != y && BlockNumbersLeft(t.nodes)
    ensures OnlyFile(Step(t, OpDelete(x)), id', y, h + 1)
  {
    FileMeaning(x, h);
    FileMeaning(y, h + 1);
    hide StoredName, HighWater, CString, EmptyFile;
    assert Matches(t.nodes[id - 1], x, 0) by {
      assert t.nodes[id - 1].parent == 0 by {
        ParentOfEmpty(x, h);
      }
    }
    assert Lookup(t.nodes, x, 0) == id;
  }

  lemma ParentOfEmpty(x: seq<byte>, h: u32)
    ensures EmptyFile(x, h).parent == 0
  {
  }

  lemma OneRound(s: Fs, id: nat, x: seq<byte>, y: seq<byte>, h: u32) returns (id': nat)
    requires OnlyFile(s, id, x, h) && ValidName(x) && ValidName(y) && x != y && h + 2 < 0x1_0000_0000
    ensures Shaped(s) && BlockNumbersLeft(s.nodes)
    ensures var t := Step(s, OpCreate(y));
            Shaped(t) && BlockNumbersLeft(t.nodes) && OnlyFile(Step(t, OpDelete(x)), id', y, h + 1)
    ensures Shaped(Step(Step(s, OpCreate(y)), OpDelete(x)))
    ensures TakesBlock(s, OpCreate(y))
  {
    id' := CreateGivesTwo(s, id, x, y, h);
    hide HighWater, Step, EmptyFile, TakesBlock;
    var t := Step(s, OpCreate(y));
    TwoFilesHighest(t, id, id', x, y, h);
    DeleteGivesOne(t, id, id', x, y, h);
  }

  /** The first two operations of a run. */
  lemma RunTwo(s: Fs, a: Op, b: Op, rest: seq<Op>)
    requires Shaped(s) && BlockNumbersLeft(s.nodes) && Shaped(Step(s, a)) && BlockNumbersLeft(Step(s, a).nodes)
    requires Shaped(Step(Step(s, a), b))
    ensures Run(s, [a, b] + rest) == Run(Step(Step(s, a), b), rest)
    ensures BlocksTaken(s, [a, b] + rest) ==
              One(TakesBlock(s, a)) + One(TakesBlock(Step(s, a), b)) + BlocksTaken(Step(Step(s, a), b), rest)
  {
    var ops := [a, b] + rest;
    assert ops[1..][1..] == rest && ops[0] == a && ops[1..][0] == b;
    hide Step, HighWater, Shaped, TakesBlock;
  }

  /** Each round: create the one name, delete the other. */
  function Churn(x: seq<byte>, y: seq<byte>, rounds: nat): (ops: seq<Op>)
    ensures |ops| == 2 * rounds
    decreases rounds
  {
    if rounds == 0 then [] else [OpCreate(y), OpDelete(x)] + Churn(y, x, rounds - 1)
  }

  lemma NothingRun(s: Fs, ops: seq<Op>)
    requires Shaped(s) && |ops| == 0
    ensures Run(s, ops) == s && BlocksTaken(s, ops) == 0
  {
  }

  /** Some empty file with block h, and nothing else. */
  ghost predicate OnlyBlock(s: Fs, h: nat) {
    exists id, name :: h < 0x1_0000_0000 && OnlyFile(s, id, name, h) && ValidName(name)
  }

  /** These operations take so many blocks and leave one empty file with block h. */
  ghost predicate ChurnsTo(s: Fs, ops: seq<Op>, h: nat, taken: nat) {
    Shaped(s) && OnlyBlock(Run(s, ops), h) && BlocksTaken(s, ops) == taken
  }

  lemma NoRounds(s: Fs, id: nat, x: seq<byte>, h: u32, ops: seq<Op>)
    requires OnlyFile(s, id, x, h) && ValidName(x) && |ops| == 0
    ensures ChurnsTo(s, ops, h, 0)
  {
    NothingRun(s, ops);
  }

  /** A round of the churn and what follows it. */
  lemma RoundThen(s: Fs, id: nat, x: seq<byte>, y: seq<byte>, h: u32, rest: seq<Op>, last: nat, taken: nat)
    returns (id': nat, u: Fs)
    requires OnlyFile(s, id, x, h) && ValidName(x) && ValidName(y) && x != y && h + 2 < 0x1_0000_0000
    ensures OnlyFile(u, id', y, h + 1)
    ensures ChurnsTo(u, rest, last, taken) ==> ChurnsTo(s, [OpCreate(y), OpDelete(x)] + rest, last, taken + 1)
  {
    id' := OneRound(s, id, x, y, h);
    hide OnlyFile, OnlyBlock, Step, HighWater, Shaped, TakesBlock, Run, BlocksTaken, BlockNumbersLeft;
    var t := Step(s, OpCreate(y));
    u := Step(t, OpDelete(x));
    RunTwo(s, OpCreate(y), OpDelete(x), rest);
    NoBlockTaken(t, OpDelete(x));
  }

  lemma {:induction false} ChurnGrows(s: Fs, id: nat, x: seq<byte>, y: seq<byte>, h: u32, rounds: nat)
    requires OnlyFile(s, id, x, h) && ValidName(x) && ValidName(y) && x != y && h + rounds + 1 < 0x1_0000_0000
    ensures ChurnsTo(s, Churn(x, y, rounds), h + rounds, rounds)
    decreases rounds
  {
    var ops := Churn(x, y, rounds);
    hide OnlyFile, ValidName, ChurnsTo;
    if rounds == 0 {
      NoRounds(s, id, x, h, ops);
    } else {
      var rest := Churn(y, x, rounds - 1);
      assert ops == [OpCreate(y), OpDelete(x)] + rest;
      hide Churn;
      var next, u := RoundThen(s, id, x, y, h, rest, h + rounds, rounds - 1);
      ChurnGrows(u, next, y, x, h + 1, rounds - 1);
    }
  }

  /** A run that starts with one operation. */
  lemma RunOne(s: Fs, a: Op, rest: seq<Op>)
    requires Shaped(s) && BlockNumbersLeft(s.nodes) && Shaped(Step(s, a))
    ensures Run(s, [a] + rest) == Run(Step(s, a), rest)
    ensures BlocksTaken(s, [a] + rest) == One(TakesBlock(s, a)) + BlocksTaken(Step(s, a), rest)
  {
    var ops := [a] + rest;
    assert ops[0] == a && ops[1..] == rest;
    hide Step, HighWater, Shaped, TakesBlock;
  }

  lemma FormattedMark(data: seq<Sector>)
    ensures Inv(Formatted(data)) && HighWater(Formatted(data).nodes) == FS_DATA_START - 1
  {
    FormattedIsEmpty(data);
    var nodes := Formatted(data).nodes;
    assert forall i :: 0 <= i < |nodes| ==> !Live(nodes[i]);
    HighWaterBound(nodes, FS_DATA_START - 1);
  }

  /** The first file on a formatted disk. */
  lemma FirstFile(data: seq<Sector>, x: seq<byte>)
    requires ValidName(x)
    ensures var s := Formatted(data);
            && Shaped(s) && BlockNumbersLeft(s.nodes) && TakesBlock(s, OpCreate(x))
            && Shaped(Step(s, OpCreate(x))) && OnlyFile(Step(s, OpCreate(x)), 1, x, FS_DATA_START)
  {
    var s := Formatted(data);
    FormattedMark(data);
    assert forall i :: 0 <= i < |s.nodes| ==> !Live(s.nodes[i]);
    hide StoredName, CString, HighWater;
    assert FreeInode(s.nodes) == 1 && Lookup(s.nodes, x, 0) == 0;
  }

  /** Every block number from 9 below 2^32 - 1 is reached with two file names and no data at all, sector 100000 of the
      wallpaper included, and in as few block-taking operations as RunRaises allows. */
  lemma BlockNumbersHaveNoBound(data: seq<Sector>, x: seq<byte>, y: seq<byte>, target: u32)
    requires ValidName(x) && ValidName(y) && x != y && FS_DATA_START <= target && target + 1 < 0x1_0000_0000
    ensures exists ops: seq<Op> ::
              && HighWater(Run(Formatted(data), ops).nodes) == target
              && BlocksTaken(Formatted(data), ops) == target - (FS_DATA_START - 1)
              && |ops| == 2 * (target - FS_DATA_START) + 1
  {
    FirstFile(data, x);
    var s, first := Formatted(data), OpCreate(x);
    var rest := Churn(x, y, target - FS_DATA_START);
    hide OnlyFile, Step, Formatted, HighWater, ValidName, Shaped, TakesBlock, BlockNumbersLeft, Run, BlocksTaken;
    hide ChurnsTo;
    ChurnGrows(Step(s, first), 1, x, y, FS_DATA_START, target - FS_DATA_START);
    ChurnedMark(Step(s, first), rest, target, target - FS_DATA_START);
    RunOne(s, first, rest);
    assert |[first] + rest| == 2 * (target - FS_DATA_START) + 1;
  }

  lemma ChurnedMark(s: Fs, ops: seq<Op>, h: nat, taken: nat)
    requires ChurnsTo(s, ops, h, taken)
    ensures HighWater(Run(s, ops).nodes) == h && BlocksTaken(s, ops) == taken
  {
    hide OnlyFile, ValidName, HighWater, Run;
    var id, name :| h < 0x1_0000_0000 && OnlyFile(Run(s, ops), id, name, h) && ValidName(name);
    OnlyFileIsHighest(Run(s, ops), id, name, h);
  }

  /** Exactly when a bound on block numbers holds over all runs from a formatted disk that take at most `blocks` blocks.
      The documented range, 9 to 297, holds for 289 and no more. */
  lemma RunBoundExactly(data: seq<Sector>, blocks: nat, limit: nat)
    requires blocks + FS_DATA_START < 0x1_0000_0000
    ensures (forall ops: seq<Op> :: BlocksTaken(Formatted(data), ops) <= blocks ==>
               HighWater(Run(Formatted(data), ops).nodes) <= limit)
            <==> FS_DATA_START - 1 + blocks <= limit
  {
    var s := Formatted(data);
    FormattedMark(data);
    hide Formatted, HighWater, Run, BlocksTaken, Inv;
    if FS_DATA_START - 1 + blocks <= limit {
      forall ops: seq<Op> | BlocksTaken(s, ops) <= blocks
        ensures HighWater(Run(s, ops).nodes) <= limit
      {
        RunRaises(s, ops);
      }
    } else if blocks > 0 {
      BlockNumbersHaveNoBound(data, [97], [98], FS_DATA_START - 1 + blocks);
      var ops: seq<Op> :| HighWater(Run(s, ops).nodes) == FS_DATA_START - 1 + blocks && BlocksTaken(s, ops) == blocks;
      assert BlocksTaken(s, ops) <= blocks;
    } else {
      var ops: seq<Op> := [];
      NothingRun(s, ops);
      assert BlocksTaken(s, ops) <= blocks;
    }
  }
}
