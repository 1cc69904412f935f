/** The directory graph: following parents always ends at the root, and names lead back to where pwd was. */
module FsTree {
  import opened LittleEndian
  import opened FsBytes
  import opened FsSpec

  function ParentOf(nodes: seq<Inode>, id: nat): nat {
    NodeAt(nodes, id).parent
  }

  /** The id reached by following n parents. */
  function Climb(nodes: seq<Inode>, id: nat, n: nat): nat
    decreases n
  {
    if n == 0 then id else Climb(nodes, ParentOf(nodes, id), n - 1)
  }

  /** At most k parents lead from id to the root. */
  predicate Grounded(nodes: seq<Inode>, id: nat, k: nat)
    decreases k
  {
    id == 0 || (k > 0 && Grounded(nodes, ParentOf(nodes, id), k - 1))
  }

  /** At most k parents lead from id to the root, through live directories only. */
  predicate Home(nodes: seq<Inode>, id: nat, k: nat)
    decreases k
  {
    id == 0 ||
    (k > 0 && id <= |nodes| && Live(nodes[id - 1]) && nodes[id - 1].isDirectory != 0
     && Home(nodes, nodes[id - 1].parent, k - 1))
  }

  ghost predicate Rooted(nodes: seq<Inode>, id: nat) {
    exists k: nat :: Grounded(nodes, id, k)
  }

  ghost predicate Acyclic(nodes: seq<Inode>) {
    forall id: nat :: Rooted(nodes, id)
  }

  /** Parents never cycle, and the current directory is in the live tree.  Parents of other inodes may be
      dead: deleting a directory leaves its entries behind. */
  ghost predicate TreeInv(s: Fs) {
    Shaped(s) && Acyclic(s.nodes) && exists k: nat :: Home(s.nodes, s.cwd, k)
  }

  // ---- no cycles -------------------------------------------------------------------------------------

  lemma {:induction false} GroundedMore(nodes: seq<Inode>, id: nat, k: nat, m: nat)
    requires Grounded(nodes, id, k) && k <= m
    ensures Grounded(nodes, id, m)
    decreases k
  {
    if id != 0 {
      GroundedMore(nodes, ParentOf(nodes, id), k - 1, m - 1);
    }
  }

  lemma {:induction false} ClimbFromRoot(nodes: seq<Inode>, n: nat)
    ensures Climb(nodes, 0, n) == 0
  {
    if n > 0 {
      ClimbFromRoot(nodes, n - 1);
    }
  }

  lemma {:induction false} ClimbSum(nodes: seq<Inode>, id: nat, m: nat, n: nat)
    ensures Climb(nodes, id, m + n) == Climb(nodes, Climb(nodes, id, m), n)
    decreases m
  {
    if m > 0 {
      ClimbSum(nodes, ParentOf(nodes, id), m - 1, n);
    }
  }

  lemma {:induction false} GroundedClimbs(nodes: seq<Inode>, id: nat, k: nat, n: nat)
    requires Grounded(nodes, id, k) && k <= n
    ensures Climb(nodes, id, n) == 0
    decreases k
  {
    if id == 0 {
      ClimbFromRoot(nodes, n);
    } else {
      GroundedClimbs(nodes, ParentOf(nodes, id), k - 1, n - 1);
    }
  }

  lemma {:induction false} LoopAgain(nodes: seq<Inode>, id: nat, n: nat, times: nat)
    requires Climb(nodes, id, n) == id
    ensures Climb(nodes, id, n * times) == id
  {
    if times > 0 {
      LoopAgain(nodes, id, n, times - 1);
      assert n * times == n + n * (times - 1);
      ClimbSum(nodes, id, n, n * (times - 1));
    } else {
      assert n * times == 0;
    }
  }

  /** An id from which the root is reached never meets itself again. */
  lemma NeverRepeats(nodes: seq<Inode>, id: nat, k: nat, n: nat)
    requires Grounded(nodes, id, k) && id != 0 && n > 0
    ensures Climb(nodes, id, n) != id
  {
    if Climb(nodes, id, n) == id {
      LoopAgain(nodes, id, n, k);
      assert n * k >= k by {
        if k > 0 {
          assert n * k == (n - 1) * k + k;
        }
      }
      GroundedClimbs(nodes, id, k, n * k);
    }
  }

  lemma {:induction false} HomeIsGrounded(nodes: seq<Inode>, id: nat, k: nat)
    requires Home(nodes, id, k)
    ensures Grounded(nodes, id, k)
    decreases k
  {
    if id != 0 {
      HomeIsGrounded(nodes, nodes[id - 1].parent, k - 1);
    }
  }

  // ---- replacing one inode ---------------------------------------------------------------------------

  /** Away from inode `hole`, the home path does not notice a change there. */
  lemma {:induction false} HomeKept(nodes: seq<Inode>, id: nat, k: nat, hole: nat, n: Inode)
    requires Home(nodes, id, k) && 1 <= hole <= |nodes| && forall j: nat :: Climb(nodes, id, j) != hole
    ensures Home(nodes[hole - 1 := n], id, k)
    decreases k
  {
    if id != 0 {
      assert Climb(nodes, id, 0) != hole;
      var up := nodes[id - 1].parent;
      forall j: nat
        ensures Climb(nodes, up, j) != hole
      {
        assert Climb(nodes, id, j + 1) != hole;
      }
      HomeKept(nodes, nodes[id - 1].parent, k - 1, hole, n);
    }
  }

  /** A dead inode is not on a home path. */
  lemma {:induction false} DeadNotHome(nodes: seq<Inode>, id: nat, k: nat, hole: nat, j: nat)
    requires Home(nodes, id, k) && 1 <= hole <= |nodes| && !Live(nodes[hole - 1])
    ensures Climb(nodes, id, j) != hole
    decreases k
  {
    if id == 0 {
      ClimbFromRoot(nodes, j);
    } else if j > 0 {
      DeadNotHome(nodes, nodes[id - 1].parent, k - 1, hole, j - 1);
    }
  }

  /** An entry of a directory is not on that directory's own path. */
  lemma ChildNotHome(nodes: seq<Inode>, id: nat, k: nat, child: nat, j: nat)
    requires Home(nodes, id, k) && 1 <= child <= |nodes| && ParentOf(nodes, child) == id
    ensures Climb(nodes, id, j) != child
  {
    if Climb(nodes, id, j) == child {
      HomeIsGrounded(nodes, id, k);
      ClimbSum(nodes, id, j, 1);
      assert Climb(nodes, child, 1) == Climb(nodes, id, 0);
      if id == 0 {
        ClimbFromRoot(nodes, j);
      } else {
        NeverRepeats(nodes, id, k, j + 1);
      }
    }
  }

  /** If the new parent of `hole` is still grounded after the change, so is everything. */
  lemma {:induction false} StillGrounded(nodes: seq<Inode>, id: nat, j: nat, hole: nat, n: Inode, k: nat)
    requires Grounded(nodes, id, j) && 1 <= hole <= |nodes| && Grounded(nodes[hole - 1 := n], n.parent, k)
    ensures Grounded(nodes[hole - 1 := n], id, j + k + 1)
    decreases j
  {
    var nodes' := nodes[hole - 1 := n];
    if id == hole {
      assert ParentOf(nodes', id) == n.parent;
      GroundedMore(nodes', n.parent, k, j + k);
    } else if id != 0 {
      assert ParentOf(nodes', id) == ParentOf(nodes, id);
      StillGrounded(nodes, ParentOf(nodes, id), j - 1, hole, n, k);
    }
  }

  lemma AcyclicKept(nodes: seq<Inode>, hole: nat, n: Inode, k: nat)
    requires Acyclic(nodes) && 1 <= hole <= |nodes| && Grounded(nodes[hole - 1 := n], n.parent, k)
    ensures Acyclic(nodes[hole - 1 := n])
  {
    var nodes' := nodes[hole - 1 := n];
    forall id: nat
      ensures Rooted(nodes', id)
    {
      assert Rooted(nodes, id);
      var j: nat :| Grounded(nodes, id, j);
      StillGrounded(nodes, id, j, hole, n, k);
    }
  }

  /** Filling a dead inode with an entry of the current directory, adopting whatever orphans point at it. */
  lemma FillKeepsTree(s: Fs, id: nat, n: Inode)
    requires TreeInv(s) && 1 <= id <= |s.nodes| && !Live(s.nodes[id - 1])
    requires n.parent == s.cwd && n.name[FS_NAME_MAX - 1] == 0
    ensures TreeInv(PutNode(s, id, n))
  {
    var k: nat :| Home(s.nodes, s.cwd, k);
    forall j: nat
      ensures Climb(s.nodes, s.cwd, j) != id
    {
      DeadNotHome(s.nodes, s.cwd, k, id, j);
    }
    HomeKept(s.nodes, s.cwd, k, id, n);
    HomeIsGrounded(s.nodes[id - 1 := n], s.cwd, k);
    AcyclicKept(s.nodes, id, n, k);
  }

  /** Changing or clearing an entry of the current directory. */
  lemma ChangeKeepsTree(s: Fs, id: nat, n: Inode)
    requires TreeInv(s) && 1 <= id <= |s.nodes| && s.nodes[id - 1].parent == s.cwd
    requires (n.parent == s.cwd || n.parent == 0) && n.name[FS_NAME_MAX - 1] == 0
    ensures TreeInv(PutNode(s, id, n))
  {
    var k: nat :| Home(s.nodes, s.cwd, k);
    forall j: nat
      ensures Climb(s.nodes, s.cwd, j) != id
    {
      ChildNotHome(s.nodes, s.cwd, k, id, j);
    }
    HomeKept(s.nodes, s.cwd, k, id, n);
    HomeIsGrounded(s.nodes[id - 1 := n], s.cwd, k);
    assert Grounded(s.nodes[id - 1 := n], 0, k);
    AcyclicKept(s.nodes, id, n, k);
  }

  lemma MoveKeepsTree(s: Fs, name: seq<byte>)
    requires TreeInv(s) && forall i :: 0 <= i < |s.nodes| ==> s.nodes[i].parent <= FS_MAX_INODES
    ensures TreeInv(ChangeDir(s, name).0)
  {
    var k: nat :| Home(s.nodes, s.cwd, k);
    assert Home(s.nodes, 0, 0);
    var id := Lookup(s.nodes, name, s.cwd);
    if id != 0 && s.nodes[id - 1].isDirectory != 0 {
      assert Home(s.nodes, id, k + 1);
    }
    if s.cwd != 0 {
      assert Home(s.nodes, NodeAt(s.nodes, s.cwd).parent, k - 1);
    }
  }

  lemma StoreKeepsTree(s: Fs, id: nat, bytes: seq<byte>, clearWhenEmpty: bool)
    requires TreeInv(s) && BlockNumbersLeft(s.nodes) && 1 <= id <= |s.nodes| && |bytes| <= MAX_SIZE
             && s.nodes[id - 1].parent == s.cwd
    ensures TreeInv(Store(s, id, bytes, clearWhenEmpty))
  {
    hide HighWater, Grown, Needed, WriteChunks, Acyclic;
    var t := Store(s, id, bytes, clearWhenEmpty);
    ChangeKeepsTree(s, id, t.nodes[id - 1]);
  }

  lemma CwdFits(s: Fs)
    requires TreeInv(s)
    ensures s.cwd <= FS_MAX_INODES < 0x1_0000_0000
  {
  }

  /** Every operation, with any names whatever, keeps the tree: no cycle can be made, although deleting a
      directory orphans its entries and a later inode may take its id over. */
  lemma StepKeepsTree(s: Fs, op: Op)
    requires TreeInv(s) && BlockNumbersLeft(s.nodes)
    requires forall i :: 0 <= i < |s.nodes| ==> s.nodes[i].parent <= FS_MAX_INODES
    ensures TreeInv(Step(s, op))
  {
    hide TreeInv, StoredName, HighWater, Content, Store;
    var spare := FreeInode(s.nodes);
    CwdFits(s);
    match op
    case OpCreate(name) =>
      if Lookup(s.nodes, name, s.cwd) == 0 && spare != 0 {
        FillKeepsTree(s, spare, Inode(StoredName(name), s.cwd, [FreshBlock(s.nodes), 0, 0, 0], 0, 0, 0));
      }
    case OpMkdir(name) =>
      if Lookup(s.nodes, name, s.cwd) == 0 && spare != 0 {
        FillKeepsTree(s, spare, Inode(StoredName(name), s.cwd, [0, 0, 0, 0], 0, 1, 0));
      }
    case OpWrite(name, text) =>
      var id := Lookup(s.nodes, name, s.cwd);
      if id != 0 && s.nodes[id - 1].isDirectory == 0 {
        StoreKeepsTree(s, id, text[..Min(|text|, MAX_SIZE)], false);
      }
    case OpWriteBinary(name, bytes) =>
      WriteBinaryKeepsTree(s, name, bytes);
    case OpAppend(name, text) =>
      AppendKeepsTree(s, name, text);
    case OpDelete(name) =>
      if Lookup(s.nodes, name, s.cwd) != 0 {
        ChangeKeepsTree(s, Lookup(s.nodes, name, s.cwd), NO_INODE);
      }
    case OpRename(name, newName) =>
      var id := Lookup(s.nodes, name, s.cwd);
      if id != 0 && Lookup(s.nodes, newName, s.cwd) == 0 {
        ChangeKeepsTree(s, id, s.nodes[id - 1].(name := StoredName(newName)));
      }
    case OpChangeDir(name) =>
      MoveKeepsTree(s, name);
  }

  lemma WriteBinaryKeepsTree(s: Fs, name: seq<byte>, bytes: seq<byte>)
    requires TreeInv(s) && BlockNumbersLeft(s.nodes)
    ensures TreeInv(WriteBinary(s, name, bytes).0)
  {
    hide Acyclic, Store, HighWater;
    var id := Lookup(s.nodes, name, s.cwd);
    if id != 0 && s.nodes[id - 1].isDirectory == 0 && |bytes| <= MAX_SIZE {
      StoreKeepsTree(s, id, bytes, true);
    }
  }

  lemma AppendKeepsTree(s: Fs, name: seq<byte>, text: seq<byte>)
    requires TreeInv(s) && BlockNumbersLeft(s.nodes)
    ensures TreeInv(Append(s, name, text).0)
  {
    hide Acyclic, WriteBinary, Content, HighWater;
    var id := Lookup(s.nodes, name, s.cwd);
    if id != 0 && s.nodes[id - 1].isDirectory == 0
       && Min(s.nodes[id - 1].size + |text|, MAX_SIZE) > s.nodes[id - 1].size {
      WriteBinaryKeepsTree(s, name, Content(s, id) + text[..Min(|text|, MAX_SIZE - s.nodes[id - 1].size)]);
    }
  }

  // ---- names -----------------------------------------------------------------------------------------

  /** No two live inodes have the same name in the same directory. */
  ghost predicate UniqueNames(nodes: seq<Inode>) {
    forall i, j :: 0 <= i < |nodes| && 0 <= j < |nodes| && i != j
                   && Live(nodes[i]) && Live(nodes[j]) && nodes[i].parent == nodes[j].parent
      ==> NameOf(nodes[i]) != NameOf(nodes[j])
  }

  /** A name the file system stores whole. */
  predicate ValidName(name: seq<byte>) {
    IsText(name) && 1 <= |name| <= FS_NAME_MAX - 1
  }

  lemma {:induction false} CStringOfPadded(t: seq<byte>, n: nat)
    requires IsText(t) && n > 0
    ensures CString(t + Zeros(n)) == t
  {
    if t != [] {
      assert (t + Zeros(n))[1..] == t[1..] + Zeros(n);
      CStringOfPadded(t[1..], n);
    }
  }

  /** What is read back is the name cut to 27 bytes. */
  lemma StoredNameReadsBack(name: seq<byte>)
    requires IsText(name)
    ensures CString(StoredName(name)) == Truncated(name)
    ensures |name| <= FS_NAME_MAX - 1 ==> Truncated(name) == name
    ensures name != [] ==> StoredName(name)[0] != 0
  {
    CStringOfPadded(Truncated(name), FS_NAME_MAX - |Truncated(name)|);
  }

  /** Giving inode `id` a new name in a directory keeps names unique exactly when no other live inode there
      already has the stored (cut) name. */
  lemma RenamedUnique(nodes: seq<Inode>, id: nat, n: Inode)
    requires UniqueNames(nodes) && 1 <= id <= |nodes| && Live(n)
    ensures UniqueNames(nodes[id - 1 := n]) <==>
              forall i :: 0 <= i < |nodes| && i != id - 1 ==> !Matches(nodes[i], NameOf(n), n.parent)
  {
    hide CString;
    var after := nodes[id - 1 := n];
    if UniqueNames(after) {
      forall i | 0 <= i < |nodes| && i != id - 1
        ensures !Matches(nodes[i], NameOf(n), n.parent)
      {
        assert after[i] == nodes[i] && after[id - 1] == n;
      }
    }
  }

  /** Filling a free inode with a file or directory of this name, as fs_create and fs_mkdir do. */
  lemma FilledUnique(nodes: seq<Inode>, id: nat, n: Inode, name: seq<byte>)
    requires UniqueNames(nodes) && 1 <= id <= |nodes| && !Live(nodes[id - 1]) && IsText(name) && name != []
    requires n.name == StoredName(name)
    ensures UniqueNames(nodes[id - 1 := n]) <==> Lookup(nodes, Truncated(name), n.parent) == 0
  {
    StoredNameReadsBack(name);
    assert Live(n) && NameOf(n) == Truncated(name);
    hide CString, StoredName, Truncated;
    RenamedUnique(nodes, id, n);
    var taken := Lookup(nodes, Truncated(name), n.parent);
    if taken != 0 {
      assert Matches(nodes[taken - 1], Truncated(name), n.parent);
      assert taken != id;
    }
  }

  /** Creating a file keeps names unique if and only if the name, cut to 27 bytes, is not taken: the check
      fs_create makes is on the uncut name, so longer names can collide. */
  lemma CreateUniqueExactly(s: Fs, name: seq<byte>)
    requires Shaped(s) && BlockNumbersLeft(s.nodes) && UniqueNames(s.nodes) && IsText(name) && name != []
             && Create(s, name).1 == 0
    ensures UniqueNames(Create(s, name).0.nodes) <==> Lookup(s.nodes, Truncated(name), s.cwd) == 0
  {
    hide HighWater, CString, StoredName, UniqueNames, Truncated, Lookup;
    FilledUnique(s.nodes, FreeInode(s.nodes),
                 Inode(StoredName(name), s.cwd, [FreshBlock(s.nodes), 0, 0, 0], 0, 0, 0), name);
  }

  /** The same for directories. */
  lemma MkdirUniqueExactly(s: Fs, name: seq<byte>)
    requires Shaped(s) && UniqueNames(s.nodes) && IsText(name) && name != [] && Mkdir(s, name).1 == 0
    ensures UniqueNames(Mkdir(s, name).0.nodes) <==> Lookup(s.nodes, Truncated(name), s.cwd) == 0
  {
    hide CString, StoredName, UniqueNames, Truncated, Lookup;
    FilledUnique(s.nodes, FreeInode(s.nodes), Inode(StoredName(name), s.cwd, [0, 0, 0, 0], 0, 1, 0), name);
  }

  /** Renaming keeps names unique if and only if the cut new name is free or is the renamed inode's own. */
  lemma RenameUniqueExactly(s: Fs, oldName: seq<byte>, newName: seq<byte>)
    requires Shaped(s) && UniqueNames(s.nodes) && IsText(newName) && newName != [] && Rename(s, oldName, newName).1 == 0
    ensures var holder := Lookup(s.nodes, Truncated(newName), s.cwd);
            UniqueNames(Rename(s, oldName, newName).0.nodes) <==>
              holder == 0 || holder == Lookup(s.nodes, oldName, s.cwd)
  {
    var id := Lookup(s.nodes, oldName, s.cwd);
    assert Matches(s.nodes[id - 1], oldName, s.cwd);
    RenamedInPlaceUnique(s.nodes, id, newName, s.cwd);
    hide CString, StoredName, UniqueNames, Truncated, Lookup;
  }

  lemma RenamedInPlaceUnique(nodes: seq<Inode>, id: nat, name: seq<byte>, parent: nat)
    requires UniqueNames(nodes) && 1 <= id <= |nodes| && Live(nodes[id - 1]) && nodes[id - 1].parent == parent
    requires IsText(name) && name != []
    ensures var holder := Lookup(nodes, Truncated(name), parent);
            UniqueNames(nodes[id - 1 := nodes[id - 1].(name := StoredName(name))]) <==> holder == 0 || holder == id
  {
    StoredNameReadsBack(name);
    var n: Inode := nodes[id - 1].(name := StoredName(name));
    assert Live(n) && NameOf(n) == Truncated(name);
    hide CString, StoredName, Truncated;
    RenamedUnique(nodes, id, n);
    var holder := Lookup(nodes, Truncated(name), parent);
    if holder != 0 {
      assert Matches(nodes[holder - 1], Truncated(name), parent);
      if holder == id {
        forall i | 0 <= i < |nodes| && i != id - 1
          ensures !Matches(nodes[i], Truncated(name), parent)
        {
        }
      }
    }
  }

  /** A name is plain if cd does not treat it specially. */
  predicate PlainName(name: seq<byte>) {
    ValidName(name) && name != [SLASH] && name != [DOT] && name != [DOT, DOT]
  }

  /** Every live inode has a plain name, and names are unique. */
  ghost predicate NamesInv(nodes: seq<Inode>) {
    UniqueNames(nodes) && forall i :: 0 <= i < |nodes| && Live(nodes[i]) ==> PlainName(NameOf(nodes[i]))
  }

  /** The names an operation introduces are plain. */
  predicate PlainOp(op: Op) {
    match op
    case OpCreate(name) => PlainName(name)
    case OpMkdir(name) => PlainName(name)
    case OpRename(_, newName) => PlainName(newName)
    case _ => true
  }

  lemma PutKeepsNames(nodes: seq<Inode>, id: nat, n: Inode, name: seq<byte>, cwd: nat)
    requires NamesInv(nodes) && 1 <= id <= |nodes| && PlainName(name) && Lookup(nodes, name, cwd) == 0
    requires n.name == StoredName(name) && n.parent == cwd
    ensures NamesInv(nodes[id - 1 := n])
  {
    StoredNameReadsBack(name);
    hide CString, StoredName, PlainName;
    assert NameOf(n) == name && Live(n);
    RenamedUnique(nodes, id, n);
  }

  lemma ClearKeepsNames(nodes: seq<Inode>, id: nat, n: Inode)
    requires NamesInv(nodes) && 1 <= id <= |nodes|
    requires !Live(n) || (n.name == nodes[id - 1].name && n.parent == nodes[id - 1].parent)
    ensures NamesInv(nodes[id - 1 := n])
  {
    hide CString, PlainName;
  }

  /** With plain names, names stay unique over every operation. */
  lemma StepKeepsNames(s: Fs, op: Op)
    requires Shaped(s) && BlockNumbersLeft(s.nodes) && NamesInv(s.nodes) && PlainOp(op)
    ensures NamesInv(Step(s, op).nodes)
  {
    hide NamesInv, StoredName, HighWater, Content, CString, PlainName;
    var spare := FreeInode(s.nodes);
    match op
    case OpCreate(name) =>
      if Lookup(s.nodes, name, s.cwd) == 0 && spare != 0 {
        PutKeepsNames(s.nodes, spare,
                      Inode(StoredName(name), s.cwd, [FreshBlock(s.nodes), 0, 0, 0], 0, 0, 0), name, s.cwd);
      }
    case OpMkdir(name) =>
      if Lookup(s.nodes, name, s.cwd) == 0 && spare != 0 {
        PutKeepsNames(s.nodes, spare, Inode(StoredName(name), s.cwd, [0, 0, 0, 0], 0, 1, 0), name, s.cwd);
      }
    case OpWrite(name, text) =>
      var id := Lookup(s.nodes, name, s.cwd);
      if id != 0 && s.nodes[id - 1].isDirectory == 0 {
        StoreKeepsNames(s, id, text[..Min(|text|, MAX_SIZE)], false);
      }
    case OpWriteBinary(name, bytes) =>
      WriteBinaryKeepsNames(s, name, bytes);
    case OpAppend(name, text) =>
      AppendKeepsNames(s, name, text);
    case OpDelete(name) =>
      var id := Lookup(s.nodes, name, s.cwd);
      if id != 0 {
        ClearKeepsNames(s.nodes, id, NO_INODE);
      }
    case OpRename(name, newName) =>
      var id := Lookup(s.nodes, name, s.cwd);
      if id != 0 && Lookup(s.nodes, newName, s.cwd) == 0 {
        PutKeepsNames(s.nodes, id, s.nodes[id - 1].(name := StoredName(newName)), newName, s.cwd);
      }
    case OpChangeDir(name) =>
  }

  lemma StoreKeepsNames(s: Fs, id: nat, bytes: seq<byte>, clearWhenEmpty: bool)
    requires Shaped(s) && BlockNumbersLeft(s.nodes) && NamesInv(s.nodes) && 1 <= id <= |s.nodes| && |bytes| <= MAX_SIZE
    ensures NamesInv(Store(s, id, bytes, clearWhenEmpty).nodes)
  {
    hide HighWater, Grown, Needed, WriteChunks, NamesInv;
    ClearKeepsNames(s.nodes, id, Store(s, id, bytes, clearWhenEmpty).nodes[id - 1]);
  }

  lemma WriteBinaryKeepsNames(s: Fs, name: seq<byte>, bytes: seq<byte>)
    requires Shaped(s) && BlockNumbersLeft(s.nodes) && NamesInv(s.nodes)
    ensures NamesInv(WriteBinary(s, name, bytes).0.nodes)
  {
    hide HighWater, Store, NamesInv;
    var id := Lookup(s.nodes, name, s.cwd);
    if id != 0 && s.nodes[id - 1].isDirectory == 0 && |bytes| <= MAX_SIZE {
      StoreKeepsNames(s, id, bytes, true);
    }
  }

  lemma AppendKeepsNames(s: Fs, name: seq<byte>, text: seq<byte>)
    requires Shaped(s) && BlockNumbersLeft(s.nodes) && NamesInv(s.nodes)
    ensures NamesInv(Append(s, name, text).0.nodes)
  {
    hide HighWater, WriteBinary, Content, NamesInv;
    var id := Lookup(s.nodes, name, s.cwd);
    if id != 0 && s.nodes[id - 1].isDirectory == 0
       && Min(s.nodes[id - 1].size + |text|, MAX_SIZE) > s.nodes[id - 1].size {
      WriteBinaryKeepsNames(s, name, Content(s, id) + text[..Min(|text|, MAX_SIZE - s.nodes[id - 1].size)]);
    }
  }

  // ---- pwd -------------------------------------------------------------------------------------------

  /** The names from the root down to a directory at home depth at most k. */
  function Components(nodes: seq<Inode>, id: nat, k: nat): seq<seq<byte>>
    requires Home(nodes, id, k)
    decreases k
  {
    if id == 0 then [] else Components(nodes, nodes[id - 1].parent, k - 1) + [NameOf(nodes[id - 1])]
  }

  /** The path as text: each name after a slash. */
  function Rendered(names: seq<seq<byte>>): seq<byte> {
    if names == [] then [] else Rendered(names[..|names| - 1]) + [SLASH] + names[|names| - 1]
  }

  /** cd along a list of names. */
  function ChangeDirs(s: Fs, names: seq<seq<byte>>): Fs
    requires Shaped(s)
    decreases |names|
  {
    if |names| == 0 then s
    else
      var t := ChangeDirs(s, names[..|names| - 1]);
      if Shaped(t) then ChangeDir(t, names[|names| - 1]).0 else t
  }

  /** cd into a directory of the current one goes there and nowhere else. */
  lemma CdFinds(s: Fs, id: nat)
    requires Shaped(s) && NamesInv(s.nodes) && 1 <= id <= |s.nodes|
    requires Live(s.nodes[id - 1]) && s.nodes[id - 1].isDirectory != 0 && s.nodes[id - 1].parent == s.cwd
    ensures ChangeDir(s, NameOf(s.nodes[id - 1])).0 == s.(cwd := id)
  {
    var n := s.nodes[id - 1];
    hide CString;
    assert PlainName(NameOf(n)) && Matches(n, NameOf(n), s.cwd);
    var there := Lookup(s.nodes, NameOf(n), s.cwd);
    assert there != 0 && Matches(s.nodes[there - 1], NameOf(n), s.cwd);
    assert there == id;
  }

  /** `cd /` and then cd along the names pwd prints leads back to the same directory. */
  lemma {:induction false} PwdRoundTrip(s: Fs, id: nat, k: nat)
    requires Shaped(s) && NamesInv(s.nodes) && Home(s.nodes, id, k) && id <= |s.nodes|
    ensures ChangeDirs(s.(cwd := 0), Components(s.nodes, id, k)) == s.(cwd := id)
    decreases k
  {
    var names := Components(s.nodes, id, k);
    if id == 0 {
      assert |names| == 0;
    } else {
      var n := s.nodes[id - 1];
      assert names[..|names| - 1] == Components(s.nodes, n.parent, k - 1);
      assert names[|names| - 1] == NameOf(n);
      hide CString, NamesInv, ChangeDir;
      PwdRoundTrip(s, n.parent, k - 1);
      CdFinds(s.(cwd := n.parent), id);
    }
  }
}
