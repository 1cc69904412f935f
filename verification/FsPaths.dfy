/** The path fs_get_pwd prints, as text: when it can be taken apart again. */
module FsPaths {
  import opened LittleEndian
  import opened FsBytes
  import opened FsSpec
  import opened FsTree
  import opened FsRefinement

  // ---- splitting -------------------------------------------------------------------------------------

  /** The text before the first slash. */
  function UntilSlash(t: seq<byte>): (name: seq<byte>)
    ensures |name| <= |t| && SLASH !in name
    ensures |name| < |t| ==> t[|name|] == SLASH
  {
    if t == [] || t[0] == SLASH then [] else [t[0]] + UntilSlash(t[1..])
  }

  /** The names in a path, each after a slash. */
  function Split(t: seq<byte>): (names: seq<seq<byte>>)
    ensures forall i :: 0 <= i < |names| ==> SLASH !in names[i]
    decreases |t|
  {
    if t == [] then []
    else
      var name := UntilSlash(t[1..]);
      [name] + Split(t[1 + |name|..])
  }

  predicate NoSlashes(names: seq<seq<byte>>) {
    forall i :: 0 <= i < |names| ==> SLASH !in names[i]
  }

  lemma {:induction false} UntilSlashIs(name: seq<byte>, rest: seq<byte>)
    requires SLASH !in name && (rest == [] || rest[0] == SLASH)
    ensures UntilSlash(name + rest) == name
  {
    if name == [] {
      assert name + rest == rest;
    } else {
      assert (name + rest)[1..] == name[1..] + rest;
      UntilSlashIs(name[1..], rest);
    }
  }

  /** A path starts with a slash and its first name. */
  lemma {:induction false} RenderedFirst(names: seq<seq<byte>>)
    requires |names| > 0
    ensures Rendered(names) == [SLASH] + names[0] + Rendered(names[1..])
    decreases |names|
  {
    var before, last := names[..|names| - 1], names[|names| - 1];
    if |names| == 1 {
      assert names[1..] == before;
    } else {
      RenderedFirst(before);
      assert before[1..] == names[1..][..|names| - 2];
    }
  }

  lemma {:induction false} SplitRendered(names: seq<seq<byte>>)
    requires NoSlashes(names)
    ensures Split(Rendered(names)) == names
    decreases |names|
  {
    if |names| > 0 {
      var name, rest := names[0], names[1..];
      SplitRendered(rest);
      RenderedFirst(names);
      if |rest| > 0 {
        RenderedFirst(rest);
      } else {
        assert Rendered(rest) == [];
      }
      hide Rendered;
      assert Rendered(rest) == [] || Rendered(rest)[0] == SLASH;
      SplitFirst(name, Rendered(rest));
    } else {
      assert Rendered(names) == [];
    }
  }

  lemma SplitFirst(name: seq<byte>, rest: seq<byte>)
    requires SLASH !in name && (rest == [] || rest[0] == SLASH)
    ensures Split([SLASH] + name + rest) == [name] + Split(rest)
  {
    var t := [SLASH] + name + rest;
    assert t[1..] == name + rest && t[1 + |name|..] == rest;
    UntilSlashIs(name, rest);
    hide UntilSlash;
  }

  /** The printed path can be split into its names exactly if none of them contains a slash. */
  lemma SplitExactly(names: seq<seq<byte>>)
    ensures Split(Rendered(names)) == names <==> NoSlashes(names)
  {
    if NoSlashes(names) {
      SplitRendered(names);
    }
  }

  // ---- over runs -------------------------------------------------------------------------------------

  /** No live name contains a slash. */
  ghost predicate SlashFree(nodes: seq<Inode>) {
    forall i :: 0 <= i < |nodes| && Live(nodes[i]) ==> SLASH !in NameOf(nodes[i])
  }

  predicate SlashFreeOp(op: Op) {
    match op
    case OpCreate(name) => IsText(name) && SLASH !in name
    case OpMkdir(name) => IsText(name) && SLASH !in name
    case OpRename(_, newName) => IsText(newName) && SLASH !in newName
    case _ => true
  }

  lemma PutSlashFree(nodes: seq<Inode>, id: nat, n: Inode, name: seq<byte>)
    requires SlashFree(nodes) && 1 <= id <= |nodes| && IsText(name) && SLASH !in name
    requires !Live(n) || n.name == StoredName(name) || n.name == nodes[id - 1].name
    ensures SlashFree(nodes[id - 1 := n])
  {
    StoredNameReadsBack(name);
    hide CString, StoredName;
  }

  lemma StoreSlashFree(s: Fs, id: nat, bytes: seq<byte>, clearWhenEmpty: bool)
    requires Shaped(s) && BlockNumbersLeft(s.nodes) && SlashFree(s.nodes) && 1 <= id <= |s.nodes| && |bytes| <= MAX_SIZE
    ensures SlashFree(Store(s, id, bytes, clearWhenEmpty).nodes)
  {
    hide HighWater, Grown, Needed, WriteChunks, SlashFree, StoredName;
    var none: seq<byte> := [];
    PutSlashFree(s.nodes, id, Store(s, id, bytes, clearWhenEmpty).nodes[id - 1], none);
  }

  lemma WriteBinarySlashFree(s: Fs, name: seq<byte>, bytes: seq<byte>)
    requires Shaped(s) && BlockNumbersLeft(s.nodes) && SlashFree(s.nodes)
    ensures SlashFree(WriteBinary(s, name, bytes).0.nodes)
  {
    hide HighWater, Store, SlashFree;
    var id := Lookup(s.nodes, name, s.cwd);
    if id != 0 && s.nodes[id - 1].isDirectory == 0 && |bytes| <= MAX_SIZE {
      StoreSlashFree(s, id, bytes, true);
    }
  }

  lemma AppendSlashFree(s: Fs, name: seq<byte>, text: seq<byte>)
    requires Shaped(s) && BlockNumbersLeft(s.nodes) && SlashFree(s.nodes)
    ensures SlashFree(Append(s, name, text).0.nodes)
  {
    hide HighWater, WriteBinary, Content, SlashFree;
    var id := Lookup(s.nodes, name, s.cwd);
    if id != 0 && s.nodes[id - 1].isDirectory == 0
       && Min(s.nodes[id - 1].size + |text|, MAX_SIZE) > s.nodes[id - 1].size {
      WriteBinarySlashFree(s, name, Content(s, id) + text[..Min(|text|, MAX_SIZE - s.nodes[id - 1].size)]);
    }
  }

  lemma StepSlashFree(s: Fs, op: Op)
    requires Shaped(s) && BlockNumbersLeft(s.nodes) && SlashFree(s.nodes) && SlashFreeOp(op)
    ensures SlashFree(Step(s, op).nodes)
  {
    hide SlashFree, StoredName, HighWater, Content, CString, WriteBinary, Append, Store;
    var spare := FreeInode(s.nodes);
    var none: seq<byte> := [];
    match op
    case OpCreate(name) =>
      if Lookup(s.nodes, name, s.cwd) == 0 && spare != 0 {
        PutSlashFree(s.nodes, spare, Inode(StoredName(name), s.cwd, [FreshBlock(s.nodes), 0, 0, 0], 0, 0, 0), name);
      }
    case OpMkdir(name) =>
      if Lookup(s.nodes, name, s.cwd) == 0 && spare != 0 {
        PutSlashFree(s.nodes, spare, Inode(StoredName(name), s.cwd, [0, 0, 0, 0], 0, 1, 0), name);
      }
    case OpWrite(name, text) =>
      var id := Lookup(s.nodes, name, s.cwd);
      if id != 0 && s.nodes[id - 1].isDirectory == 0 {
        StoreSlashFree(s, id, text[..Min(|text|, MAX_SIZE)], false);
      }
    case OpWriteBinary(name, bytes) => WriteBinarySlashFree(s, name, bytes);
    case OpAppend(name, text) => AppendSlashFree(s, name, text);
    case OpDelete(name) =>
      var id := Lookup(s.nodes, name, s.cwd);
      if id != 0 {
        PutSlashFree(s.nodes, id, NO_INODE, none);
      }
    case OpRename(name, newName) =>
      var id := Lookup(s.nodes, name, s.cwd);
      if id != 0 && Lookup(s.nodes, newName, s.cwd) == 0 {
        PutSlashFree(s.nodes, id, s.nodes[id - 1].(name := StoredName(newName)), newName);
      }
    case OpChangeDir(name) =>
  }

  lemma {:induction false} RunSlashFree(s: Fs, ops: seq<Op>)
    requires Shaped(s) && SlashFree(s.nodes) && forall i :: 0 <= i < |ops| ==> SlashFreeOp(ops[i])
    ensures Shaped(Run(s, ops)) && SlashFree(Run(s, ops).nodes)
    decreases |ops|
  {
    if ops != [] && BlockNumbersLeft(s.nodes) && Shaped(Step(s, ops[0])) {
      hide SlashFree, Step, SlashFreeOp, Shaped, HighWater;
      StepSlashFree(s, ops[0]);
      RunSlashFree(Step(s, ops[0]), ops[1..]);
    }
  }

  lemma {:induction false} ComponentsSlashFree(nodes: seq<Inode>, id: nat, k: nat)
    requires Home(nodes, id, k) && SlashFree(nodes)
    ensures NoSlashes(Components(nodes, id, k))
    decreases k
  {
    hide SlashFree, CString;
    if id != 0 {
      ComponentsSlashFree(nodes, nodes[id - 1].parent, k - 1);
      assert Live(nodes[id - 1]);
      LiveSlashFree(nodes, id - 1);
    }
  }

  lemma LiveSlashFree(nodes: seq<Inode>, i: nat)
    requires SlashFree(nodes) && i < |nodes| && Live(nodes[i])
    ensures SLASH !in NameOf(nodes[i])
  {
    hide CString;
  }

  /** In every state reached from a formatted disk with plain names without slashes: the text fs_get_pwd prints,
      split at its slashes, leads from the root back to the current directory. */
  lemma ReachablePathRoundTrip(data: seq<Sector>, ops: seq<Op>)
    requires forall i :: 0 <= i < |ops| ==> PlainOp(ops[i]) && SlashFreeOp(ops[i])
    ensures var s := Run(Formatted(data), ops);
            exists k: nat :: Shaped(s) && Home(s.nodes, s.cwd, k)
              && ChangeDirs(s.(cwd := 0), Split(Rendered(Components(s.nodes, s.cwd, k)))) == s
  {
    var f, s := Formatted(data), Run(Formatted(data), ops);
    assert SlashFree(f.nodes) && Shaped(f);
    hide PlainOp, SlashFreeOp, SlashFree, Formatted, Run, Shaped, Split, Rendered, NoSlashes;
    ReachablePwdRoundTrip(data, ops);
    RunSlashFree(f, ops);
    var k: nat :| Shaped(s) && Home(s.nodes, s.cwd, k)
                  && ChangeDirs(s.(cwd := 0), Components(s.nodes, s.cwd, k)) == s;
    ComponentsSlashFree(s.nodes, s.cwd, k);
    SplitExactly(Components(s.nodes, s.cwd, k));
  }
}
