/** What one store into the table frames does to every translation of every address space. */
module TableStores {
  import opened Words
  import opened FrameSets
  import opened PageTables

  ghost predicate AgreeOn(m: Memory, n: Memory, roles: Roles) {
    forall f: nat, i: nat :: f in roles && i < ENTRIES ==> Entry(n, f, i) == Entry(m, f, i)
  }

  /** Stores outside the table frames change nothing. */
  lemma StoreElsewhere(m: Memory, n: Memory, roles: Roles)
    requires WellFormed(m, roles) && |n| == WORDS && AgreeOn(m, n, roles)
    ensures WellFormed(n, roles) && SameLookups(m, n, roles) && LinksKept(m, n, roles)
  {
    hide Entry, FrameOf, Present, Huge, Writable, User, Hangs;
    forall r, p | r in roles && roles[r].Pml4? && InRange(p)
      ensures Lookup(n, r, p) == Lookup(m, r, p)
    {
      WalkRoles(m, roles, r, p);
    }
    forall f | f in roles
      ensures Hangs(n, roles, f)
    {
      HangsKept(m, n, roles, roles, f);
    }
    forall f: nat, i: nat, j: nat | f in roles && !roles[f].Pml4? && i < ENTRIES && j < ENTRIES
      ensures UserCovers(n, roles[f], f, i, j)
    {
      assert LinkFits(roles, f, i, Entry(m, f, i));
      assert UserCovers(m, roles[f], f, i, j);
    }
  }

  // ---- hanging a new table ---------------------------------------------------------------------------

  /** A zeroed frame g, outside the tree, about to be hung at the absent entry (f, i) through v. */
  ghost predicate Hangable(m: Memory, roles: Roles, f: nat, i: nat, g: nat, v: Word) {
    && WellFormed(m, roles) && f in roles && !roles[f].Pt? && i < ENTRIES && !Present(Entry(m, f, i))
    && g !in roles && 0 < g < MAX_PAGES
    && (forall j: nat :: j < ENTRIES ==> Entry(m, g, j) == 0)
    && Present(v) && Writable(v) && !Huge(v) && FrameOf(v) == g
    && (User(v) ==> UserAbove(m, roles[f]))
  }

  lemma HangKeepsLinks(m: Memory, roles: Roles, f: nat, i: nat, g: nat, v: Word)
    requires Hangable(m, roles, f, i, g, v)
    ensures LinksKept(m, Store(m, f, i, v), roles)
  {
    hide Entry, FrameOf, Present, Huge, Writable, User, Store, UserClosed;
    EntryOfStore(m, f, i, v);
  }

  lemma HangKeepsTree(m: Memory, roles: Roles, f: nat, i: nat, g: nat, v: Word)
    requires Hangable(m, roles, f, i, g, v)
    ensures Tree(Store(m, f, i, v), roles[g := Child(roles[f], f, i)])
  {
    hide Entry, FrameOf, Present, Huge, Writable, User, Store, UserClosed, Hangs, LinksKept;
    var n := Store(m, f, i, v);
    var roles' := roles[g := Child(roles[f], f, i)];
    EntryOfStore(m, f, i, v);
    ZeroIsAbsent();
    HangKeepsLinks(m, roles, f, i, g, v);
    forall h: nat, k: nat | h in roles' && k < ENTRIES
      ensures LinkFits(roles', h, k, Entry(n, h, k))
    {
      if h != g {
        assert LinkFits(roles, h, k, Entry(m, h, k));
      }
    }
    forall h | h in roles && h != g
      ensures Hangs(n, roles', h)
    {
      HangsKept(m, n, roles, roles', h);
    }
    NewTableHangs(n, roles', f, i, g);
  }

  lemma NewTableHangs(n: Memory, roles: Roles, f: nat, i: nat, g: nat)
    requires f in roles && !roles[f].Pt? && g in roles && roles[g] == Child(roles[f], f, i)
    requires HangsAt(n, roles, g, f, i)
    ensures Hangs(n, roles, g)
  {
  }

  lemma HangKeepsClosure(m: Memory, roles: Roles, f: nat, i: nat, g: nat, v: Word)
    requires Hangable(m, roles, f, i, g, v)
    ensures UserClosed(Store(m, f, i, v), roles[g := Child(roles[f], f, i)])
  {
    hide Entry, FrameOf, Present, Huge, Writable, User, Store, Hangs;
    var n := Store(m, f, i, v);
    var roles' := roles[g := Child(roles[f], f, i)];
    EntryOfStore(m, f, i, v);
    ZeroIsAbsent();
    forall h: nat, k: nat, j: nat | h in roles' && !roles'[h].Pml4? && k < ENTRIES && j < ENTRIES
      ensures UserCovers(n, roles'[h], h, k, j)
    {
      if h != g {
        assert LinkFits(roles, h, k, Entry(m, h, k));
        assert UserCovers(m, roles[h], h, k, j);
      }
    }
  }

  /** Hanging a zeroed table under an absent entry changes no translation. */
  lemma HangKeepsLookups(m: Memory, roles: Roles, f: nat, i: nat, g: nat, v: Word)
    requires Hangable(m, roles, f, i, g, v)
    ensures SameLookups(m, Store(m, f, i, v), roles)
  {
    hide Entry, FrameOf, Present, Huge, Writable, User, Store, Hangs, UserClosed;
    var n := Store(m, f, i, v);
    EntryOfStore(m, f, i, v);
    ZeroIsAbsent();
    forall r, p | r in roles && roles[r].Pml4? && InRange(p)
      ensures Lookup(n, r, p) == Lookup(m, r, p)
    {
      WalkRoles(m, roles, r, p);
    }
  }

  lemma HangTable(m: Memory, roles: Roles, f: nat, i: nat, g: nat, v: Word)
    requires Hangable(m, roles, f, i, g, v)
    ensures WellFormed(Store(m, f, i, v), roles[g := Child(roles[f], f, i)])
    ensures SameLookups(m, Store(m, f, i, v), roles) && LinksKept(m, Store(m, f, i, v), roles)
  {
    HangKeepsLinks(m, roles, f, i, g, v);
    HangKeepsTree(m, roles, f, i, g, v);
    HangKeepsClosure(m, roles, f, i, g, v);
    HangKeepsLookups(m, roles, f, i, g, v);
    hide *;
    assert WellFormed(Store(m, f, i, v), roles[g := Child(roles[f], f, i)]);
  }

  // ---- rewriting an entry that stays as it is for the tree --------------------------------------------

  /** v keeps what entry (f, i) means for the tree: a link stays a link to the same table and keeps its
      user bit, a page-table entry may become anything; user bits appear only under user bits. */
  ghost predicate Rewritable(m: Memory, roles: Roles, f: nat, i: nat, v: Word) {
    && WellFormed(m, roles) && f in roles && i < ENTRIES
    && var e := Entry(m, f, i);
    && (roles[f].Pt? ||
          (Links(roles[f], e) && Present(v) && Writable(v) == Writable(e) && Huge(v) == Huge(e)
           && FrameOf(v) == FrameOf(e) && (User(e) ==> User(v))))
    && (Present(v) && User(v) ==> (Present(e) && User(e)) || UserAbove(m, roles[f]))
  }

  lemma RewriteKeepsTree(m: Memory, roles: Roles, f: nat, i: nat, v: Word)
    requires Rewritable(m, roles, f, i, v)
    ensures Tree(Store(m, f, i, v), roles) && LinksKept(m, Store(m, f, i, v), roles)
  {
    hide Entry, FrameOf, Present, Huge, Writable, User, Store, UserClosed, Hangs;
    var n := Store(m, f, i, v);
    EntryOfStore(m, f, i, v);
    forall h: nat, k: nat | h in roles && k < ENTRIES
      ensures LinkFits(roles, h, k, Entry(n, h, k))
    {
      assert LinkFits(roles, h, k, Entry(m, h, k));
    }
    forall h | h in roles
      ensures Hangs(n, roles, h)
    {
      HangsKept(m, n, roles, roles, h);
    }
  }

  lemma RewriteKeepsClosure(m: Memory, roles: Roles, f: nat, i: nat, v: Word)
    requires Rewritable(m, roles, f, i, v)
    ensures UserClosed(Store(m, f, i, v), roles)
  {
    hide Entry, FrameOf, Present, Huge, Writable, User, Store, Hangs;
    var n := Store(m, f, i, v);
    EntryOfStore(m, f, i, v);
    forall h: nat, k: nat, j: nat | h in roles && !roles[h].Pml4? && k < ENTRIES && j < ENTRIES
      ensures UserCovers(n, roles[h], h, k, j)
    {
      assert LinkFits(roles, h, k, Entry(m, h, k));
      assert UserCovers(m, roles[h], h, k, j);
    }
  }

  function LeafTranslation(v: Word): Translation {
    if Present(v) then Page(v) else Unmapped
  }

  /** Rewriting a link leaves every entry meaning what it meant for a walk. */
  lemma LinkEntryKept(m: Memory, roles: Roles, f: nat, i: nat, v: Word, h: nat, k: nat)
    requires Rewritable(m, roles, f, i, v) && !roles[f].Pt? && h in roles && k < ENTRIES
    ensures f < MAX_PAGES && |m| == WORDS
    ensures var e, e' := Entry(m, h, k), Entry(Store(m, f, i, v), h, k);
            && Present(e') == Present(e) && FrameOf(e') == FrameOf(e) && Huge(e') == Huge(e)
            && (roles[h].Pt? || (roles[h].Pd? && Huge(e)) ==> e' == e)
  {
    hide Entry, FrameOf, Present, Huge, Writable, User, Store, Hangs, UserClosed, UserAbove, Child;
    EntryOfStore(m, f, i, v);
  }

  lemma RewriteLinkLookup(m: Memory, roles: Roles, f: nat, i: nat, v: Word, r: nat, p: Path)
    requires Rewritable(m, roles, f, i, v) && !roles[f].Pt? && r in roles && roles[r].Pml4? && InRange(p)
    ensures f < MAX_PAGES && |m| == WORDS
    ensures PtOf(Store(m, f, i, v), r, p) == PtOf(m, r, p)
    ensures Lookup(Store(m, f, i, v), r, p) == Lookup(m, r, p)
    ensures PtOf(m, r, p) != Some(f)
  {
    WalkRoles(m, roles, r, p);
    LinkEntryKept(m, roles, f, i, v, r, p.a);
    hide Entry, FrameOf, Present, Huge, Store, Rewritable;
    if Present(E4(m, r, p)) {
      LinkEntryKept(m, roles, f, i, v, FrameOf(E4(m, r, p)), p.b);
      if Present(E3(m, r, p)) {
        LinkEntryKept(m, roles, f, i, v, FrameOf(E3(m, r, p)), p.c);
        if PtOf(m, r, p).Some? {
          LinkEntryKept(m, roles, f, i, v, FrameOf(E2(m, r, p)), p.d);
        }
      }
    }
  }

  lemma RewriteLeafLookup(m: Memory, roles: Roles, f: nat, i: nat, v: Word, r: nat, p: Path)
    requires Rewritable(m, roles, f, i, v) && roles[f].Pt? && r in roles && roles[r].Pml4? && InRange(p)
    ensures PtOf(Store(m, f, i, v), r, p) == PtOf(m, r, p)
    ensures Lookup(Store(m, f, i, v), r, p) ==
              if PtOf(m, r, p) == Some(f) && p.d == i then LeafTranslation(v) else Lookup(m, r, p)
  {
    hide Entry, FrameOf, Present, Huge, Writable, User, Store, Hangs, UserClosed, UserAbove, Child;
    WalkRoles(m, roles, r, p);
    EntryOfStore(m, f, i, v);
  }

  /** Rewriting a link changes no translation; writing or clearing a page-table entry changes the
      translation of its own page, in exactly the address spaces whose walk ends in that table. */
  lemma RewriteLookups(m: Memory, roles: Roles, f: nat, i: nat, v: Word)
    requires Rewritable(m, roles, f, i, v)
    ensures forall r, p :: r in roles && roles[r].Pml4? && InRange(p) ==>
              PtOf(Store(m, f, i, v), r, p) == PtOf(m, r, p)
    ensures forall r, p :: r in roles && roles[r].Pml4? && InRange(p) ==>
              Lookup(Store(m, f, i, v), r, p) ==
                if PtOf(m, r, p) == Some(f) && p.d == i then LeafTranslation(v) else Lookup(m, r, p)
  {
    forall r, p | r in roles && roles[r].Pml4? && InRange(p)
      ensures Lookup(Store(m, f, i, v), r, p) ==
                (if PtOf(m, r, p) == Some(f) && p.d == i then LeafTranslation(v) else Lookup(m, r, p))
      ensures PtOf(Store(m, f, i, v), r, p) == PtOf(m, r, p)
    {
      hide Lookup, PtOf, WellFormed;
      if roles[f].Pt? {
        RewriteLeafLookup(m, roles, f, i, v, r, p);
      } else {
        RewriteLinkLookup(m, roles, f, i, v, r, p);
      }
    }
  }

  /** Rewriting a link, for instance to add the user bit, changes no translation at all. */
  lemma RewriteLink(m: Memory, roles: Roles, f: nat, i: nat, v: Word)
    requires Rewritable(m, roles, f, i, v) && !roles[f].Pt?
    ensures WellFormed(Store(m, f, i, v), roles) && LinksKept(m, Store(m, f, i, v), roles)
    ensures SameLookups(m, Store(m, f, i, v), roles)
  {
    RewriteKeepsTree(m, roles, f, i, v);
    RewriteKeepsClosure(m, roles, f, i, v);
    RewriteLookups(m, roles, f, i, v);
    hide Entry, FrameOf, Present, Huge, Writable, User, Store, Hangs, UserClosed, Lookup, LinksKept, PtOf;
    forall r, p | r in roles && roles[r].Pml4? && InRange(p)
      ensures PtOf(m, r, p) != Some(f)
    {
      RewriteLinkLookup(m, roles, f, i, v, r, p);
    }
  }
}
