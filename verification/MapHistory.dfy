/** Ring-3 rights over whole histories: exactly when an address space stays closed while it and others are mapped,
    unmapped, created and freed. */
module MapHistory {
  import opened Words
  import opened PageTables
  import opened Translations
  import opened MapSteps
  import opened MapLaws
  import opened MapClosure
  import opened RangeLaws

  /** Memory, the tables in it, and the free frames. */
  datatype TableState = TableState(m: Memory, roles: Roles, free: set<nat>)

  /** A call of map_page_in or vmm_unmap_page for some root, or work that touches no table there is: new roots,
      frames changing hands, writes by their owners. */
  datatype Call =
    | Mapping(root: nat, va: Word, pa: Word, flags: Word)
    | Unmapping(root: nat, p: Path)
    | OtherWork

  /** The code map_page_in returns, from the state before the call. */
  ghost function CodeOf(s: TableState, c: Call): int
    requires c.Mapping?
  {
    MapResult(s.m, c.root, c.va, c.pa, |s.free|)
  }

  ghost predicate OneCall(s: TableState, t: TableState, c: Call) {
    && WellFormed(t.m, t.roles)
    && (forall f :: f in s.roles ==> f in t.roles && t.roles[f] == s.roles[f])
    && match c
       case Mapping(root, va, pa, flags) =>
         root in s.roles && s.roles[root].Pml4?
         && MapEffect(s.m, t.m, s.roles, t.roles, s.free, t.free, root, va, pa, flags, CodeOf(s, c))
       case Unmapping(root, p) => UnmapEffect(s.m, t.m, s.roles, root, p)
       case OtherWork => SameLookups(s.m, t.m, s.roles) && RootsSame(s.m, t.m, s.roles)
  }

  /** The call is a successful user mapping for another address space, in a slot shared with r that is no user slot
      of r. */
  ghost predicate SpreadsTo(s: TableState, c: Call, r: nat) {
    c.Mapping? && Spreads(s.m, c.root, c.va, c.flags, CodeOf(s, c), r)
  }

  ghost predicate ClosedRoot(s: TableState, r: nat) {
    WellFormed(s.m, s.roles) && r in s.roles && s.roles[r].Pml4? && SlotsClosed(s.m, r)
  }

  /** One call leaves a closed root closed exactly if it does not spread to it. */
  lemma StepStaysClosed(s: TableState, t: TableState, c: Call, r: nat)
    requires ClosedRoot(s, r) && OneCall(s, t, c)
    ensures ClosedRoot(t, r) <==> !SpreadsTo(s, c, r)
  {
    hide WellFormed, SlotsClosed, MapEffect, UnmapEffect, SameLookups, RootsSame, Spreads, CodeOf, SupervisorKept;
    match c
    case Mapping(root, va, pa, flags) =>
      SlotsStayClosed(s.m, t.m, s.roles, t.roles, s.free, t.free, root, va, pa, flags, CodeOf(s, c), r);
    case Unmapping(root, p) =>
      UnmapGivesNothing(s.m, t.m, s.roles, root, p);
      StillClosed(s.m, t.m, s.roles, r);
    case OtherWork =>
      WorkGivesNothing(s.m, t.m, s.roles);
      StillClosed(s.m, t.m, s.roles, r);
  }

  /** Unmapping gives ring 3 nothing. */
  lemma UnmapGivesNothing(m: Memory, n: Memory, roles: Roles, root: nat, p: Path)
    requires UnmapEffect(m, n, roles, root, p)
    ensures SupervisorKept(m, n, roles)
  {
    hide Entry, Present, Huge, FrameOf, User, Lookup, PtOf, WellFormed, LinksKept, OthersUntouched;
  }

  lemma WorkGivesNothing(m: Memory, n: Memory, roles: Roles)
    requires SameLookups(m, n, roles) && RootsSame(m, n, roles)
    ensures SupervisorKept(m, n, roles)
  {
    hide Entry, Present, Huge, FrameOf, User, Lookup;
  }

  /** States connected by calls. */
  ghost predicate History(states: seq<TableState>, calls: seq<Call>) {
    |states| == |calls| + 1 && forall k :: 0 <= k < |calls| ==> OneCall(states[k], states[k + 1], calls[k])
  }

  ghost predicate NoneSpreads(states: seq<TableState>, calls: seq<Call>, r: nat, k: nat)
    requires k <= |calls| < |states|
  {
    forall i :: 0 <= i < k ==> !SpreadsTo(states[i], calls[i], r)
  }

  lemma {:induction false} ClosedUpTo(states: seq<TableState>, calls: seq<Call>, r: nat, k: nat)
    requires History(states, calls) && ClosedRoot(states[0], r) && k <= |calls| && NoneSpreads(states, calls, r, k)
    ensures ClosedRoot(states[k], r)
    decreases k
  {
    if k > 0 {
      assert OneCall(states[k - 1], states[k], calls[k - 1]) && !SpreadsTo(states[k - 1], calls[k - 1], r);
      hide ClosedRoot, OneCall, SpreadsTo;
      ClosedUpTo(states, calls, r, k - 1);
      StepStaysClosed(states[k - 1], states[k], calls[k - 1], r);
    }
  }

  /** From any closed state on, a root is closed throughout a history exactly if no call spreads to it. */
  lemma StaysClosedExactly(states: seq<TableState>, calls: seq<Call>, r: nat)
    requires History(states, calls) && ClosedRoot(states[0], r)
    ensures (forall k :: 0 <= k < |states| ==> ClosedRoot(states[k], r)) <==> NoneSpreads(states, calls, r, |calls|)
  {
    hide ClosedRoot, OneCall, SpreadsTo;
    if NoneSpreads(states, calls, r, |calls|) {
      forall k | 0 <= k < |states|
        ensures ClosedRoot(states[k], r)
      {
        ClosedUpTo(states, calls, r, k);
      }
    }
    if forall k :: 0 <= k < |states| ==> ClosedRoot(states[k], r) {
      forall i | 0 <= i < |calls|
        ensures !SpreadsTo(states[i], calls[i], r)
      {
        assert OneCall(states[i], states[i + 1], calls[i]);
        StepStaysClosed(states[i], states[i + 1], calls[i], r);
      }
    }
  }

  /** In every state of such a history, effective ring-3 and write access to each page of that root are the bits
      of the page's own entry. */
  lemma AccessIsLeafThroughout(states: seq<TableState>, calls: seq<Call>, r: nat, k: nat, q: Path)
    requires History(states, calls) && ClosedRoot(states[0], r) && k <= |calls| && NoneSpreads(states, calls, r, k)
    requires InRange(q)
    ensures UserAccess(states[k].m, r, q) <==> LeafUser(Lookup(states[k].m, r, q))
    ensures WriteAccess(states[k].m, r, q) <==> LeafWritable(Lookup(states[k].m, r, q))
  {
    hide OneCall, NoneSpreads, WellFormed, SlotsClosed, Entry, Lookup, UserAccess, WriteAccess;
    ClosedUpTo(states, calls, r, k);
    ClosedAccessIsLeaf(states[k].m, states[k].roles, r, q);
  }

  // ---- processes -------------------------------------------------------------------------------------

  /** User mappings for other roots are below 512 GB. */
  ghost predicate LowElsewhere(c: Call, r: nat) {
    c.Mapping? && c.root != r && User(c.flags) ==> c.va < 0x80_0000_0000
  }

  lemma UserSlotStays(s: TableState, t: TableState, c: Call, r: nat, i: nat)
    requires OneCall(s, t, c) && r in s.roles && s.roles[r].Pml4? && i < ENTRIES && UserSlot(s.m, r, i)
    ensures UserSlot(t.m, r, i)
  {
    hide Entry, Present, Huge, FrameOf, User, Lookup, PtOf, WellFormed, LinksKept, OthersUntouched, Grown, PathOf;
    hide SameLookups, LeafChanged, SharersAgree;
  }

  lemma RootThere(s: TableState, r: nat)
    requires ClosedRoot(s, r)
    ensures r in s.roles && s.roles[r].Pml4?
  {
  }

  lemma LowNeverSpreads(s: TableState, c: Call, r: nat)
    requires UserSlot(s.m, r, 0) && LowElsewhere(c, r)
    ensures !SpreadsTo(s, c, r)
  {
    if SpreadsTo(s, c, r) {
      LowAddressesUseSlotZero(c.va);
    }
  }

  /** A process that has mapped a user page below 512 GB, so that its slot 0 is a user slot, stays closed whatever is
      mapped there for others; every process maps its program and its stack below 1 GB. */
  lemma {:induction false} ProcessStaysClosed(states: seq<TableState>, calls: seq<Call>, r: nat, k: nat)
    requires History(states, calls) && ClosedRoot(states[0], r) && UserSlot(states[0].m, r, 0) && k <= |calls|
    requires forall i :: 0 <= i < |calls| ==> LowElsewhere(calls[i], r)
    ensures ClosedRoot(states[k], r) && UserSlot(states[k].m, r, 0)
    decreases k
  {
    hide OneCall, SpreadsTo, UserSlot, WellFormed, SlotsClosed, LowElsewhere, ClosedRoot;
    if k > 0 {
      ProcessStaysClosed(states, calls, r, k - 1);
      assert OneCall(states[k - 1], states[k], calls[k - 1]) && LowElsewhere(calls[k - 1], r);
      RootThere(states[k - 1], r);
      LowNeverSpreads(states[k - 1], calls[k - 1], r);
      UserSlotStays(states[k - 1], states[k], calls[k - 1], r, 0);
      StepStaysClosed(states[k - 1], states[k], calls[k - 1], r);
    }
  }
}
