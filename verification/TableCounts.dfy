/** How many new tables a call of map_page_in needs, exactly. */
module TableCounts {
  import opened Words
  import opened FrameSets
  import opened PageTables
  import opened MapSteps

  // ---- how far a walk gets ---------------------------------------------------------------------------

  /** The number of tables the walk for p finds below the PML4. */
  function Depth(m: Memory, root: nat, p: Path): (d: nat)
    ensures d <= 3
  {
    if !Present(E4(m, root, p)) then 0
    else if !Present(E3(m, root, p)) then 1
    else if !Present(E2(m, root, p)) || Huge(E2(m, root, p)) then 2
    else 3
  }

  /** How many indices two paths share before the page-table index. */
  function Common(p: Path, q: Path): (l: nat)
    ensures l <= 3
  {
    if p.a != q.a then 0 else if p.b != q.b then 1 else if p.c != q.c then 2 else 3
  }

  function Max(a: nat, b: nat): nat {
    if a < b then b else a
  }

  function Min(a: nat, b: nat): nat {
    if a < b then a else b
  }

  /** Every walk of this address space gets as far as it did, and as far as the indices it shares with p, up to the
      given level. */
  ghost predicate Deepened(m: Memory, n: Memory, root: nat, p: Path, level: nat) {
    forall q :: InRange(q) ==> Depth(n, root, q) == Max(Depth(m, root, q), Min(Common(p, q), level))
  }

  /** The entries along a walk, in the memory before and after one level has been entered. */
  lemma FirstLevel(m: Memory, n: Memory, roles: Roles, roles': Roles, free: set<nat>, free': set<nat>,
                   root: nat, p: Path, flags: Word, next: nat)
    requires WellFormed(m, roles) && root in roles && roles[root].Pml4? && InRange(p)
    requires Entered(m, n, roles, roles', free, free', root, p.a, flags, next)
    ensures Deepened(m, n, root, p, 1)
  {
    ZeroIsAbsent();
    hide Entry, FrameOf, Present, Huge, Writable, User, Hangs, UserClosed, Grown, SameLookups, OthersUntouched;
    hide DirWord;
    forall q | InRange(q)
      ensures Depth(n, root, q) == Max(Depth(m, root, q), Min(Common(p, q), 1))
    {
      WalkRoles(m, roles, root, q);
    }
  }

  lemma SecondLevel(m: Memory, n: Memory, roles: Roles, roles': Roles, free: set<nat>, free': set<nat>,
                    root: nat, p: Path, flags: Word, pdpt: nat, next: nat)
    requires WellFormed(m, roles) && root in roles && roles[root].Pml4? && InRange(p)
    requires Present(E4(m, root, p)) && FrameOf(E4(m, root, p)) == pdpt
    requires Entered(m, n, roles, roles', free, free', pdpt, p.b, flags, next)
    ensures Deepened(m, n, root, p, 2)
  {
    ZeroIsAbsent();
    hide Entry, FrameOf, Present, Huge, Writable, User, Hangs, UserClosed, Grown, SameLookups, OthersUntouched;
    hide DirWord;
    WalkRoles(m, roles, root, p);
    forall q | InRange(q)
      ensures Depth(n, root, q) == Max(Depth(m, root, q), Min(Common(p, q), 2))
    {
      WalkRoles(m, roles, root, q);
    }
  }

  lemma ThirdLevel(m: Memory, n: Memory, roles: Roles, roles': Roles, free: set<nat>, free': set<nat>,
                   root: nat, p: Path, flags: Word, pd: nat, next: nat)
    requires WellFormed(m, roles) && root in roles && roles[root].Pml4? && InRange(p)
    requires Present(E4(m, root, p)) && Present(E3(m, root, p)) && FrameOf(E3(m, root, p)) == pd
    requires !Huge(Entry(m, pd, p.c))
    requires Entered(m, n, roles, roles', free, free', pd, p.c, flags, next)
    ensures Deepened(m, n, root, p, 3)
  {
    ZeroIsAbsent();
    hide Entry, FrameOf, Present, Huge, Writable, User, Hangs, UserClosed, Grown, SameLookups, OthersUntouched;
    hide DirWord;
    WalkRoles(m, roles, root, p);
    forall q | InRange(q)
      ensures Depth(n, root, q) == Max(Depth(m, root, q), Min(Common(p, q), 3))
    {
      WalkRoles(m, roles, root, q);
    }
  }

  lemma DeepenedTrans(m: Memory, n: Memory, o: Memory, root: nat, p: Path, low: nat, high: nat)
    requires Deepened(m, n, root, p, low) && Deepened(n, o, root, p, high) && low <= high
    ensures Deepened(m, o, root, p, high)
  {
    hide Depth, Common;
    forall q | InRange(q)
      ensures Depth(o, root, q) == Max(Depth(m, root, q), Min(Common(p, q), high))
    {
      assert Depth(n, root, q) == Max(Depth(m, root, q), Min(Common(p, q), low));
    }
  }

  /** Storing a page-table entry takes no walk further or less far. */
  lemma LeafKeepsDepth(m: Memory, roles: Roles, root: nat, pt: nat, i: nat, v: Word, q: Path)
    requires WellFormed(m, roles) && root in roles && roles[root].Pml4? && InRange(q)
    requires pt in roles && roles[pt].Pt? && pt < MAX_PAGES && i < ENTRIES
    ensures Depth(Store(m, pt, i, v), root, q) == Depth(m, root, q)
  {
    hide Entry, FrameOf, Present, Huge, Writable, User, Hangs, UserClosed, Store;
    EntryOfStore(m, pt, i, v);
    WalkRoles(m, roles, root, q);
  }

  function Absent(e: Word): nat {
    if Present(e) then 0 else 1
  }

  /** The three directory levels together: how far every walk gets, and how many tables were hung. */
  lemma WalkDeepens(m: Memory, m1: Memory, m2: Memory, m3: Memory, r0: Roles, r1: Roles, r2: Roles, r3: Roles,
                    f0: set<nat>, f1: set<nat>, f2: set<nat>, f3: set<nat>,
                    root: nat, p: Path, flags: Word, pdpt: nat, pd: nat, pt: nat)
    requires WellFormed(m, r0) && root in r0 && r0[root].Pml4? && InRange(p)
    requires Entered(m, m1, r0, r1, f0, f1, root, p.a, flags, pdpt)
    requires Entered(m1, m2, r1, r2, f1, f2, pdpt, p.b, flags, pd)
    requires Entered(m2, m3, r2, r3, f2, f3, pd, p.c, flags, pt)
    requires !Huge(Entry(m2, pd, p.c))
    ensures Deepened(m, m3, root, p, 3)
    ensures Absent(Entry(m, root, p.a)) + Absent(Entry(m1, pdpt, p.b)) + Absent(Entry(m2, pd, p.c)) ==
            3 - Depth(m, root, p)
  {
    SecondEntry(m, m1, r0, r1, f0, f1, root, p, flags, pdpt);
    ThirdEntry(m, m1, m2, r0, r1, r2, f0, f1, f2, root, p, flags, pdpt, pd);
    ZeroIsAbsent();
    hide Entry, FrameOf, Present, Huge, Writable, User, Hangs, UserClosed, SameLookups, OthersUntouched, Deepened;
    hide WellFormed, Enterable, Grown;
    assert Links(r0[root], Entry(m1, root, p.a));
    assert Links(r1[root], Entry(m2, root, p.a)) && Links(r1[pdpt], Entry(m2, pdpt, p.b));
    FirstLevel(m, m1, r0, r1, f0, f1, root, p, flags, pdpt);
    SecondLevel(m1, m2, r1, r2, f1, f2, root, p, flags, pdpt, pd);
    ThirdLevel(m2, m3, r2, r3, f2, f3, root, p, flags, pd, pt);
    DeepenedTrans(m, m1, m2, root, p, 1, 2);
    DeepenedTrans(m, m2, m3, root, p, 2, 3);
  }

  lemma LeafKeepsDepths(m: Memory, n: Memory, roles: Roles, root: nat, p: Path, pt: nat, i: nat, v: Word)
    requires WellFormed(n, roles) && root in roles && roles[root].Pml4? && Deepened(m, n, root, p, 3)
    requires pt in roles && roles[pt].Pt? && pt < MAX_PAGES && i < ENTRIES
    ensures Deepened(m, Store(n, pt, i, v), root, p, 3)
  {
    assert |n| == WORDS;
    hide Depth, Common, WellFormed, Store;
    forall q | InRange(q)
      ensures Depth(Store(n, pt, i, v), root, q) == Max(Depth(m, root, q), Min(Common(p, q), 3))
    {
      LeafKeepsDepth(n, roles, root, pt, i, v, q);
    }
  }

  // ---- the tables that are missing -------------------------------------------------------------------

  /** A table below a PML4, named by the indices that lead to it. */
  datatype Place = PdptAt(a: nat) | PdAt(a: nat, b: nat) | PtAt(a: nat, b: nat, c: nat)

  function PlaceOf(p: Path, level: nat): Place {
    if level <= 1 then PdptAt(p.a) else if level == 2 then PdAt(p.a, p.b) else PtAt(p.a, p.b, p.c)
  }

  /** The tables the walk for p lacks. */
  function Lacked(m: Memory, root: nat, p: Path): (s: set<Place>)
    ensures |s| == 3 - Depth(m, root, p)
    ensures forall l :: 1 <= l <= 3 ==> (PlaceOf(p, l) in s <==> Depth(m, root, p) < l)
  {
    if Depth(m, root, p) == 0 then {PdptAt(p.a), PdAt(p.a, p.b), PtAt(p.a, p.b, p.c)}
    else if Depth(m, root, p) == 1 then {PdAt(p.a, p.b), PtAt(p.a, p.b, p.c)}
    else if Depth(m, root, p) == 2 then {PtAt(p.a, p.b, p.c)}
    else {}
  }

  lemma LackedPlaces(m: Memory, root: nat, p: Path, q: Path, l: nat)
    requires 1 <= l <= 3
    ensures PlaceOf(q, l) in Lacked(m, root, p) <==> Depth(m, root, p) < l <= Common(p, q)
  {
    hide Depth;
  }

  /** A table on one walk is on every walk that shares its indices. */
  lemma SharedDepth(m: Memory, root: nat, p: Path, q: Path, l: nat)
    requires 1 <= l <= Common(p, q) && l <= Depth(m, root, p)
    ensures l <= Depth(m, root, q)
  {
    hide Entry, FrameOf, Present, Huge;
  }

  /** These tables have been hung since, and no others, as far as this address space can see. */
  ghost predicate Hung(m: Memory, n: Memory, root: nat, s: set<Place>) {
    forall q, l :: InRange(q) && 1 <= l <= 3 ==> HungAt(m, n, root, s, q, l)
  }

  predicate HungAt(m: Memory, n: Memory, root: nat, s: set<Place>, q: Path, l: nat) {
    l <= Depth(n, root, q) <==> l <= Depth(m, root, q) || PlaceOf(q, l) in s
  }

  /** One more page: the tables its walk lacked at the start and that have not been hung meanwhile. */
  lemma HungNext(m: Memory, n: Memory, o: Memory, root: nat, s: set<Place>, p: Path)
    requires Hung(m, n, root, s) && Deepened(n, o, root, p, 3)
    ensures Hung(m, o, root, s + Lacked(m, root, p))
  {
    hide Depth, Common, PlaceOf, Lacked;
    forall q, l | InRange(q) && 1 <= l <= 3
      ensures HungAt(m, o, root, s + Lacked(m, root, p), q, l)
    {
      assert HungAt(m, n, root, s, q, l);
      LackedPlaces(m, root, p, q, l);
      if l <= Common(p, q) && l <= Depth(m, root, p) {
        SharedDepth(m, root, p, q, l);
      }
    }
  }

  /** How many tables that is. */
  lemma HungCount(m: Memory, n: Memory, root: nat, s: set<Place>, p: Path)
    requires Hung(m, n, root, s) && InRange(p)
    ensures |s + Lacked(m, root, p)| == |s| + 3 - Depth(n, root, p)
  {
    var now, then_ := Lacked(n, root, p), Lacked(m, root, p);
    LackedLater(m, n, root, s, p);
    hide Depth, Lacked, Hung;
    assert s + then_ == s + now && s !! now;
  }

  lemma LackedLater(m: Memory, n: Memory, root: nat, s: set<Place>, p: Path)
    requires Hung(m, n, root, s) && InRange(p)
    ensures Lacked(n, root, p) == Lacked(m, root, p) - s
  {
    forall l | 1 <= l <= 3
      ensures PlaceOf(p, l) in Lacked(n, root, p) <==> PlaceOf(p, l) in Lacked(m, root, p) && PlaceOf(p, l) !in s
    {
      assert HungAt(m, n, root, s, p, l);
    }
    OnlyOwnPlaces(n, root, p);
    OnlyOwnPlaces(m, root, p);
  }

  lemma HungTrans(m: Memory, n: Memory, o: Memory, root: nat, s: set<Place>, t: set<Place>)
    requires Hung(m, n, root, s) && Hung(n, o, root, t)
    ensures Hung(m, o, root, s + t)
  {
    hide Depth, PlaceOf;
    forall q, l | InRange(q) && 1 <= l <= 3
      ensures HungAt(m, o, root, s + t, q, l)
    {
      assert HungAt(m, n, root, s, q, l) && HungAt(n, o, root, t, q, l);
    }
  }

  lemma OnlyOwnPlaces(m: Memory, root: nat, p: Path)
    ensures forall x :: x in Lacked(m, root, p) ==> x == PlaceOf(p, 1) || x == PlaceOf(p, 2) || x == PlaceOf(p, 3)
  {
    hide Depth;
  }

  lemma NothingHung(m: Memory, root: nat)
    ensures Hung(m, m, root, {})
  {
    hide Depth, PlaceOf;
  }
}
