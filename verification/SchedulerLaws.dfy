/** What every run of process creation, timer ticks and exits keeps, and how long a process can wait. */
module SchedulerLaws {
  import opened LittleEndian
  import opened SchedulerSpec

  // ---- safety ----------------------------------------------------------------------------------------

  predicate DistinctPids(table: seq<Process>, nextPid: nat) {
    && (forall i :: 0 <= i < |table| && table[i].state != Unused ==> table[i].pid < nextPid)
    && (forall i, j :: 0 <= i < j < |table| && table[i].state != Unused && table[j].state != Unused ==>
        table[i].pid != table[j].pid)
  }

  /** The current slot is RUNNING, and pids of used slots are distinct and already handed out. */
  predicate Inv(s: Sched) {
    Shaped(s) && (s.current >= 0 ==> IsRunning(s, s.current)) && DistinctPids(s.table, s.nextPid)
  }

  lemma StepKeepsInv(s: Sched, op: Op, kernel: Kernel)
    requires Inv(s)
    ensures Inv(Step(s, op, kernel))
  {
    if op.OpTick? {
      TickKeepsSlots(s, op.frame, kernel);
    }
  }

  /** A tick changes no slot but the interrupted one, and there only the saved registers. */
  lemma TickKeepsSlots(s: Sched, frame: Frame, kernel: Kernel)
    requires Shaped(s)
    ensures Tick(s, frame, kernel).0.table == Saved(s, frame).table
    ensures forall i :: 0 <= i < |s.table| ==>
              Saved(s, frame).table[i] == if i == s.current && IsRunning(s, i) then s.table[i].(frame := frame)
                                          else s.table[i]
    ensures Chosen(Saved(s, frame)) == Chosen(s)
  {
    ChosenByStates(s, Saved(s, frame), 0);
  }

  /** The choice looks at states only. */
  lemma {:induction false} ChosenByStates(s: Sched, t: Sched, offset: nat)
    requires Shaped(s) && Shaped(t) && |s.table| == |t.table| && s.current == t.current && offset <= |s.table|
    requires forall i :: 0 <= i < |s.table| ==> s.table[i].state == t.table[i].state
    ensures NextOffset(s, offset) == NextOffset(t, offset)
    decreases |s.table| - offset
  {
    if offset < |s.table| {
      assert IsRunning(s, Turn(s, offset)) == IsRunning(t, Turn(t, offset));
      ChosenByStates(s, t, offset + 1);
    }
  }

  /** Every reachable state is sane. */
  lemma {:induction false} RunKeepsInv(s: Sched, ops: seq<Op>, kernel: Kernel)
    requires Inv(s)
    ensures Inv(Run(s, ops, kernel))
    decreases |ops|
  {
    if ops != [] {
      RunKeepsInv(s, ops[..|ops| - 1], kernel);
      StepKeepsInv(Run(s, ops[..|ops| - 1], kernel), ops[|ops| - 1], kernel);
    }
  }

  /** Creation takes a slot exactly when one is not RUNNING, and never touches a RUNNING one. */
  lemma CreateSparesRunning(s: Sched, entry: u64, stack: u64, cr3: u64)
    requires Shaped(s)
    ensures var (t, slot) := Create(s, entry, stack, cr3);
            && (slot >= 0 <==> exists i :: 0 <= i < |s.table| && s.table[i].state != Running)
            && (slot < 0 ==> t == s)
            && (forall i :: 0 <= i < |s.table| && s.table[i].state == Running ==> t.table[i] == s.table[i])
            && (slot >= 0 ==>
                  && slot < |s.table| && IsRunning(t, slot)
                  && t.table[slot].pid == s.nextPid && t.nextPid == s.nextPid + 1
                  && t.table[slot].entry == entry && t.table[slot].stack == stack && t.table[slot].cr3 == cr3
                  && t.table[slot].exitCode == 0 && StartsAt(t.table[slot].frame, entry, stack)
                  && t.current == s.current && t.busyTicks == s.busyTicks && t.loaded == s.loaded)
            && (forall i :: 0 <= i < |s.table| && i != slot ==> t.table[i] == s.table[i])
  {
  }

  // ---- the rotation ----------------------------------------------------------------------------------

  lemma ModOnce(a: nat, n: nat)
    requires 0 < n && a < 2 * n
    ensures a % n == if a < n then a else a - n
  {
    if a >= n {
      var q, r := a / n, a % n;
      assert a == q * n + r;
      assert q <= 1;
    }
  }

  /** How far slot i is in the rotation: (i - (current + 1)) mod N. */
  function Distance(s: Sched, i: nat): (d: nat)
    requires Shaped(s) && i < |s.table|
    ensures d < |s.table|
  {
    if i > s.current then i - s.current - 1 else i - s.current - 1 + |s.table|
  }

  lemma TurnAtDistance(s: Sched, i: nat)
    requires Shaped(s) && i < |s.table|
    ensures Turn(s, Distance(s, i)) == i
  {
    ModOnce(s.current + 1 + Distance(s, i), |s.table|);
  }

  lemma DistanceOfTurn(s: Sched, o: nat)
    requires Shaped(s) && o < |s.table|
    ensures Distance(s, Turn(s, o)) == o
  {
    ModOnce(s.current + 1 + o, |s.table|);
  }

  /** A tick gives the CPU to the RUNNING slot nearest in the rotation, and to none exactly when there is none. */
  lemma ChosenIsNearest(s: Sched)
    requires Shaped(s)
    ensures Chosen(s) == IDLE <==> forall i :: 0 <= i < |s.table| ==> !IsRunning(s, i)
    ensures Chosen(s) != IDLE ==> IsRunning(s, Chosen(s))
    ensures forall i :: 0 <= i < |s.table| && IsRunning(s, i) ==>
            Chosen(s) >= 0 && Distance(s, Chosen(s)) <= Distance(s, i)
  {
    var o := NextOffset(s, 0);
    forall i | 0 <= i < |s.table| && IsRunning(s, i)
      ensures o <= Distance(s, i)
    {
      TurnAtDistance(s, i);
    }
    if o < |s.table| {
      DistanceOfTurn(s, o);
    }
  }

  /** With nothing to run the CPU was idle already: the tick's switch to the kernel space never happens, and
      the tick changes nothing at all. */
  lemma IdleTickChangesNothing(s: Sched, frame: Frame, kernel: Kernel)
    requires Inv(s) && Chosen(s) == IDLE
    ensures s.current == IDLE && Tick(s, frame, kernel) == (s, frame)
  {
    ChosenIsNearest(s);
    TickKeepsSlots(s, frame, kernel);
  }

  // ---- saved registers -------------------------------------------------------------------------------

  /** An outside record of what happened to each process. */
  datatype Note = Created(pid: nat, entry: u64, stack: u64) | Interrupted(pid: nat, frame: Frame)

  function NotesOf(s: Sched, op: Op): seq<Note>
    requires Shaped(s)
  {
    match op
    case OpCreate(entry, stack, _) => if FreeSlot(s.table, 0) >= 0 then [Created(s.nextPid, entry, stack)] else []
    case OpTick(frame) => if s.current >= 0 then [Interrupted(s.table[s.current].pid, frame)] else []
    case OpExit(_) => []
  }

  function Notes(s: Sched, ops: seq<Op>, kernel: Kernel): seq<Note>
    requires Shaped(s)
    decreases |ops|
  {
    if ops == [] then []
    else Notes(s, ops[..|ops| - 1], kernel) + NotesOf(Run(s, ops[..|ops| - 1], kernel), ops[|ops| - 1])
  }

  /** How a process starts: at its entry, on its stack, in ring 3 with interrupts on, all other registers zero. */
  predicate StartsAt(f: Frame, entry: u64, stack: u64) {
    && f.rip == entry && f.rsp == stack && f.cs == 0x1B && f.ss == 0x23 && f.rflags == 0x202
    && f.rax == 0 && f.rbx == 0 && f.rcx == 0 && f.rdx == 0 && f.rsi == 0 && f.rdi == 0 && f.rbp == 0
    && f.r8 == 0 && f.r9 == 0 && f.r10 == 0 && f.r11 == 0 && f.r12 == 0 && f.r13 == 0 && f.r14 == 0 && f.r15 == 0
    && f.intNum == 0 && f.errorCode == 0
  }

  /** The frame is the one the latest note about the process calls for. */
  predicate Due(notes: seq<Note>, pid: nat, frame: Frame) {
    && notes != []
    && var last := notes[|notes| - 1];
       if last.pid != pid then Due(notes[..|notes| - 1], pid, frame)
       else match last
            case Created(_, entry, stack) => StartsAt(frame, entry, stack)
            case Interrupted(_, saved) => frame == saved
  }

  predicate FramesMatch(s: Sched, notes: seq<Note>) {
    forall i :: 0 <= i < |s.table| && s.table[i].state == Running ==> Due(notes, s.table[i].pid, s.table[i].frame)
  }

  lemma FramesMatchStep(s: Sched, notes: seq<Note>, op: Op, kernel: Kernel)
    requires Inv(s) && FramesMatch(s, notes)
    ensures FramesMatch(Step(s, op, kernel), notes + NotesOf(s, op))
  {
    var added := NotesOf(s, op);
    if added == [] {
      assert notes + added == notes;
    } else {
      assert (notes + added)[..|notes|] == notes && |added| == 1;
    }
    if op.OpTick? {
      TickKeepsSlots(s, op.frame, kernel);
    }
  }

  /** Over every run from an empty table, each RUNNING process holds the frame of its own last preemption, or
      the one to start with. */
  lemma {:induction false} FramesAreLastSaved(n: nat, nextPid: nat, busyTicks: nat, loaded: u64, ops: seq<Op>,
                                              kernel: Kernel)
    requires 0 < n
    ensures var s := Initial(n, nextPid, busyTicks, loaded);
            Inv(Run(s, ops, kernel)) && FramesMatch(Run(s, ops, kernel), Notes(s, ops, kernel))
    decreases |ops|
  {
    var s := Initial(n, nextPid, busyTicks, loaded);
    RunKeepsInv(s, ops, kernel);
    if ops != [] {
      var before := ops[..|ops| - 1];
      FramesAreLastSaved(n, nextPid, busyTicks, loaded, before, kernel);
      FramesMatchStep(Run(s, before, kernel), Notes(s, before, kernel), ops[|ops| - 1], kernel);
    }
  }

  /** What a tick installs is exactly what the chosen process is due, this tick's own saving included. */
  lemma InstalledFrameIsDue(s: Sched, notes: seq<Note>, frame: Frame, kernel: Kernel)
    requires Inv(s) && FramesMatch(s, notes)
    ensures var (t, installed) := Tick(s, frame, kernel);
            && t.current == Chosen(s)
            && (t.current < 0 ==> installed == frame)
            && (t.current >= 0 ==> Due(notes + NotesOf(s, OpTick(frame)), t.table[t.current].pid, installed))
  {
    TickKeepsSlots(s, frame, kernel);
    FramesMatchStep(s, notes, OpTick(frame), kernel);
    ChosenIsNearest(s);
  }

  /** A process nobody has chosen yet keeps its slot as it was created. */
  lemma {:induction false} WaitingKeepsSlot(s: Sched, i: nat, ops: seq<Op>, kernel: Kernel)
    requires Inv(s) && Waiting(s, i) && PassedOver(s, i, ops, kernel)
    ensures var t := Run(s, ops, kernel); Waiting(t, i) && t.table[i] == s.table[i]
    decreases |ops|
  {
    hide Step, Inv, Passes, Waiting, PassedOver, Run, Ticks, Shaped;
    InvIsShaped(s);
    if |ops| == 0 {
      RunNothing(s, i, ops, kernel);
      WaitsInTable(s, i);
    } else {
      var before, last := ops[..|ops| - 1], ops[|ops| - 1];
      LastApart(before, ops);
      OneMore(s, i, before, last, kernel);
      WaitingKeepsSlot(s, i, before, kernel);
      RunKeepsInv(s, before, kernel);
      SlotStays(Run(s, before, kernel), i, last, kernel);
    }
  }

  lemma SlotStays(s: Sched, i: nat, op: Op, kernel: Kernel)
    requires Inv(s) && Waiting(s, i) && Passes(s, i, op)
    ensures Waiting(Step(s, op, kernel), i) && Step(s, op, kernel).table[i] == s.table[i]
  {
    WaitingStep(s, i, op, kernel);
    if op.OpTick? {
      TickKeepsSlots(s, op.frame, kernel);
    }
  }

  /** However long a new process has waited, the first tick to choose it starts it at its entry on its stack, under its
      own pid, in its own address space. */
  lemma FirstTickStarts(s: Sched, a: Sched, slot: nat, entry: u64, stack: u64, cr3: u64, ops: seq<Op>, b: Sched,
                        frame: Frame, kernel: Kernel)
    requires Inv(s) && Create(s, entry, stack, cr3) == (a, slot)
    requires PassedOver(a, slot, ops, kernel) && b == Run(a, ops, kernel) && Chosen(b) == slot
    ensures var (t, installed) := Tick(b, frame, kernel);
            && StartsAt(installed, entry, stack)
            && t.current == slot && t.busyTicks == b.busyTicks + 1
            && slot < |t.table| && t.table[slot].pid == s.nextPid && t.table[slot].cr3 == cr3
            && (cr3 != 0 ==> t.loaded == RootOf(cr3))
  {
    assert a == Step(s, OpCreate(entry, stack, cr3), kernel);
    StepKeepsInv(s, OpCreate(entry, stack, cr3), kernel);
    assert Waiting(a, slot) && StartsAt(a.table[slot].frame, entry, stack);
    hide Inv, StartsAt, Run, PassedOver, FreeSlot, Chosen, RootOf, Waiting;
    WaitingKeepsSlot(a, slot, ops, kernel);
    NotCurrent(b, slot);
    RunKeepsInv(a, ops, kernel);
    TickKeepsSlots(b, frame, kernel);
  }

  lemma NotCurrent(s: Sched, i: nat)
    requires Shaped(s) && Waiting(s, i)
    ensures i < |s.table| && s.current != i
  {
  }

  /** Bits 12 to 51. */
  lemma RootIsCut(cr3: u64)
    ensures RootOf(cr3) == cr3 - cr3 % 0x1000 - cr3 / 0x10_0000_0000_0000 * 0x10_0000_0000_0000
  {
  }

  predicate ExitedWith(was: Process, now: Process, rdi: u64) {
    && -0x8000_0000 <= now.exitCode < 0x8000_0000 && (rdi - now.exitCode) % 0x1_0000_0000 == 0
    && now.state == Exited && now.cr3 == 0
    && now.pid == was.pid && now.entry == was.entry && now.stack == was.stack && now.frame == was.frame
  }

  /** What an exit leaves behind: the low half of RDI as a signed number, an EXITED slot without an address space, and a
      frame that resumes the kernel on its own stack with interrupts on and every other register as it was. */
  lemma ExitLeaves(s: Sched, frame: Frame, kernel: Kernel)
    requires Inv(s) && s.current >= 0
    ensures var (t, r) := Exit(s, frame, kernel);
            && t.current == -1 && t.loaded == kernel.cr3 && t.nextPid == s.nextPid && t.busyTicks == s.busyTicks
            && (forall i :: 0 <= i < |s.table| && i != s.current ==> t.table[i] == s.table[i])
            && ExitedWith(s.table[s.current], t.table[s.current], frame.rdi)
            && r.rip == kernel.exitReturn && r.rsp == kernel.stackTop && r.cs == 0x08 && r.ss == 0x10
            && r.rflags == frame.rflags + (if frame.rflags / 0x200 % 2 == 1 then 0 else 0x200)
            && r.rax == frame.rax && r.rbx == frame.rbx && r.rcx == frame.rcx && r.rdx == frame.rdx
            && r.rsi == frame.rsi && r.rdi == frame.rdi && r.rbp == frame.rbp
            && r.r8 == frame.r8 && r.r9 == frame.r9 && r.r10 == frame.r10 && r.r11 == frame.r11
            && r.r12 == frame.r12 && r.r13 == frame.r13 && r.r14 == frame.r14 && r.r15 == frame.r15
            && r.intNum == frame.intNum && r.errorCode == frame.errorCode
  {
    OnlyBitNine(frame.rflags);
    SignedLow(frame.rdi);
    hide InterruptsOn, ExitCode;
  }

  lemma OnlyBitNine(rflags: u64)
    ensures InterruptsOn(rflags) == rflags + (if rflags / 0x200 % 2 == 1 then 0 else 0x200)
  {
  }

  lemma SignedLow(rdi: u64)
    ensures -0x8000_0000 <= ExitCode(rdi) < 0x8000_0000 && (rdi - ExitCode(rdi)) % 0x1_0000_0000 == 0
  {
    assert rdi == rdi / 0x1_0000_0000 * 0x1_0000_0000 + rdi % 0x1_0000_0000;
  }

  // ---- address spaces --------------------------------------------------------------------------------

  /** The CPU's root belongs to the current process, or to the kernel when idle. */
  predicate SpaceLoaded(s: Sched, kernel: Kernel)
    requires Shaped(s)
  {
    && (forall i :: 0 <= i < |s.table| && s.table[i].state == Running ==> s.table[i].cr3 != 0)
    && s.loaded == if s.current < 0 then kernel.cr3 else RootOf(s.table[s.current].cr3)
  }

  lemma StepKeepsSpace(s: Sched, op: Op, kernel: Kernel)
    requires Inv(s) && SpaceLoaded(s, kernel) && (op.OpCreate? ==> op.cr3 != 0)
    ensures SpaceLoaded(Step(s, op, kernel), kernel)
  {
    if op.OpTick? {
      TickKeepsSlots(s, op.frame, kernel);
      ChosenIsNearest(s);
    }
  }

  /** The same over every run. */
  lemma {:induction false} RunKeepsSpace(s: Sched, ops: seq<Op>, kernel: Kernel)
    requires Inv(s) && SpaceLoaded(s, kernel) && forall i :: 0 <= i < |ops| && ops[i].OpCreate? ==> ops[i].cr3 != 0
    ensures SpaceLoaded(Run(s, ops, kernel), kernel)
    decreases |ops|
  {
    if |ops| > 0 {
      var before := ops[..|ops| - 1];
      RunKeepsSpace(s, before, kernel);
      RunKeepsInv(s, before, kernel);
      hide SpaceLoaded, Step;
      StepKeepsSpace(Run(s, before, kernel), ops[|ops| - 1], kernel);
    }
  }

  // ---- waiting ---------------------------------------------------------------------------------------

  function Count(table: seq<Process>): (c: nat)
    ensures c <= |table|
  {
    if table == [] then 0 else (if table[0].state == Running then 1 else 0) + Count(table[1..])
  }

  lemma {:induction false} CountOfUpdate(table: seq<Process>, i: nat, p: Process)
    requires i < |table|
    ensures Count(table[i := p]) == Count(table) - (if table[i].state == Running then 1 else 0)
            + (if p.state == Running then 1 else 0)
  {
    if i == 0 {
      assert table[i := p][1..] == table[1..];
    } else {
      assert table[i := p][1..] == table[1..][i - 1 := p];
      CountOfUpdate(table[1..], i - 1, p);
    }
  }

  predicate Exits(s: Sched, op: Op) {
    op.OpExit? && s.current >= 0
  }

  predicate Creates(s: Sched, op: Op)
    requires Shaped(s)
  {
    op.OpCreate? && FreeSlot(s.table, 0) >= 0
  }

  function One(b: bool): nat {
    if b then 1 else 0
  }

  /** The number of RUNNING slots changes by creations and exits only. */
  lemma StepCounts(s: Sched, op: Op, kernel: Kernel)
    requires Inv(s)
    ensures Count(Step(s, op, kernel).table) + One(Exits(s, op)) == Count(s.table) + One(Creates(s, op))
  {
    match op
    case OpCreate(entry, stack, cr3) =>
      if FreeSlot(s.table, 0) >= 0 {
        CountOfUpdate(s.table, FreeSlot(s.table, 0), Create(s, entry, stack, cr3).0.table[FreeSlot(s.table, 0)]);
      }
    case OpTick(frame) =>
      TickKeepsSlots(s, frame, kernel);
      if s.current >= 0 {
        CountOfUpdate(s.table, s.current, s.table[s.current].(frame := frame));
      }
    case OpExit(frame) =>
      if s.current >= 0 {
        CountOfUpdate(s.table, s.current, Exit(s, frame, kernel).0.table[s.current]);
      }
  }

  /** Slot i waits: it is RUNNING and not the one on the CPU. */
  predicate Waiting(s: Sched, i: nat)
    requires Shaped(s)
  {
    IsRunning(s, i) && s.current != i
  }

  predicate Passes(s: Sched, i: nat, op: Op)
    requires Shaped(s)
  {
    op.OpTick? ==> Chosen(s) != i
  }

  /** While i waits, a tick that passes it over brings it nearer; an exit restarts the rotation at slot 0. */
  lemma WaitingStep(s: Sched, i: nat, op: Op, kernel: Kernel)
    requires Inv(s) && Waiting(s, i) && Passes(s, i, op)
    ensures var t := Step(s, op, kernel);
            && Waiting(t, i)
            && Distance(t, i) == (if Exits(s, op) then i else if op.OpTick? then Distance(t, i) else Distance(s, i))
            && (op.OpTick? ==> Distance(t, i) < Distance(s, i))
  {
    if op.OpTick? {
      TickKeepsSlots(s, op.frame, kernel);
      ChosenIsNearest(s);
    }
  }

  /** The pair (RUNNING slots, distance of i), read as one number. */
  function Measure(s: Sched, i: nat): nat
    requires Shaped(s) && i < |s.table|
  {
    Count(s.table) * |s.table| + Distance(s, i)
  }

  lemma OneFewer(c: int, n: nat)
    ensures (c - 1) * n + n == c * n
  {
  }

  /** Without creations every tick that passes i over and every other process's exit lowers the measure. */
  lemma WaitingLowersMeasure(s: Sched, i: nat, op: Op, kernel: Kernel)
    requires Inv(s) && Waiting(s, i) && Passes(s, i, op) && (op.OpTick? || Exits(s, op))
    ensures Measure(Step(s, op, kernel), i) < Measure(s, i)
    ensures op.OpTick? ==>
            Count(Step(s, op, kernel).table) == Count(s.table) && Distance(Step(s, op, kernel), i) < Distance(s, i)
    ensures Exits(s, op) ==> Count(Step(s, op, kernel).table) == Count(s.table) - 1
  {
    WaitingStep(s, i, op, kernel);
    StepCounts(s, op, kernel);
    hide Step, Inv, Waiting, Passes, Count, Distance;
    if Exits(s, op) {
      OneFewer(Count(s.table), |s.table|);
    }
  }

  predicate PassedOver(s: Sched, i: nat, ops: seq<Op>, kernel: Kernel)
    requires Shaped(s)
  {
    forall k :: 0 <= k < |ops| ==> Passes(Run(s, ops[..k], kernel), i, ops[k])
  }

  function Ticks(ops: seq<Op>): nat {
    if ops == [] then 0 else Ticks(ops[..|ops| - 1]) + One(ops[|ops| - 1].OpTick?)
  }

  function ExitsIn(s: Sched, ops: seq<Op>, kernel: Kernel): nat
    requires Shaped(s)
  {
    if ops == [] then 0
    else ExitsIn(s, ops[..|ops| - 1], kernel) + One(Exits(Run(s, ops[..|ops| - 1], kernel), ops[|ops| - 1]))
  }

  function CreatesIn(s: Sched, ops: seq<Op>, kernel: Kernel): nat
    requires Shaped(s)
  {
    if ops == [] then 0
    else CreatesIn(s, ops[..|ops| - 1], kernel) + One(Creates(Run(s, ops[..|ops| - 1], kernel), ops[|ops| - 1]))
  }

  /** A run with one more operation. */
  lemma OneMore(s: Sched, i: nat, ops: seq<Op>, op: Op, kernel: Kernel)
    requires Shaped(s)
    ensures Run(s, ops + [op], kernel) == Step(Run(s, ops, kernel), op, kernel)
    ensures Ticks(ops + [op]) == Ticks(ops) + One(op.OpTick?)
    ensures ExitsIn(s, ops + [op], kernel) == ExitsIn(s, ops, kernel) + One(Exits(Run(s, ops, kernel), op))
    ensures PassedOver(s, i, ops + [op], kernel) <==>
            PassedOver(s, i, ops, kernel) && Passes(Run(s, ops, kernel), i, op)
  {
    var all := ops + [op];
    assert all[..|all| - 1] == ops && all[|ops|] == op;
    forall k | 0 <= k < |ops|
      ensures all[..k] == ops[..k] && all[k] == ops[k]
    {
    }
    hide Step, Passes;
    if PassedOver(s, i, all, kernel) {
      assert Passes(Run(s, all[..|ops|], kernel), i, all[|ops|]);
      forall k | 0 <= k < |ops|
        ensures Passes(Run(s, ops[..k], kernel), i, ops[k])
      {
        assert Passes(Run(s, all[..k], kernel), i, all[k]);
      }
    }
  }

  /** Over any run, creations and exits account for every RUNNING slot. */
  lemma {:induction false} RunCounts(s: Sched, ops: seq<Op>, kernel: Kernel)
    requires Inv(s)
    ensures Count(Run(s, ops, kernel).table) + ExitsIn(s, ops, kernel) == Count(s.table) + CreatesIn(s, ops, kernel)
    decreases |ops|
  {
    if ops != [] {
      var before := ops[..|ops| - 1];
      RunCounts(s, before, kernel);
      RunKeepsInv(s, before, kernel);
      StepCounts(Run(s, before, kernel), ops[|ops| - 1], kernel);
    }
  }

  /** At most i more slots to go after each exit. */
  function Trips(i: nat, exits: nat): nat {
    i * exits
  }

  lemma TripsMore(i: nat, exits: nat)
    ensures Trips(i, 0) == 0 && (exits > 0 ==> Trips(i, exits) == Trips(i, exits - 1) + i)
  {
  }

  /** How long slot i can be passed over, in any run: each exit costs at most one more trip round the table. */
  lemma {:induction false} WaitBound(s: Sched, i: nat, ops: seq<Op>, kernel: Kernel)
    requires Inv(s) && Waiting(s, i) && PassedOver(s, i, ops, kernel)
    ensures var t := Run(s, ops, kernel);
            Waiting(t, i) && Ticks(ops) + Distance(t, i) <= Distance(s, i) + Trips(i, ExitsIn(s, ops, kernel))
    decreases |ops|
  {
    hide Step, Distance, Inv, Passes, Waiting, Exits, PassedOver, Run, Trips, ExitsIn, Ticks, Shaped;
    InvIsShaped(s);
    if |ops| == 0 {
      TripsMore(i, 0);
      RunNothing(s, i, ops, kernel);
    } else {
      var before, last := ops[..|ops| - 1], ops[|ops| - 1];
      LastApart(before, ops);
      OneMore(s, i, before, last, kernel);
      WaitBound(s, i, before, kernel);
      WaitsOn(s, i, before, last, kernel);
    }
  }

  lemma InvIsShaped(s: Sched)
    requires Inv(s)
    ensures Shaped(s)
  {
  }

  lemma WaitsInTable(s: Sched, i: nat)
    requires Shaped(s) && Waiting(s, i)
    ensures i < |s.table|
  {
  }

  /** One operation after a run within the bound. */
  lemma WaitsOn(s: Sched, i: nat, ops: seq<Op>, op: Op, kernel: Kernel)
    requires Inv(s) && PassedOver(s, i, ops + [op], kernel)
    requires var t := Run(s, ops, kernel);
             Waiting(t, i) && Ticks(ops) + Distance(t, i) <= Distance(s, i) + Trips(i, ExitsIn(s, ops, kernel))
    ensures var t := Run(s, ops + [op], kernel);
            && Waiting(t, i)
            && Ticks(ops + [op]) + Distance(t, i) <= Distance(s, i) + Trips(i, ExitsIn(s, ops + [op], kernel))
  {
    hide Step, Distance, Inv, Passes, Waiting, Exits, PassedOver, Run, Trips, ExitsIn, Ticks, Shaped, One;
    InvIsShaped(s);
    var t := Run(s, ops, kernel);
    OneMore(s, i, ops, op, kernel);
    RunKeepsInv(s, ops, kernel);
    WaitsInTable(t, i);
    WaitingStep(t, i, op, kernel);
    BoundGoesOn(i, Distance(s, i), Ticks(ops), Distance(t, i), Distance(Step(t, op, kernel), i),
                ExitsIn(s, ops, kernel), op.OpTick?, Exits(t, op));
  }

  lemma BoundGoesOn(i: nat, atStart: nat, ticks: nat, was: nat, now: nat, exits: nat, tick: bool, exit: bool)
    requires ticks + was <= atStart + Trips(i, exits)
    requires (exit ==> now == i) && (tick ==> now < was) && (!exit && !tick ==> now == was)
    ensures ticks + One(tick) + now <= atStart + Trips(i, exits + One(exit))
  {
    TripsMore(i, exits + One(exit));
    hide Trips;
  }

  lemma RunNothing(s: Sched, i: nat, ops: seq<Op>, kernel: Kernel)
    requires Shaped(s) && |ops| == 0
    ensures Run(s, ops, kernel) == s && Ticks(ops) == 0 && ExitsIn(s, ops, kernel) == 0 && PassedOver(s, i, ops, kernel)
  {
  }

  /** Without exits, and however many creations, a waiting slot is chosen within N ticks. */
  lemma ChosenWithinATurn(s: Sched, i: nat, ops: seq<Op>, kernel: Kernel)
    requires Inv(s) && Waiting(s, i) && Ticks(ops) >= |s.table| && ExitsIn(s, ops, kernel) == 0
    ensures exists k :: 0 <= k < |ops| && ops[k].OpTick? && Chosen(Run(s, ops[..k], kernel)) == i
  {
    if PassedOver(s, i, ops, kernel) {
      WaitBound(s, i, ops, kernel);
    }
  }

  /** Without creations, it is chosen before N * N ticks. */
  lemma ChosenWithoutCreation(s: Sched, i: nat, ops: seq<Op>, kernel: Kernel)
    requires Inv(s) && Waiting(s, i) && Ticks(ops) >= |s.table| * |s.table| && CreatesIn(s, ops, kernel) == 0
    ensures exists k :: 0 <= k < |ops| && ops[k].OpTick? && Chosen(Run(s, ops[..k], kernel)) == i
  {
    if PassedOver(s, i, ops, kernel) {
      WaitBound(s, i, ops, kernel);
      RunCounts(s, ops, kernel);
      RunningCounts(Run(s, ops, kernel).table, i);
      var n, e := |s.table|, ExitsIn(s, ops, kernel);
      assert e <= n - 1 && i <= n - 1;
      MulBound(i, e, n);
    }
  }

  lemma MulBound(i: nat, e: nat, n: nat)
    requires i < n && e < n
    ensures i * e + n <= n * n
  {
    var a, b := n - 1 - i, n - 1 - e;
    assert n * n == (i + 1 + a) * n == i * n + n + a * n;
    assert i * n == i * (e + 1 + b) == i * e + i + i * b;
  }

  lemma {:induction false} RunningCounts(table: seq<Process>, i: nat)
    requires i < |table| && table[i].state == Running
    ensures Count(table) >= 1
  {
    if i > 0 {
      RunningCounts(table[1..], i - 1);
    }
  }

  // ---- the rotation reset ----------------------------------------------------------------------------

  /** A process that runs one turn and exits, and is created anew. */
  function Churn(times: nat, frame: Frame): (ops: seq<Op>)
    ensures |ops| == 3 * times
  {
    if times == 0 then [] else Churn(times - 1, frame) + [OpTick(frame), OpExit(frame), OpCreate(1, 1, 1)]
  }

  /** With creations and exits both allowed a waiting slot can starve: the exit restarts the rotation at
      slot 0, which the next creation fills again. */
  lemma {:induction false} RotationResetStarves(s: Sched, i: nat, times: nat, frame: Frame, kernel: Kernel)
    requires Inv(s) && Waiting(s, i) && s.current == IDLE && 0 < i && IsRunning(s, 0)
    ensures var ops := Churn(times, frame);
            && PassedOver(s, i, ops, kernel) && Ticks(ops) == times
            && Run(s, ops, kernel).current == IDLE && IsRunning(Run(s, ops, kernel), 0)
            && Waiting(Run(s, ops, kernel), i)
  {
    hide Step, Inv, Run, PassedOver, Ticks;
    if times == 0 {
      RunNothing(s, i, Churn(times, frame), kernel);
    } else {
      var before := Churn(times - 1, frame);
      var tick, exit, create := OpTick(frame), OpExit(frame), OpCreate(1, 1, 1);
      RotationResetStarves(s, i, times - 1, frame, kernel);
      RunKeepsInv(s, before, kernel);
      OneRound(Run(s, before, kernel), i, frame, kernel);
      OneMore(s, i, before, tick, kernel);
      OneMore(s, i, before + [tick], exit, kernel);
      OneMore(s, i, before + [tick] + [exit], create, kernel);
      assert Churn(times, frame) == before + [tick] + [exit] + [create];
    }
  }

  /** One round of the churn leaves slot i where it was. */
  lemma OneRound(a: Sched, i: nat, frame: Frame, kernel: Kernel)
    requires Inv(a) && Waiting(a, i) && a.current == IDLE && 0 < i && IsRunning(a, 0)
    ensures var b := Step(a, OpTick(frame), kernel);
            var c := Step(b, OpExit(frame), kernel);
            var d := Step(c, OpCreate(1, 1, 1), kernel);
            && Passes(a, i, OpTick(frame)) && Passes(b, i, OpExit(frame)) && Passes(c, i, OpCreate(1, 1, 1))
            && d.current == IDLE && IsRunning(d, 0) && Waiting(d, i)
  {
    ChosenIsNearest(a);
    TickKeepsSlots(a, frame, kernel);
    assert Chosen(a) == 0;
    hide NextOffset, Chosen;
    var b := Step(a, OpTick(frame), kernel);
    assert b.current == 0;
    var c := Step(b, OpExit(frame), kernel);
    assert c.table[0].state == Exited && c.current == IDLE;
    assert FreeSlot(c.table, 0) == 0;
  }

  /** A run continued from where another ended. */
  lemma {:induction false} RunsJoin(s: Sched, i: nat, first: seq<Op>, ops: seq<Op>, kernel: Kernel)
    requires Inv(s) && Inv(Run(s, first, kernel)) && PassedOver(s, i, first, kernel)
             && PassedOver(Run(s, first, kernel), i, ops, kernel)
    ensures PassedOver(s, i, first + ops, kernel) && Ticks(first + ops) == Ticks(first) + Ticks(ops)
    ensures Run(s, first + ops, kernel) == Run(Run(s, first, kernel), ops, kernel)
    decreases |ops|
  {
    hide Run, PassedOver, Ticks, Inv, Step, Passes, ExitsIn, Exits, Shaped;
    InvIsShaped(s);
    var mid := Run(s, first, kernel);
    if |ops| == 0 {
      RunNothing(mid, i, ops, kernel);
      assert first + ops == first;
    } else {
      var before, last := ops[..|ops| - 1], ops[|ops| - 1];
      LastApart(first, ops);
      OneMore(mid, i, before, last, kernel);
      RunsJoin(s, i, first, before, kernel);
      OneMore(s, i, first + before, last, kernel);
    }
  }

  lemma LastApart(first: seq<Op>, ops: seq<Op>)
    requires |ops| > 0
    ensures ops[..|ops| - 1] + [ops[|ops| - 1]] == ops
    ensures (first + ops[..|ops| - 1]) + [ops[|ops| - 1]] == first + ops
  {
  }

  /** One operation that is no tick passes nobody over. */
  lemma NoTickRun(s: Sched, i: nat, op: Op, kernel: Kernel)
    requires Inv(s) && !op.OpTick?
    ensures PassedOver(s, i, [op], kernel) && Ticks([op]) == 0 && Run(s, [op], kernel) == Step(s, op, kernel)
    ensures Inv(Run(s, [op], kernel))
  {
    var none: seq<Op> := [];
    assert none + [op] == [op];
    StepKeepsInv(s, op, kernel);
    hide Run, PassedOver, Ticks, Inv, Step;
    RunNothing(s, i, none, kernel);
    OneMore(s, i, none, op, kernel);
  }

  /** Slot i can be passed over by exactly this many ticks in some run. */
  ghost predicate CanBePassed(s: Sched, i: nat, times: nat, kernel: Kernel)
    requires Shaped(s)
  {
    exists ops: seq<Op> :: PassedOver(s, i, ops, kernel) && Ticks(ops) == times
  }

  /** What holds after one operation that is no tick holds before it. */
  lemma PassedLater(s: Sched, i: nat, op: Op, times: nat, kernel: Kernel)
    requires Inv(s) && !op.OpTick? && CanBePassed(Step(s, op, kernel), i, times, kernel)
    ensures CanBePassed(s, i, times, kernel)
  {
    var ops :| PassedOver(Step(s, op, kernel), i, ops, kernel) && Ticks(ops) == times;
    hide Run, PassedOver, Ticks, Inv, Step;
    NoTickRun(s, i, op, kernel);
    RunsJoin(s, i, [op], ops, kernel);
  }

  /** From an idle CPU, whether or not slot 0 is RUNNING. */
  lemma IdleCanBePassed(s: Sched, i: nat, times: nat, kernel: Kernel)
    requires Inv(s) && Waiting(s, i) && s.current == IDLE && 0 < i
    ensures CanBePassed(s, i, times, kernel)
  {
    if IsRunning(s, 0) {
      RotationResetStarves(s, i, times, ZERO_FRAME, kernel);
    } else {
      var create := OpCreate(1, 1, 1);
      var t := Step(s, create, kernel);
      assert FreeSlot(s.table, 0) == 0;
      StepKeepsInv(s, create, kernel);
      RotationResetStarves(t, i, times, ZERO_FRAME, kernel);
      PassedLater(s, i, create, times, kernel);
    }
  }

  /** A waiting process can starve exactly if it is not in slot 0: then, from every state, some run passes it
      over any number of times; slot 0 is chosen once the rotation comes round, whatever happens. */
  lemma StarvesExactly(s: Sched, i: nat, kernel: Kernel)
    requires Inv(s) && Waiting(s, i)
    ensures 0 < i <==> forall times: nat :: CanBePassed(s, i, times, kernel)
  {
    if 0 < i {
      forall times: nat
        ensures CanBePassed(s, i, times, kernel)
      {
        if s.current == IDLE {
          IdleCanBePassed(s, i, times, kernel);
        } else {
          var exit := OpExit(ZERO_FRAME);
          StepKeepsInv(s, exit, kernel);
          IdleCanBePassed(Step(s, exit, kernel), i, times, kernel);
          PassedLater(s, i, exit, times, kernel);
        }
      }
    } else {
      SlotZeroIsServed(s, Distance(s, 0) + 1, kernel);
    }
  }

  lemma SlotZeroIsServed(s: Sched, times: nat, kernel: Kernel)
    requires Inv(s) && Waiting(s, 0) && times > Distance(s, 0)
    ensures !CanBePassed(s, 0, times, kernel)
  {
    if CanBePassed(s, 0, times, kernel) {
      var ops :| PassedOver(s, 0, ops, kernel) && Ticks(ops) == times;
      WaitBound(s, 0, ops, kernel);
    }
  }

  // ---- exit codes ------------------------------------------------------------------------------------

  /** A pid names at most one used slot, and process_by_pid finds it. */
  lemma ByPidFinds(s: Sched, pid: nat, i: nat)
    requires Inv(s) && i < |s.table| && s.table[i].state != Unused
    ensures ByPid(s.table, pid, 0) == i <==> s.table[i].pid == pid
  {
  }

  /** After an exit the code stays readable under the pid until a creation takes the slot. */
  lemma ExitCodeStays(s: Sched, i: nat, op: Op, kernel: Kernel)
    requires Inv(s) && i < |s.table| && s.table[i].state == Exited && (op.OpCreate? ==> FreeSlot(s.table, 0) != i)
    ensures Step(s, op, kernel).table[i] == s.table[i]
    ensures ByPid(Step(s, op, kernel).table, s.table[i].pid, 0) == i
  {
    StepKeepsInv(s, op, kernel);
    if op.OpTick? {
      TickKeepsSlots(s, op.frame, kernel);
    }
    ByPidFinds(Step(s, op, kernel), s.table[i].pid, i);
  }
}
