/** src/process/process.c as functions on values: a table of N processes and the trap frame. */
module SchedulerSpec {
  import opened LittleEndian

  /** What isr.s pushes, in the order of src/idt.h. */
  datatype Frame = Frame(
    r15: u64, r14: u64, r13: u64, r12: u64, r11: u64, r10: u64, r9: u64, r8: u64,
    rbp: u64, rdi: u64, rsi: u64, rdx: u64, rcx: u64, rbx: u64, rax: u64,
    intNum: u64, errorCode: u64, rip: u64, cs: u64, rflags: u64, rsp: u64, ss: u64)

  const ZERO_FRAME: Frame := Frame(0, 0, 0, 0, 0, 0, 0, 0, 0, 0, 0, 0, 0, 0, 0, 0, 0, 0, 0, 0, 0, 0)

  datatype State = Unused | Running | Exited

  datatype Process = Process(pid: nat, state: State, entry: u64, stack: u64, cr3: u64, exitCode: int, frame: Frame)

  const NO_PROCESS: Process := Process(0, Unused, 0, 0, 0, 0, ZERO_FRAME)

  /** The globals, and the page-table root the CPU has loaded. */
  datatype Sched = Sched(table: seq<Process>, current: int, nextPid: nat, busyTicks: nat, loaded: u64)

  /** Addresses of kernel code and memory that an exit and a switch go to. */
  datatype Kernel = Kernel(cr3: u64, exitReturn: u64, stackTop: u64)

  const IDLE: int := -1

  // ---- searching -------------------------------------------------------------------------------------

  predicate IsRunning(s: Sched, i: int) {
    0 <= i < |s.table| && s.table[i].state == Running
  }

  /** find_free_slot from slot i on: UNUSED and EXITED slots are free. */
  function FreeSlot(table: seq<Process>, i: nat): (slot: int)
    requires i <= |table|
    ensures slot == -1 || i <= slot < |table|
    ensures slot >= 0 ==> table[slot].state != Running
    ensures forall j :: i <= j < |table| && (slot == -1 || j < slot) ==> table[j].state == Running
    decreases |table| - i
  {
    if i == |table| then -1 else if table[i].state != Running then i else FreeSlot(table, i + 1)
  }

  /** The slot `offset` places after the current one, round the table; counting starts at slot 0 when idle. */
  function Turn(s: Sched, offset: nat): (i: int)
    requires 0 < |s.table| && IDLE <= s.current < |s.table|
    ensures 0 <= i < |s.table|
  {
    (s.current + 1 + offset) % |s.table|
  }

  /** The offset of the next RUNNING slot in the rotation, or N. */
  function NextOffset(s: Sched, offset: nat): (o: nat)
    requires 0 < |s.table| && IDLE <= s.current < |s.table| && offset <= |s.table|
    ensures offset <= o <= |s.table|
    ensures o < |s.table| ==> IsRunning(s, Turn(s, o))
    ensures forall k :: offset <= k < o ==> !IsRunning(s, Turn(s, k))
    decreases |s.table| - offset
  {
    if offset == |s.table| then offset else if IsRunning(s, Turn(s, offset)) then offset else NextOffset(s, offset + 1)
  }

  /** The slot the next tick gives the CPU to, or -1. */
  function Chosen(s: Sched): (i: int)
    requires Shaped(s)
  {
    if NextOffset(s, 0) == |s.table| then IDLE else Turn(s, NextOffset(s, 0))
  }

  predicate Shaped(s: Sched) {
    0 < |s.table| && IDLE <= s.current < |s.table|
  }

  // ---- operations ------------------------------------------------------------------------------------

  /** GDT selectors 0x18 and 0x20 with ring 3; interrupts on. */
  function InitialFrame(entry: u64, stack: u64): Frame {
    ZERO_FRAME.(rip := entry, cs := 0x1B, rflags := 0x202, rsp := stack, ss := 0x23)
  }

  function Create(s: Sched, entry: u64, stack: u64, cr3: u64): (Sched, int)
    requires Shaped(s)
  {
    var slot := FreeSlot(s.table, 0);
    if slot < 0 then (s, -1)
    else (s.(table := s.table[slot := Process(s.nextPid, Running, entry, stack, cr3, 0, InitialFrame(entry, stack))],
             nextPid := s.nextPid + 1), slot)
  }

  /** The address bits of CR3 (PAGE_MASK). */
  function RootOf(cr3: u64): u64 {
    cr3 / 0x1000 % 0x100_0000_0000 * 0x1000
  }

  /** vmm_switch_address_space: a zero CR3 changes nothing. */
  function Switched(loaded: u64, cr3: u64): u64 {
    if cr3 == 0 then loaded else RootOf(cr3)
  }

  /** The table with the interrupted process's registers saved. */
  function Saved(s: Sched, frame: Frame): (t: Sched)
    ensures |t.table| == |s.table| && t == s.(table := t.table)
  {
    if IsRunning(s, s.current) then s.(table := s.table[s.current := s.table[s.current].(frame := frame)]) else s
  }

  /** scheduler_tick: the new state and the frame the interrupt returns to. */
  function Tick(s: Sched, frame: Frame, kernel: Kernel): (Sched, Frame)
    requires Shaped(s)
  {
    var t := Saved(s, frame);
    var next := Chosen(t);
    if next < 0 then (t.(current := IDLE, loaded := if s.current != IDLE then kernel.cr3 else t.loaded), frame)
    else (t.(current := next, busyTicks := t.busyTicks + 1, loaded := Switched(t.loaded, t.table[next].cr3)),
          t.table[next].frame)
  }

  /** (int)frame->rdi. */
  function ExitCode(rdi: u64): int {
    var low := rdi % 0x1_0000_0000;
    if low < 0x8000_0000 then low else low - 0x1_0000_0000
  }

  /** rflags |= 0x200. */
  function InterruptsOn(rflags: u64): u64 {
    if rflags / 0x200 % 2 == 1 then rflags else rflags - rflags % 0x400 + rflags % 0x200 + 0x200
  }

  /** process_exit_from_syscall: the exiting process's space is left and the kernel resumes. */
  function Exit(s: Sched, frame: Frame, kernel: Kernel): (Sched, Frame)
    requires Shaped(s)
  {
    if s.current < 0 then (s, frame)
    else
      (s.(table := s.table[s.current :=
                             s.table[s.current].(exitCode := ExitCode(frame.rdi), state := Exited, cr3 := 0)],
          current := IDLE, loaded := kernel.cr3),
       frame.(rip := kernel.exitReturn, cs := 0x08, rflags := InterruptsOn(frame.rflags), rsp := kernel.stackTop,
              ss := 0x10))
  }

  /** process_by_pid from slot i on. */
  function ByPid(table: seq<Process>, pid: nat, i: nat): (slot: int)
    requires i <= |table|
    ensures slot == -1 || i <= slot < |table|
    ensures slot >= 0 ==> table[slot].state != Unused && table[slot].pid == pid
    ensures forall j :: i <= j < |table| && (slot == -1 || j < slot) ==> table[j].state == Unused || table[j].pid != pid
    decreases |table| - i
  {
    if i == |table| then -1
    else if table[i].state != Unused && table[i].pid == pid then i
    else ByPid(table, pid, i + 1)
  }

  /** process_init on a table of n slots; pids go on from where they were. */
  function Initial(n: nat, nextPid: nat, busyTicks: nat, loaded: u64): Sched {
    Sched(seq(n, _ => NO_PROCESS), IDLE, nextPid, busyTicks, loaded)
  }

  // ---- runs ------------------------------------------------------------------------------------------

  datatype Op = OpCreate(entry: u64, stack: u64, cr3: u64) | OpTick(frame: Frame) | OpExit(frame: Frame)

  function Step(s: Sched, op: Op, kernel: Kernel): (t: Sched)
    requires Shaped(s)
    ensures Shaped(t) && |t.table| == |s.table|
  {
    match op
    case OpCreate(entry, stack, cr3) => Create(s, entry, stack, cr3).0
    case OpTick(frame) => Tick(s, frame, kernel).0
    case OpExit(frame) => Exit(s, frame, kernel).0
  }

  function Run(s: Sched, ops: seq<Op>, kernel: Kernel): (t: Sched)
    requires Shaped(s)
    ensures Shaped(t) && |t.table| == |s.table|
    decreases |ops|
  {
    if ops == [] then s else Step(Run(s, ops[..|ops| - 1], kernel), ops[|ops| - 1], kernel)
  }
}
