/** src/process/process.c: the process table and the globals beside it, updated in place. */
module ProcessTable {
  import opened LittleEndian
  import opened SchedulerSpec
  import opened SchedulerLaws

  class Scheduler {
    const table: array<Process>
    const kernel: Kernel
    var currentIndex: int
    var nextPid: nat
    var busyTicks: nat
    var loadedRoot: u64

    ghost function Model(): Sched
      reads this, table
    {
      Sched(table[..], currentIndex, nextPid, busyTicks, loadedRoot)
    }

    ghost predicate Valid()
      reads this, table
    {
      Inv(Model())
    }

    constructor (maxProcesses: nat, kernel: Kernel)
      requires 0 < maxProcesses
      ensures Valid() && fresh(table) && table.Length == maxProcesses && this.kernel == kernel
      ensures Model() == Initial(maxProcesses, 1, 0, kernel.cr3)
    {
      table := new Process[maxProcesses](_ => NO_PROCESS);
      this.kernel := kernel;
      currentIndex, nextPid, busyTicks, loadedRoot := IDLE, 1, 0, kernel.cr3;
      new;
      assert table[..] == seq(maxProcesses, _ => NO_PROCESS);
    }

    method ProcessInit()
      requires 0 < table.Length
      modifies this, table
      ensures Valid() && Model() == Initial(table.Length, old(nextPid), old(busyTicks), old(loadedRoot))
    {
      var i := 0;
      while i < table.Length
        invariant 0 <= i <= table.Length && forall k :: 0 <= k < i ==> table[k] == NO_PROCESS
        invariant nextPid == old(nextPid) && busyTicks == old(busyTicks) && loadedRoot == old(loadedRoot)
      {
        table[i] := NO_PROCESS;
        i := i + 1;
      }
      currentIndex := IDLE;
      assert table[..] == seq(table.Length, _ => NO_PROCESS);
    }

    method FindFreeSlot() returns (slot: int)
      ensures slot == FreeSlot(table[..], 0)
    {
      var i := 0;
      while i < table.Length
        invariant 0 <= i <= table.Length && FreeSlot(table[..], i) == FreeSlot(table[..], 0)
      {
        if table[i].state == Unused || table[i].state == Exited {
          return i;
        }
        i := i + 1;
      }
      return -1;
    }

    method ProcessCreate(entry: u64, stack: u64, cr3: u64) returns (slot: int)
      requires Valid()
      modifies this, table
      ensures Valid() && (Model(), slot) == Create(old(Model()), entry, stack, cr3)
      ensures forall i :: 0 <= i < table.Length && old(table[i].state) == Running ==> table[i] == old(table[i])
    {
      StepKeepsInv(Model(), OpCreate(entry, stack, cr3), kernel);
      slot := FindFreeSlot();
      if slot < 0 {
        return -1;
      }
      var proc := table[slot].(pid := nextPid, state := Running, entry := entry, stack := stack, cr3 := cr3,
                               exitCode := 0);
      nextPid := nextPid + 1;
      table[slot] := proc.(frame := ZERO_FRAME.(rip := entry, cs := 0x1B, rflags := 0x202, rsp := stack, ss := 0x23));
    }

    method SwitchAddressSpace(cr3: u64)
      modifies this`loadedRoot
      ensures loadedRoot == Switched(old(loadedRoot), cr3)
    {
      if cr3 == 0 {
        return;
      }
      loadedRoot := RootOf(cr3);
    }

    /** The search loop of scheduler_tick. */
    method FindNext() returns (next: int)
      requires Shaped(Model())
      ensures next == Chosen(Model())
    {
      var start := if currentIndex >= 0 then currentIndex + 1 else 0;
      var offset := 0;
      while offset < table.Length
        invariant 0 <= offset <= table.Length && NextOffset(Model(), offset) == NextOffset(Model(), 0)
      {
        var i := (start + offset) % table.Length;
        assert i == Turn(Model(), offset);
        if table[i].state == Running {
          return i;
        }
        offset := offset + 1;
      }
      return -1;
    }

    method SchedulerTick(frame: Frame) returns (resumed: Frame)
      requires Valid()
      modifies this, table
      ensures Valid() && (Model(), resumed) == Tick(old(Model()), frame, kernel)
    {
      StepKeepsInv(Model(), OpTick(frame), kernel);
      hide Inv, NextOffset;
      if currentIndex >= 0 && table[currentIndex].state == Running {
        table[currentIndex] := table[currentIndex].(frame := frame);
      }
      assert Model() == Saved(old(Model()), frame);
      var next := FindNext();
      if next < 0 {
        if currentIndex != IDLE {
          loadedRoot := kernel.cr3;
        }
        currentIndex := IDLE;
        return frame;
      }
      resumed := table[next].frame;
      SwitchAddressSpace(table[next].cr3);
      currentIndex := next;
      busyTicks := busyTicks + 1;
    }

    method ProcessExitFromSyscall(frame: Frame) returns (resumed: Frame)
      requires Valid()
      modifies this, table
      ensures Valid() && (Model(), resumed) == Exit(old(Model()), frame, kernel)
    {
      StepKeepsInv(Model(), OpExit(frame), kernel);
      if currentIndex < 0 {
        return frame;
      }
      table[currentIndex] := table[currentIndex].(exitCode := ExitCode(frame.rdi), state := Exited);
      loadedRoot := kernel.cr3;
      table[currentIndex] := table[currentIndex].(cr3 := 0);
      assert table[..] == old(table[..])[old(currentIndex) :=
          old(table[currentIndex]).(exitCode := ExitCode(frame.rdi), state := Exited, cr3 := 0)];
      currentIndex := IDLE;
      resumed := frame.(rip := kernel.exitReturn, cs := 0x08, rflags := InterruptsOn(frame.rflags),
                        rsp := kernel.stackTop, ss := 0x10);
    }

    method ProcessByPid(pid: nat) returns (slot: int)
      requires Valid()
      ensures slot == ByPid(table[..], pid, 0)
      ensures slot >= 0 ==> slot < table.Length && table[slot].state != Unused && table[slot].pid == pid
      ensures forall i :: 0 <= i < table.Length && table[i].state != Unused && table[i].pid == pid ==> i == slot
    {
      var i := 0;
      while i < table.Length
        invariant 0 <= i <= table.Length
        invariant forall k :: 0 <= k < i ==> table[k].state == Unused || table[k].pid != pid
        invariant ByPid(table[..], pid, i) == ByPid(table[..], pid, 0)
      {
        if table[i].state != Unused && table[i].pid == pid {
          return i;
        }
        i := i + 1;
      }
      return -1;
    }
  }
}
