// The exit machinery of libafl/exit.c: the breakpoint list, the last exit
// reason and the `expected_exit` flag through which the fuzzer learns why
// the guest stopped.
module LibaflExit {
  import opened Common
  import opened AddrLists

  /** The exception number raised to leave the CPU loop. */
  const EXCP_LIBAFL_EXIT: int := 0xf4775747

  /** The name of QEMU's own breakpoint helper, emitted by `libafl_qemu_breakpoint_run`. */
  const HANDLE_BREAKPOINT: string := "libafl_qemu_handle_breakpoint"

  datatype Kind = Internal | Breakpoint | CustomInsn | Crash | Timeout

  /** The member of the `data` union last written (the union is not cleared between exits). */
  datatype ExitData = NoData | InternalData(cause: int, signal: int) | BreakpointData(addr: u64)

  /** `struct libafl_exit_reason`. */
  datatype ExitReason = ExitReason(kind: Kind, cpu: CpuRef, nextPc: u64, data: ExitData)

  /**
   * The effects of `prepare_qemu_exit` besides the state it sets: in system
   * mode a debug request and `cpu->stopped = true`; when the CPU is running,
   * the LibAFL exception and the jump out of the CPU loop.
   */
  function PrepareEffects(cpu: CpuRef, running: bool, systemMode: bool): (es: seq<Event>)
    ensures CpuLoopExit(cpu, EXCP_LIBAFL_EXIT) in es <==> running
    ensures DebugRequest in es <==> systemMode
  {
    (if systemMode then [DebugRequest, StopCpu(cpu)] else []) +
    (if running then [CpuLoopExit(cpu, EXCP_LIBAFL_EXIT)] else [])
  }

  /** The per-thread (user mode) or global exit state and the breakpoint list. */
  class ExitState {
    var reason: ExitReason
    var expectedExit: bool
    const breakpoints: AddrList<()>

    constructor ()
      ensures !expectedExit && reason == ExitReason(Internal, NO_CPU, 0, NoData)
      ensures fresh(breakpoints) && breakpoints.entries == []
    {
      reason := ExitReason(Internal, NO_CPU, 0, NoData);
      expectedExit := false;
      breakpoints := new AddrList();
    }

    /** `libafl_qemu_set_breakpoint`: invalidate `pc`, prepend a node, return 1. */
    method SetBreakpoint(pc: u64) returns (r: int, effects: seq<Event>)
      modifies breakpoints
      ensures breakpoints.entries == [Entry(pc, ())] + old(breakpoints.entries)
      ensures r == 1 && effects == [InvalidatePc(pc)]
    {
      r, effects := breakpoints.Push(pc, ());
    }

    /** `libafl_qemu_remove_breakpoint`: unlink every node at `pc`; 1 iff one was there. */
    method RemoveBreakpoint(pc: u64) returns (r: int, effects: seq<Event>)
      modifies breakpoints
      ensures breakpoints.entries == Drop(old(breakpoints.entries), pc)
      ensures r == (if Count(old(breakpoints.entries), pc) > 0 then 1 else 0)
      ensures effects == seq(Count(old(breakpoints.entries), pc), _ => InvalidatePc(pc))
    {
      r, effects := breakpoints.RemoveAll(pc);
    }

    /**
     * `libafl_sync_exit_cpu`: move the CPU to `next_pc` when it is non-zero,
     * then always clear `next_pc`. (THUMB_MASK is the identity off ARM.)
     */
    method SyncExitCpu() returns (effects: seq<Event>)
      modifies this
      ensures reason == old(reason).(nextPc := 0) && expectedExit == old(expectedExit)
      ensures effects == (if old(reason).nextPc != 0 then [SetPc(old(reason).cpu, old(reason).nextPc)] else [])
    {
      effects := [];
      if reason.nextPc != 0 {
        effects := [SetPc(reason.cpu, reason.nextPc)];
      }
      reason := reason.(nextPc := 0);
    }

    /** `libafl_exit_asap`: here it is the `expected_exit` flag. */
    method ExitAsap() returns (b: bool)
      ensures b == expectedExit
    {
      b := expectedExit;
    }

    /** `prepare_qemu_exit`: expect an exit, record the CPU and the pc to resume at. */
    method PrepareExit(cpu: CpuRef, nextPc: u64, running: bool, systemMode: bool) returns (effects: seq<Event>)
      modifies this
      ensures expectedExit
      ensures reason == old(reason).(cpu := cpu, nextPc := nextPc)
      ensures effects == PrepareEffects(cpu, running, systemMode)
    {
      expectedExit := true;
      reason := reason.(cpu := cpu, nextPc := nextPc);
      effects := PrepareEffects(cpu, running, systemMode);
    }

    /** `libafl_last_exit_cpu`: the recorded CPU while an exit is expected, else NULL. */
    method LastExitCpu() returns (cpu: CpuRef)
      ensures expectedExit ==> cpu == reason.cpu
      ensures !expectedExit ==> cpu == NO_CPU
    {
      cpu := if expectedExit then reason.cpu else NO_CPU;
    }

    /** `libafl_exit_request_internal`: QEMU is stopping on its own; no CPU-control effects. */
    method RequestInternal(cpu: CpuRef, pc: u64, cause: int, signal: int)
      modifies this
      ensures expectedExit
      ensures reason == ExitReason(Internal, cpu, pc, InternalData(cause, signal))
    {
      reason := ExitReason(Internal, cpu, pc, InternalData(cause, signal));
      expectedExit := true;
    }

    /**
     * `libafl_exit_request_custom_insn`: kind CUSTOM_INSN, then
     * `prepare_qemu_exit`. The instruction kind argument is not stored.
     */
    method RequestCustomInsn(cpu: CpuRef, pc: u64, insnKind: nat, running: bool, systemMode: bool)
      returns (effects: seq<Event>)
      modifies this
      ensures expectedExit
      ensures reason == old(reason).(kind := CustomInsn, cpu := cpu, nextPc := pc)
      ensures effects == PrepareEffects(cpu, running, systemMode)
    {
      reason := reason.(kind := CustomInsn);
      effects := PrepareExit(cpu, pc, running, systemMode);
    }

    /** `libafl_exit_request_breakpoint`: kind BREAKPOINT with the address, then `prepare_qemu_exit`. */
    method RequestBreakpoint(cpu: CpuRef, pc: u64, running: bool, systemMode: bool)
      returns (effects: seq<Event>)
      modifies this
      ensures expectedExit
      ensures reason == ExitReason(Breakpoint, cpu, pc, BreakpointData(pc))
      ensures effects == PrepareEffects(cpu, running, systemMode)
    {
      reason := reason.(kind := Breakpoint, data := BreakpointData(pc));
      effects := PrepareExit(cpu, pc, running, systemMode);
    }

    /** `libafl_qemu_trigger_breakpoint`: a breakpoint exit at the CPU's current pc (read through `get_pc`). */
    method TriggerBreakpoint(cpu: CpuRef, currentPc: u64, running: bool, systemMode: bool)
      returns (effects: seq<Event>)
      modifies this
      ensures expectedExit
      ensures reason == ExitReason(Breakpoint, cpu, currentPc, BreakpointData(currentPc))
      ensures effects == PrepareEffects(cpu, running, systemMode)
    {
      effects := RequestBreakpoint(cpu, currentPc, running, systemMode);
    }

    /** `libafl_exit_request_timeout` (system mode): kind TIMEOUT on the current CPU and a debug request. */
    method RequestTimeout(currentCpu: CpuRef) returns (effects: seq<Event>)
      modifies this
      ensures expectedExit
      ensures reason == old(reason).(kind := Timeout, cpu := currentCpu)
      ensures effects == [DebugRequest]
    {
      expectedExit := true;
      reason := reason.(kind := Timeout, cpu := currentCpu);
      effects := [DebugRequest];
    }

    /** `libafl_exit_signal_vm_start`: forget the CPU and stop expecting an exit. */
    method SignalVmStart()
      modifies this
      ensures !expectedExit
      ensures reason == old(reason).(cpu := NO_CPU)
    {
      reason := reason.(cpu := NO_CPU);
      expectedExit := false;
    }

    /** `libafl_get_exit_reason`: the reason while an exit is expected, else NULL. */
    method GetExitReason() returns (r: Option<ExitReason>)
      ensures r.Some? <==> expectedExit
      ensures r.Some? ==> r.value == reason
    {
      r := if expectedExit then Some(reason) else None;
    }

    /**
     * `libafl_qemu_breakpoint_run`: one breakpoint helper call with
     * `pc_next` for every list node whose address is `pc_next`.
     */
    method BreakpointRun(pcNext: u64) returns (events: seq<Event>)
      ensures events == seq(Count(breakpoints.entries, pcNext), _ => BuiltinCall(HANDLE_BREAKPOINT, [pcNext]))
    {
      var n := breakpoints.CountAt(pcNext);
      events := seq(n, _ => BuiltinCall(HANDLE_BREAKPOINT, [pcNext]));
    }
  }
}
