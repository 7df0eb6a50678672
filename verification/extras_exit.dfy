// The older exit-reason state machine of libafl_extras/exit.c. Unlike the
// newer one it has a sync-backdoor exit kind and an `exit_asap` flag inside
// the exit reason, raised when an exit is requested while the CPU is not
// running and never lowered again by this code.
module ExtrasExit {
  import opened Common
  import LibaflExit

  // `prepare_qemu_exit` (libafl_extras/exit.c:44-53) has the effects of the
  // newer one: `LibaflExit.PrepareEffects`.

  datatype Kind = Internal | Breakpoint | SyncBackdoor

  /** `struct libafl_exit_reason` of this variant; `addr` is `data.breakpoint.addr`. */
  datatype ExitReason = ExitReason(kind: Kind, cpu: CpuRef, nextPc: u64, addr: u64, exitAsap: bool)

  /** `last_exit_reason` and `expected_exit`. */
  class ExitState {
    var reason: ExitReason
    var expectedExit: bool

    constructor ()
      ensures !expectedExit && reason == ExitReason(Internal, NO_CPU, 0, 0, false)
    {
      reason := ExitReason(Internal, NO_CPU, 0, 0, false);
      expectedExit := false;
    }

    /** `libafl_sync_exit_cpu`: set the pc when `next_pc` is non-zero, then clear `next_pc`. */
    method SyncExitCpu() returns (effects: seq<Event>)
      modifies this
      ensures reason == old(reason).(nextPc := 0) == Step(old(reason), SyncExit)
      ensures expectedExit == old(expectedExit)
      ensures effects == (if old(reason).nextPc != 0 then [SetPc(old(reason).cpu, old(reason).nextPc)] else [])
    {
      effects := [];
      if reason.nextPc != 0 {
        effects := [SetPc(reason.cpu, reason.nextPc)];
      }
      reason := reason.(nextPc := 0);
    }

    /** `libafl_exit_asap`: the flag stored in the exit reason, not `expected_exit`. */
    method ExitAsap() returns (b: bool)
      ensures b == reason.exitAsap
    {
      b := reason.exitAsap;
    }

    /**
     * `prepare_qemu_exit`: expect an exit and record CPU and pc; a running
     * CPU leaves its loop, otherwise `exit_asap` is raised.
     */
    method PrepareExit(cpu: CpuRef, nextPc: u64, running: bool, systemMode: bool) returns (effects: seq<Event>)
      modifies this
      ensures expectedExit
      ensures reason == old(reason).(cpu := cpu, nextPc := nextPc, exitAsap := old(reason).exitAsap || !running)
      ensures effects == LibaflExit.PrepareEffects(cpu, running, systemMode)
    {
      expectedExit := true;
      reason := reason.(cpu := cpu, nextPc := nextPc);
      effects := LibaflExit.PrepareEffects(cpu, running, systemMode);
      if !running {
        reason := reason.(exitAsap := true);
      }
    }

    /** `libafl_last_exit_cpu`: the recorded CPU while an exit is expected, else NULL. */
    method LastExitCpu() returns (cpu: CpuRef)
      ensures expectedExit ==> cpu == reason.cpu
      ensures !expectedExit ==> cpu == NO_CPU
    {
      cpu := if expectedExit then reason.cpu else NO_CPU;
    }

    /** `libafl_exit_request_sync_backdoor`: kind SYNC_BACKDOOR, then `prepare_qemu_exit`. */
    method RequestSyncBackdoor(cpu: CpuRef, pc: u64, running: bool, systemMode: bool)
      returns (effects: seq<Event>)
      modifies this
      ensures expectedExit
      ensures reason == old(reason).(kind := SyncBackdoor, cpu := cpu, nextPc := pc,
                                     exitAsap := old(reason).exitAsap || !running)
      ensures reason == Step(old(reason), SyncBackdoorReq(cpu, pc, running))
      ensures effects == LibaflExit.PrepareEffects(cpu, running, systemMode)
    {
      reason := reason.(kind := SyncBackdoor);
      effects := PrepareExit(cpu, pc, running, systemMode);
    }

    /** `libafl_exit_request_breakpoint`: kind BREAKPOINT with the address, then `prepare_qemu_exit`. */
    method RequestBreakpoint(cpu: CpuRef, pc: u64, running: bool, systemMode: bool)
      returns (effects: seq<Event>)
      modifies this
      ensures expectedExit
      ensures reason == ExitReason(Breakpoint, cpu, pc, pc, old(reason).exitAsap || !running)
      ensures reason == Step(old(reason), BreakpointReq(cpu, pc, running))
      ensures effects == LibaflExit.PrepareEffects(cpu, running, systemMode)
    {
      reason := reason.(kind := Breakpoint, addr := pc);
      effects := PrepareExit(cpu, pc, running, systemMode);
    }

    /** `libafl_exit_signal_vm_start`: forget the CPU and stop expecting an exit; `exit_asap` stays. */
    method SignalVmStart()
      modifies this
      ensures !expectedExit
      ensures reason == old(reason).(cpu := NO_CPU) == Step(old(reason), VmStart)
    {
      reason := reason.(cpu := NO_CPU);
      expectedExit := false;
    }

    /** `libafl_get_exit_reason`: the reason while an exit is expected, else NULL. */
    method GetExitReason() returns (r: Option<ExitReason>)
      ensures r.Some? <==> expectedExit
      ensures r.Some? ==> r.value == reason
    {
      r := if expectedExit then Some(reason) else None;
    }
  }

  /** The operations of this file that change the state, as a value (for the sticky-flag lemma). */
  datatype Op =
    | SyncExit
    | SyncBackdoorReq(cpu: CpuRef, pc: u64, running: bool)
    | BreakpointReq(cpu: CpuRef, pc: u64, running: bool)
    | VmStart

  /** The exit reason after one operation, as the methods above leave it. */
  function Step(r: ExitReason, op: Op): (r': ExitReason)
    ensures r.exitAsap ==> r'.exitAsap
    ensures op.SyncBackdoorReq? || op.BreakpointReq? ==> (r'.exitAsap <==> r.exitAsap || !op.running)
    ensures op.SyncExit? || op.VmStart? ==> r'.exitAsap == r.exitAsap
  {
    match op
    case SyncExit => r.(nextPc := 0)
    case SyncBackdoorReq(cpu, pc, running) =>
      r.(kind := SyncBackdoor, cpu := cpu, nextPc := pc, exitAsap := r.exitAsap || !running)
    case BreakpointReq(cpu, pc, running) => ExitReason(Breakpoint, cpu, pc, pc, r.exitAsap || !running)
    case VmStart => r.(cpu := NO_CPU)
  }

  function Steps(r: ExitReason, ops: seq<Op>): ExitReason
    decreases |ops|
  {
    if ops == [] then r else Steps(Step(r, ops[0]), ops[1..])
  }

  /**
   * `exit_asap` is sticky: once an exit is requested while the CPU is not
   * running, no sequence of operations of this file lowers it again.
   */
  lemma {:induction false} ExitAsapSticky(r: ExitReason, ops: seq<Op>)
    requires r.exitAsap
    ensures Steps(r, ops).exitAsap
    decreases |ops|
  {
    if ops != [] {
      ExitAsapSticky(Step(r, ops[0]), ops[1..]);
    }
  }

  /** Any request made while the CPU is not running raises `exit_asap` for good. */
  lemma {:induction false} NotRunningRequestRaisesAsap(r: ExitReason, ops: seq<Op>, k: nat)
    requires k < |ops| && (ops[k].SyncBackdoorReq? || ops[k].BreakpointReq?) && !ops[k].running
    ensures Steps(r, ops).exitAsap
    decreases |ops|
  {
    if k == 0 {
      ExitAsapSticky(Step(r, ops[0]), ops[1..]);
    } else {
      NotRunningRequestRaisesAsap(Step(r, ops[0]), ops[1..], k - 1);
    }
  }
}
