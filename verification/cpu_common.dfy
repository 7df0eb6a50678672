// The parts of cpu.c this model covers: the LibAFL register accessors with
// their index guard, the LibAFL breakpoint and per-address hook lists, the
// per-CPU breakpoint queue that keeps GDB breakpoints in front, single-step
// mode and the host page size set-up.
module CpuCommon {
  import opened Common
  import opened AddrLists

  /** `BP_GDB` in QEMU's CPU header: the breakpoint was injected by the gdbstub. */
  const BP_GDB: bv32 := 0x10

  /** The errno value returned (negated) when no breakpoint matches. */
  const ENOENT: int := 2

  // ---------------------------------------------------------------------
  // Register access (`libafl_qemu_write_reg`, `libafl_qemu_read_reg`,
  // `libafl_qemu_num_regs`)
  // ---------------------------------------------------------------------

  /** `current_cpu`, or else the CPU of `libafl_qemu_env`; None when both are NULL. */
  function ResolveCpu(current: CpuRef, envCpu: CpuRef): (cpu: Option<CpuRef>)
    ensures cpu.None? <==> current == NO_CPU && envCpu == NO_CPU
    ensures cpu.Some? ==> cpu.value != NO_CPU && (current != NO_CPU ==> cpu.value == current)
  {
    if current != NO_CPU then Some(current)
    else if envCpu != NO_CPU then Some(envCpu)
    else None
  }

  /** `gdb_write_register` of the CPU's class: (cpu, bytes, register) to bytes written. */
  type GdbWrite = (CpuRef, seq<u8>, int) -> int

  /**
   * `libafl_qemu_write_reg`: 0 without a CPU or for an index at or past
   * `gdb_num_core_regs`, otherwise whatever the class's writer returns.
   * The guard is a signed comparison, so negative indices reach the writer.
   */
  function WriteReg(current: CpuRef, envCpu: CpuRef, numCoreRegs: int, write: GdbWrite,
                    reg: int, val: seq<u8>): (r: int)
    ensures ResolveCpu(current, envCpu).None? ==> r == 0
    ensures reg >= numCoreRegs ==> r == 0
    ensures ResolveCpu(current, envCpu).Some? && reg < numCoreRegs ==>
      r == write(ResolveCpu(current, envCpu).value, val, reg)
  {
    match ResolveCpu(current, envCpu)
    case None => 0
    case Some(cpu) => if reg < numCoreRegs then write(cpu, val, reg) else 0
  }

  /** `libafl_qemu_num_regs`: `gdb_num_core_regs` of the resolved CPU, 0 without one. */
  function NumRegs(current: CpuRef, envCpu: CpuRef, numCoreRegs: int): (n: int)
    ensures ResolveCpu(current, envCpu).None? ==> n == 0
    ensures ResolveCpu(current, envCpu).Some? ==> n == numCoreRegs
  {
    if ResolveCpu(current, envCpu).Some? then numCoreRegs else 0
  }

  /** `gdb_read_register` of the CPU's class: (cpu, register) to (length, bytes appended to the buffer). */
  type GdbRead = (CpuRef, int) -> (int, seq<u8>)

  /** `val` with its first `len` bytes replaced by the first `len` bytes of `bytes` (the memcpy). */
  function CopyOut(val: seq<u8>, bytes: seq<u8>, len: int): (r: seq<u8>)
    requires 0 <= len <= |bytes|
    ensures |r| == |val| + (if len > |val| then len - |val| else 0)
    ensures r[..len] == bytes[..len]
    ensures len <= |val| ==> r[len..] == val[len..]
  {
    bytes[..len] + (if len <= |val| then val[len..] else [])
  }

  /** The lazily allocated `libafl_qemu_mem_buf` that register reads go through. */
  class RegReader {
    var memBufAllocated: bool
    var memBuf: seq<u8>

    constructor ()
      ensures !memBufAllocated && memBuf == []
    {
      memBufAllocated := false;
      memBuf := [];
    }

    /**
     * `libafl_qemu_read_reg`: 0 and nothing changed without a CPU; otherwise
     * the buffer exists afterwards; for an index below `gdb_num_core_regs`
     * the buffer is emptied and refilled by the reader, and a positive
     * length is copied to `val`; other indices read 0.
     */
    method ReadReg(current: CpuRef, envCpu: CpuRef, numCoreRegs: int, read: GdbRead,
                   reg: int, val: seq<u8>) returns (len: int, newVal: seq<u8>)
      modifies this
      requires forall c, i :: read(c, i).0 <= |read(c, i).1|
      ensures ResolveCpu(current, envCpu).None? ==>
        len == 0 && newVal == val && memBufAllocated == old(memBufAllocated) && memBuf == old(memBuf)
      ensures ResolveCpu(current, envCpu).Some? ==> memBufAllocated
      ensures ResolveCpu(current, envCpu).Some? && reg >= numCoreRegs ==>
        len == 0 && newVal == val && memBuf == (if old(memBufAllocated) then old(memBuf) else [])
      ensures ResolveCpu(current, envCpu).Some? && reg < numCoreRegs ==>
        var (n, bytes) := read(ResolveCpu(current, envCpu).value, reg);
        len == n && memBuf == bytes && newVal == (if n > 0 then CopyOut(val, bytes, n) else val)
    {
      var cpu := ResolveCpu(current, envCpu);
      if cpu.None? {
        return 0, val;
      }
      if !memBufAllocated {
        memBufAllocated := true;
        memBuf := [];
      }
      newVal := val;
      len := 0;
      if reg < numCoreRegs {
        memBuf := [];
        var (n, bytes) := read(cpu.value, reg);
        memBuf := memBuf + bytes;
        if n > 0 {
          newVal := CopyOut(val, bytes, n);
        }
        len := n;
      }
    }
  }

  // ---------------------------------------------------------------------
  // The LibAFL breakpoint and hook lists of cpu.c
  // ---------------------------------------------------------------------

  const HOOK_TEMPLATE: string := "libafl_hook"

  /** A node of `libafl_qemu_hooks`: callback, its argument and the helper registered for it. */
  datatype AddrHook = AddrHook(callback: FnPtr, value: u64, info: HelperInfo)

  /**
   * The cast `(target_ulong) addr`: the 64-bit argument keeps its low
   * `targetLongBits` bits (32 or 64, the guest's word size).
   */
  function ToTargetUlong(addr: u64, targetLongBits: nat): (pc: u64)
    ensures targetLongBits != 32 ==> pc == addr
    ensures targetLongBits == 32 ==> pc < 0x1_0000_0000 && pc <= addr && (addr - pc) % 0x1_0000_0000 == 0
  {
    if targetLongBits == 32 then addr % 0x1_0000_0000 else addr
  }

  /** On a 32-bit guest, addresses that differ only above bit 31 name the same breakpoint. */
  lemma TargetUlongDropsHighBits(addr: u64)
    requires addr < 0x1_0000_0000
    ensures ToTargetUlong(addr + 0x1_0000_0000, 32) == ToTargetUlong(addr, 32) == addr
  {
  }

  /** The two global lists, for a guest whose `target_ulong` has `targetLongBits` bits. */
  class LibaflLists {
    const breakpoints: AddrList<()>
    const hooks: AddrList<AddrHook>
    const targetLongBits: nat

    constructor (targetLongBits: nat)
      requires targetLongBits == 32 || targetLongBits == 64
      ensures fresh(breakpoints) && fresh(hooks) && this.targetLongBits == targetLongBits
      ensures breakpoints.entries == [] && hooks.entries == []
    {
      breakpoints := new AddrList();
      hooks := new AddrList();
      this.targetLongBits := targetLongBits;
    }

    /** `libafl_qemu_set_breakpoint`: cast to `target_ulong`, invalidate, prepend, return 1. */
    method SetBreakpoint(addr: u64) returns (r: int, effects: seq<Event>)
      modifies breakpoints
      ensures var pc := ToTargetUlong(addr, targetLongBits);
        breakpoints.entries == [Entry(pc, ())] + old(breakpoints.entries) &&
        r == 1 && effects == [InvalidatePc(pc)]
    {
      var pc := ToTargetUlong(addr, targetLongBits);
      r, effects := breakpoints.Push(pc, ());
    }

    /**
     * `libafl_qemu_remove_breakpoint`: cast to `target_ulong`, unlink every
     * node at that pc; 1 iff one was there.
     */
    method RemoveBreakpoint(addr: u64) returns (r: int, effects: seq<Event>)
      modifies breakpoints
      ensures var pc := ToTargetUlong(addr, targetLongBits);
        breakpoints.entries == Drop(old(breakpoints.entries), pc) &&
        r == (if Count(old(breakpoints.entries), pc) > 0 then 1 else 0) &&
        effects == seq(Count(old(breakpoints.entries), pc), _ => InvalidatePc(pc))
    {
      var pc := ToTargetUlong(addr, targetLongBits);
      r, effects := breakpoints.RemoveAll(pc);
    }

    /**
     * `libafl_qemu_set_hook`: cast to `target_ulong`, invalidate, prepend a
     * node whose helper calls `callback` under the name "libafl_hook",
     * register that helper, return 1.
     */
    method SetHook(addr: u64, callback: FnPtr, value: u64) returns (r: int, effects: seq<Event>)
      modifies hooks
      ensures var pc := ToTargetUlong(addr, targetLongBits);
        hooks.entries == [Entry(pc, AddrHook(callback, value, HelperInfo(HOOK_TEMPLATE, callback)))] + old(hooks.entries) &&
        effects == [InvalidatePc(pc), BuiltinCall("libafl_helper_table_add", [callback])]
      ensures r == 1
    {
      var pc := ToTargetUlong(addr, targetLongBits);
      var inv;
      r, inv := hooks.Push(pc, AddrHook(callback, value, HelperInfo(HOOK_TEMPLATE, callback)));
      effects := inv + [BuiltinCall("libafl_helper_table_add", [callback])];
    }

    /**
     * `libafl_qemu_remove_hook`: cast to `target_ulong`, unlink every hook
     * at that pc; 1 iff one was there.
     */
    method RemoveHook(addr: u64) returns (r: int, effects: seq<Event>)
      modifies hooks
      ensures var pc := ToTargetUlong(addr, targetLongBits);
        hooks.entries == Drop(old(hooks.entries), pc) &&
        r == (if Count(old(hooks.entries), pc) > 0 then 1 else 0) &&
        effects == seq(Count(old(hooks.entries), pc), _ => InvalidatePc(pc))
    {
      var pc := ToTargetUlong(addr, targetLongBits);
      r, effects := hooks.RemoveAll(pc);
    }
  }

  // ---------------------------------------------------------------------
  // The per-CPU breakpoint queue (`cpu->breakpoints`)
  // ---------------------------------------------------------------------

  datatype CpuBreakpoint = CpuBreakpoint(pc: u64, flags: bv32)

  predicate IsGdb(b: CpuBreakpoint) {
    b.flags & BP_GDB != 0
  }

  /** Every GDB-injected breakpoint comes before every other one. */
  predicate GdbFirst(bps: seq<CpuBreakpoint>) {
    forall i, j :: 0 <= i < j < |bps| && IsGdb(bps[j]) ==> IsGdb(bps[i])
  }

  /** The pc after the class's optional `gdb_adjust_breakpoint`. */
  function Adjust(adjust: Option<(CpuRef, u64) -> u64>, cpu: CpuRef, pc: u64): (r: u64)
    ensures adjust.None? ==> r == pc
  {
    match adjust
    case None => pc
    case Some(f) => f(cpu, pc)
  }

  /** The position of the first breakpoint with exactly this pc and these flags. */
  function FindBp(bps: seq<CpuBreakpoint>, pc: u64, flags: bv32): (k: Option<nat>)
    ensures k.None? <==> forall i :: 0 <= i < |bps| ==> bps[i] != CpuBreakpoint(pc, flags)
    ensures k.Some? ==> k.value < |bps| && bps[k.value] == CpuBreakpoint(pc, flags)
    ensures k.Some? ==> forall i :: 0 <= i < k.value ==> bps[i] != CpuBreakpoint(pc, flags)
  {
    if bps == [] then None
    else if bps[0] == CpuBreakpoint(pc, flags) then Some(0)
    else match FindBp(bps[1..], pc, flags)
      case None => None
      case Some(k) => Some(k + 1)
  }

  /** The breakpoint shares a flag with `mask`. */
  predicate HasFlag(b: CpuBreakpoint, mask: bv32) {
    b.flags & mask != 0
  }

  /** The queue after `cpu_breakpoint_remove_all(mask)`: the entries sharing no flag with `mask`. */
  function Unmasked(bps: seq<CpuBreakpoint>, mask: bv32): seq<CpuBreakpoint> {
    if bps == [] then [] else (if HasFlag(bps[0], mask) then [] else [bps[0]]) + Unmasked(bps[1..], mask)
  }

  lemma {:induction false} UnmaskedSnoc(bps: seq<CpuBreakpoint>, b: CpuBreakpoint, mask: bv32)
    ensures Unmasked(bps + [b], mask) == Unmasked(bps, mask) + (if HasFlag(b, mask) then [] else [b])
  {
    if bps == [] {
      assert bps + [b] == [b];
    } else {
      var head := if HasFlag(bps[0], mask) then [] else [bps[0]];
      var tail := if HasFlag(b, mask) then [] else [b];
      assert (bps + [b])[0] == bps[0] && (bps + [b])[1..] == bps[1..] + [b];
      assert Unmasked(bps + [b], mask) == head + Unmasked(bps[1..] + [b], mask);
      UnmaskedSnoc(bps[1..], b, mask);
      assert Unmasked(bps, mask) == head + Unmasked(bps[1..], mask);
      assert head + (Unmasked(bps[1..], mask) + tail) == (head + Unmasked(bps[1..], mask)) + tail;
    }
  }

  /** `remove_all` keeps exactly the entries with `flags & mask == 0`. */
  lemma {:induction false} UnmaskedSpec(bps: seq<CpuBreakpoint>, mask: bv32)
    ensures forall b :: b in Unmasked(bps, mask) <==> b in bps && !HasFlag(b, mask)
    ensures |Unmasked(bps, mask)| <= |bps|
  {
    if bps != [] {
      UnmaskedSpec(bps[1..], mask);
      assert forall b :: b in bps <==> b == bps[0] || b in bps[1..];
    }
  }

  /** Filtering by mask keeps GDB breakpoints in front. */
  lemma {:induction false} UnmaskedGdbFirst(bps: seq<CpuBreakpoint>, mask: bv32)
    requires GdbFirst(bps)
    ensures GdbFirst(Unmasked(bps, mask))
  {
    if bps != [] {
      var rest := bps[1..];
      assert GdbFirst(rest) by {
        forall i, j | 0 <= i < j < |rest| && IsGdb(rest[j]) ensures IsGdb(rest[i]) {
          assert rest[i] == bps[i + 1] && rest[j] == bps[j + 1];
        }
      }
      UnmaskedGdbFirst(rest, mask);
      UnmaskedSpec(rest, mask);
      var r := Unmasked(bps, mask);
      if !HasFlag(bps[0], mask) {
        forall j | 0 < j < |r| && IsGdb(r[j]) ensures IsGdb(r[0]) {
          assert r[j] in Unmasked(rest, mask);
          var m :| 0 <= m < |rest| && rest[m] == r[j];
          assert bps[m + 1] == r[j];
        }
      }
    }
  }

  /** Removing one entry keeps GDB breakpoints in front. */
  lemma RemoveAtGdbFirst(bps: seq<CpuBreakpoint>, k: nat)
    requires k < |bps| && GdbFirst(bps)
    ensures GdbFirst(bps[..k] + bps[k + 1..])
  {
    var r := bps[..k] + bps[k + 1..];
    forall i, j | 0 <= i < j < |r| && IsGdb(r[j]) ensures IsGdb(r[i]) {
      var i' := if i < k then i else i + 1;
      var j' := if j < k then j else j + 1;
      assert r[i] == bps[i'] && r[j] == bps[j'];
    }
  }

  class CpuState {
    var breakpoints: seq<CpuBreakpoint>
    var singlestepEnabled: int

    constructor ()
      ensures breakpoints == [] && singlestepEnabled == 0
    {
      breakpoints := [];
      singlestepEnabled := 0;
    }

    /**
     * `cpu_breakpoint_insert`: the (adjusted) breakpoint goes to the head
     * of the queue when it carries BP_GDB and to the tail otherwise; the
     * result is always 0. GDB breakpoints stay in front.
     */
    method BreakpointInsert(cpu: CpuRef, adjust: Option<(CpuRef, u64) -> u64>, pc: u64, flags: bv32)
      returns (r: int, bp: CpuBreakpoint)
      modifies this
      ensures r == 0 && bp == CpuBreakpoint(Adjust(adjust, cpu, pc), flags)
      ensures breakpoints == if IsGdb(bp) then [bp] + old(breakpoints) else old(breakpoints) + [bp]
      ensures singlestepEnabled == old(singlestepEnabled)
      ensures GdbFirst(old(breakpoints)) ==> GdbFirst(breakpoints)
    {
      bp := CpuBreakpoint(Adjust(adjust, cpu, pc), flags);
      if bp.flags & BP_GDB != 0 {
        breakpoints := [bp] + breakpoints;
      } else {
        breakpoints := breakpoints + [bp];
      }
      r := 0;
    }

    /**
     * `cpu_breakpoint_remove`: the first entry with the (adjusted) pc and
     * exactly these flags is removed and 0 returned; without one the queue
     * is unchanged and the result is -ENOENT.
     */
    method BreakpointRemove(cpu: CpuRef, adjust: Option<(CpuRef, u64) -> u64>, pc: u64, flags: bv32)
      returns (r: int)
      modifies this
      ensures var k := FindBp(old(breakpoints), Adjust(adjust, cpu, pc), flags);
        match k
        case None => r == -ENOENT && breakpoints == old(breakpoints)
        case Some(i) => r == 0 && breakpoints == old(breakpoints)[..i] + old(breakpoints)[i + 1..]
      ensures singlestepEnabled == old(singlestepEnabled)
      ensures GdbFirst(old(breakpoints)) ==> GdbFirst(breakpoints)
    {
      var target := CpuBreakpoint(Adjust(adjust, cpu, pc), flags);
      var i := 0;
      while i < |breakpoints|
        invariant 0 <= i <= |breakpoints| && breakpoints == old(breakpoints)
        invariant forall m :: 0 <= m < i ==> breakpoints[m] != target
      {
        if breakpoints[i] == target {
          assert FindBp(breakpoints, target.pc, flags) == Some(i) by {
            FindBpFirst(breakpoints, target.pc, flags, i);
          }
          if GdbFirst(breakpoints) {
            RemoveAtGdbFirst(breakpoints, i);
          }
          breakpoints := breakpoints[..i] + breakpoints[i + 1..];
          return 0;
        }
        i := i + 1;
      }
      r := -ENOENT;
    }

    /** `cpu_breakpoint_remove_all`: exactly the entries sharing a flag with `mask` go, the rest keep their order. */
    method BreakpointRemoveAll(mask: bv32)
      modifies this
      ensures breakpoints == Unmasked(old(breakpoints), mask)
      ensures singlestepEnabled == old(singlestepEnabled)
      ensures GdbFirst(old(breakpoints)) ==> GdbFirst(breakpoints)
    {
      var bps := breakpoints;
      var kept: seq<CpuBreakpoint> := [];
      var i := 0;
      while i < |bps|
        invariant 0 <= i <= |bps|
        invariant kept == Unmasked(bps[..i], mask)
        invariant singlestepEnabled == old(singlestepEnabled)
      {
        UnmaskedSnoc(bps[..i], bps[i], mask);
        assert bps[..i + 1] == bps[..i] + [bps[i]];
        if !HasFlag(bps[i], mask) {
          kept := kept + [bps[i]];
        }
        i := i + 1;
      }
      assert bps[..i] == bps;
      if GdbFirst(bps) {
        UnmaskedGdbFirst(bps, mask);
      }
      breakpoints := kept;
    }

    /** `cpu_single_step`: store `enabled` when it differs, updating KVM's guest debug state then. */
    method SingleStep(enabled: int, kvmEnabled: bool) returns (effects: seq<Event>)
      modifies this
      ensures singlestepEnabled == enabled && breakpoints == old(breakpoints)
      ensures effects == (if old(singlestepEnabled) != enabled && kvmEnabled
                          then [BuiltinCall("kvm_update_guest_debug", [0])] else [])
    {
      effects := [];
      if singlestepEnabled != enabled {
        singlestepEnabled := enabled;
        if kvmEnabled {
          effects := [BuiltinCall("kvm_update_guest_debug", [0])];
        }
      }
    }
  }

  /** The first match found by a scan from the front is what `FindBp` reports. */
  lemma {:induction false} FindBpFirst(bps: seq<CpuBreakpoint>, pc: u64, flags: bv32, i: nat)
    requires i < |bps| && bps[i] == CpuBreakpoint(pc, flags)
    requires forall m :: 0 <= m < i ==> bps[m] != CpuBreakpoint(pc, flags)
    ensures FindBp(bps, pc, flags) == Some(i)
  {
    if i > 0 {
      FindBpFirst(bps[1..], pc, flags, i - 1);
    }
  }

  // ---------------------------------------------------------------------
  // Host page size (`page_size_init`)
  // ---------------------------------------------------------------------

  /**
   * The host page size after `page_size_init`: the configured size, or the
   * real host page size when none is configured, raised to at least the
   * target page size.
   */
  function HostPageSize(configured: nat, realHost: nat, targetPage: nat): (size: nat)
    ensures size >= targetPage
    ensures configured != 0 && configured >= targetPage ==> size == configured
    ensures configured == 0 && realHost >= targetPage ==> size == realHost
  {
    var s := if configured == 0 then realHost else configured;
    if s < targetPage then targetPage else s
  }

  /** Running the initialisation again changes nothing. */
  lemma HostPageSizeIdempotent(configured: nat, realHost: nat, targetPage: nat)
    ensures HostPageSize(HostPageSize(configured, realHost, targetPage), realHost, targetPage)
         == HostPageSize(configured, realHost, targetPage)
  {
  }

  /** `qemu_host_page_size` and `qemu_host_page_mask`. */
  class HostPage {
    var size: nat
    var mask: int

    constructor ()
      ensures size == 0 && mask == 0
    {
      size := 0;
      mask := 0;
    }

    /** `page_size_init`: size at least the target page, mask the negated size. */
    method PageSizeInit(realHost: nat, targetPage: nat)
      modifies this
      ensures size == HostPageSize(old(size), realHost, targetPage)
      ensures size >= targetPage && mask == -(size as int)
    {
      if size == 0 {
        size := realHost;
      }
      if size < targetPage {
        size := targetPage;
      }
      mask := -(size as int);
    }
  }
}
