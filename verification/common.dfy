// Shared vocabulary for the LibAFL QEMU bridge model: machine-width integers,
// optional values, function pointers and the abstract events that stand for
// code generation and foreign calls.
module Common {
  const U64_LIMIT: int := 0x1_0000_0000_0000_0000

  /** uint64_t / size_t / target_ulong values (a 64-bit guest is assumed). */
  type u64 = x: int | 0 <= x < U64_LIMIT

  /** (uint64_t)-1, the "no id" value a generation callback returns to suppress a hook. */
  const U64_MAX: u64 := 0xFFFF_FFFF_FFFF_FFFF

  type u32 = x: int | 0 <= x < 0x1_0000_0000

  type u8 = x: int | 0 <= x < 0x100

  datatype Option<T> = None | Some(value: T)

  /** A C function pointer, compared by identity; 0 is NULL. */
  type FnPtr = nat

  const NULL: FnPtr := 0

  /**
   * A TCGHelperInfo: the static descriptor a hook copies (`template`, "" for the
   * zero-initialised struct of a freshly calloc'ed hook) with `func` patched in.
   */
  datatype HelperInfo = HelperInfo(template: string, func: FnPtr)

  const ZeroHelper: HelperInfo := HelperInfo("", NULL)

  /**
   * The `if (exec) { memcpy(&info, &template, ...); info.func = exec; }`
   * step of every hook constructor: a slot is filled only for a non-null
   * callback and otherwise stays zeroed.
   */
  function FillHelper(template: string, exec: FnPtr): (h: HelperInfo)
    ensures h.func == exec
    ensures h == ZeroHelper <==> exec == NULL
  {
    if exec == NULL then ZeroHelper else HelperInfo(template, exec)
  }

  /** A `CPUState *`, compared by identity; 0 is NULL. */
  type CpuRef = nat

  const NO_CPU: CpuRef := 0

  /**
   * Observable effects that the model records instead of performing:
   * an emitted TCG helper call (`TcgCall` for a hook's helper, `BuiltinCall`
   * for one of QEMU's own `gen_helper_*`), a direct call of a void C
   * callback, a translation-cache flush of every CPU, the invalidation of
   * the translated code at one guest pc on every CPU, and the CPU-control
   * calls of the exit machinery (`qemu_system_debug_request`, setting
   * `cpu->stopped`, raising an exception with `cpu_loop_exit`, `set_pc`).
   */
  datatype Event =
    | TcgCall(info: HelperInfo, args: seq<int>)
    | BuiltinCall(name: string, args: seq<int>)
    | Invoke(fn: FnPtr, args: seq<int>)
    | FlushAllCpus
    | InvalidatePc(pc: int)
    | DebugRequest
    | StopCpu(cpu: CpuRef)
    | CpuLoopExit(cpu: CpuRef, exception: int)
    | SetPc(cpu: CpuRef, pc: int)

  /**
   * The four size-specific helper slots (`helper_info1/2/4/8`) shared by the
   * memory-access and comparison hooks.
   */
  datatype Slots = Slots(info1: HelperInfo, info2: HelperInfo, info4: HelperInfo, info8: HelperInfo)

  /** Slots filled from the templates `prefix + "1"` ... `prefix + "8"` for the non-null callbacks. */
  function FillSlots(prefix: string, exec1: FnPtr, exec2: FnPtr, exec4: FnPtr, exec8: FnPtr): (s: Slots)
    ensures s.info1.func == exec1 && s.info2.func == exec2 && s.info4.func == exec4 && s.info8.func == exec8
    ensures exec1 != NULL ==> s.info1.template == prefix + "1"
    ensures exec2 != NULL ==> s.info2.template == prefix + "2"
    ensures exec4 != NULL ==> s.info4.template == prefix + "4"
    ensures exec8 != NULL ==> s.info8.template == prefix + "8"
  {
    Slots(FillHelper(prefix + "1", exec1), FillHelper(prefix + "2", exec2),
          FillHelper(prefix + "4", exec4), FillHelper(prefix + "8", exec8))
  }

  /** The slot for one of the four fixed operand sizes. */
  function SlotFor(s: Slots, size: nat): HelperInfo
    requires size in {1, 2, 4, 8}
  {
    if size == 1 then s.info1
    else if size == 2 then s.info2
    else if size == 4 then s.info4
    else s.info8
  }

  /**
   * The `if (size == 1 && info1.func) ... else if (size == 8 && info8.func)`
   * chain: the slot of exactly this size, when its callback is set.
   */
  function Sized(s: Slots, size: nat): (info: Option<HelperInfo>)
    ensures info.Some? <==> size in {1, 2, 4, 8} && SlotFor(s, size).func != NULL
    ensures info.Some? ==> info.value == SlotFor(s, size)
  {
    if size == 1 && s.info1.func != NULL then Some(s.info1)
    else if size == 2 && s.info2.func != NULL then Some(s.info2)
    else if size == 4 && s.info4.func != NULL then Some(s.info4)
    else if size == 8 && s.info8.func != NULL then Some(s.info8)
    else None
  }

  /** 2 to the power `n`, the value of `1 << n`. */
  function Pow2(n: nat): (p: nat)
    ensures p >= 1
  {
    if n == 0 then 1 else 2 * Pow2(n - 1)
  }

  lemma Pow2Of32()
    ensures Pow2(32) == 0x1_0000_0000
  {
    assert Pow2(4) == 0x10;
    assert Pow2(8) == 0x100;
    assert Pow2(12) == 0x1000;
    assert Pow2(16) == 0x1_0000;
    assert Pow2(20) == 0x10_0000;
    assert Pow2(24) == 0x100_0000;
    assert Pow2(28) == 0x1000_0000;
  }

  lemma {:induction false} Pow2Monotone(m: nat, n: nat)
    requires m < n
    ensures Pow2(m) < Pow2(n)
    decreases n
  {
    if m < n - 1 {
      Pow2Monotone(m, n - 1);
    }
  }
}
