// The LibAFL-relevant control logic of accel/tcg/translator.c: whether a
// direct jump may chain to another block, the per-instruction loop with the
// LibAFL instruction hook, breakpoints and the 4-byte backdoor opcode, how
// the loop stops and what it records in the block, and when a code access
// must take the slow path. Target-specific decoding (`ops->translate_insn`),
// the instruction hook table, the guest code bytes and the TCG buffer state
// are parameters.
module Translator {
  import opened Common

  /** `TARGET_PAGE_BITS` (12 on the common targets) and the page size. */
  const TARGET_PAGE_BITS: nat := 12
  const TARGET_PAGE_SIZE: nat := 4096

  /** TB compile flags from QEMU's exec-all header. */
  const CF_NO_GOTO_TB: bv32 := 0x200
  const CF_LAST_IO: bv32 := 0x8000

  /** The 4-byte backdoor opcode 0x0f 0x3a 0xf2 0x44. */
  const BACKDOOR_OPCODE: seq<u8> := [0x0f, 0x3a, 0xf2, 0x44]

  /** The page number of an address: two addresses satisfy `((a ^ b) & TARGET_PAGE_MASK) == 0` iff these agree. */
  function PageOf(a: int): int {
    a / TARGET_PAGE_SIZE
  }

  /**
   * `translator_use_goto_tb`: never when the block was compiled with
   * CF_NO_GOTO_TB, otherwise exactly when `dest` lies on the page where the
   * block starts.
   */
  function UseGotoTb(cflags: bv32, pcFirst: u64, dest: u64): (b: bool)
    ensures cflags & CF_NO_GOTO_TB != 0 ==> !b
    ensures cflags & CF_NO_GOTO_TB == 0 ==> (b <==> PageOf(pcFirst) == PageOf(dest))
  {
    if cflags & CF_NO_GOTO_TB != 0 then false else PageOf(pcFirst) == PageOf(dest)
  }

  /** A chained jump never leaves the block's first page. */
  lemma GotoTbStaysOnPage(cflags: bv32, pcFirst: u64, dest: u64)
    requires UseGotoTb(cflags, pcFirst, dest)
    ensures pcFirst - TARGET_PAGE_SIZE < dest < pcFirst + TARGET_PAGE_SIZE
  {
  }

  /** `db->is_jmp`: DISAS_NEXT, DISAS_TOO_MANY or a target-specific value. */
  datatype DisasJump = DisasNext | DisasTooMany | DisasTarget(code: nat)

  /**
   * What the loop depends on besides its own variables:
   * - `hookAt`: what `libafl_search_hook` finds at a pc (callback, data);
   * - `breakpoints`: the addresses of `libafl_qemu_breakpoints`, in list order;
   * - `backdoors`: the (exec, data) pairs of `libafl_backdoor_hooks`, in list order;
   * - `code`: the guest code bytes `translator_ldub` returns;
   * - `translate`: `ops->translate_insn`, giving the next pc and `is_jmp`;
   * - `bufFull`: `tcg_op_buf_full()` after the given number of instructions;
   * - `maxInsns`: the incoming `*max_insns`; `lastIo`: CF_LAST_IO in the block's flags.
   */
  datatype Ctx = Ctx(
    hookAt: u64 -> Option<(FnPtr, u64)>,
    breakpoints: seq<u64>,
    backdoors: seq<(FnPtr, u64)>,
    code: u64 -> u8,
    translate: u64 -> (u64, DisasJump),
    bufFull: nat -> bool,
    maxInsns: int,
    lastIo: bool)

  /** Address arithmetic on `target_ulong` wraps around; an offset below 2^64 wraps at most once. */
  function AddPc(pc: u64, k: nat): u64
    requires k < U64_LIMIT
  {
    if pc + k < U64_LIMIT then pc + k else pc + k - U64_LIMIT
  }

  /** `pc_next - pc_first` as `target_ulong`: the distance, wrapping below zero. */
  function PcDistance(pcNext: u64, pcFirst: u64): u64 {
    if pcNext >= pcFirst then pcNext - pcFirst else pcNext - pcFirst + U64_LIMIT
  }

  /** The wrapped sum is the sum modulo 2^64. */
  lemma AddPcIsModulo(pc: u64, k: nat)
    requires k < U64_LIMIT
    ensures AddPc(pc, k) == (pc + k) % U64_LIMIT
  {
  }

  /** The wrapped distance is the difference modulo 2^64. */
  lemma PcDistanceIsModulo(pcNext: u64, pcFirst: u64)
    ensures PcDistance(pcNext, pcFirst) == (pcNext - pcFirst) % U64_LIMIT
  {
  }

  /** The four bytes at `pc` are the backdoor opcode (read one by one, stopping at the first mismatch). */
  predicate IsBackdoor(code: u64 -> u8, pc: u64) {
    code(pc) == BACKDOOR_OPCODE[0] && code(AddPc(pc, 1)) == BACKDOOR_OPCODE[1] &&
    code(AddPc(pc, 2)) == BACKDOOR_OPCODE[2] && code(AddPc(pc, 3)) == BACKDOOR_OPCODE[3]
  }

  /** The call `tcg_gen_callN` emits for a raw function pointer (no helper name). */
  function RawCall(fn: FnPtr, args: seq<int>): Event {
    TcgCall(HelperInfo("", fn), args)
  }

  /** The instruction hook call and one breakpoint helper call per list node at `pc`, in that order. */
  function ProbeEvents(ctx: Ctx, pc: u64): seq<Event> {
    (match ctx.hookAt(pc)
     case None => []
     case Some((cb, data)) => [RawCall(cb, [pc, data])]) +
    BreakpointEvents(ctx.breakpoints, pc)
  }

  function BreakpointEvents(bps: seq<u64>, pc: u64): (es: seq<Event>)
    ensures |es| <= |bps|
    ensures forall e :: e in es ==> e == BuiltinCall("libafl_qemu_handle_breakpoint", [pc])
  {
    if bps == [] then []
    else (if bps[0] == pc then [BuiltinCall("libafl_qemu_handle_breakpoint", [pc])] else []) + BreakpointEvents(bps[1..], pc)
  }

  /** One call of every backdoor hook's `exec` with (pc, data), in list order. */
  function BackdoorEvents(hs: seq<(FnPtr, u64)>, pc: u64): (es: seq<Event>)
    ensures |es| == |hs|
    ensures forall i :: 0 <= i < |hs| ==> es[i] == RawCall(hs[i].0, [pc, hs[i].1])
  {
    seq(|hs|, i requires 0 <= i < |hs| => RawCall(hs[i].0, [pc, hs[i].1]))
  }

  /** What one iteration does after counting the instruction: next pc, `is_jmp` and the events. */
  datatype StepResult = StepResult(pcNext: u64, isJmp: DisasJump, events: seq<Event>)

  /**
   * One loop iteration for instruction number `n` at `pc`: the probes, then
   * either the backdoor (every backdoor hook, pc advanced by 4, no
   * translation) or `translate_insn`, preceded by `gen_io_start` on the last
   * allowed instruction of a CF_LAST_IO block.
   */
  function InsnStep(ctx: Ctx, pc: u64, n: nat): (r: StepResult)
    ensures IsBackdoor(ctx.code, pc) ==>
      r == StepResult(AddPc(pc, 4), DisasNext, ProbeEvents(ctx, pc) + BackdoorEvents(ctx.backdoors, pc))
    ensures !IsBackdoor(ctx.code, pc) ==>
      r.pcNext == ctx.translate(pc).0 && r.isJmp == ctx.translate(pc).1
  {
    if IsBackdoor(ctx.code, pc) then
      StepResult(AddPc(pc, 4), DisasNext, ProbeEvents(ctx, pc) + BackdoorEvents(ctx.backdoors, pc))
    else
      var io := if n == ctx.maxInsns && ctx.lastIo then [BuiltinCall("gen_io_start", [])] else [];
      var (next, jmp) := ctx.translate(pc);
      StepResult(next, jmp, ProbeEvents(ctx, pc) + io)
  }

  /** The number of iterations the budget allows: `*max_insns`, but at least one. */
  function Cap(ctx: Ctx): nat {
    if ctx.maxInsns < 1 then 1 else ctx.maxInsns
  }

  /** The loop's result: final pc, instruction count, `is_jmp`, events, and the pc of the last instruction (`libafl_gen_cur_pc`). */
  datatype Outcome = Outcome(pcNext: u64, numInsns: nat, isJmp: DisasJump, events: seq<Event>, lastPc: u64)

  /** The `while (true)` loop from an iteration with `n` instructions already counted. */
  function Loop(ctx: Ctx, pc: u64, n: nat, events: seq<Event>): Outcome
    requires n < Cap(ctx)
    decreases Cap(ctx) - n
  {
    var s := InsnStep(ctx, pc, n + 1);
    if s.isJmp != DisasNext then Outcome(s.pcNext, n + 1, s.isJmp, events + s.events, pc)
    else if ctx.bufFull(n + 1) || n + 1 >= ctx.maxInsns then Outcome(s.pcNext, n + 1, DisasTooMany, events + s.events, pc)
    else Loop(ctx, s.pcNext, n + 1, events + s.events)
  }

  /** One iteration of `Loop`: it stops, or goes on from the next pc. */
  lemma LoopOnce(ctx: Ctx, pc: u64, n: nat, events: seq<Event>)
    requires n < Cap(ctx)
    ensures var s := InsnStep(ctx, pc, n + 1);
      var r := Loop(ctx, pc, n, events);
      if s.isJmp != DisasNext then r == Outcome(s.pcNext, n + 1, s.isJmp, events + s.events, pc)
      else if ctx.bufFull(n + 1) || n + 1 >= ctx.maxInsns then r == Outcome(s.pcNext, n + 1, DisasTooMany, events + s.events, pc)
      else n + 1 < Cap(ctx) && r == Loop(ctx, s.pcNext, n + 1, events + s.events)
  {
  }

  /**
   * The loop always stops with `is_jmp` other than DISAS_NEXT, after at
   * least one and at most `max(*max_insns, 1)` instructions.
   */
  lemma {:induction false} LoopStops(ctx: Ctx, pc: u64, n: nat, events: seq<Event>)
    requires n < Cap(ctx)
    ensures var r := Loop(ctx, pc, n, events);
      r.isJmp != DisasNext && n < r.numInsns <= Cap(ctx)
    decreases Cap(ctx) - n
  {
    var s := InsnStep(ctx, pc, n + 1);
    if s.isJmp == DisasNext && !(ctx.bufFull(n + 1) || n + 1 >= ctx.maxInsns) {
      LoopStops(ctx, s.pcNext, n + 1, events + s.events);
    }
  }

  /**
   * When the loop stops inside the budget with room in the buffer, it is
   * because the last iteration (`translate_insn`) said so.
   */
  lemma {:induction false} LoopStopReason(ctx: Ctx, pc: u64, n: nat, events: seq<Event>)
    requires n < Cap(ctx)
    ensures var r := Loop(ctx, pc, n, events);
      r.numInsns < ctx.maxInsns && !ctx.bufFull(r.numInsns) ==> InsnStep(ctx, r.lastPc, r.numInsns).isJmp == r.isJmp
    decreases Cap(ctx) - n
  {
    var s := InsnStep(ctx, pc, n + 1);
    if s.isJmp == DisasNext && !(ctx.bufFull(n + 1) || n + 1 >= ctx.maxInsns) {
      LoopStopReason(ctx, s.pcNext, n + 1, events + s.events);
    }
  }

  /** The loop only appends events: what was emitted before it stays a prefix. */
  lemma {:induction false} LoopKeepsEvents(ctx: Ctx, pc: u64, n: nat, events: seq<Event>)
    requires n < Cap(ctx)
    ensures events <= Loop(ctx, pc, n, events).events
    decreases Cap(ctx) - n
  {
    var s := InsnStep(ctx, pc, n + 1);
    if s.isJmp == DisasNext && !(ctx.bufFull(n + 1) || n + 1 >= ctx.maxInsns) {
      LoopKeepsEvents(ctx, s.pcNext, n + 1, events + s.events);
    }
  }

  /**
   * When no instruction ends the block and the buffer never fills, the
   * block has exactly `max(*max_insns, 1)` instructions and ends with
   * DISAS_TOO_MANY.
   */
  lemma {:induction false} LoopUsesBudget(ctx: Ctx, pc: u64, n: nat, events: seq<Event>)
    requires n < Cap(ctx)
    requires forall p :: ctx.translate(p).1 == DisasNext
    requires forall k :: !ctx.bufFull(k)
    ensures Loop(ctx, pc, n, events).numInsns == Cap(ctx)
    ensures Loop(ctx, pc, n, events).isJmp == DisasTooMany
    decreases Cap(ctx) - n
  {
    var s := InsnStep(ctx, pc, n + 1);
    if n + 1 < ctx.maxInsns {
      LoopUsesBudget(ctx, s.pcNext, n + 1, events + s.events);
    }
  }

  /** What the loop leaves in the block and in `*max_insns`. */
  datatype Translated = Translated(tbSize: u64, icount: nat, maxInsnsOut: nat, isJmp: DisasJump,
                                   events: seq<Event>, genCurPc: u64)

  /**
   * `translator_loop` (the part between the start and end hooks):
   * `*max_insns` follows the instruction count, `tb->size` is the distance
   * from the first pc to the final `pc_next` (wrapping as `target_ulong`)
   * and `tb->icount` the number of instructions.
   */
  method TranslatorLoop(ctx: Ctx, pcFirst: u64) returns (out: Translated)
    ensures var r := Loop(ctx, pcFirst, 0, []);
      out == Translated(PcDistance(r.pcNext, pcFirst), r.numInsns, r.numInsns, r.isJmp, r.events, r.lastPc)
    ensures out.isJmp != DisasNext && 1 <= out.icount <= Cap(ctx) && out.maxInsnsOut == out.icount
  {
    var pcNext: u64 := pcFirst;
    var numInsns: nat := 0;
    var isJmp := DisasNext;
    var events: seq<Event> := [];
    var genCurPc: u64 := 0;
    var maxInsnsOut: nat := 0;
    LoopStops(ctx, pcFirst, 0, []);
    while true
      invariant numInsns < Cap(ctx)
      invariant Loop(ctx, pcNext, numInsns, events) == Loop(ctx, pcFirst, 0, [])
      decreases Cap(ctx) - numInsns
    {
      LoopOnce(ctx, pcNext, numInsns, events);
      numInsns := numInsns + 1;
      maxInsnsOut := numInsns;
      genCurPc := pcNext;
      var s := InsnStep(ctx, pcNext, numInsns);
      events := events + s.events;
      pcNext := s.pcNext;
      isJmp := s.isJmp;
      if isJmp != DisasNext {
        break;
      }
      if ctx.bufFull(numInsns) || numInsns >= ctx.maxInsns {
        isJmp := DisasTooMany;
        break;
      }
    }
    out := Translated(PcDistance(pcNext, pcFirst), numInsns, maxInsnsOut, isJmp, events, genCurPc);
  }

  // ---------------------------------------------------------------------
  // translator_access
  // ---------------------------------------------------------------------

  /** The start of the page after the one holding `a` (`TARGET_PAGE_ALIGN` of a page-interior address). */
  function PageAlign(a: int): int {
    (a + TARGET_PAGE_SIZE - 1) / TARGET_PAGE_SIZE * TARGET_PAGE_SIZE
  }

  /** Where a code access is served from: NULL (the slow path) or an offset into the first or second host page. */
  datatype Access = SlowPath | HostPage(page: nat, offset: int)

  /** The translation block's page addresses and the lazily filled second host pointer. */
  class TbPages {
    var page0Mmio: bool       // `tb_page_addr0(tb) == -1`
    var page1: Option<int>    // `tb_page_addr1(tb)` once set
    var host1Known: bool      // `db->host_addr[1] != NULL`

    constructor (page0Mmio: bool)
      ensures this.page0Mmio == page0Mmio && page1 == None && !host1Known
    {
      this.page0Mmio := page0Mmio;
      page1 := None;
      host1Known := false;
    }

    /**
     * `translator_access` for `len > 0` bytes at `pc` in a block starting at
     * `pcFirst`. `lookup` is `get_page_addr_code_hostp` for the second page
     * (-1 for MMIO). NULL when the first page is MMIO, when the second page
     * turns out to be MMIO (which then marks the first page MMIO too), and
     * when the access starts on the first page but ends on the second.
     */
    method TranslatorAccess(pcFirst: u64, pc: u64, len: nat, lookup: int -> int) returns (r: Access)
      requires len > 0
      modifies this
      ensures old(page0Mmio) ==> r == SlowPath && page0Mmio && page1 == old(page1) && host1Known == old(host1Known)
      ensures !old(page0Mmio) && PageOf(pc + len - 1) == PageOf(pcFirst) ==>
        r == HostPage(0, pc - pcFirst) && page0Mmio == old(page0Mmio) && page1 == old(page1) && host1Known == old(host1Known)
      ensures !old(page0Mmio) && PageOf(pc + len - 1) != PageOf(pcFirst) && PageOf(pc) == PageOf(pcFirst) ==>
        r == SlowPath
      ensures !old(page0Mmio) && PageOf(pc + len - 1) != PageOf(pcFirst) && old(host1Known) ==>
        page0Mmio == old(page0Mmio) && page1 == old(page1) && host1Known &&
        r == (if PageOf(pc) == PageOf(pcFirst) then SlowPath else HostPage(1, pc - PageAlign(pcFirst)))
      ensures !old(page0Mmio) && PageOf(pc + len - 1) != PageOf(pcFirst) && !old(host1Known) ==>
        var phys := lookup(PageAlign(pcFirst));
        if phys == -1 then r == SlowPath && page0Mmio && page1 == old(page1) && !host1Known
        else page1 == Some(phys) && host1Known && !page0Mmio &&
             r == (if PageOf(pc) == PageOf(pcFirst) then SlowPath else HostPage(1, pc - PageAlign(pcFirst)))
    {
      if page0Mmio {
        return SlowPath;
      }
      var end := pc + len - 1;
      if PageOf(end) == PageOf(pcFirst) {
        return HostPage(0, pc - pcFirst);
      }
      var base := PageAlign(pcFirst);
      if !host1Known {
        var phys := lookup(base);
        if phys == -1 {
          page0Mmio := true;
          return SlowPath;
        }
        page1 := Some(phys);
        host1Known := true;
      }
      if PageOf(pc) == PageOf(pcFirst) {
        return SlowPath;
      }
      r := HostPage(1, pc - base);
    }
  }
}
