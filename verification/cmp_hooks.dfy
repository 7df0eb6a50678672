// Comparison hooks (libafl/hooks/tcg/cmp.c, and the same code in
// libafl_extras/hook.c): a prepend-only list with four size-specific
// helper slots, and the per-hook helper choice made while translating one
// guest comparison.
module CmpHooks {
  import opened Common
  import opened HookList

  /** A generation callback: (data, guest pc, operand size in bytes) to id, U64_MAX to suppress. */
  type CmpGen = (u64, u64, nat) -> u64

  /** The payload of a `struct libafl_cmp_hook`. */
  datatype Cmp = Cmp(gen: Option<CmpGen>, slots: Slots)

  const CMP_PREFIX: string := "libafl_exec_cmp_hook"

  /**
   * The size field of a MemOp is its low three bits (MO_SIZE); MO_8, MO_16,
   * MO_32 and MO_64 are 0, 1, 2 and 3.
   */
  const MO_SIZE_BITS: nat := 8

  /**
   * The switch on `ot & MO_SIZE`: operand size in bytes, or None for any
   * other size field (the early `return`).
   */
  function CmpSize(ot: nat): (size: Option<nat>)
    ensures size.Some? <==> ot % MO_SIZE_BITS <= 3
    ensures size.Some? ==> size.value in {1, 2, 4, 8}
  {
    match ot % MO_SIZE_BITS
    case 3 => Some(8)
    case 2 => Some(4)
    case 1 => Some(2)
    case 0 => Some(1)
    case _ => None
  }

  /** The mapping is `1 << (ot & MO_SIZE)` on the four accepted size fields. */
  lemma CmpSizeIsShift(ot: nat)
    requires ot % MO_SIZE_BITS <= 3
    ensures CmpSize(ot).Some?
    ensures ot % MO_SIZE_BITS == 0 ==> CmpSize(ot).value == 1
    ensures ot % MO_SIZE_BITS > 0 ==> CmpSize(ot).value == 2 * CmpSize(ot - 1).value
  {
  }

  /** `cur_id`: what the generation callback returns, 0 when the hook has none. */
  function CurId(h: Hook<Cmp>, pc: u64, size: nat): (id: u64)
    ensures h.body.gen.None? ==> id == 0
  {
    match h.body.gen
    case None => 0
    case Some(g) => g(h.data, pc, size)
  }

  /** What one hook contributes: one call with (data, id, op0, op1), or nothing. */
  function CmpCalls(h: Hook<Cmp>, pc: u64, size: nat, op0: int, op1: int): seq<Event> {
    var id := CurId(h, pc, size);
    match Sized(h.body.slots, size)
    case Some(info) => if id != U64_MAX then [TcgCall(info, [h.data, id, op0, op1])] else []
    case None => []
  }

  /**
   * A call is emitted exactly when the id is not (uint64_t)-1 and the slot
   * of exactly this size is set; there is no fallback helper, and the call
   * uses that slot.
   */
  lemma CmpCallsSpec(h: Hook<Cmp>, pc: u64, size: nat, op0: int, op1: int)
    ensures |CmpCalls(h, pc, size, op0, op1)| <= 1
    ensures CmpCalls(h, pc, size, op0, op1) != [] <==>
      CurId(h, pc, size) != U64_MAX && size in {1, 2, 4, 8} && SlotFor(h.body.slots, size).func != NULL
    ensures forall e :: e in CmpCalls(h, pc, size, op0, op1) ==>
      size in {1, 2, 4, 8} && e == TcgCall(SlotFor(h.body.slots, size), [h.data, CurId(h, pc, size), op0, op1])
  {
  }

  /**
   * `libafl_add_cmp_hook`: flush every CPU's translations, take the next id
   * and prepend a hook whose slots are filled only for non-null callbacks.
   */
  method AddCmp(reg: Registry<Cmp>, gen: Option<CmpGen>,
                exec1: FnPtr, exec2: FnPtr, exec4: FnPtr, exec8: FnPtr, data: u64)
    returns (num: nat, effects: seq<Event>)
    requires reg.Valid()
    modifies reg
    ensures reg.Valid()
    ensures num == old(reg.counter) && reg.counter == old(reg.counter) + 1
    ensures reg.hooks == [Hook(num, data, Cmp(gen, FillSlots(CMP_PREFIX, exec1, exec2, exec4, exec8)))] + old(reg.hooks)
    ensures effects == [FlushAllCpus]
  {
    effects := [FlushAllCpus];
    num := reg.Add(data, Cmp(gen, FillSlots(CMP_PREFIX, exec1, exec2, exec4, exec8)));
  }

  /**
   * `libafl_gen_cmp`: nothing for an unsupported size field; otherwise every
   * hook is visited, newest first, and contributes at most one call.
   */
  method GenCmp(reg: Registry<Cmp>, pc: u64, op0: int, op1: int, ot: nat) returns (events: seq<Event>)
    ensures CmpSize(ot).None? ==> events == []
    ensures CmpSize(ot).Some? ==>
      events == FlatMap(reg.hooks, h => CmpCalls(h, pc, CmpSize(ot).value, op0, op1))
    ensures |events| <= |reg.hooks|
  {
    var size := 0;
    match ot % MO_SIZE_BITS {
      case 3 => size := 8;
      case 2 => size := 4;
      case 1 => size := 2;
      case 0 => size := 1;
      case _ => return [];
    }
    var f := h => CmpCalls(h, pc, size, op0, op1);
    events := reg.Walk(f);
    forall i | 0 <= i < |reg.hooks| ensures |f(reg.hooks[i])| <= 1 {
      CmpCallsSpec(reg.hooks[i], pc, size, op0, op1);
    }
    FlatMapAtMostOne(reg.hooks, f);
  }
}
