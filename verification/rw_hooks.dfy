// Memory-access hooks (libafl/hooks/tcg/read_write.c, and the same code in
// libafl_extras/hook.c): separate read and write lists, five helper slots
// per hook (sizes 1, 2, 4, 8 and the sized-by-argument "N" variant), and the
// per-hook helper choice made while translating one guest load or store.
module ReadWriteHooks {
  import opened Common
  import opened HookList

  /**
   * A generation callback: it receives the hook's `data` and the remaining
   * arguments of the translation-time call (the current guest pc, the
   * address temp and the MemOpIdx) and returns the id to pass to the
   * helper, or U64_MAX to suppress the hook.
   */
  type GenCb = (u64, seq<int>) -> u64

  /** The payload of a `struct libafl_rw_hook`: the callback, the sized slots and the N slot. */
  datatype Rw = Rw(gen: Option<GenCb>, slots: Slots, infoN: HelperInfo)

  datatype Access = Read | Write

  /** Prefix of the static helper templates of one access kind. */
  function Prefix(kind: Access): string {
    if kind == Read then "libafl_exec_read_hook" else "libafl_exec_write_hook"
  }

  /** The payload that `libafl_add_rw_hook` builds from its callbacks. */
  function NewRw(kind: Access, gen: Option<GenCb>,
                 exec1: FnPtr, exec2: FnPtr, exec4: FnPtr, exec8: FnPtr, execN: FnPtr): (r: Rw)
    ensures r.gen == gen && r.slots == FillSlots(Prefix(kind), exec1, exec2, exec4, exec8)
    ensures r.infoN.func == execN
    ensures execN != NULL ==> r.infoN.template == Prefix(kind) + "N"
    ensures execN == NULL ==> r.infoN == ZeroHelper
  {
    Rw(gen, FillSlots(Prefix(kind), exec1, exec2, exec4, exec8), FillHelper(Prefix(kind) + "N", execN))
  }

  /** `cur_id`: what the generation callback returns, 0 when the hook has none. */
  function CurId(h: Hook<Rw>, genArgs: seq<int>): (id: u64)
    ensures h.body.gen.None? ==> id == 0
  {
    match h.body.gen
    case None => 0
    case Some(g) => g(h.data, genArgs)
  }

  /**
   * What the translation of one access emits for one hook. `operands` are
   * the temps handed to the helper after `data` and the id (the pc and
   * address temps); the N helper also receives the access size.
   */
  function RwCalls(h: Hook<Rw>, genArgs: seq<int>, operands: seq<int>, size: nat): seq<Event> {
    var id := CurId(h, genArgs);
    if id == U64_MAX then []
    else match Sized(h.body.slots, size)
      case Some(info) => [TcgCall(info, [h.data, id] + operands)]
      case None =>
        if h.body.infoN.func != NULL then [TcgCall(h.body.infoN, [h.data, id] + operands + [size])]
        else []
  }

  /**
   * The helper choice for one hook: at most one call; none when the
   * generation callback returns (uint64_t)-1; otherwise the sized helper of
   * exactly this size when set, else the N helper (which also gets the
   * size) when set, else nothing. A call always carries a non-null helper.
   */
  lemma RwCallsSpec(h: Hook<Rw>, genArgs: seq<int>, operands: seq<int>, size: nat)
    ensures |RwCalls(h, genArgs, operands, size)| <= 1
    ensures RwCalls(h, genArgs, operands, size) != [] <==>
      CurId(h, genArgs) != U64_MAX && (Sized(h.body.slots, size).Some? || h.body.infoN.func != NULL)
    ensures forall e :: e in RwCalls(h, genArgs, operands, size) ==>
      e.TcgCall? && e.info.func != NULL && e.args[..2] == [h.data, CurId(h, genArgs)]
    ensures forall e :: e in RwCalls(h, genArgs, operands, size) && e.info != h.body.infoN ==>
      size in {1, 2, 4, 8} && e.info == SlotFor(h.body.slots, size) && e.args == [h.data, CurId(h, genArgs)] + operands
    ensures Sized(h.body.slots, size).None? ==> forall e :: e in RwCalls(h, genArgs, operands, size) ==>
      e == TcgCall(h.body.infoN, [h.data, CurId(h, genArgs)] + operands + [size])
  {
    var id := CurId(h, genArgs);
    if id != U64_MAX {
      match Sized(h.body.slots, size)
      case Some(info) =>
        assert RwCalls(h, genArgs, operands, size) == [TcgCall(info, [h.data, id] + operands)];
      case None =>
    }
  }

  /** A size other than 1, 2, 4 or 8 (e.g. a 16-byte vector access) only ever reaches the N helper. */
  lemma OddSizeUsesN(h: Hook<Rw>, genArgs: seq<int>, operands: seq<int>, size: nat)
    requires size !in {1, 2, 4, 8}
    ensures RwCalls(h, genArgs, operands, size) ==
      (if CurId(h, genArgs) != U64_MAX && h.body.infoN.func != NULL
       then [TcgCall(h.body.infoN, [h.data, CurId(h, genArgs)] + operands + [size])] else [])
  {
  }

  /**
   * The copy in libafl_extras/hook.c hands its generation callback
   * (data, pc, oi) and its helpers (data, id, addr) or (data, id, addr,
   * size), with no pc temp: the instance `genArgs == [pc, oi]`,
   * `operands == [addr]`.
   */
  lemma ExtrasRwCalls(h: Hook<Rw>, pc: int, oi: int, addr: int, size: nat)
    ensures var id := CurId(h, [pc, oi]);
      id != U64_MAX && Sized(h.body.slots, size).Some? ==>
        RwCalls(h, [pc, oi], [addr], size) == [TcgCall(Sized(h.body.slots, size).value, [h.data, id, addr])]
    ensures var id := CurId(h, [pc, oi]);
      id != U64_MAX && Sized(h.body.slots, size).None? && h.body.infoN.func != NULL ==>
        RwCalls(h, [pc, oi], [addr], size) == [TcgCall(h.body.infoN, [h.data, id, addr, size])]
    ensures var id := CurId(h, [pc, oi]);
      id == U64_MAX || (Sized(h.body.slots, size).None? && h.body.infoN.func == NULL) ==>
        RwCalls(h, [pc, oi], [addr], size) == []
  {
    var id := CurId(h, [pc, oi]);
    assert [h.data, id] + [addr] == [h.data, id, addr];
    assert [h.data, id] + [addr] + [size] == [h.data, id, addr, size];
  }

  /**
   * `libafl_add_rw_hook`: flush every CPU's translations, take the next id
   * of this list and prepend a hook whose slots are filled only for the
   * non-null callbacks.
   */
  method AddRw(reg: Registry<Rw>, kind: Access, gen: Option<GenCb>,
               exec1: FnPtr, exec2: FnPtr, exec4: FnPtr, exec8: FnPtr, execN: FnPtr,
               data: u64) returns (num: nat, effects: seq<Event>)
    requires reg.Valid()
    modifies reg
    ensures reg.Valid()
    ensures num == old(reg.counter) && reg.counter == old(reg.counter) + 1
    ensures reg.hooks == [Hook(num, data, NewRw(kind, gen, exec1, exec2, exec4, exec8, execN))] + old(reg.hooks)
    ensures effects == [FlushAllCpus]
  {
    effects := [FlushAllCpus];
    num := reg.Add(data, NewRw(kind, gen, exec1, exec2, exec4, exec8, execN));
  }

  /**
   * `libafl_gen_rw`: visit every hook of one list, newest first, and emit
   * what each one's helper choice gives. `size` is `memop_size(get_memop(oi))`.
   */
  method GenRw(reg: Registry<Rw>, genArgs: seq<int>, operands: seq<int>, size: nat)
    returns (events: seq<Event>)
    ensures events == FlatMap(reg.hooks, h => RwCalls(h, genArgs, operands, size))
    ensures |events| <= |reg.hooks|
    ensures events == [] <==> forall i :: 0 <= i < |reg.hooks| ==> RwCalls(reg.hooks[i], genArgs, operands, size) == []
  {
    var f := h => RwCalls(h, genArgs, operands, size);
    events := reg.Walk(f);
    forall i | 0 <= i < |reg.hooks| ensures |f(reg.hooks[i])| <= 1 {
      RwCallsSpec(reg.hooks[i], genArgs, operands, size);
    }
    FlatMapAtMostOne(reg.hooks, f);
    FlatMapEmpty(reg.hooks, f);
  }

  /** The two independent lists with their own counters (`libafl_read_hooks`, `libafl_write_hooks`). */
  class RwHooks {
    const readHooks: Registry<Rw>
    const writeHooks: Registry<Rw>

    ghost predicate Valid()
      reads this, readHooks, writeHooks
    {
      readHooks != writeHooks && readHooks.Valid() && writeHooks.Valid()
    }

    constructor ()
      ensures Valid() && fresh(readHooks) && fresh(writeHooks)
      ensures readHooks.hooks == [] && readHooks.counter == 0 && writeHooks.hooks == [] && writeHooks.counter == 0
    {
      readHooks := new Registry();
      writeHooks := new Registry();
    }

    /** `libafl_add_read_hook`: only the read list and its counter change. */
    method AddRead(gen: Option<GenCb>, exec1: FnPtr, exec2: FnPtr, exec4: FnPtr, exec8: FnPtr,
                   execN: FnPtr, data: u64) returns (num: nat, effects: seq<Event>)
      requires Valid()
      modifies readHooks
      ensures Valid()
      ensures num == old(readHooks.counter) && readHooks.counter == num + 1
      ensures readHooks.hooks == [Hook(num, data, NewRw(Read, gen, exec1, exec2, exec4, exec8, execN))] + old(readHooks.hooks)
      ensures effects == [FlushAllCpus]
      ensures writeHooks.hooks == old(writeHooks.hooks) && writeHooks.counter == old(writeHooks.counter)
    {
      num, effects := AddRw(readHooks, Read, gen, exec1, exec2, exec4, exec8, execN, data);
    }

    /** `libafl_add_write_hook`: only the write list and its counter change. */
    method AddWrite(gen: Option<GenCb>, exec1: FnPtr, exec2: FnPtr, exec4: FnPtr, exec8: FnPtr,
                    execN: FnPtr, data: u64) returns (num: nat, effects: seq<Event>)
      requires Valid()
      modifies writeHooks
      ensures Valid()
      ensures num == old(writeHooks.counter) && writeHooks.counter == num + 1
      ensures writeHooks.hooks == [Hook(num, data, NewRw(Write, gen, exec1, exec2, exec4, exec8, execN))] + old(writeHooks.hooks)
      ensures effects == [FlushAllCpus]
      ensures readHooks.hooks == old(readHooks.hooks) && readHooks.counter == old(readHooks.counter)
    {
      num, effects := AddRw(writeHooks, Write, gen, exec1, exec2, exec4, exec8, execN, data);
    }

    /** `libafl_qemu_remove_read_hook` (GEN_REMOVE_HOOK(read)); the write list is untouched. */
    method RemoveRead(num: nat, invalidate: bool) returns (r: int, effects: seq<Event>)
      requires Valid()
      modifies readHooks
      ensures Valid()
      ensures r == (if HasNum(old(readHooks.hooks), num) then 1 else 0)
      ensures readHooks.hooks == Unlink(old(readHooks.hooks), num)
      ensures effects == (if r == 1 && invalidate then [FlushAllCpus] else [])
      ensures writeHooks.hooks == old(writeHooks.hooks) && writeHooks.counter == old(writeHooks.counter)
    {
      r, effects := readHooks.Remove(num, invalidate);
    }

    /** `libafl_qemu_remove_write_hook` (GEN_REMOVE_HOOK(write)); the read list is untouched. */
    method RemoveWrite(num: nat, invalidate: bool) returns (r: int, effects: seq<Event>)
      requires Valid()
      modifies writeHooks
      ensures Valid()
      ensures r == (if HasNum(old(writeHooks.hooks), num) then 1 else 0)
      ensures writeHooks.hooks == Unlink(old(writeHooks.hooks), num)
      ensures effects == (if r == 1 && invalidate then [FlushAllCpus] else [])
      ensures readHooks.hooks == old(readHooks.hooks) && readHooks.counter == old(readHooks.counter)
    {
      r, effects := writeHooks.Remove(num, invalidate);
    }

    /** `libafl_gen_read`: the helper choice over the read list only. */
    method GenRead(genArgs: seq<int>, operands: seq<int>, size: nat) returns (events: seq<Event>)
      requires Valid()
      ensures events == FlatMap(readHooks.hooks, h => RwCalls(h, genArgs, operands, size))
    {
      events := GenRw(readHooks, genArgs, operands, size);
    }

    /** `libafl_gen_write`: the helper choice over the write list only. */
    method GenWrite(genArgs: seq<int>, operands: seq<int>, size: nat) returns (events: seq<Event>)
      requires Valid()
      ensures events == FlatMap(writeHooks.hooks, h => RwCalls(h, genArgs, operands, size))
    {
      events := GenRw(writeHooks, genArgs, operands, size);
    }
  }
}
