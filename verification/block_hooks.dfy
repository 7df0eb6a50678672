// Block hooks (libafl/hooks/tcg/block.c, and the same code in
// libafl_extras/hook.c): a prepend-only list; each node may have a
// generation callback, a post-generation callback, a helper and a jit
// callback.
module BlockHooks {
  import opened Common
  import opened HookList

  /** A generation callback: (data, guest pc of the block) to id, U64_MAX to suppress. */
  type BlockGen = (u64, u64) -> u64

  /** The payload of a `struct libafl_block_hook`. */
  datatype Block = Block(gen: Option<BlockGen>, postGen: FnPtr, info: HelperInfo, jit: FnPtr)

  const BLOCK_TEMPLATE: string := "libafl_exec_block_hook"

  /** `cur_id` for the block at `pc`: the callback's result, 0 when the hook has none. */
  function CurId(h: Hook<Block>, pc: u64): (id: u64)
    ensures h.body.gen.None? ==> id == 0
  {
    match h.body.gen
    case None => 0
    case Some(g) => g(h.data, pc)
  }

  /** What `libafl_qemu_hook_block_post_gen` does for one node: call `post_gen` when it is set. */
  function PostGenCalls(h: Hook<Block>, pc: u64, tbSize: nat): seq<Event> {
    if h.body.postGen != NULL then [Invoke(h.body.postGen, [h.data, pc, tbSize])] else []
  }

  /** What `libafl_qemu_hook_block_run` does for one node: the helper call, then the jit call. */
  function RunCalls(h: Hook<Block>, pc: u64): seq<Event> {
    var id := CurId(h, pc);
    (if id != U64_MAX && h.body.info.func != NULL then [TcgCall(h.body.info, [h.data, id])] else []) +
    (if id != U64_MAX && h.body.jit != NULL then [Invoke(h.body.jit, [h.data, id])] else [])
  }

  /**
   * One node's part of the run: nothing when the id is -1; otherwise the
   * helper call when a helper is set and the jit call when a jit is set,
   * both with (data, id), helper first.
   */
  lemma RunCallsSpec(h: Hook<Block>, pc: u64)
    ensures CurId(h, pc) == U64_MAX ==> RunCalls(h, pc) == []
    ensures |RunCalls(h, pc)| == (if CurId(h, pc) == U64_MAX then 0
                                 else (if h.body.info.func != NULL then 1 else 0) + (if h.body.jit != NULL then 1 else 0))
    ensures forall e :: e in RunCalls(h, pc) ==> e.args == [h.data, CurId(h, pc)]
    ensures RunCalls(h, pc) != [] && h.body.info.func != NULL ==> RunCalls(h, pc)[0] == TcgCall(h.body.info, [h.data, CurId(h, pc)])
  {
  }

  /**
   * `libafl_add_block_hook`: flush every CPU's translations, take the next
   * id and prepend a node storing `gen` and `post_gen`, with a helper only
   * for a non-null `exec`.
   */
  method AddBlock(reg: Registry<Block>, gen: Option<BlockGen>, postGen: FnPtr, exec: FnPtr, data: u64)
    returns (num: nat, effects: seq<Event>)
    requires reg.Valid()
    modifies reg
    ensures reg.Valid()
    ensures num == old(reg.counter) && reg.counter == old(reg.counter) + 1
    ensures reg.hooks == [Hook(num, data, Block(gen, postGen, FillHelper(BLOCK_TEMPLATE, exec), NULL))] + old(reg.hooks)
    ensures effects == [FlushAllCpus]
  {
    effects := [FlushAllCpus];
    num := reg.Add(data, Block(gen, postGen, FillHelper(BLOCK_TEMPLATE, exec), NULL));
  }

  /** `libafl_qemu_block_hook_set_jit`: true iff a node has id `num`; only that node's jit changes. */
  method SetJit(reg: Registry<Block>, num: nat, jit: FnPtr) returns (found: bool)
    requires reg.Valid()
    modifies reg
    ensures reg.Valid() && reg.counter == old(reg.counter)
    ensures found == HasNum(old(reg.hooks), num)
    ensures reg.hooks == UpdateFirst(old(reg.hooks), num, (b: Block) => b.(jit := jit))
  {
    found := reg.SetFirst(num, (b: Block) => b.(jit := jit));
  }

  /**
   * `libafl_qemu_hook_block_post_gen`: every set `post_gen` is called once,
   * in list order, with the block's pc and `tb->size`; nodes without one
   * are skipped.
   */
  method PostGen(reg: Registry<Block>, pc: u64, tbSize: nat) returns (events: seq<Event>)
    ensures events == FlatMap(reg.hooks, h => PostGenCalls(h, pc, tbSize))
    ensures |events| <= |reg.hooks|
    ensures (forall i :: 0 <= i < |reg.hooks| ==> reg.hooks[i].body.postGen != NULL) ==>
      |events| == |reg.hooks| &&
      forall i :: 0 <= i < |reg.hooks| ==> events[i] == Invoke(reg.hooks[i].body.postGen, [reg.hooks[i].data, pc, tbSize])
  {
    var f := h => PostGenCalls(h, pc, tbSize);
    events := reg.Walk(f);
    FlatMapAtMostOne(reg.hooks, f);
    if forall i :: 0 <= i < |reg.hooks| ==> reg.hooks[i].body.postGen != NULL {
      FlatMapExactlyOne(reg.hooks, f);
    }
  }

  /** `libafl_qemu_hook_block_run`: every node, newest first, contributes its helper and jit calls. */
  method Run(reg: Registry<Block>, pc: u64) returns (events: seq<Event>)
    ensures events == FlatMap(reg.hooks, h => RunCalls(h, pc))
    ensures events == [] <==> forall i :: 0 <= i < |reg.hooks| ==>
      CurId(reg.hooks[i], pc) == U64_MAX || (reg.hooks[i].body.info.func == NULL && reg.hooks[i].body.jit == NULL)
  {
    var f := h => RunCalls(h, pc);
    events := reg.Walk(f);
    FlatMapEmpty(reg.hooks, f);
    forall i | 0 <= i < |reg.hooks| ensures RunCalls(reg.hooks[i], pc) == [] <==>
      CurId(reg.hooks[i], pc) == U64_MAX || (reg.hooks[i].body.info.func == NULL && reg.hooks[i].body.jit == NULL) {
      RunCallsSpec(reg.hooks[i], pc);
    }
  }
}
