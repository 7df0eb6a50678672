// Backdoor hooks (libafl/hooks/tcg/backdoor.c, and the same code in
// libafl_extras/hook.c): a prepend-only list of helpers that are all
// emitted when the translator meets the backdoor instruction.
module BackdoorHooks {
  import opened Common
  import opened HookList

  const BACKDOOR_TEMPLATE: string := "libafl_exec_backdoor_hook"

  /** The one call emitted for a node: its helper with `data` followed by the remaining operands. */
  function BackdoorCall(h: Hook<HelperInfo>, operands: seq<int>): seq<Event> {
    [TcgCall(h.body, [h.data] + operands)]
  }

  /**
   * `libafl_add_backdoor_hook`: no flush; take the next id and prepend a
   * node whose helper is the template with `func = exec`, with no check
   * that `exec` is non-null.
   */
  method AddBackdoor(reg: Registry<HelperInfo>, exec: FnPtr, data: u64) returns (num: nat)
    requires reg.Valid()
    modifies reg
    ensures reg.Valid()
    ensures num == old(reg.counter) && reg.counter == old(reg.counter) + 1
    ensures reg.hooks == [Hook(num, data, HelperInfo(BACKDOOR_TEMPLATE, exec))] + old(reg.hooks)
  {
    num := reg.Add(data, HelperInfo(BACKDOOR_TEMPLATE, exec));
  }

  /**
   * `libafl_qemu_hook_backdoor_run`: exactly one call per node, in list
   * order. `operands` are the temps after `data` (the CPU env pointer and
   * `pc_next`; only `pc_next` in the older libafl_extras variant).
   */
  method Run(reg: Registry<HelperInfo>, operands: seq<int>) returns (events: seq<Event>)
    ensures |events| == |reg.hooks|
    ensures forall i :: 0 <= i < |reg.hooks| ==>
      events[i] == TcgCall(reg.hooks[i].body, [reg.hooks[i].data] + operands)
  {
    var f := h => BackdoorCall(h, operands);
    events := reg.Walk(f);
    FlatMapExactlyOne(reg.hooks, f);
  }
}
