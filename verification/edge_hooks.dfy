// Edge hooks (libafl/hooks/tcg/edge.c, and the same code in
// libafl_extras/hook.c): a prepend-only list whose nodes remember the id
// their generation callback produced for the edge being translated, so that
// a later pass can emit the helper and call the jit callback.
module EdgeHooks {
  import opened Common
  import opened HookList

  /** A generation callback: (data, source block, destination block) to id, U64_MAX to suppress. */
  type EdgeGen = (u64, u64, u64) -> u64

  /** The payload of a `struct libafl_edge_hook`; `curId` is written by every generation pass. */
  datatype Edge = Edge(gen: Option<EdgeGen>, info: HelperInfo, jit: FnPtr, curId: u64)

  const EDGE_TEMPLATE: string := "libafl_exec_edge_hook"

  /** The id the generation callback gives for this edge, 0 when the hook has none. */
  function GenId(h: Hook<Edge>, src: u64, dst: u64): (id: u64)
    ensures h.body.gen.None? ==> id == 0
  {
    match h.body.gen
    case None => 0
    case Some(g) => g(h.data, src, dst)
  }

  /** A node after the generation pass stored its id. */
  function WithId(h: Hook<Edge>, src: u64, dst: u64): (r: Hook<Edge>)
    ensures r.num == h.num && r.data == h.data
    ensures r.body == h.body.(curId := GenId(h, src, dst))
  {
    h.(body := h.body.(curId := GenId(h, src, dst)))
  }

  /** A hook that will do something at run time: its id is not -1 and it has a helper or a jit. */
  predicate Active(e: Edge) {
    e.curId != U64_MAX && (e.info.func != NULL || e.jit != NULL)
  }

  /** What `libafl_qemu_hook_edge_run` does for one node: the helper call, then the jit call. */
  function RunCalls(h: Hook<Edge>): seq<Event> {
    (if h.body.curId != U64_MAX && h.body.info.func != NULL
     then [TcgCall(h.body.info, [h.data, h.body.curId])] else []) +
    (if h.body.curId != U64_MAX && h.body.jit != NULL
     then [Invoke(h.body.jit, [h.data, h.body.curId])] else [])
  }

  /** A node contributes to the run exactly when it is active, with at most two events. */
  lemma RunCallsSpec(h: Hook<Edge>)
    ensures RunCalls(h) != [] <==> Active(h.body)
    ensures |RunCalls(h)| <= 2
    ensures forall e :: e in RunCalls(h) ==> e.args == [h.data, h.body.curId] && h.body.curId != U64_MAX
  {
  }

  /**
   * The result of the generation pass and the run agree: the run emits
   * nothing exactly when no node is active, which is what
   * `libafl_qemu_hook_edge_gen` reports as `no_exec_hook`.
   */
  lemma SilentRunIffNoActive(hs: seq<Hook<Edge>>)
    ensures FlatMap(hs, RunCalls) == [] <==> forall i :: 0 <= i < |hs| ==> !Active(hs[i].body)
  {
    FlatMapEmpty(hs, RunCalls);
    forall i | 0 <= i < |hs| ensures RunCalls(hs[i]) == [] <==> !Active(hs[i].body) {
      RunCallsSpec(hs[i]);
    }
  }

  /**
   * `libafl_add_edge_hook`: flush every CPU's translations, take the next
   * id and prepend a node whose helper is filled only for a non-null `exec`.
   */
  method AddEdge(reg: Registry<Edge>, gen: Option<EdgeGen>, exec: FnPtr, data: u64)
    returns (num: nat, effects: seq<Event>)
    requires reg.Valid()
    modifies reg
    ensures reg.Valid()
    ensures num == old(reg.counter) && reg.counter == old(reg.counter) + 1
    ensures reg.hooks == [Hook(num, data, Edge(gen, FillHelper(EDGE_TEMPLATE, exec), NULL, 0))] + old(reg.hooks)
    ensures effects == [FlushAllCpus]
  {
    effects := [FlushAllCpus];
    num := reg.Add(data, Edge(gen, FillHelper(EDGE_TEMPLATE, exec), NULL, 0));
  }

  /** `libafl_qemu_edge_hook_set_jit`: true iff a node has id `num`; only that node's jit changes. */
  method SetJit(reg: Registry<Edge>, num: nat, jit: FnPtr) returns (found: bool)
    requires reg.Valid()
    modifies reg
    ensures reg.Valid() && reg.counter == old(reg.counter)
    ensures found == HasNum(old(reg.hooks), num)
    ensures reg.hooks == UpdateFirst(old(reg.hooks), num, (e: Edge) => e.(jit := jit))
  {
    found := reg.SetFirst(num, (e: Edge) => e.(jit := jit));
  }

  /**
   * `libafl_qemu_hook_edge_gen`: store in every node the id its callback
   * gives for the edge `src -> dst` (0 without a callback) and report
   * whether no node ended up active.
   */
  method Gen(reg: Registry<Edge>, src: u64, dst: u64) returns (noExec: bool)
    requires reg.Valid()
    modifies reg
    ensures reg.Valid() && reg.counter == old(reg.counter)
    ensures |reg.hooks| == |old(reg.hooks)|
    ensures forall i :: 0 <= i < |reg.hooks| ==> reg.hooks[i] == WithId(old(reg.hooks)[i], src, dst)
    ensures noExec <==> forall i :: 0 <= i < |reg.hooks| ==> !Active(reg.hooks[i].body)
  {
    var hs := reg.hooks;
    var out: seq<Hook<Edge>> := [];
    noExec := true;
    var i := 0;
    while i < |hs|
      invariant 0 <= i <= |hs| && |out| == i
      invariant forall k :: 0 <= k < i ==> out[k] == WithId(hs[k], src, dst)
      invariant noExec <==> forall k :: 0 <= k < i ==> !Active(out[k].body)
    {
      var h := WithId(hs[i], src, dst);
      if Active(h.body) {
        noExec := false;
      }
      out := out + [h];
      i := i + 1;
    }
    assert forall k :: 0 <= k < |out| ==> out[k].num == hs[k].num;
    reg.hooks := out;
  }

  /** `libafl_qemu_hook_edge_run`: every node, newest first, contributes its helper call and jit call. */
  method Run(reg: Registry<Edge>) returns (events: seq<Event>)
    ensures events == FlatMap(reg.hooks, RunCalls)
    ensures events == [] <==> forall i :: 0 <= i < |reg.hooks| ==> !Active(reg.hooks[i].body)
  {
    events := reg.Walk(RunCalls);
    SilentRunIffNoActive(reg.hooks);
  }
}
