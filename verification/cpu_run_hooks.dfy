// CPU-run hooks (libafl/hooks/cpu_run.c): callbacks invoked before and
// after a CPU executes guest code.
module CpuRunHooks {
  import opened Common
  import opened HookList

  /** The payload of a `struct libafl_cpu_run_hook`: the two void callbacks. */
  datatype CpuRun = CpuRun(preCpuRun: FnPtr, postCpuRun: FnPtr)

  function PreCall(h: Hook<CpuRun>, cpu: int): seq<Event> {
    [Invoke(h.body.preCpuRun, [h.data, cpu])]
  }

  function PostCall(h: Hook<CpuRun>, cpu: int): seq<Event> {
    [Invoke(h.body.postCpuRun, [h.data, cpu])]
  }

  /** `libafl_hook_cpu_run_add`: take the next id and prepend. */
  method Add(reg: Registry<CpuRun>, preCpuRun: FnPtr, postCpuRun: FnPtr, data: u64) returns (num: nat)
    requires reg.Valid()
    modifies reg
    ensures reg.Valid()
    ensures num == old(reg.counter) && reg.counter == old(reg.counter) + 1
    ensures reg.hooks == [Hook(num, data, CpuRun(preCpuRun, postCpuRun))] + old(reg.hooks)
  {
    num := reg.Add(data, CpuRun(preCpuRun, postCpuRun));
  }

  /**
   * `libafl_hook_cpu_run_pre_exec`: each hook's `pre_cpu_run` is called
   * exactly once, in list order, with its data and the CPU (no null check).
   */
  method PreExec(reg: Registry<CpuRun>, cpu: int) returns (events: seq<Event>)
    ensures |events| == |reg.hooks|
    ensures forall i :: 0 <= i < |reg.hooks| ==>
      events[i] == Invoke(reg.hooks[i].body.preCpuRun, [reg.hooks[i].data, cpu])
  {
    var f := h => PreCall(h, cpu);
    events := reg.Walk(f);
    FlatMapExactlyOne(reg.hooks, f);
  }

  /**
   * `libafl_hook_cpu_run_post_exec`: each hook's `post_cpu_run` is called
   * exactly once, in list order, with its data and the CPU.
   */
  method PostExec(reg: Registry<CpuRun>, cpu: int) returns (events: seq<Event>)
    ensures |events| == |reg.hooks|
    ensures forall i :: 0 <= i < |reg.hooks| ==>
      events[i] == Invoke(reg.hooks[i].body.postCpuRun, [reg.hooks[i].data, cpu])
  {
    var f := h => PostCall(h, cpu);
    events := reg.Walk(f);
    FlatMapExactlyOne(reg.hooks, f);
  }
}
