// New-thread hooks (libafl/hooks/thread.c, and the same code in
// libafl_extras/hook.c): every callback votes on whether the new thread
// may continue.
module ThreadHooks {
  import opened Common
  import opened HookList

  /** A new-thread callback: (data, thread id) to "continue execution". */
  type ThreadCb = (u64, u32) -> bool

  /** Whether every hook of the list lets the thread `tid` continue. */
  predicate AllContinue(hs: seq<Hook<ThreadCb>>, tid: u32) {
    forall i :: 0 <= i < |hs| ==> hs[i].body(hs[i].data, tid)
  }

  /** `libafl_add_new_thread_hook`: take the next id and prepend. */
  method AddNewThread(reg: Registry<ThreadCb>, callback: ThreadCb, data: u64) returns (num: nat)
    requires reg.Valid()
    modifies reg
    ensures reg.Valid()
    ensures num == old(reg.counter) && reg.counter == old(reg.counter) + 1
    ensures reg.hooks == [Hook(num, data, callback)] + old(reg.hooks)
  {
    num := reg.Add(data, callback);
  }

  /**
   * `libafl_hook_new_thread_run`: true with no hooks; otherwise the
   * conjunction of all results. The call is made before the `&&`, so
   * every callback runs (`called`) even after one has said false.
   */
  method NewThreadRun(reg: Registry<ThreadCb>, tid: u32) returns (cont: bool, called: seq<nat>)
    ensures cont == AllContinue(reg.hooks, tid)
    ensures reg.hooks == [] ==> cont
    ensures called == Nums(reg.hooks)
  {
    var hs := reg.hooks;
    called := [];
    if hs == [] {
      return true, called;
    }
    cont := true;
    var i := 0;
    while i < |hs|
      invariant 0 <= i <= |hs|
      invariant cont == AllContinue(hs[..i], tid)
      invariant called == Nums(hs[..i])
    {
      var vote := hs[i].body(hs[i].data, tid);
      cont := vote && cont;
      called := called + [hs[i].num];
      i := i + 1;
    }
    assert hs[..i] == hs;
  }
}
