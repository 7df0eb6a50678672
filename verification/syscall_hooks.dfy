// System-call hooks (libafl/hooks/syscall.c, and the same code in
// libafl_extras/hook.c): separate pre and post lists with their own
// counters. Pre hooks may ask for the system call to be skipped and supply
// its return value; post hooks rewrite the return value one after another.
module SyscallHooks {
  import opened Common
  import opened HookList

  /** `struct libafl_syshook_ret`: run the call, or skip it returning `retval`. */
  datatype SyshookRet = Run | Skip(retval: u64)

  /** A pre hook callback: (data, syscall number, arguments) to its verdict. */
  type PreCb = (u64, int, seq<u64>) -> SyshookRet

  /** A post hook callback: (data, current return value, syscall number, arguments) to the new return value. */
  type PostCb = (u64, u64, int, seq<u64>) -> u64

  /** What each pre hook answers, in list order. */
  function Verdicts(hs: seq<Hook<PreCb>>, sysNum: int, args: seq<u64>): (rs: seq<SyshookRet>)
    ensures |rs| == |hs| && forall i :: 0 <= i < |hs| ==> rs[i] == hs[i].body(hs[i].data, sysNum, args)
  {
    seq(|hs|, i requires 0 <= i < |hs| => hs[i].body(hs[i].data, sysNum, args))
  }

  /** The position of the last `Skip` verdict, if any. */
  function LastSkip(rs: seq<SyshookRet>): (k: Option<nat>)
    ensures k.None? <==> forall i :: 0 <= i < |rs| ==> rs[i].Run?
    ensures k.Some? ==> k.value < |rs| && rs[k.value].Skip?
    ensures k.Some? ==> forall j :: k.value < j < |rs| ==> rs[j].Run?
  {
    if rs == [] then None
    else if rs[|rs| - 1].Skip? then Some(|rs| - 1)
    else LastSkip(rs[..|rs| - 1])
  }

  /**
   * The return value after the pre hooks: the last skipping hook's value,
   * or the incoming value when no hook skips.
   */
  function SkipRet(rs: seq<SyshookRet>, ret: u64): u64 {
    match LastSkip(rs)
    case None => ret
    case Some(k) => rs[k].retval
  }

  /**
   * The post hooks applied in list order, each receiving the previous
   * hook's result as the current return value.
   */
  function Thread(hs: seq<Hook<PostCb>>, ret: u64, sysNum: int, args: seq<u64>): u64 {
    if hs == [] then ret
    else Thread(hs[1..], hs[0].body(hs[0].data, ret, sysNum, args), sysNum, args)
  }

  /** Running the post hooks of two consecutive list segments is running the first, then the second. */
  lemma {:induction false} ThreadAppend(hs1: seq<Hook<PostCb>>, hs2: seq<Hook<PostCb>>, ret: u64, sysNum: int, args: seq<u64>)
    ensures Thread(hs1 + hs2, ret, sysNum, args) == Thread(hs2, Thread(hs1, ret, sysNum, args), sysNum, args)
  {
    if hs1 != [] {
      assert (hs1 + hs2)[1..] == hs1[1..] + hs2;
      ThreadAppend(hs1[1..], hs2, hs1[0].body(hs1[0].data, ret, sysNum, args), sysNum, args);
    } else {
      assert hs1 + hs2 == hs2;
    }
  }

  /** The last post hook in the list has the final say: the result is what it returns. */
  lemma LastPostHookWins(hs: seq<Hook<PostCb>>, ret: u64, sysNum: int, args: seq<u64>)
    requires hs != []
    ensures var last := hs[|hs| - 1];
      Thread(hs, ret, sysNum, args) == last.body(last.data, Thread(hs[..|hs| - 1], ret, sysNum, args), sysNum, args)
  {
    assert hs == hs[..|hs| - 1] + [hs[|hs| - 1]];
    ThreadAppend(hs[..|hs| - 1], [hs[|hs| - 1]], ret, sysNum, args);
  }

  /** The two lists and their counters (`libafl_pre_syscall_hooks`, `libafl_post_syscall_hooks`). */
  class Syscalls {
    const pre: Registry<PreCb>
    const post: Registry<PostCb>

    ghost predicate Valid()
      reads this, pre, post
    {
      pre.Valid() && post.Valid()
    }

    constructor ()
      ensures Valid() && fresh(pre) && fresh(post)
      ensures pre.hooks == [] && pre.counter == 0 && post.hooks == [] && post.counter == 0
    {
      pre := new Registry();
      post := new Registry();
    }

    /** `libafl_add_pre_syscall_hook`: next pre id, prepended; the post list is untouched. */
    method AddPre(callback: PreCb, data: u64) returns (num: nat)
      requires Valid()
      modifies pre
      ensures Valid()
      ensures num == old(pre.counter) && pre.counter == num + 1
      ensures pre.hooks == [Hook(num, data, callback)] + old(pre.hooks)
      ensures post.hooks == old(post.hooks) && post.counter == old(post.counter)
    {
      num := pre.Add(data, callback);
    }

    /** `libafl_add_post_syscall_hook`: next post id, prepended; the pre list is untouched. */
    method AddPost(callback: PostCb, data: u64) returns (num: nat)
      requires Valid()
      modifies post
      ensures Valid()
      ensures num == old(post.counter) && post.counter == num + 1
      ensures post.hooks == [Hook(num, data, callback)] + old(post.hooks)
      ensures pre.hooks == old(pre.hooks) && pre.counter == old(pre.counter)
    {
      num := post.Add(data, callback);
    }

    /** `libafl_qemu_remove_pre_syscall_hook` (GEN_REMOVE_HOOK1). */
    method RemovePre(num: nat) returns (r: int)
      requires Valid()
      modifies pre
      ensures Valid()
      ensures r == (if HasNum(old(pre.hooks), num) then 1 else 0)
      ensures pre.hooks == Unlink(old(pre.hooks), num)
      ensures post.hooks == old(post.hooks) && post.counter == old(post.counter)
    {
      r := pre.Remove1(num);
    }

    /** `libafl_qemu_remove_post_syscall_hook` (GEN_REMOVE_HOOK1). */
    method RemovePost(num: nat) returns (r: int)
      requires Valid()
      modifies post
      ensures Valid()
      ensures r == (if HasNum(old(post.hooks), num) then 1 else 0)
      ensures post.hooks == Unlink(old(post.hooks), num)
      ensures pre.hooks == old(pre.hooks) && pre.counter == old(pre.counter)
    {
      r := post.Remove1(num);
    }

    /**
     * `libafl_hook_syscall_pre_run`: every pre hook is called, in list
     * order, even after one asked to skip (`called`); the result is true
     * iff some hook skips, and `*ret` ends as the last skipping hook's
     * value, untouched when none skips.
     */
    method PreRun(sysNum: int, args: seq<u64>, ret: u64) returns (skip: bool, newRet: u64, called: seq<nat>)
      requires Valid()
      ensures called == Nums(pre.hooks)
      ensures skip <==> exists i :: 0 <= i < |pre.hooks| && Verdicts(pre.hooks, sysNum, args)[i].Skip?
      ensures newRet == SkipRet(Verdicts(pre.hooks, sysNum, args), ret)
    {
      var hs := pre.hooks;
      ghost var rs := Verdicts(hs, sysNum, args);
      skip, newRet, called := false, ret, [];
      var i := 0;
      while i < |hs|
        invariant 0 <= i <= |hs|
        invariant called == Nums(hs[..i])
        invariant skip <==> LastSkip(rs[..i]).Some?
        invariant newRet == SkipRet(rs[..i], ret)
      {
        var hookRet := hs[i].body(hs[i].data, sysNum, args);
        if hookRet.Skip? {
          skip := true;
          newRet := hookRet.retval;
        }
        called := called + [hs[i].num];
        assert rs[..i + 1][..i] == rs[..i];
        i := i + 1;
      }
      assert rs[..i] == rs;
      assert hs[..i] == hs;
    }

    /**
     * `libafl_hook_syscall_post_run`: the return value is threaded through
     * every post hook in list order.
     */
    method PostRun(sysNum: int, args: seq<u64>, ret: u64) returns (newRet: u64)
      requires Valid()
      ensures newRet == Thread(post.hooks, ret, sysNum, args)
      ensures post.hooks == [] ==> newRet == ret
    {
      var hs := post.hooks;
      newRet := ret;
      var i := 0;
      while i < |hs|
        invariant 0 <= i <= |hs|
        invariant Thread(hs[i..], newRet, sysNum, args) == Thread(hs, ret, sysNum, args)
      {
        assert hs[i..][1..] == hs[i + 1..];
        newRet := hs[i].body(hs[i].data, newRet, sysNum, args);
        i := i + 1;
      }
    }
  }
}
