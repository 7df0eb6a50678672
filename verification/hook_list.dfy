// The per-kind hook lists of LibAFL: every hook kind keeps a singly linked
// list, newest first, and a counter that hands out ids. The GEN_REMOVE_HOOK
// and GEN_REMOVE_HOOK1 macros generate the same unlink loop for each kind;
// here that loop is written once, for a list of any hook payload.
module HookList {
  import opened Common

  /** A list node: the id (`num`), the user `data` word and the kind-specific fields. */
  datatype Hook<P> = Hook(num: nat, data: u64, body: P)

  /** Ids handed out so far are below `counter`, and ids decrease from head to tail. */
  ghost predicate Ordered<P>(hs: seq<Hook<P>>, counter: nat) {
    (forall i :: 0 <= i < |hs| ==> hs[i].num < counter) &&
    (forall i, j :: 0 <= i < j < |hs| ==> hs[i].num > hs[j].num)
  }

  ghost predicate HasNum<P>(hs: seq<Hook<P>>, num: nat) {
    exists i :: 0 <= i < |hs| && hs[i].num == num
  }

  /** The ids of the nodes, in list order: which hooks a full walk visits. */
  function Nums<P>(hs: seq<Hook<P>>): (ns: seq<nat>)
    ensures |ns| == |hs| && forall i :: 0 <= i < |hs| ==> ns[i] == hs[i].num
  {
    seq(|hs|, i requires 0 <= i < |hs| => hs[i].num)
  }

  /** Position of the first node carrying `num`, or |hs| when there is none. */
  function FirstWithNum<P>(hs: seq<Hook<P>>, num: nat): (k: nat)
    ensures k <= |hs|
    ensures k < |hs| ==> hs[k].num == num
    ensures forall i :: 0 <= i < k ==> hs[i].num != num
  {
    if hs == [] then 0
    else if hs[0].num == num then 0
    else 1 + FirstWithNum(hs[1..], num)
  }

  /** The list after the first node carrying `num` is unlinked. */
  function Unlink<P>(hs: seq<Hook<P>>, num: nat): seq<Hook<P>> {
    var k := FirstWithNum(hs, num);
    if k == |hs| then hs else hs[..k] + hs[k + 1..]
  }

  /** The list after the first node carrying `num` has its payload rewritten by `f`. */
  function UpdateFirst<P>(hs: seq<Hook<P>>, num: nat, f: P -> P): seq<Hook<P>> {
    var k := FirstWithNum(hs, num);
    if k == |hs| then hs else hs[k := hs[k].(body := f(hs[k].body))]
  }

  /** Concatenation of what `f` produces for each node, in list order. */
  function FlatMap<P, E>(hs: seq<Hook<P>>, f: Hook<P> -> seq<E>): seq<E> {
    if hs == [] then [] else f(hs[0]) + FlatMap(hs[1..], f)
  }

  lemma {:induction false} FlatMapSnoc<P, E>(hs: seq<Hook<P>>, h: Hook<P>, f: Hook<P> -> seq<E>)
    ensures FlatMap(hs + [h], f) == FlatMap(hs, f) + f(h)
  {
    if hs == [] {
      assert hs + [h] == [h];
    } else {
      assert (hs + [h])[1..] == hs[1..] + [h];
      FlatMapSnoc(hs[1..], h, f);
    }
  }

  /** A walk emits nothing exactly when no hook contributes anything. */
  lemma {:induction false} FlatMapEmpty<P, E>(hs: seq<Hook<P>>, f: Hook<P> -> seq<E>)
    ensures FlatMap(hs, f) == [] <==> forall i :: 0 <= i < |hs| ==> f(hs[i]) == []
  {
    if hs != [] {
      FlatMapEmpty(hs[1..], f);
      assert forall i :: 1 <= i < |hs| ==> hs[1..][i - 1] == hs[i];
    }
  }

  /** A walk in which each hook contributes at most one item emits at most one per hook. */
  lemma {:induction false} FlatMapAtMostOne<P, E>(hs: seq<Hook<P>>, f: Hook<P> -> seq<E>)
    requires forall i :: 0 <= i < |hs| ==> |f(hs[i])| <= 1
    ensures |FlatMap(hs, f)| <= |hs|
  {
    if hs != [] {
      assert forall i :: 0 <= i < |hs[1..]| ==> hs[1..][i] == hs[i + 1];
      FlatMapAtMostOne(hs[1..], f);
    }
  }

  /** A walk in which each hook contributes exactly one item emits one per hook, in list order. */
  lemma {:induction false} FlatMapExactlyOne<P, E>(hs: seq<Hook<P>>, f: Hook<P> -> seq<E>)
    requires forall i :: 0 <= i < |hs| ==> |f(hs[i])| == 1
    ensures |FlatMap(hs, f)| == |hs|
    ensures forall i :: 0 <= i < |hs| ==> FlatMap(hs, f)[i] == f(hs[i])[0]
  {
    if hs != [] {
      assert forall i :: 0 <= i < |hs[1..]| ==> hs[1..][i] == hs[i + 1];
      FlatMapExactlyOne(hs[1..], f);
    }
  }

  /**
   * Unlinking by id: with no node carrying `num` the list is unchanged;
   * otherwise exactly one node, the first carrying `num`, goes.
   */
  lemma UnlinkShape<P>(hs: seq<Hook<P>>, num: nat)
    ensures HasNum(hs, num) <==> FirstWithNum(hs, num) < |hs|
    ensures !HasNum(hs, num) ==> Unlink(hs, num) == hs
    ensures HasNum(hs, num) ==> |Unlink(hs, num)| == |hs| - 1
  {
    var k := FirstWithNum(hs, num);
    if HasNum(hs, num) {
      var j :| 0 <= j < |hs| && hs[j].num == num;
      assert k <= j;
    }
    if k < |hs| {
      assert hs[k].num == num;
    }
  }

  /** In an ordered list ids are unique, so after unlinking no node carries `num`. */
  lemma UnlinkRemovesId<P>(hs: seq<Hook<P>>, counter: nat, num: nat)
    requires Ordered(hs, counter)
    ensures Ordered(Unlink(hs, num), counter)
    ensures !HasNum(Unlink(hs, num), num)
    ensures forall h :: h in hs && h.num != num ==> h in Unlink(hs, num)
  {
    var k := FirstWithNum(hs, num);
    if k < |hs| {
      var r := hs[..k] + hs[k + 1..];
      assert Unlink(hs, num) == r;
      assert |r| == |hs| - 1;
      assert forall i :: 0 <= i < k ==> r[i] == hs[i];
      assert forall i :: k <= i < |r| ==> r[i] == hs[i + 1];
      assert Ordered(r, counter) by {
        forall i, j | 0 <= i < j < |r| ensures r[i].num > r[j].num {
          var i' := if i < k then i else i + 1;
          var j' := if j < k then j else j + 1;
          assert r[i] == hs[i'] && r[j] == hs[j'] && i' < j';
        }
      }
      forall i | 0 <= i < |r| ensures r[i].num != num {
        if i >= k { assert hs[k].num > hs[i + 1].num; }
      }
      forall h | h in hs && h.num != num ensures h in r {
        var i :| 0 <= i < |hs| && hs[i] == h;
        if i < k { assert r[i] == h; } else { assert i > k && r[i - 1] == h; }
      }
    }
  }

  /** Rewriting a payload keeps every id and position. */
  lemma UpdateFirstKeepsIds<P>(hs: seq<Hook<P>>, counter: nat, num: nat, f: P -> P)
    requires Ordered(hs, counter)
    ensures |UpdateFirst(hs, num, f)| == |hs|
    ensures forall i :: 0 <= i < |hs| ==>
      UpdateFirst(hs, num, f)[i].num == hs[i].num && UpdateFirst(hs, num, f)[i].data == hs[i].data
    ensures Ordered(UpdateFirst(hs, num, f), counter)
  {
  }

  /**
   * The `while (*hk)` walk of the unlink loops: the position of the first
   * node with id `num`, or |hs| when the walk reaches the end of the list.
   */
  method ScanNum<P>(hs: seq<Hook<P>>, num: nat) returns (k: nat)
    ensures k == FirstWithNum(hs, num)
  {
    k := 0;
    while k < |hs| && hs[k].num != num
      invariant 0 <= k <= |hs|
      invariant forall j :: 0 <= j < k ==> hs[j].num != num
    {
      k := k + 1;
    }
  }

  /**
   * The global list of one hook kind together with its id counter
   * (`libafl_<kind>_hooks` and `libafl_qemu_<kind>_hooks_num`).
   */
  class Registry<P> {
    var hooks: seq<Hook<P>>
    var counter: nat

    ghost predicate Valid()
      reads this
    {
      Ordered(hooks, counter)
    }

    constructor ()
      ensures Valid() && hooks == [] && counter == 0
    {
      hooks := [];
      counter := 0;
    }

    /** The shared tail of every `libafl_add_<kind>_hook`: take the next id and prepend. */
    method Add(data: u64, body: P) returns (num: nat)
      requires Valid()
      modifies this
      ensures Valid()
      ensures num == old(counter) && counter == old(counter) + 1
      ensures hooks == [Hook(num, data, body)] + old(hooks)
    {
      num := counter;
      counter := counter + 1;
      hooks := [Hook(num, data, body)] + hooks;
    }

    /**
     * GEN_REMOVE_HOOK: unlink the first node with id `num` and return 1, or
     * return 0 with the list unchanged. `invalidate` only adds a flush of
     * every CPU's translation cache when a node was found.
     */
    method Remove(num: nat, invalidate: bool) returns (r: int, effects: seq<Event>)
      requires Valid()
      modifies this
      ensures Valid() && counter == old(counter)
      ensures r == (if HasNum(old(hooks), num) then 1 else 0)
      ensures hooks == Unlink(old(hooks), num)
      ensures !HasNum(hooks, num)
      ensures effects == (if r == 1 && invalidate then [FlushAllCpus] else [])
    {
      r, effects := 0, [];
      UnlinkRemovesId(hooks, counter, num);
      UnlinkShape(hooks, num);
      var k := ScanNum(hooks, num);
      if k < |hooks| {
        if invalidate {
          effects := [FlushAllCpus];
        }
        hooks := hooks[..k] + hooks[k + 1..];
        r := 1;
      }
    }

    /** GEN_REMOVE_HOOK1: the same unlink, for kinds whose removal takes no `invalidate`. */
    method Remove1(num: nat) returns (r: int)
      requires Valid()
      modifies this
      ensures Valid() && counter == old(counter)
      ensures r == (if HasNum(old(hooks), num) then 1 else 0)
      ensures hooks == Unlink(old(hooks), num)
    {
      var effects;
      r, effects := Remove(num, false);
    }

    /** `*_set_jit`: store a payload change in the first node with id `num`; true iff one exists. */
    method SetFirst(num: nat, f: P -> P) returns (found: bool)
      requires Valid()
      modifies this
      ensures Valid() && counter == old(counter)
      ensures found == HasNum(old(hooks), num)
      ensures hooks == UpdateFirst(old(hooks), num, f)
    {
      UpdateFirstKeepsIds(hooks, counter, num, f);
      UnlinkShape(hooks, num);
      var k := ScanNum(hooks, num);
      found := k < |hooks|;
      if found {
        hooks := hooks[k := hooks[k].(body := f(hooks[k].body))];
      }
    }

    /** A walk over the list, newest hook first, collecting what `f` emits for each hook. */
    method Walk<E>(f: Hook<P> -> seq<E>) returns (out: seq<E>)
      ensures out == FlatMap(hooks, f)
    {
      out := [];
      var i := 0;
      while i < |hooks|
        invariant 0 <= i <= |hooks|
        invariant out == FlatMap(hooks[..i], f)
      {
        FlatMapSnoc(hooks[..i], hooks[i], f);
        assert hooks[..i + 1] == hooks[..i] + [hooks[i]];
        out := out + f(hooks[i]);
        i := i + 1;
      }
      assert hooks[..i] == hooks;
    }
  }
}
