// Instruction hooks: a hash table of 16384 singly linked lists indexed by
// LIBAFL_TABLES_HASH of the guest pc. Each node carries an id taken from a
// global counter. The same table, with a different helper name, backs the
// older `libafl_qemu_set_hook` API.
module InstructionHooks {
  import opened Common
  import opened HookList

  const TABLES_SIZE: nat := 16384

  /** Bitwise exclusive or of two naturals. */
  function Xor(a: nat, b: nat): nat
    decreases a + b
  {
    if a == 0 then b
    else if b == 0 then a
    else 2 * Xor(a / 2, b / 2) + (if a % 2 == b % 2 then 0 else 1)
  }

  /** LIBAFL_TABLES_HASH: `((13 * p) ^ (p >> 15)) % 16384` on 64-bit size_t (the product wraps). */
  function TableHash(p: u64): (idx: nat)
    ensures idx < TABLES_SIZE
  {
    Xor((13 * p) % U64_LIMIT, p / 0x8000) % TABLES_SIZE
  }

  /** The fields of an instruction-hook node besides `num` and `data`. */
  datatype Insn = Insn(addr: u64, helper: HelperInfo)

  type InsnHook = Hook<Insn>

  /** The first node of a bucket whose address is `addr`, if any. */
  function FirstAt(s: seq<InsnHook>, addr: u64): (r: Option<InsnHook>)
    ensures r.Some? ==> r.value in s && r.value.body.addr == addr
    ensures r.None? <==> forall h :: h in s ==> h.body.addr != addr
  {
    if s == [] then None
    else if s[0].body.addr == addr then Some(s[0])
    else
      assert forall h :: h in s[1..] ==> h in s;
      FirstAt(s[1..], addr)
  }

  /** The node found is the first at that address: every node before it is at another address. */
  lemma {:induction false} FirstAtIsFirst(s: seq<InsnHook>, addr: u64)
    requires FirstAt(s, addr).Some?
    ensures exists k :: 0 <= k < |s| && s[k] == FirstAt(s, addr).value &&
                        forall j :: 0 <= j < k ==> s[j].body.addr != addr
  {
    if s[0].body.addr != addr {
      FirstAtIsFirst(s[1..], addr);
      var k :| 0 <= k < |s[1..]| && s[1..][k] == FirstAt(s[1..], addr).value &&
               forall j :: 0 <= j < k ==> s[1..][j].body.addr != addr;
      assert s[k + 1] == FirstAt(s, addr).value;
      assert forall j :: 0 <= j < k + 1 ==> s[j].body.addr != addr by {
        forall j | 0 <= j < k + 1 ensures s[j].body.addr != addr {
          if j > 0 { assert s[j] == s[1..][j - 1]; }
        }
      }
    } else {
      assert s[0] == FirstAt(s, addr).value;
    }
  }

  /** The bucket after every node at `addr` is unlinked. */
  function WithoutAddr(s: seq<InsnHook>, addr: u64): seq<InsnHook> {
    if s == [] then []
    else if s[0].body.addr == addr then WithoutAddr(s[1..], addr)
    else [s[0]] + WithoutAddr(s[1..], addr)
  }

  function CountAt(s: seq<InsnHook>, addr: u64): nat {
    if s == [] then 0
    else (if s[0].body.addr == addr then 1 else 0) + CountAt(s[1..], addr)
  }

  /**
   * Removing every node at `addr`: what is left is exactly the nodes at other
   * addresses, the count accounts for the difference, and every removed node
   * was at `addr`.
   */
  lemma {:induction false} WithoutAddrSpec(s: seq<InsnHook>, addr: u64)
    ensures forall h :: h in WithoutAddr(s, addr) <==> h in s && h.body.addr != addr
    ensures |WithoutAddr(s, addr)| + CountAt(s, addr) == |s|
    ensures CountAt(s, addr) == 0 <==> WithoutAddr(s, addr) == s
  {
    if s != [] {
      WithoutAddrSpec(s[1..], addr);
      assert s == [s[0]] + s[1..];
      if s[0].body.addr != addr && WithoutAddr(s, addr) == s {
        assert WithoutAddr(s[1..], addr) == s[1..];
      }
    }
  }

  /** Unlinking nodes never moves a node to another bucket. */
  lemma {:induction false} WithoutAddrSubset(s: seq<InsnHook>, addr: u64)
    ensures forall k :: 0 <= k < |WithoutAddr(s, addr)| ==> WithoutAddr(s, addr)[k] in s
  {
    WithoutAddrSpec(s, addr);
  }

  /** The node a search returns is the most recently added one at that address. */
  lemma SearchFindsNewest(s: seq<InsnHook>, h: InsnHook)
    ensures FirstAt([h] + s, h.body.addr) == Some(h)
  {
  }

  /** All nodes of bucket `i` hash to `i`, and all ids are below the counter and decrease along a bucket. */
  ghost predicate BucketOk(b: seq<InsnHook>, i: nat, counter: nat) {
    Ordered(b, counter) && forall k :: 0 <= k < |b| ==> TableHash(b[k].body.addr) == i
  }

  class Table {
    /** `libafl_qemu_instruction_hooks[]`: bucket heads as the lists they start. */
    const buckets: array<seq<InsnHook>>
    /** `libafl_qemu_hooks_num` */
    var counter: nat
    /** The static TCGHelperInfo each node copies ("libafl_instruction_hook" or "libafl_hook"). */
    const template: string

    ghost predicate Valid()
      reads this, buckets
    {
      buckets.Length == TABLES_SIZE &&
      forall i :: 0 <= i < TABLES_SIZE ==> BucketOk(buckets[i], i, counter)
    }

    constructor (template: string)
      ensures Valid() && fresh(buckets) && counter == 0 && this.template == template
      ensures forall i :: 0 <= i < TABLES_SIZE ==> buckets[i] == []
    {
      buckets := new seq<InsnHook>[TABLES_SIZE](_ => []);
      counter := 0;
      this.template := template;
    }

    /** `libafl_qemu_add_instruction_hooks` / `libafl_qemu_set_hook`. */
    method Add(pc: u64, callback: FnPtr, data: u64, invalidate: bool) returns (num: nat, effects: seq<Event>)
      requires Valid()
      modifies this, buckets
      ensures Valid()
      ensures num == old(counter) && counter == old(counter) + 1
      ensures buckets[TableHash(pc)] ==
        [Hook(num, data, Insn(pc, HelperInfo(template, callback)))] + old(buckets[TableHash(pc)])
      ensures forall i :: 0 <= i < TABLES_SIZE && i != TableHash(pc) ==> buckets[i] == old(buckets[i])
      ensures effects == (if invalidate then [InvalidatePc(pc)] else [])
    {
      effects := if invalidate then [InvalidatePc(pc)] else [];
      var idx := TableHash(pc);
      num := counter;
      counter := counter + 1;
      buckets[idx] := [Hook(num, data, Insn(pc, HelperInfo(template, callback)))] + buckets[idx];
      forall i | 0 <= i < TABLES_SIZE ensures BucketOk(buckets[i], i, counter) {
        assert BucketOk(old(buckets[i]), i, old(counter));
      }
    }

    /** `libafl_qemu_remove_instruction_hooks_at` / `libafl_qemu_remove_hooks_at`. */
    method RemoveAt(addr: u64, invalidate: bool) returns (r: nat, effects: seq<Event>)
      requires Valid()
      modifies buckets
      ensures Valid()
      ensures buckets[TableHash(addr)] == WithoutAddr(old(buckets[TableHash(addr)]), addr)
      ensures forall i :: 0 <= i < TABLES_SIZE && i != TableHash(addr) ==> buckets[i] == old(buckets[i])
      ensures r == CountAt(old(buckets[TableHash(addr)]), addr)
      ensures effects == (if invalidate then seq(r, _ => InvalidatePc(addr)) else [])
    {
      var idx := TableHash(addr);
      var s := buckets[idx];
      var kept: seq<InsnHook> := [];
      r, effects := 0, [];
      var i := 0;
      while i < |s|
        invariant 0 <= i <= |s|
        invariant WithoutAddr(s, addr) == kept + WithoutAddr(s[i..], addr)
        invariant CountAt(s, addr) == r + CountAt(s[i..], addr)
        invariant effects == (if invalidate then seq(r, _ => InvalidatePc(addr)) else [])
      {
        assert s[i..][1..] == s[i + 1..];
        if s[i].body.addr == addr {
          if invalidate {
            effects := effects + [InvalidatePc(addr)];
          }
          r := r + 1;
        } else {
          kept := kept + [s[i]];
        }
        i := i + 1;
      }
      assert s[i..] == [];
      assert kept == WithoutAddr(s, addr);
      assert BucketOk(s, idx, counter);
      assert BucketOk(kept, idx, counter) by {
        UnlinkedOrdered(s, addr, counter);
        WithoutAddrSpec(s, addr);
        forall m | 0 <= m < |kept| ensures TableHash(kept[m].body.addr) == idx {
          assert kept[m] in s;
          var j :| 0 <= j < |s| && s[j] == kept[m];
        }
      }
      buckets[idx] := kept;
      forall j | 0 <= j < TABLES_SIZE ensures BucketOk(buckets[j], j, counter) {
        if j != idx { assert buckets[j] == old(buckets[j]); }
      }
    }

    /**
     * `libafl_qemu_remove_instruction_hook` / `libafl_qemu_remove_hook`: scan
     * the buckets in index order, unlink the first node with id `num` and
     * return 1, or return 0 with the table unchanged.
     */
    method RemoveNum(num: nat, invalidate: bool) returns (r: int, effects: seq<Event>)
      requires Valid()
      modifies buckets
      ensures Valid()
      ensures r == 0 || r == 1
      ensures r == 0 ==> (forall i :: 0 <= i < TABLES_SIZE ==> !HasNum(old(buckets[i]), num)) &&
                         (forall i :: 0 <= i < TABLES_SIZE ==> buckets[i] == old(buckets[i])) &&
                         effects == []
      ensures r == 1 ==> exists i :: 0 <= i < TABLES_SIZE && HasNum(old(buckets[i]), num) &&
                           (forall j :: 0 <= j < i ==> !HasNum(old(buckets[j]), num)) &&
                           buckets[i] == Unlink(old(buckets[i]), num) &&
                           (forall j :: 0 <= j < TABLES_SIZE && j != i ==> buckets[j] == old(buckets[j])) &&
                           var k := FirstWithNum(old(buckets[i]), num);
                           k < |old(buckets[i])| &&
                           effects == (if invalidate then [InvalidatePc(old(buckets[i])[k].body.addr)] else [])
    {
      effects := [];
      var idx := 0;
      while idx < TABLES_SIZE
        invariant 0 <= idx <= TABLES_SIZE
        invariant forall j :: 0 <= j < idx ==> !HasNum(buckets[j], num)
        invariant forall j :: 0 <= j < TABLES_SIZE ==> buckets[j] == old(buckets[j])
      {
        var s := buckets[idx];
        var k := ScanNum(s, num);
        UnlinkShape(s, num);
        if k < |s| {
          if invalidate {
            effects := [InvalidatePc(s[k].body.addr)];
          }
          assert BucketOk(s, idx, counter);
          UnlinkBucketOk(s, idx, counter, num);
          buckets[idx] := s[..k] + s[k + 1..];
          assert buckets[idx] == Unlink(old(buckets[idx]), num);
          return 1, effects;
        }
        idx := idx + 1;
      }
      return 0, effects;
    }

    /** `libafl_search_instruction_hook` / `libafl_search_hook`. */
    method Search(addr: u64) returns (h: Option<InsnHook>)
      requires Valid()
      ensures h == FirstAt(buckets[TableHash(addr)], addr)
    {
      var s := buckets[TableHash(addr)];
      var i := 0;
      while i < |s|
        invariant 0 <= i <= |s|
        invariant FirstAt(s, addr) == FirstAt(s[i..], addr)
      {
        assert s[i..][1..] == s[i + 1..];
        if s[i].body.addr == addr {
          return Some(s[i]);
        }
        i := i + 1;
      }
      assert s[i..] == [];
      return None;
    }

    /** `libafl_qemu_hook_instruction_run`: one helper call iff a hook is set at `pcNext`. */
    method Run(pcNext: u64) returns (events: seq<Event>)
      requires Valid()
      ensures |events| <= 1
      ensures events != [] <==> exists h :: h in buckets[TableHash(pcNext)] && h.body.addr == pcNext
      ensures events != [] ==>
        var h := FirstAt(buckets[TableHash(pcNext)], pcNext).value;
        events[0] == TcgCall(h.body.helper, [h.data, pcNext])
    {
      var hk := Search(pcNext);
      events := [];
      if hk.Some? {
        events := [TcgCall(hk.value.body.helper, [hk.value.data, pcNext])];
      }
    }

    /** A table lookup only ever needs the bucket the address hashes to. */
    lemma SearchComplete(addr: u64)
      requires Valid()
      ensures FirstAt(buckets[TableHash(addr)], addr).None? ==>
        forall i, k :: 0 <= i < TABLES_SIZE && 0 <= k < |buckets[i]| ==> buckets[i][k].body.addr != addr
    {
      if FirstAt(buckets[TableHash(addr)], addr).None? {
        forall i, k | 0 <= i < TABLES_SIZE && 0 <= k < |buckets[i]|
          ensures buckets[i][k].body.addr != addr
        {
          assert BucketOk(buckets[i], i, counter);
        }
      }
    }
  }

  /** Unlinking a node keeps a bucket ordered and hashed. */
  lemma UnlinkBucketOk(s: seq<InsnHook>, i: nat, counter: nat, num: nat)
    requires BucketOk(s, i, counter)
    ensures BucketOk(Unlink(s, num), i, counter)
  {
    UnlinkRemovesId(s, counter, num);
    var k := FirstWithNum(s, num);
    if k < |s| {
      var r := s[..k] + s[k + 1..];
      forall m | 0 <= m < |r| ensures TableHash(r[m].body.addr) == i {
        assert r[m] == (if m < k then s[m] else s[m + 1]);
      }
    }
  }

  /** Filtering a bucket keeps it ordered. */
  lemma {:induction false} UnlinkedOrdered(s: seq<InsnHook>, addr: u64, counter: nat)
    requires Ordered(s, counter)
    ensures Ordered(WithoutAddr(s, addr), counter)
  {
    if s != [] {
      assert Ordered(s[1..], counter);
      UnlinkedOrdered(s[1..], addr, counter);
      if s[0].body.addr != addr {
        TailBelowHead(s, addr, counter);
        PrependOrdered(s[0], WithoutAddr(s[1..], addr), counter);
      }
    }
  }

  /** What survives the filter of the tail has smaller ids than the head. */
  lemma TailBelowHead(s: seq<InsnHook>, addr: u64, counter: nat)
    requires Ordered(s, counter) && s != []
    ensures forall k :: 0 <= k < |WithoutAddr(s[1..], addr)| ==> WithoutAddr(s[1..], addr)[k].num < s[0].num
  {
    var t := WithoutAddr(s[1..], addr);
    WithoutAddrSpec(s[1..], addr);
    forall k | 0 <= k < |t| ensures t[k].num < s[0].num {
      assert t[k] in s[1..];
      var j :| 0 <= j < |s[1..]| && s[1..][j] == t[k];
      assert s[j + 1] == t[k];
    }
  }

  /** A node with a larger id than all of an ordered list may go in front. */
  lemma PrependOrdered(h: InsnHook, t: seq<InsnHook>, counter: nat)
    requires Ordered(t, counter) && h.num < counter
    requires forall k :: 0 <= k < |t| ==> t[k].num < h.num
    ensures Ordered([h] + t, counter)
  {
    var r := [h] + t;
    forall a, b | 0 <= a < b < |r| ensures r[a].num > r[b].num {
      if a > 0 { assert r[a] == t[a - 1]; }
      assert r[b] == t[b - 1];
    }
  }
}
