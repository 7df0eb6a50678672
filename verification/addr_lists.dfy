// Lists keyed by guest address: the LibAFL breakpoint list
// (libafl/exit.c, and the copy in cpu.c) and the older per-address hook
// list of cpu.c. Insertion prepends; removal unlinks every node at the
// address and invalidates the translated code once per removed node.
module AddrLists {
  import opened Common

  datatype Entry<T> = Entry(addr: u64, payload: T)

  /** The list with every node at `addr` unlinked, the others kept in order. */
  function Drop<T>(s: seq<Entry<T>>, addr: u64): seq<Entry<T>> {
    if s == [] then [] else (if s[0].addr == addr then [] else [s[0]]) + Drop(s[1..], addr)
  }

  /** How many nodes sit at `addr`. */
  function Count<T>(s: seq<Entry<T>>, addr: u64): nat {
    if s == [] then 0 else (if s[0].addr == addr then 1 else 0) + Count(s[1..], addr)
  }

  lemma {:induction false} DropSnoc<T>(s: seq<Entry<T>>, e: Entry<T>, addr: u64)
    ensures Drop(s + [e], addr) == Drop(s, addr) + (if e.addr == addr then [] else [e])
    ensures Count(s + [e], addr) == Count(s, addr) + (if e.addr == addr then 1 else 0)
  {
    if s == [] {
      assert s + [e] == [e];
    } else {
      assert (s + [e])[1..] == s[1..] + [e];
      DropSnoc(s[1..], e, addr);
    }
  }

  /**
   * Removal by address: no node at `addr` survives, every other node does,
   * and the removed count is the number of nodes at `addr`.
   */
  lemma {:induction false} DropSpec<T>(s: seq<Entry<T>>, addr: u64)
    ensures |Drop(s, addr)| + Count(s, addr) == |s|
    ensures forall e :: e in Drop(s, addr) <==> e in s && e.addr != addr
    ensures Count(s, addr) == 0 <==> forall i :: 0 <= i < |s| ==> s[i].addr != addr
    ensures Count(s, addr) == 0 ==> Drop(s, addr) == s
  {
    if s != [] {
      DropSpec(s[1..], addr);
      assert forall e :: e in s <==> e == s[0] || e in s[1..];
      assert forall i :: 1 <= i < |s| ==> s[i] == s[1..][i - 1];
    }
  }

  /** A singly linked, prepend-only list of address-keyed nodes. */
  class AddrList<T> {
    var entries: seq<Entry<T>>

    constructor ()
      ensures entries == []
    {
      entries := [];
    }

    /**
     * `libafl_qemu_set_breakpoint` / cpu.c `libafl_qemu_set_hook`:
     * invalidate `addr` on every CPU, prepend a node, return 1.
     */
    method Push(addr: u64, payload: T) returns (r: int, effects: seq<Event>)
      modifies this
      ensures entries == [Entry(addr, payload)] + old(entries)
      ensures r == 1 && effects == [InvalidatePc(addr)]
    {
      effects := [InvalidatePc(addr)];
      entries := [Entry(addr, payload)] + entries;
      r := 1;
    }

    /**
     * `libafl_qemu_remove_breakpoint` / cpu.c `libafl_qemu_remove_hook`:
     * unlink every node at `addr`, invalidating `addr` once per node; 1 if
     * any node was removed, else 0.
     */
    method RemoveAll(addr: u64) returns (r: int, effects: seq<Event>)
      modifies this
      ensures entries == Drop(old(entries), addr)
      ensures r == (if Count(old(entries), addr) > 0 then 1 else 0)
      ensures effects == seq(Count(old(entries), addr), _ => InvalidatePc(addr))
    {
      var s := entries;
      var kept: seq<Entry<T>> := [];
      r, effects := 0, [];
      var i := 0;
      while i < |s|
        invariant 0 <= i <= |s|
        invariant kept == Drop(s[..i], addr)
        invariant effects == seq(Count(s[..i], addr), _ => InvalidatePc(addr))
        invariant r == (if Count(s[..i], addr) > 0 then 1 else 0)
      {
        DropSnoc(s[..i], s[i], addr);
        assert s[..i + 1] == s[..i] + [s[i]];
        if s[i].addr == addr {
          effects := effects + [InvalidatePc(addr)];
          r := 1;
        } else {
          kept := kept + [s[i]];
        }
        i := i + 1;
      }
      assert s[..i] == s;
      entries := kept;
    }

    /** The number of nodes at `addr`: how often a walk over the list meets `addr`. */
    method CountAt(addr: u64) returns (n: nat)
      ensures n == Count(entries, addr)
    {
      n := 0;
      var i := 0;
      while i < |entries|
        invariant 0 <= i <= |entries|
        invariant n == Count(entries[..i], addr)
      {
        DropSnoc(entries[..i], entries[i], addr);
        assert entries[..i + 1] == entries[..i] + [entries[i]];
        if entries[i].addr == addr {
          n := n + 1;
        }
        i := i + 1;
      }
      assert entries[..i] == entries;
    }
  }
}
