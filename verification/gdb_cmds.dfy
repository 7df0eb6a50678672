// Custom GDB commands (libafl/gdb.c): a prepend-only list of callbacks
// that are all offered the current GDB packet buffer.
module GdbCmds {
  import opened Common

  /** A command callback: (opaque data, packet bytes) to "recognised". */
  type GdbCb = (u64, seq<u8>) -> bool

  datatype GdbCmd = GdbCmd(callback: GdbCb, data: u64)

  /** Whether some command recognises `buf`. */
  predicate AnyRecognizes(cmds: seq<GdbCmd>, buf: seq<u8>) {
    exists i :: 0 <= i < |cmds| && cmds[i].callback(cmds[i].data, buf)
  }

  /** The list `libafl_qemu_gdb_cmds`. Commands have no id and are never removed. */
  class Commands {
    var cmds: seq<GdbCmd>

    constructor ()
      ensures cmds == []
    {
      cmds := [];
    }

    /** `libafl_qemu_add_gdb_cmd`: prepend a command node. */
    method Add(callback: GdbCb, data: u64)
      modifies this
      ensures cmds == [GdbCmd(callback, data)] + old(cmds)
    {
      cmds := [GdbCmd(callback, data)] + cmds;
    }

    /**
     * `libafl_qemu_gdb_exec`: every command is offered the `mem_buf`
     * contents (`recognized |= ...` evaluates every call, `calls` counts
     * them); the result is the OR of all answers, false with no commands.
     */
    method Exec(buf: seq<u8>) returns (recognized: bool, calls: nat)
      ensures recognized == AnyRecognizes(cmds, buf)
      ensures cmds == [] ==> !recognized
      ensures calls == |cmds|
    {
      recognized := false;
      calls := 0;
      var i := 0;
      while i < |cmds|
        invariant 0 <= i <= |cmds| && calls == i
        invariant recognized == AnyRecognizes(cmds[..i], buf)
      {
        var answer := cmds[i].callback(cmds[i].data, buf);
        assert cmds[..i + 1][i] == cmds[i];
        assert forall k :: 0 <= k < i ==> cmds[..i + 1][k] == cmds[..i][k];
        recognized := recognized || answer;
        calls := calls + 1;
        i := i + 1;
      }
      assert cmds[..i] == cmds;
    }
  }
}
