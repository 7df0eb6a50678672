# A Dafny model of the LibAFL QEMU bridge core

This project models the logic that the LibAFL fork of QEMU adds, or relies on, to drive fuzzing:

- the link-argument interceptor used while LibAFL QEMU is built;
- the hook registries: instruction hooks in a 16384-bucket table, and prepend-only lists of edge, block, read/write, comparison, backdoor, system-call, new-thread and CPU-run hooks, plus custom GDB commands, all sharing one unlink routine;
- the two exit state machines (breakpoint list, last exit reason, `expected_exit`), and the LibAFL parts of `cpu.c`: register guards, breakpoint and hook lists, the GDB-first breakpoint queue, single-step and the host page size;
- the translator's control logic: `goto_tb` chaining, the instruction hook, breakpoints, the 4-byte backdoor opcode, the stop conditions and `translator_access`;
- the PA-RISC 1.1 software TLB and the LoongArch inter-processor-interrupt register block;
- both SYX snapshot engines (tracker, dirty lists, increment chain, restore source of every dirty page), the copy-on-write block cache, the two in-memory migration channels, and the device-state section filter.

The removal functions that the `GEN_REMOVE_HOOK` and `GEN_REMOVE_HOOK1` macros generate for each hook kind are `HookList.Registry.Remove` and `HookList.Registry.Remove1`, written once for any hook payload.

`libafl_extras/hook.c` is an older single-file copy of the same registries. Its functions take the same branches as their counterparts under `libafl/hooks/tcg`, and the same members model both:

- `libafl_qemu_set_hook`, `libafl_qemu_remove_hooks_at`, `libafl_qemu_remove_hook` and `libafl_search_hook` (libafl_extras/hook.c:19-45, 47-71, 73-98, 100-113) are `InstructionHooks.Table.Add`, `RemoveAt`, `RemoveNum` and `Search`.
- `GEN_REMOVE_HOOK` and `GEN_REMOVE_HOOK1` (:115-139, 141-158) are `HookList.Registry.Remove` and `Remove1`. The edge and block `*_set_jit` functions (:224-235, 274-285) are `EdgeHooks.SetJit` and `BlockHooks.SetJit`, both built on `HookList.Registry.SetFirst`.
- `libafl_add_backdoor_hook` (:170-184) is `BackdoorHooks.AddBackdoor`. `libafl_add_edge_hook` (:197-220) is `EdgeHooks.AddEdge`. `libafl_add_block_hook` (:246-270) is `BlockHooks.AddBlock`.
- `libafl_add_read_hook` and `libafl_add_write_hook` (:343-390, 397-444) are `ReadWriteHooks.RwHooks.AddRead` and `AddWrite`. `libafl_gen_rw` (:448-495) is `ReadWriteHooks.GenRw`; its callbacks receive other arguments than the newer copy's, an instance that `ReadWriteHooks.ExtrasRwCalls` states.
- `libafl_add_cmp_hook` and `libafl_gen_cmp` (:535-576, 580-625) are `CmpHooks.AddCmp` and `CmpHooks.GenCmp`.
- The system-call adders (:633-667) are `SyscallHooks.Syscalls.AddPre` and `AddPost`. The new-thread adder (:675-685) is `ThreadHooks.AddNewThread`.

Each source file is one module. Code that changes state step by step is a class whose methods carry `modifies` clauses. Loops are `while` loops with invariants. Each method is proved against a specification function, and the properties of those functions are lemmas.

Foreign code becomes parameters or abstract events:

- Callbacks the hooks hold (`gen`, `exec`, `jit`, syscall, thread and GDB callbacks) are function values in the hook record or numbered function pointers.
- "A TCG call was emitted", "a jit callback ran" and "this address was written" are events in a returned trace.
- The guest code bytes, the disk behind the cow cache and the RAM-block lookup are function parameters.

Machine integers are subset types of `int` (`u8`, `u32`, `u64`), and wrap-around is written out where the code depends on it.

## Notes on the code

- `linker_interceptor.py` drops `-o` and the token after it. Bare `*.so` tokens are recorded verbatim. `-L`/`-l` tokens are recorded and kept. The record is always written with exactly `cmd` and `so`. The real compiler runs on the original arguments.
- The header comment of `syx_snapshot_increment_pop` (include/libafl/syx-snapshot/syx-snapshot.h:89-90) promises a root restore when there is no increment. The code dereferences the last increment unconditionally. `SyxSnapshot.Snapshot.IncrementPop` follows the code and requires an increment; `SyxSnapshot.Snapshot.IncrementPopDocumented` is the documented behaviour.
- In `hw/intc/loongarch_ipi.c` the write handler masks the address to 8 bits before its switch, so the `IOCSR_ANY_SEND` case (0x158) can never be taken (`LoongArchIpi.AnySendOffsetUnreachable`).
- Header files that are not part of this model supplied a few constants:
  - QEMU's `target/hppa/cpu.h`: 16 block-TLB entries, 12 page bits, exception numbers.
  - The LoongArch IPI header: register offsets.
  - The TCG headers: `CF_NO_GOTO_TB`, `CF_LAST_IO`.
  These are written as named constants. The TLB size is a parameter larger than the block-TLB count.
- `include/libafl/syx-snapshot/syx-cow-cache.h` declares `push_layer`/`pop_layer` and a per-layer hash table of devices. The `.c` file defines `push`/`pop` and keeps an array `blks` indexed by device id. The model follows the `.c` file.

## Model

| member | source | states |
|---|---|---|
| AddrLists.DropSnoc | libafl/exit.c:38-46 | removal by address and the count of removed nodes extend node by node along the list |
| AddrLists.DropSpec | libafl/exit.c:32-49 | after removal by address no node at that address is left, every other node survives, and the nodes removed are exactly those at the address (none removed leaves the list as it was) |
| AddrLists.AddrList.constructor | libafl/exit.c:17 | the breakpoint list starts empty |
| AddrLists.AddrList.Push | libafl/exit.c:19-30 | a set prepends a node for the address, invalidates that address once and returns 1 (cpu.c:139-153 and cpu.c:177-198 do the same) |
| AddrLists.AddrList.RemoveAll | libafl/exit.c:32-49 | a remove unlinks every node at the address, invalidates the address once per node removed, and returns 1 exactly when a node was removed (also cpu.c:155-175 and cpu.c:200-220) |
| AddrLists.AddrList.CountAt | libafl/exit.c:37-48 | the walk over the list reports how many nodes sit at the address |
| BackdoorHooks.AddBackdoor | libafl/hooks/tcg/backdoor.c:15-32 | the new hook takes the next id and goes to the head of the list, with the backdoor helper template whose function is `exec`; the counter grows by one and no other hook changes |
| BackdoorHooks.Run | libafl/hooks/tcg/backdoor.c:34-47 | one helper call per hook, in list order, each with the hook's data followed by the CPU and `pc_next` |
| BlockHooks.CurId | libafl/hooks/tcg/block.c:73-75 | a hook without a generation callback gets id 0 |
| BlockHooks.RunCallsSpec | libafl/hooks/tcg/block.c:72-88 | a hook whose id is (uint64_t)-1 emits nothing; otherwise one helper call when a helper is set and one jit call when a jit is set, helper first, both with (data, id) |
| BlockHooks.AddBlock | libafl/hooks/tcg/block.c:15-41 | every CPU's translations are flushed, the hook takes the next id and is prepended with its callbacks, and the helper is filled only for a non-null `exec` |
| BlockHooks.SetJit | libafl/hooks/tcg/block.c:43-56 | true exactly when a hook has that id; only the first such hook's jit changes |
| BlockHooks.PostGen | libafl/hooks/tcg/block.c:58-66 | at most one post-generation call per hook, in list order; when every hook has one, exactly one each, with (data, pc, block size) |
| BlockHooks.Run | libafl/hooks/tcg/block.c:68-89 | the run emits the per-hook calls in list order, and emits nothing exactly when every hook either answers (uint64_t)-1 or has neither helper nor jit |
| ChannelBuffer.SeekTarget | libafl/syx-snapshot/channel-buffer-writeback.c:151-163 | the reference definition of the three whence cases that `Channel.Seek` is proved against: SEEK_SET moves to the offset, SEEK_CUR to the offset past the cursor, SEEK_END to the offset past the used part |
| ChannelBuffer.WritevUsageAsWritten | libafl/syx-snapshot/channel-buffer-writeback.c:129 | the reference definition of the as-written usage that `Channel.Writev` is proved against and `WritevOverrunsCapacity` refutes: a write raises `usage` by everything it writes, wherever the cursor stood |
| ChannelBuffer.WritevUsage | libafl/syx-snapshot/channel-buffer-writeback.c:121-131 | the used part after a write ends at the old usage or at the cursor, whichever is further |
| ChannelBuffer.WritevOverrunsCapacity | libafl/syx-snapshot/channel-buffer-writeback.c:121-131 | a write of 8 bytes at offset 0 into a full 16-byte channel passes both assertions, yet as written leaves usage 24, past the capacity; the corrected usage stays at 16 |
| ChannelBuffer.WritevUsageBounded | libafl/syx-snapshot/channel-buffer-writeback.c:121-131 | under the two assertions of the write, the corrected usage covers the written bytes and never exceeds the capacity |
| ChannelBuffer.Channel.New | libafl/syx-snapshot/channel-buffer-writeback.c:6-27 | a channel of the given capacity whose buffer is zeroed and owned exactly when the capacity is non-zero, usage and cursor 0, and the caller's write-back buffer |
| ChannelBuffer.Channel.External | libafl/syx-snapshot/channel-buffer-writeback.c:29-52 | a channel over the caller's buffer, which it does not own, with the given usage (at most the capacity) and cursor 0 |
| ChannelBuffer.Channel.Readv | libafl/syx-snapshot/channel-buffer-writeback.c:73-102 | the vectors are filled in order from the cursor, each with at most its length, stopping at the used part; the result is the count read and the cursor advances by it; nothing else changes |
| ChannelBuffer.Channel.CopyVectors | libafl/syx-snapshot/channel-buffer-writeback.c:115-131 | with the write inside the capacity (the assertion), the concatenated vectors are copied at the cursor and the cursor advances by their length, which is returned; the used part is untouched |
| ChannelBuffer.Channel.Writev | libafl/syx-snapshot/channel-buffer-writeback.c:104-134 | as written: the vectors are copied at the cursor, the cursor advances by their length, which is returned, and `usage` grows by that length wherever the cursor stood, so it may pass the capacity |
| ChannelBuffer.Channel.WritevCorrected | libafl/syx-snapshot/channel-buffer-writeback.c:104-134 | the intended write: the same copy, and the used part grows to the cursor only when the write runs past it, staying within the capacity |
| ChannelBuffer.Channel.Seek | libafl/syx-snapshot/channel-buffer-writeback.c:143-170 | a target inside the used part becomes the cursor and is returned; contents and usage are unchanged |
| ChannelBuffer.Channel.Finalize | libafl/syx-snapshot/channel-buffer-writeback.c:55-70 | the used bytes are copied to the front of the write-back buffer and their count published; an owned buffer is released with capacity, usage and cursor reset, an external one is left as it was |
| ChannelBuffer.Channel.Close | libafl/syx-snapshot/channel-buffer-writeback.c:172-191 | the same write-back and release as finalisation, returning 0 |
| ChannelBuffer.Channel.SetBlocking | libafl/syx-snapshot/channel-buffer-writeback.c:136-141 | always 0, nothing changes |
| ChannelBuffer.ReadLoop | libafl/syx-snapshot/channel-buffer-writeback.c:85-99 | the read loop fills the vectors as the read specification says and never moves the cursor past the used part |
| CmpHooks.CmpSize | libafl/hooks/tcg/cmp.c:77-93 | a size exists exactly for the four size fields MO_8 to MO_64, and is then 1, 2, 4 or 8 |
| CmpHooks.CmpSizeIsShift | libafl/hooks/tcg/cmp.c:78-90 | on the accepted size fields the size is `1 << (ot & MO_SIZE)`: 1 for MO_8 and doubling with each step |
| CmpHooks.CurId | libafl/hooks/tcg/cmp.c:97-99 | a hook without a generation callback gets id 0 |
| CmpHooks.CmpCallsSpec | libafl/hooks/tcg/cmp.c:97-115 | a hook emits at most one call, and one exactly when its id is not (uint64_t)-1 and the slot of exactly this size is set; the call is that slot's helper with (data, id, op0, op1) |
| CmpHooks.AddCmp | libafl/hooks/tcg/cmp.c:35-73 | every CPU's translations are flushed, the hook takes the next id and is prepended, and each size slot is filled only for a non-null callback |
| CmpHooks.GenCmp | libafl/hooks/tcg/cmp.c:75-118 | nothing for an unsupported size field; otherwise every hook, in list order, contributes its call, so at most one call per hook |
| Common.FillHelper | libafl/hooks/tcg/cmp.c:51-55 | a filled slot carries the callback, and a slot stays zeroed exactly when the callback is NULL |
| Common.FillSlots | libafl/hooks/tcg/cmp.c:51-70 | each size slot carries its own callback, and the non-null ones the template of their size |
| Common.Sized | libafl/hooks/tcg/cmp.c:100-108 | the chain picks a slot exactly when the size is 1, 2, 4 or 8 and the slot of that size has a callback, and then picks that slot |
| CpuCommon.ResolveCpu | cpu.c:82-88 | no CPU exactly when both `current_cpu` and the CPU of `libafl_qemu_env` are missing; `current_cpu` wins when it is set |
| CpuCommon.WriteReg | cpu.c:80-95 | 0 without a CPU and for an index at or past `gdb_num_core_regs`; otherwise the result of the class's register writer on the resolved CPU |
| CpuCommon.NumRegs | cpu.c:123-135 | `gdb_num_core_regs` of the resolved CPU, 0 without one |
| CpuCommon.CopyOut | cpu.c:115-117 | the first `len` bytes of the caller's buffer become the register bytes and the rest of it is untouched |
| CpuCommon.RegReader.constructor | cpu.c:70 | the shared byte array starts unallocated |
| CpuCommon.RegReader.ReadReg | cpu.c:97-121 | without a CPU: 0 and nothing changes; otherwise the byte array exists afterwards, an index past the register count gives 0 and leaves the caller's buffer alone, and a valid index gives the reader's length, with the register bytes copied out only when it is positive |
| CpuCommon.ToTargetUlong | cpu.c:143 | the cast to `target_ulong` keeps the address on a 64-bit guest and its low 32 bits, congruent modulo 2^32, on a 32-bit guest |
| CpuCommon.TargetUlongDropsHighBits | cpu.c:143 | on a 32-bit guest an address and the same address plus 2^32 become the same pc |
| CpuCommon.LibaflLists.constructor | cpu.c:54-64 | the breakpoint list and the per-address hook list start empty, for a guest word of 32 or 64 bits |
| CpuCommon.LibaflLists.SetBreakpoint | cpu.c:139-153 | prepend a breakpoint node at the address cast to `target_ulong`, invalidate that pc once, return 1 |
| CpuCommon.LibaflLists.RemoveBreakpoint | cpu.c:155-175 | unlink every breakpoint at the cast pc with one invalidation per node; 1 exactly when one was there |
| CpuCommon.LibaflLists.SetHook | cpu.c:177-198 | prepend a hook at the cast pc whose helper is named "libafl_hook" and calls the callback, invalidate that pc, register the helper in the helper table, return 1 |
| CpuCommon.LibaflLists.RemoveHook | cpu.c:200-220 | unlink every hook at the cast pc with one invalidation per node; 1 exactly when one was there |
| CpuCommon.Adjust | cpu.c:477-479 | without `gdb_adjust_breakpoint` the pc is used as given |
| CpuCommon.FindBp | cpu.c:511-517 | the search finds a breakpoint exactly when one has this pc and exactly these flags, and then the first such one |
| CpuCommon.UnmaskedSpec | cpu.c:530-539 | removal by mask keeps exactly the breakpoints sharing no flag with the mask |
| CpuCommon.UnmaskedGdbFirst | cpu.c:486-491 | removal by mask keeps GDB breakpoints in front of the others |
| CpuCommon.RemoveAtGdbFirst | cpu.c:521-527 | removing one breakpoint keeps GDB breakpoints in front of the others |
| CpuCommon.CpuState.constructor | cpu.c:384-394 | a CPU starts with no breakpoints and single-stepping off |
| CpuCommon.CpuState.BreakpointInsert | cpu.c:471-499 | the adjusted breakpoint goes to the head of the queue when it carries BP_GDB and to the tail otherwise, so GDB breakpoints stay in front; the result is 0 |
| CpuCommon.CpuState.BreakpointRemove | cpu.c:502-518 | the first breakpoint with the adjusted pc and exactly these flags is removed and 0 returned; without one, -ENOENT and no change; GDB breakpoints stay in front |
| CpuCommon.CpuState.BreakpointRemoveAll | cpu.c:530-539 | the breakpoints sharing a flag with the mask go, the others keep their order, and GDB breakpoints stay in front |
| CpuCommon.CpuState.SingleStep | cpu.c:543-552 | the flag takes the new value; KVM's guest debug state is updated exactly when the value changes and KVM is on |
| CpuCommon.FindBpFirst | cpu.c:511-517 | a breakpoint with no earlier match is the one the search reports |
| CpuCommon.HostPageSize | cpu.c:642-653 | at least the target page size; a configured size that is large enough is kept; with none configured, a large enough real host page size is used |
| CpuCommon.HostPageSizeIdempotent | cpu.c:642-653 | running the page size initialisation a second time changes nothing |
| CpuCommon.HostPage.constructor | cpu.c:224-225 | the host page size and mask start at 0 |
| CpuCommon.HostPage.PageSizeInit | cpu.c:642-653 | the size becomes the initialised size, at least the target page size, and the mask its negation |
| CpuRunHooks.Add | libafl/hooks/cpu_run.c:8-23 | the hook takes the next id and goes to the head of the list with both callbacks; the counter grows by one |
| CpuRunHooks.PreExec | libafl/hooks/cpu_run.c:25-32 | exactly one `pre_cpu_run` call per hook, in list order, with (data, cpu) |
| CpuRunHooks.PostExec | libafl/hooks/cpu_run.c:34-41 | exactly one `post_cpu_run` call per hook, in list order, with (data, cpu) |
| EdgeHooks.GenId | libafl/hooks/tcg/edge.c:61-65 | a hook without a generation callback gets id 0 |
| EdgeHooks.WithId | libafl/hooks/tcg/edge.c:61-65 | the generation pass changes only the stored id of a hook |
| EdgeHooks.RunCallsSpec | libafl/hooks/tcg/edge.c:82-94 | a hook contributes to the run exactly when it is active (id not (uint64_t)-1 and a helper or jit set), with at most two events, each carrying (data, id) |
| EdgeHooks.SilentRunIffNoActive | libafl/hooks/tcg/edge.c:55-96 | the run emits nothing exactly when no hook is active, which is what the generation pass reports |
| EdgeHooks.AddEdge | libafl/hooks/tcg/edge.c:15-38 | every CPU's translations are flushed, the hook takes the next id and is prepended with id 0 and a helper filled only for a non-null `exec` |
| EdgeHooks.SetJit | libafl/hooks/tcg/edge.c:40-53 | true exactly when a hook has that id; only the first such hook's jit changes |
| EdgeHooks.Gen | libafl/hooks/tcg/edge.c:55-76 | every hook stores the id its callback gives for this edge (0 without one) and nothing else changes; the result is true exactly when no hook is then active |
| EdgeHooks.Run | libafl/hooks/tcg/edge.c:78-96 | the run emits each hook's calls in list order, and nothing exactly when no hook is active |
| ExtrasExit.ExitState.constructor | libafl_extras/exit.c:14-23 | no exit expected and a zeroed exit reason |
| ExtrasExit.ExitState.SyncExitCpu | libafl_extras/exit.c:25-32 | the CPU's pc is set to `next_pc` only when it is non-zero, and `next_pc` is cleared either way |
| ExtrasExit.ExitState.ExitAsap | libafl_extras/exit.c:34-36 | the `exit_asap` flag of the last exit reason |
| ExtrasExit.ExitState.PrepareExit | libafl_extras/exit.c:38-54 | an exit is expected with the CPU and pc recorded; a running CPU leaves its loop, otherwise `exit_asap` is raised |
| ExtrasExit.ExitState.LastExitCpu | libafl_extras/exit.c:56-63 | the recorded CPU while an exit is expected, else NULL |
| ExtrasExit.ExitState.RequestSyncBackdoor | libafl_extras/exit.c:65-70 | the kind becomes SYNC_BACKDOOR and the exit is prepared at the pc |
| ExtrasExit.ExitState.RequestBreakpoint | libafl_extras/exit.c:72-78 | the kind becomes BREAKPOINT with the address recorded, and the exit is prepared at the pc |
| ExtrasExit.ExitState.SignalVmStart | libafl_extras/exit.c:80-84 | the CPU is forgotten and no exit is expected; `exit_asap` is left as it is |
| ExtrasExit.ExitState.GetExitReason | libafl_extras/exit.c:86-93 | the exit reason exactly while an exit is expected |
| ExtrasExit.Step | libafl_extras/exit.c:25-84 | no operation lowers `exit_asap`; a request raises it exactly when the CPU is not running or it was already raised |
| ExtrasExit.ExitAsapSticky | libafl_extras/exit.c:52 | once `exit_asap` is raised no sequence of operations of this file lowers it |
| ExtrasExit.NotRunningRequestRaisesAsap | libafl_extras/exit.c:51-53 | any request made while the CPU is not running leaves `exit_asap` raised for good |
| GdbCmds.Commands.constructor | libafl/gdb.c:5 | the command list starts empty |
| GdbCmds.Commands.Add | libafl/gdb.c:7-14 | the command goes to the head of the list |
| GdbCmds.Commands.Exec | libafl/gdb.c:23-31 | every command is called once (no short-circuit), and the result is true exactly when one of them recognises the packet; false with no commands |
| HookList.FirstWithNum | include/libafl/hook.h:16-31 | the position of the first hook carrying the id, every hook before it carrying another id; the end of the list when none does |
| HookList.FlatMapEmpty | libafl/hooks/cpu_run.c:25-41 | a walk over the list emits nothing exactly when no hook contributes anything |
| HookList.FlatMapAtMostOne | libafl/hooks/tcg/cmp.c:95-117 | a walk in which each hook contributes at most one call emits at most one per hook |
| HookList.FlatMapExactlyOne | libafl/hooks/cpu_run.c:25-32 | a walk in which each hook contributes exactly one call emits one per hook, in list order |
| HookList.UnlinkShape | include/libafl/hook.h:16-33 | the id is present exactly when the scan stops inside the list; an absent id leaves the list unchanged, a present one shortens it by exactly one hook |
| HookList.UnlinkRemovesId | include/libafl/hook.h:12-34 | in a list whose ids strictly decrease (as the prepend-with-counter discipline makes them), unlinking keeps that order, leaves no hook with the id and keeps every other hook |
| HookList.UpdateFirstKeepsIds | libafl/hooks/tcg/block.c:43-56 | rewriting one hook's payload keeps the length, every id and data value, and the order of the ids |
| HookList.ScanNum | include/libafl/hook.h:16-31 | the `while (*hk)` walk stops at the first hook carrying the id, or at the end of the list |
| HookList.Registry.constructor | libafl/hooks/cpu_run.c:3-4 | an empty list and a counter at 0 |
| HookList.Registry.Add | libafl/hooks/thread.c:11-25 | the new hook takes the counter's value as its id and goes to the head; the counter grows by one and the ids stay strictly decreasing |
| HookList.Registry.Remove | include/libafl/hook.h:12-34 | the first hook with the id is unlinked and 1 returned, or 0 with the list unchanged; afterwards no hook carries the id, and every CPU's translations are flushed only when a hook was removed and `invalidate` is set |
| HookList.Registry.Remove1 | include/libafl/hook.h:36-53 | the same unlink without any flush: 1 exactly when a hook carried the id |
| HookList.Registry.SetFirst | libafl/hooks/tcg/edge.c:40-53 | the first hook with the id has its payload rewritten, true exactly when one exists; ids and counter are unchanged |
| HookList.Registry.Walk | libafl/hooks/cpu_run.c:25-32 | a walk from the head collects each hook's contribution in list order |
| HppaTlb.FlushedCoversNothing | target/hppa/mem_helper.c:64-65 | a flushed entry (zeroed with `va_b = -1`) covers no address, while a merely zeroed entry still covers address 0 |
| HppaTlb.Bits | target/hppa/mem_helper.c:308-315 | an `extract32` field is smaller than two to the power of its width |
| HppaTlb.FindFrom | target/hppa/mem_helper.c:28-42 | the lowest index whose range covers the address, valid or not, every index before it not covering it; none exactly when no entry covers it |
| HppaTlb.FirstCoverIn | target/hppa/mem_helper.c:282-292 | the first index in the non-block range whose entry covers the address, none exactly when no such entry does |
| HppaTlb.Flushed | target/hppa/mem_helper.c:44-66 | an invalid entry is kept, a valid block entry is kept unless the flush is forced, and any other valid entry is cleared; the result is valid exactly when a valid block entry is kept |
| HppaTlb.WithAccessBits | target/hppa/mem_helper.c:306-319 | each access field is its bit field of the protection word (access id bits 1-18, U bit 19, PL2 bits 20-21, PL1 bits 22-23, type bits 24-26, B 27, D 28, T 29), the range and physical address are kept, and the entry becomes valid |
| HppaTlb.AccessBitsRoundTrip | target/hppa/mem_helper.c:306-319 | decoding a protection word packed from in-range fields gives back every field |
| HppaTlb.BaseProt | target/hppa/mem_helper.c:124-144 | read is granted only for types 0-3 with privilege at most PL1, write only for types 1 and 3 with privilege at most PL2, execute only for types 2 and up with privilege between PL2 and PL1 |
| HppaTlb.PhysicalAddressSpec | target/hppa/mem_helper.c:87-204 | physical mode maps the address to itself with every permission; a miss or invalid entry reports the instruction or data TLB miss with address 0 and no permission; a hit uses a valid covering entry, adds the offset to its physical address (64-bit wrap), never grants more than the access-rights table, and a successful architectural access is one the permissions allow |
| HppaTlb.PidProt | target/hppa/mem_helper.c:146-159 | a protection-id match (P bit set, non-zero access id, `access_id * 2 + 1` in one of the four PID registers) removes write permission and never adds any |
| HppaTlb.BitChecksSpec | target/hppa/mem_helper.c:173-197 | the D, B and T checks only remove permissions (read goes with T, write with D clear, B or T, execute is kept), success leaves the access permitted, and the fault equals the priority order of `BitFault`: page reference for a non-execute access with T set, else data memory break for a write with B set, else TLB dirty for a write with D clear, else none; with D set and B, T clear the access passes with the permissions unchanged |
| HppaTlb.PhysicalAddressFaults | target/hppa/mem_helper.c:146-197 | on a hit: a write to a protection-id-matched page raises the data memory protection-id trap; an architectural access the rights deny raises the instruction memory protection trap for a fetch and the data memory access-rights trap otherwise; a permitted access raises the `BitFault` fault, and succeeds (-1) with the rights-table permissions when D is set and B, T are clear |
| HppaTlb.AllocRoundRobin | target/hppa/mem_helper.c:68-85 | allocation always picks a non-block slot and cycles through them in order, wrapping back to the first non-block slot |
| HppaTlb.Zapped | target/hppa/mem_helper.c:281-292 | block entries are untouched and no non-block entry still validly covers the address |
| HppaTlb.Placed | target/hppa/mem_helper.c:299-302 | the entry now covers exactly the 4096-byte page holding the address, page-aligned, with its validity unchanged |
| HppaTlb.HppaCpu.FindTlb | target/hppa/mem_helper.c:28-42 | the scan returns the lowest covering slot, valid or not, as the reference search does |
| HppaTlb.HppaCpu.FlushEnt | target/hppa/mem_helper.c:44-66 | only slot `i` changes, to its flushed form |
| HppaTlb.HppaCpu.AllocTlbEnt | target/hppa/mem_helper.c:68-85 | the round-robin slot is taken, `tlb_last` advances, only that non-block slot changes and it is left invalid |
| HppaTlb.HppaCpu.GetPhysicalAddress | target/hppa/mem_helper.c:87-204 | the translation of the CPU's current entries, as the translation contract describes it |
| HppaTlb.HppaCpu.Itlba | target/hppa/mem_helper.c:275-304 | every valid non-block entry covering the address is cleared; the first non-block entry that covered it is reused, or else one is allocated round-robin; it receives the page of the address and the physical page of the register; block entries are untouched and no non-block entry validly covers the address afterwards |
| HppaTlb.HppaCpu.Itlbp | target/hppa/mem_helper.c:321-332 | the access bits go to the first entry covering the address; nothing changes when none does |
| HppaTlb.HppaCpu.PtlbWork | target/hppa/mem_helper.c:336-345 | the first entry covering the address is flushed (block entries kept); nothing changes when none covers it |
| HppaTlb.HppaCpu.Ptlbe | target/hppa/mem_helper.c:362-372 | every non-block entry is zeroed, block entries are kept, and the round robin restarts at the first non-block slot |
| HppaTlb.HppaCpu.ArtypeForPage | target/hppa/mem_helper.c:409-414 | the `ar_type` of the first covering entry, valid or not, else -1 |
| HppaTlb.HppaCpu.DiagBtlb | target/hppa/mem_helper.c:416-506 | option 0 reports the block-TLB parameters (or -10 when the guest buffer is not writable); 1 builds a block entry in a slot below 16 and 2 purges one, both -10 for a larger slot; 3 purges every block entry; any other option is -2; non-block entries never change |
| HppaTlb.BtlbEntry | target/hppa/mem_helper.c:455-477 | the inserted block entry is valid with D set and T clear; it starts at the page formed from gr[24]:gr[23] (64-bit wrap), ends `gr[21]` pages later less one (the byte length in 32 bits), maps to page gr[22] (shifted in 32 bits), and takes access id, U, privilege levels, access type and B from gr[20] |
| InstructionHooks.TableHash | include/libafl/hooks/tcg/instruction.h:13-15 | LIBAFL_TABLES_HASH always selects one of the 16384 buckets |
| InstructionHooks.FirstAt | libafl/hooks/tcg/instruction.c:97-111 | the search finds a hook of the bucket at the address, and finds none exactly when no hook of the bucket is at it |
| InstructionHooks.FirstAtIsFirst | libafl/hooks/tcg/instruction.c:102-108 | the hook found is the first at that address in the bucket |
| InstructionHooks.WithoutAddrSpec | libafl/hooks/tcg/instruction.c:43-66 | removal by address keeps exactly the hooks at other addresses, removes as many as the count returned, and changes nothing when the count is 0 |
| InstructionHooks.WithoutAddrSubset | libafl/hooks/tcg/instruction.c:51-64 | unlinking never brings a hook into a bucket that was not there |
| InstructionHooks.SearchFindsNewest | libafl/hooks/tcg/instruction.c:38-39 | after an add, a search at its address returns the hook just added |
| InstructionHooks.Table.constructor | libafl/hooks/tcg/instruction.c:14-16 | 16384 empty buckets and the id counter at 0 |
| InstructionHooks.Table.Add | libafl/hooks/tcg/instruction.c:18-41 | the hook takes the next id and goes to the head of the bucket its pc hashes to, carrying the callback in its helper; no other bucket changes; the pc is invalidated only when asked; `libafl_qemu_set_hook` in libafl_extras/hook.c:19-45 does the same |
| InstructionHooks.Table.RemoveAt | libafl/hooks/tcg/instruction.c:43-66 | every hook at the address leaves its bucket, no other bucket changes, the result is how many left, and the address is invalidated once per hook removed when asked |
| InstructionHooks.Table.RemoveNum | libafl/hooks/tcg/instruction.c:68-95 | 0 with the table unchanged when no bucket holds the id; otherwise 1, and the first bucket in index order holding it loses the first hook with that id, every other bucket unchanged, and with invalidation requested the removed hook's address is invalidated (nothing otherwise) |
| InstructionHooks.Table.Search | libafl/hooks/tcg/instruction.c:97-111 | the first hook at the address in its hash bucket, or none |
| InstructionHooks.Table.Run | libafl/hooks/tcg/instruction.c:113-123 | one helper call, with (data, pc), exactly when a hook is set at `pc_next`; that call is the one of the hook the search finds |
| InstructionHooks.Table.SearchComplete | libafl/hooks/tcg/instruction.c:97-111 | when the hash bucket holds no hook at the address, no bucket does, so searching one bucket is enough |
| InstructionHooks.UnlinkBucketOk | libafl/hooks/tcg/instruction.c:85-88 | unlinking a hook keeps a bucket's ids decreasing and every hook in the bucket of its hash |
| InstructionHooks.UnlinkedOrdered | libafl/hooks/tcg/instruction.c:51-64 | removal by address keeps a bucket's ids decreasing |
| Iov.Flatten | libafl/syx-snapshot/channel-buffer-writeback.c:124-131 | no vectors hold no bytes |
| Iov.Lengths | libafl/syx-snapshot/channel-buffer-writeback.c:117-119 | one `iov_len` per vector, its byte count |
| Iov.FlattenLength | libafl/syx-snapshot/channel-buffer-writeback.c:117-119 | the bytes of the vectors number the sum of their `iov_len` fields, which is the `towrite` total |
| Iov.Splice | libafl/syx-snapshot/channel-buffer-writeback.c:125-127 | a copy into a buffer changes exactly the range it covers, which then holds the source |
| Iov.WriteAll | libafl/syx-snapshot/channel-buffer-writeback.c:124-131 | copying the vectors one after another keeps the buffer's length |
| Iov.WriteAllSplices | libafl/syx-snapshot/channel-buffer-writeback.c:124-131 | copying the vectors one by one equals copying their concatenation once |
| Iov.ReadChunks | libafl/syx-snapshot/channel-buffer-writeback.c:85-99 | the read fills at most one chunk per vector |
| Iov.ReadChunksContents | libafl/syx-snapshot/channel-buffer-writeback.c:85-99 | a read returns, in order, the bytes from the cursor on: the smaller of the vectors' total length and what remains before the limit |
| Iov.ReadBackWritten | libafl/syx-snapshot/channel-buffer-writeback.c:73-134 | reading back, with the same vector lengths, from where a write started returns the written bytes when the limit lies past them |
| LibaflExit.PrepareEffects | libafl/exit.c:79-89 | the CPU leaves its loop with EXCP_LIBAFL_EXIT exactly when it is running, and a debug request is made exactly in system mode |
| LibaflExit.ExitState.constructor | libafl/exit.c:17-52 | no breakpoints, no exit expected and a zeroed exit reason |
| LibaflExit.ExitState.SetBreakpoint | libafl/exit.c:19-30 | a breakpoint node for the pc goes to the head, the pc is invalidated once, and 1 is returned |
| LibaflExit.ExitState.RemoveBreakpoint | libafl/exit.c:32-49 | every breakpoint at the pc is unlinked with one invalidation per node; 1 exactly when one was there |
| LibaflExit.ExitState.SyncExitCpu | libafl/exit.c:61-69 | the CPU's pc is set to `next_pc` only when it is non-zero, and `next_pc` is cleared either way |
| LibaflExit.ExitState.ExitAsap | libafl/exit.c:71 | in this version the answer is the `expected_exit` flag |
| LibaflExit.ExitState.PrepareExit | libafl/exit.c:73-90 | an exit is expected with the CPU and the pc to resume at recorded; the kind and data are kept |
| LibaflExit.ExitState.LastExitCpu | libafl/exit.c:92-99 | the recorded CPU while an exit is expected, else NULL |
| LibaflExit.ExitState.RequestInternal | libafl/exit.c:101-111 | an INTERNAL exit with the cause and signal, CPU and pc recorded, and no CPU-control effect |
| LibaflExit.ExitState.RequestCustomInsn | libafl/exit.c:113-119 | the kind becomes CUSTOM_INSN and the exit is prepared at the pc; the instruction kind is not stored |
| LibaflExit.ExitState.RequestBreakpoint | libafl/exit.c:121-127 | a BREAKPOINT exit recording the address, prepared at the pc |
| LibaflExit.ExitState.TriggerBreakpoint | libafl/exit.c:140-144 | a breakpoint exit at the CPU's current pc |
| LibaflExit.ExitState.RequestTimeout | libafl/exit.c:129-138 | a TIMEOUT exit on the current CPU with a debug request and nothing else |
| LibaflExit.ExitState.SignalVmStart | libafl/exit.c:146-150 | the CPU is forgotten and no exit is expected |
| LibaflExit.ExitState.GetExitReason | libafl/exit.c:152-159 | the exit reason exactly while an exit is expected |
| LibaflExit.ExitState.BreakpointRun | libafl/exit.c:161-172 | one breakpoint helper call with `pc_next` per breakpoint node at `pc_next` |
| LinkerInterceptor.Classify | linker_interceptor.py:10-29 | the loop over the arguments after the program name produces exactly the record the token-by-token sort defines |
| LinkerInterceptor.JoinAssoc | linker_interceptor.py:12-29 | appending to the two lists is associative, so a split of the arguments can be sorted piecewise |
| LinkerInterceptor.EnvOr | linker_interceptor.py:7-8 | `os.getenv(name) or default` is either the default or the variable's value, and never empty when the default is not |
| LinkerInterceptor.Intercept | linker_interceptor.py:1-34 | the record goes to `__LIBAFL_QEMU_BUILD_OUT` or linkinfo.json and holds the sort of the arguments after the program name; the command run is the compiler from `__LIBAFL_QEMU_BUILD_CXX` or c++ followed by the unmodified arguments |
| LinkerInterceptor.SortAppend | linker_interceptor.py:15-29 | sorting two consecutive argument segments is sorting the first and then the second, with the pending `-o` state carried across |
| LinkerInterceptor.PendingAfterAppend | linker_interceptor.py:16-26 | the pending `-o` state after two segments is the state after the second, started from the first |
| LinkerInterceptor.OutputPairDropped | linker_interceptor.py:16-26 | a `-o` that is not itself an `-o` argument takes the next token with it, whatever that token is, and neither reaches the record |
| LinkerInterceptor.SingleToken | linker_interceptor.py:19-29 | on its own, a `.so` name not starting with `-` goes only to `so`, an `-L`/`-l` token to both lists, any other non-filtered token only to `cmd`, and `-shared` and `-o` nowhere |
| LinkerInterceptor.VersionedLibraryKept | linker_interceptor.py:21 | "libx.so.1" does not end in ".so" and stays in `cmd` only, while "libx.so" goes to `so`, "-shared" is dropped and "-lfoo" goes to both |
| LinkerInterceptor.SortKeepsOrder | linker_interceptor.py:15-29 | both lists are subsequences of the arguments: order and duplicates are kept |
| LinkerInterceptor.SortMembers | linker_interceptor.py:19-29 | neither list ever holds `-o` or `-shared`; `so` holds only library names and `-L`/`-l` tokens, and `cmd` only `-L`/`-l` tokens and other kept tokens |
| LoongArchIpi.BufIndex | hw/intc/loongarch_ipi.c:40-41 | a mailbox offset selects one of the eight 32-bit words, the one whose four bytes contain it |
| LoongArchIpi.IpiLanes | hw/intc/loongarch_ipi.c:53-66 | the data word has four byte lanes, each below 256 |
| LoongArchIpi.IpiData | hw/intc/loongarch_ipi.c:53-66 | the data word sent by a mail or any send fits in 32 bits |
| LoongArchIpi.IpiDataUnmasked | hw/intc/loongarch_ipi.c:57-64 | with no mask bit (bits 27-30) set, every lane is the matching byte of the high half of the value |
| LoongArchIpi.GetIpiData | hw/intc/loongarch_ipi.c:53-66 | the lane-clearing loop starting from `val >> 32` yields the high half with every masked lane zeroed |
| LoongArchIpi.CpuId | hw/intc/loongarch_ipi.c:73 | the target CPU field is below 1024 |
| LoongArchIpi.VectorBit | hw/intc/loongarch_ipi.c:75 | the IPI vector bit number is below 32 |
| LoongArchIpi.IpiVector | hw/intc/loongarch_ipi.c:75 | the IPI status vector is 2 to the vector bit number: a single bit of a 32-bit word |
| LoongArchIpi.MailAddr | hw/intc/loongarch_ipi.c:94 | a mail send targets a word-aligned address among the eight mailbox words from 0x1020 |
| LoongArchIpi.AnyAddr | hw/intc/loongarch_ipi.c:110 | an any send targets an address below 64 KiB |
| LoongArchIpi.IpiSend | hw/intc/loongarch_ipi.c:68-85 | an IPI send raises the IPI line of the target CPU, then stores the vector bit `1 << (val & 0x1f)` into that CPU's SET register at 0x1008 |
| LoongArchIpi.MailEffects | hw/intc/loongarch_ipi.c:87-101 | a mail send makes exactly one store: the masked data word to the selected mailbox word of the target CPU |
| LoongArchIpi.MailSend | hw/intc/loongarch_ipi.c:87-101 | the method computes exactly the store `MailEffects` describes |
| LoongArchIpi.AnySend | hw/intc/loongarch_ipi.c:103-117 | an any send stores the masked data word at the low 16 bits of the value, on the target CPU |
| LoongArchIpi.AnySendOffsetUnreachable | hw/intc/loongarch_ipi.c:125-158 | after `addr &= 0xff` no offset equals IOCSR_ANY_SEND (0x158), so the any-send case is dead |
| LoongArchIpi.SetIrq | hw/intc/loongarch_ipi.c:134-139 | after a SET write the line is raised exactly when an enabled status bit is pending, and nothing else happens |
| LoongArchIpi.ClearIrq | hw/intc/loongarch_ipi.c:140-145 | after a CLEAR write the line is lowered exactly when no status bit is left and EN is non-zero |
| LoongArchIpi.IpiCore.constructor | hw/intc/loongarch_ipi.c:20-51 | a core starts with STATUS, EN and every mailbox word zero |
| LoongArchIpi.IpiCore.Read | hw/intc/loongarch_ipi.c:20-51 | on the low 8 bits of the offset: STATUS and EN read back, a mailbox offset reads its word, every other offset (SET, CLEAR, unknown) reads 0 |
| LoongArchIpi.IpiCore.Write | hw/intc/loongarch_ipi.c:119-163 | on the low 8 bits of the offset: STATUS ignores writes; EN takes the low word; SET ORs into STATUS and CLEAR clears bits, each with its line effect; a mailbox write changes only that word and reads back; the send offsets change no register and produce the send effects; any other offset does nothing |
| QemuFileRam.OutputBuffer.constructor | libafl_extras/syx-snapshot/qemu-file-ram.c:79 | the caller's output buffer has the size the caller gives |
| QemuFileRam.RamFile.WriteNew | libafl_extras/syx-snapshot/qemu-file-ram.c:79-88 | a writer owns a zero-filled private buffer of QEMU_FILE_RAM_LIMIT (32 MiB) bytes, starts at position 0 and remembers the caller's output buffer and its length |
| QemuFileRam.RamFile.ReadNew | libafl_extras/syx-snapshot/qemu-file-ram.c:70-77 | a reader serves the caller's buffer, with its length, from position 0 |
| QemuFileRam.RamFile.Writev | libafl_extras/syx-snapshot/qemu-file-ram.c:55-67 | the vectors are copied one after the other at the position, which advances by their total length; the result is that total, and bytes outside the written range are unchanged |
| QemuFileRam.RamFile.GetBuffer | libafl_extras/syx-snapshot/qemu-file-ram.c:31-37 | a read returns `size`, and the bytes are those of the buffer from the requested position |
| QemuFileRam.RamFile.CloseAndSave | libafl_extras/syx-snapshot/qemu-file-ram.c:39-48 | closing a writer copies the bytes written so far to the start of the output buffer, sets the output length to the position and returns 0 |
| QemuFileRam.RamFile.Close | libafl_extras/syx-snapshot/qemu-file-ram.c:50-52 | closing a reader returns 0 |
| ReadWriteHooks.NewRw | libafl/hooks/tcg/read_write.c:94-135 | a new hook keeps its generator; each of the sized slots and the N slot holds its callback and the read or write helper template when a callback was given, and stays zero otherwise |
| ReadWriteHooks.CurId | libafl/hooks/tcg/read_write.c:172-176 | without a generator the id is 0 |
| ReadWriteHooks.RwCallsSpec | libafl/hooks/tcg/read_write.c:171-204 | a hook emits at most one call, and none exactly when its id is -1 or neither a slot for the size nor the N slot is set; a call passes data and id first; a sized call uses the slot for a size among 1, 2, 4, 8 with pc and address; otherwise the N call appends the size |
| ReadWriteHooks.OddSizeUsesN | libafl/hooks/tcg/read_write.c:179-200 | an access whose size is not 1, 2, 4 or 8 goes to the N helper with the size appended, or emits nothing without one |
| ReadWriteHooks.ExtrasRwCalls | libafl_extras/hook.c:448-495 | with the older copy's arguments, a generator called with (data, pc, oi), a sized helper gets (data, id, addr), the N helper gets (data, id, addr, size), and nothing is emitted for an id of -1 or when neither helper applies |
| ReadWriteHooks.AddRw | libafl/hooks/tcg/read_write.c:94-135 | every CPU's translations are flushed, the new hook takes the counter's value, goes to the head of the list and the counter grows by one |
| ReadWriteHooks.GenRw | libafl/hooks/tcg/read_write.c:166-205 | the walk emits each hook's calls in list order: at most one per hook, and nothing exactly when no hook emits |
| ReadWriteHooks.RwHooks.constructor | libafl/hooks/tcg/read_write.c:9-13 | both lists start empty with their counters at 0 |
| ReadWriteHooks.RwHooks.AddRead | libafl/hooks/tcg/read_write.c:137-149 | a read hook with the read helper templates is added to the read list only; the write list is unchanged |
| ReadWriteHooks.RwHooks.AddWrite | libafl/hooks/tcg/read_write.c:151-164 | a write hook with the write helper templates is added to the write list only; the read list is unchanged |
| ReadWriteHooks.RwHooks.RemoveRead | libafl/hooks/tcg/read_write.c:91 | the read hook with the id is unlinked; 1 exactly when it existed, with a flush when asked; the write list is unchanged |
| ReadWriteHooks.RwHooks.RemoveWrite | libafl/hooks/tcg/read_write.c:92 | the write hook with the id is unlinked; 1 exactly when it existed, with a flush when asked; the read list is unchanged |
| ReadWriteHooks.RwHooks.GenRead | libafl/hooks/tcg/read_write.c:207-210 | a load emits the calls of the read hooks only |
| ReadWriteHooks.RwHooks.GenWrite | libafl/hooks/tcg/read_write.c:212-215 | a store emits the calls of the write hooks only |
| SyscallHooks.Verdicts | libafl/hooks/syscall.c:52-66 | every pre-syscall hook is called, in list order, with its own data, the syscall number and the arguments |
| SyscallHooks.LastSkip | libafl/hooks/syscall.c:60-63 | no index exactly when every hook said run; otherwise the index of a skip verdict after which every hook said run |
| SyscallHooks.ThreadAppend | libafl/hooks/syscall.c:76-86 | threading the return value through two consecutive parts of the post list is threading it through the first, then the second |
| SyscallHooks.LastPostHookWins | libafl/hooks/syscall.c:78-86 | the final return value is what the last post hook makes of the value the hooks before it produced |
| SyscallHooks.Syscalls.constructor | libafl/hooks/syscall.c:3-7 | both lists start empty with their counters at 0 |
| SyscallHooks.Syscalls.AddPre | libafl/hooks/syscall.c:12-24 | the pre hook takes the counter's value and goes to the head of the pre list; the post list is unchanged |
| SyscallHooks.Syscalls.AddPost | libafl/hooks/syscall.c:26-43 | the post hook takes the counter's value and goes to the head of the post list; the pre list is unchanged |
| SyscallHooks.Syscalls.RemovePre | libafl/hooks/syscall.c:9 | the pre hook with the id is unlinked, 1 exactly when it existed; the post list is unchanged |
| SyscallHooks.Syscalls.RemovePost | libafl/hooks/syscall.c:10 | the post hook with the id is unlinked, 1 exactly when it existed; the pre list is unchanged |
| SyscallHooks.Syscalls.PreRun | libafl/hooks/syscall.c:45-69 | every pre hook is called in list order; the syscall is skipped exactly when some hook says skip, and the return value is that of the last hook in list order that said skip, or unchanged |
| SyscallHooks.Syscalls.PostRun | libafl/hooks/syscall.c:71-87 | the return value is threaded through every post hook in list order, and is unchanged with no post hook |
| ThreadHooks.AddNewThread | libafl/hooks/thread.c:11-25 | the hook takes the counter's value as its id and goes to the head of the list; the counter grows by one (its removal, line 9, is `HookList.Registry.Remove1`) |
| ThreadHooks.NewThreadRun | libafl/hooks/thread.c:27-47 | every hook is called in list order, even after one has asked to stop; execution continues exactly when every hook says so, and always with no hook |
| Translator.UseGotoTb | accel/tcg/translator.c:81-90 | direct chaining is refused when CF_NO_GOTO_TB is set, and otherwise allowed exactly when the destination is on the page where the block starts |
| Translator.GotoTbStaysOnPage | accel/tcg/translator.c:88-89 | a chained destination lies less than one page from the start of the block |
| Translator.AddPcIsModulo | accel/tcg/translator.c:170-197 | a pc advanced by a small offset (the backdoor's byte reads and its 4-byte skip) is the sum modulo 2^64 |
| Translator.PcDistanceIsModulo | accel/tcg/translator.c:256 | the block size is the difference of the next and first pc modulo 2^64 |
| Translator.BreakpointEvents | accel/tcg/translator.c:153-165 | at most one breakpoint-handler call per breakpoint, each passing the current pc |
| Translator.BackdoorEvents | accel/tcg/translator.c:178-195 | exactly one call per backdoor hook, in list order, each passing the pc and that hook's data |
| Translator.InsnStep | accel/tcg/translator.c:135-218 | at the four-byte backdoor opcode 0f 3a f2 44 the instruction hook and breakpoint calls are followed by every backdoor hook's call, the pc advances by 4 and translation goes on without the target's decoder; any other instruction takes the decoder's next pc and verdict |
| Translator.LoopStops | accel/tcg/translator.c:124-245 | the loop ends with a verdict other than "next" after at least one more instruction and at most the budget (1 when the budget is below 1) |
| Translator.LoopStopReason | accel/tcg/translator.c:235-244 | if the loop stopped before the budget with room in the buffer, the verdict is the last instruction's own |
| Translator.LoopKeepsEvents | accel/tcg/translator.c:124-245 | the loop only appends: the calls emitted before it remain a prefix of the result |
| Translator.LoopUsesBudget | accel/tcg/translator.c:239-244 | when no instruction ends the block and the buffer never fills, the loop translates exactly the budget and ends with DISAS_TOO_MANY |
| Translator.TranslatorLoop | accel/tcg/translator.c:92-269 | the block's size is the distance from the first to the next pc (mod 2^64), its instruction count and the returned `max_insns` are the number translated, between 1 and the budget, with a final verdict other than "next"; the current-pc global is the last instruction's pc |
| Translator.TbPages.constructor | accel/tcg/translator.c:107-108 | a block starts with no second page known |
| Translator.TbPages.TranslatorAccess | accel/tcg/translator.c:271-320 | an MMIO first page forces the slow path; an access inside the first page reads at its offset from the block start; a page-crossing access is slow; on the second page the page is looked up once, an MMIO second page marks the first as MMIO too and is slow, and otherwise it is recorded as the block's second page and read at the offset from its start |
| DeviceSave.IsInList | libafl/syx-snapshot/device-save.c:27-36 | the scan of the list finds the name exactly when it is one of the list's entries |
| DeviceSave.SelectedSections | libafl/syx-snapshot/device-save.c:53-86 | a save writes at most one section per registered handler |
| DeviceSave.SelectedSectionsSound | libafl/syx-snapshot/device-save.c:57-76 | every section saved belongs to a handler that is neither RAM nor "globalstate"; with an allowlist it is named in the list, with a denylist it is not |
| DeviceSave.SelectedSectionsComplete | libafl/syx-snapshot/device-save.c:53-86 | every handler that passes the filters of its kind is saved |
| DeviceSave.DeviceSaveKind | libafl/syx-snapshot/device-save.c:38-93 | the walk over the handlers records a full save of exactly the selected sections, in handler order |
| DeviceSave.DeviceSaveAll | libafl/syx-snapshot/device-save.c:21-25 | saving all devices saves every device section, as the all kind with no list does |
| DeviceSave.DeviceListAll | libafl/syx-snapshot/device-save.c:118-142 | the listing holds the idstr of every handler that is neither RAM nor "globalstate", in handler order, and is no longer than the list of handlers |
| DeviceSave.KindsAgreeWithListing | libafl/syx-snapshot/device-save.c:38-142 | an empty denylist, or an allowlist naming every device, saves exactly the sections that the listing returns |
| DeviceSave.RestoreFlag.constructor | libafl/syx-snapshot/device-save.c:17 | the restoring flag starts false |
| DeviceSave.RestoreFlag.DeviceRestoreAll | libafl/syx-snapshot/device-save.c:95-114 | the devices observe the flag raised while their state loads, and the flag goes back to its previous value afterwards |
| DeviceSave.RestoreFlag.IsRestoring | libafl/syx-snapshot/device-save.c:19 | the query returns the flag |
| SyxTracker.RemoveAt | libafl/syx-snapshot/syx-snapshot.c:293-297 | removing index `i` keeps the entries before it and moves every later one down by one |
| SyxTracker.RemovedIndexAsWritten | libafl/syx-snapshot/syx-snapshot.c:293-297 | the shift starting at `j = i + i` drops an index inside the list, and that index is the snapshot's own exactly when it is the first, the second or the last entry |
| SyxTracker.Tracker.constructor | libafl/syx-snapshot/syx-snapshot.c:264-272 | a tracker starts empty with room for SYX_SNAPSHOT_LIST_INIT_SIZE (4096) snapshots |
| SyxTracker.Tracker.Track | libafl/syx-snapshot/syx-snapshot.c:274-287 | the snapshot is appended; the capacity doubles (SYX_SNAPSHOT_LIST_GROW_FACTOR) exactly when the list was full, and the length never exceeds it |
| SyxTracker.Tracker.Find | libafl/syx-snapshot/syx-snapshot.c:291-292 | the search succeeds exactly when the snapshot is tracked, and then returns its first index |
| SyxTracker.Tracker.StopTrack | libafl/syx-snapshot/syx-snapshot.c:289-304 | as written: an untracked snapshot aborts with nothing changed; otherwise the entry at `RemovedIndexAsWritten` of its first index is removed, and for index 0 the first move writes one slot before the array |
| SyxTracker.Tracker.StopTrackCorrected | libafl/syx-snapshot/syx-snapshot.c:289-304 | with the shift starting at `i + 1`, the first occurrence of the snapshot, and only it, is removed |
| SyxTracker.StopTrackKeepsThird | libafl/syx-snapshot/syx-snapshot.c:293 | removing the third of five snapshots as written keeps it and drops the fourth |
| SyxTracker.RemoveAtMultiset | libafl/syx-snapshot/syx-snapshot.c:289-304 | the corrected removal drops exactly one copy of the removed snapshot and keeps every other one |
| SyxSnapshotExtras.MaskedAligned | libafl_extras/syx-snapshot/syx-snapshot.c:37 | masking with the 4 KiB page mask gives a page-aligned address at most one page below, and leaves an aligned address unchanged |
| SyxSnapshotExtras.PageOf | libafl_extras/syx-snapshot/syx-snapshot.c:332-333 | the dirty-list entry for an address is the start of its page: aligned, at most the address and less than a page below it |
| SyxSnapshotExtras.AddOnce | libafl_extras/syx-snapshot/syx-snapshot.c:335-356 | a page already in a dirty list is not added again; otherwise it is appended; the old entries keep their order and a list without duplicates stays so |
| SyxSnapshotExtras.GrownCapacity | libafl_extras/syx-snapshot/syx-snapshot.c:345-349 | the capacity never shrinks and always has room for the list after the add |
| SyxSnapshotExtras.AddOnceIdempotent | libafl_extras/syx-snapshot/syx-snapshot.c:338-343 | marking the same page twice changes neither the list nor its capacity the second time |
| SyxSnapshotExtras.FirstBlock | libafl_extras/syx-snapshot/syx-snapshot.c:178-186 | no block exactly when no root block has the name; otherwise the first block that has it |
| SyxSnapshotExtras.FindRamblock | libafl_extras/syx-snapshot/syx-snapshot.c:178-186 | the scan over the root's blocks finds the first block with the name, or none |
| SyxSnapshotExtras.RootPageSource | libafl_extras/syx-snapshot/syx-snapshot.c:188-215 | a page is restored from a root block of the same name as its RAM region, at the region offset, and never from an increment; the blackhole flag is only ever raised, and only when the page lies in "tseg-blackhole" |
| SyxSnapshotExtras.FirstIndex | libafl_extras/syx-snapshot/syx-snapshot.c:169-173 | no index exactly when the page is not in the list; otherwise its first index |
| SyxSnapshotExtras.NearestIncrement | libafl_extras/syx-snapshot/syx-snapshot.c:164-176 | the search from the latest increment back finds nothing exactly when no increment holds the page; otherwise the latest increment holding it, at the page's first slot there |
| SyxSnapshotExtras.NearestPrefix | libafl_extras/syx-snapshot/syx-snapshot.c:164-176 | the search looks only at the increments it starts from, so adding later increments does not change it |
| SyxSnapshotExtras.RestorePlan | libafl_extras/syx-snapshot/syx-snapshot.c:225-237 | one restore per dirty page, and once the blackhole is off it stays off |
| SyxSnapshotExtras.RestorePlanStep | libafl_extras/syx-snapshot/syx-snapshot.c:229-236 | the restores from index `i` on are the restore of page `i` followed by the restores of the pages after it |
| SyxSnapshotExtras.RestorePlanSources | libafl_extras/syx-snapshot/syx-snapshot.c:225-237 | each dirty page comes from an increment exactly when some increment holds it, and then from the latest such increment; otherwise, when restored, it comes from the root block of its RAM region |
| SyxSnapshotExtras.RestorePlanFlag | libafl_extras/syx-snapshot/syx-snapshot.c:206-210 | with no blackhole region in the map, a restore leaves the blackhole flag as it was |
| SyxSnapshotExtras.RootPlanFromRoot | libafl_extras/syx-snapshot/syx-snapshot.c:421-425 | the root restore takes no page from an increment |
| SyxSnapshotExtras.RamPages | libafl_extras/syx-snapshot/syx-snapshot.c:309-330 | an increment records at most one page per dirty-list entry |
| SyxSnapshotExtras.RamPagesExact | libafl_extras/syx-snapshot/syx-snapshot.c:291-330 | a page is recorded exactly when it is in the dirty list and lies in RAM |
| SyxSnapshotExtras.RamPagesDistinct | libafl_extras/syx-snapshot/syx-snapshot.c:309-330 | a dirty list without duplicates gives an increment without duplicates |
| SyxSnapshotExtras.DirtyListToDirtyPageList | libafl_extras/syx-snapshot/syx-snapshot.c:309-330 | the loop keeps exactly the RAM entries of the dirty list, in order |
| SyxSnapshotExtras.PushedPagesAreFound | libafl_extras/syx-snapshot/syx-snapshot.c:153-176 | after a push, a dirty RAM page is found in the new increment, and a page that was not dirty is found where it was found before |
| SyxSnapshotExtras.Snapshot.constructor | libafl_extras/syx-snapshot/syx-snapshot.c:48-62 | a snapshot starts with its root, no increment and an empty dirty list of capacity SYX_SNAPSHOT_LIST_INIT_SIZE |
| SyxSnapshotExtras.Snapshot.GetDirtyPageFromAddrRec | libafl_extras/syx-snapshot/syx-snapshot.c:164-176 | the recursive search computes `NearestIncrement` |
| SyxSnapshotExtras.Snapshot.Add | libafl_extras/syx-snapshot/syx-snapshot.c:335-356 | one snapshot's dirty list takes the page once, with the capacity doubled when full; its increments are unchanged |
| SyxSnapshotExtras.Snapshot.DirtyListFlush | libafl_extras/syx-snapshot/syx-snapshot.c:417-419 | the dirty list becomes empty and keeps its capacity |
| SyxSnapshotExtras.Snapshot.RestoreToLastIncrement | libafl_extras/syx-snapshot/syx-snapshot.c:225-237 | the loop over the dirty list performs exactly the restores `RestorePlan` describes |
| SyxSnapshotExtras.Snapshot.RestorePage | libafl_extras/syx-snapshot/syx-snapshot.c:230-235 | one dirty page is restored from the nearest increment that saved it, else through the root lookup, as `PageSource` says |
| SyxSnapshotExtras.Snapshot.RestoreRootFromDirtyList | libafl_extras/syx-snapshot/syx-snapshot.c:421-425 | the loop restores every dirty page from the root, as `RestorePlan` with no increments describes |
| SyxSnapshotExtras.RestorePageFromRoot | libafl_extras/syx-snapshot/syx-snapshot.c:188-215 | the recursive lookup computes `RootPageSource` |
| SyxSnapshotExtras.RootCreate | libafl_extras/syx-snapshot/syx-snapshot.c:77-106 | the root copies every RAM block in order and saves every device section |
| SyxSnapshotExtras.SyxState.Init | libafl_extras/syx-snapshot/syx-snapshot.c:31-42 | pages of TARGET_PAGE_SIZE with the mask of its trailing zero bits, an empty tracker, tracking disabled |
| SyxSnapshotExtras.SyxState.Create | libafl_extras/syx-snapshot/syx-snapshot.c:48-62 | a new snapshot of the current RAM and devices, with no increments and an empty dirty list; it is tracked exactly when asked, and tracking becomes enabled |
| SyxSnapshotExtras.SyxState.DirtyListAddInternal | libafl_extras/syx-snapshot/syx-snapshot.c:332-357 | the page of the address is added once to the dirty list of every tracked snapshot, whose increments are unchanged |
| SyxSnapshotExtras.SyxState.DirtyListAdd | libafl_extras/syx-snapshot/syx-snapshot.c:409-415 | with tracking enabled, the page is added to every tracked dirty list; disabled, nothing changes |
| SyxSnapshotExtras.SyxState.DirtyListAddHostaddr | libafl_extras/syx-snapshot/syx-snapshot.c:387-405 | with tracking enabled, the guest-physical page of the host address is added to every tracked dirty list; disabled, nothing changes and the address is not resolved |
| SyxSnapshotExtras.SyxState.IncrementPush | libafl_extras/syx-snapshot/syx-snapshot.c:153-162 | a new latest increment records the RAM pages of the dirty list and every device section; older increments are kept and the dirty list is emptied |
| SyxSnapshotExtras.SyxState.IncrementPop | libafl_extras/syx-snapshot/syx-snapshot.c:239-251 | the dirty pages are restored as `RestorePlan` over all increments describes, the latest increment's devices are loaded, then it is dropped and the dirty list emptied |
| SyxSnapshotExtras.SyxState.IncrementRestoreLast | libafl_extras/syx-snapshot/syx-snapshot.c:253-262 | the same restore and device load as a pop, but every increment is kept |
| SyxSnapshotExtras.SyxState.RootRestore | libafl_extras/syx-snapshot/syx-snapshot.c:427-447 | every dirty page is restored from the root, a switched-off blackhole is switched back on, the root's devices are loaded and the dirty list is emptied; the increments are unchanged |
| SyxSnapshot.Ctz | libafl/syx-snapshot/syx-snapshot.c:152 | `__builtin_ctz` of a positive number: 2 to that power divides into the number, so it is at most the number |
| SyxSnapshot.OddPart | libafl/syx-snapshot/syx-snapshot.c:152 | what is left once the trailing zero bits are shifted out is odd |
| SyxSnapshot.CtzSplitsOdd | libafl/syx-snapshot/syx-snapshot.c:152 | every positive number is 2 to its trailing-zero count times an odd number |
| SyxSnapshot.CtzBelow32 | libafl/syx-snapshot/syx-snapshot.c:152 | a page size below 2^32 has fewer than 32 trailing zero bits, so the shift building the mask is defined |
| SyxSnapshot.PageMaskOf4K | libafl/syx-snapshot/syx-snapshot.c:149-152 | with 4 KiB pages the trailing-zero count is 12 and the mask keeps the upper 52 bits |
| SyxSnapshot.MaskKeepsAligned | libafl/syx-snapshot/syx-snapshot.c:496-497 | the alignment assertion of the dirty-list add passes exactly for page-aligned offsets |
| SyxSnapshot.RootNew | libafl/syx-snapshot/syx-snapshot.c:220-256 | the root records the device state of the requested kind and, keyed by name hash, a copy of every RAM block; two blocks sharing a hash end the process |
| SyxSnapshot.FirstIndex | libafl/syx-snapshot/syx-snapshot.c:394-398 | no slot exactly when the offset is not in the page list; otherwise its first slot |
| SyxSnapshot.NearestIncrement | libafl/syx-snapshot/syx-snapshot.c:382-403 | the search from the newest increment back finds nothing exactly when no increment saved the page; otherwise the newest one that did, at the page's first slot there |
| SyxSnapshot.Mark | libafl/syx-snapshot/syx-snapshot.c:503-515 | marking a page creates the block's set when it is missing and adds the offset to it; no other block changes |
| SyxSnapshot.MarkIdempotent | libafl/syx-snapshot/syx-snapshot.c:515 | marking the same page twice is marking it once |
| SyxSnapshot.MarkCommutes | libafl/syx-snapshot/syx-snapshot.c:493-522 | the order in which two pages are marked does not matter |
| SyxSnapshot.Flushed | libafl/syx-snapshot/syx-snapshot.c:487-491 | a flush keeps every block's entry and empties its set of pages |
| SyxSnapshot.MarkHostsOnlyAdds | libafl/syx-snapshot/syx-snapshot.c:550-598 | marking host addresses never removes a page, and every page it adds is the one some of those addresses resolves to |
| SyxSnapshot.PageDown | libafl/syx-snapshot/syx-snapshot.c:582 | aligning an address down gives the page-aligned address at most one page below it |
| SyxSnapshot.RangeIterations | libafl/syx-snapshot/syx-snapshot.c:592-597 | the range loop runs as many times as it takes to bring the remaining length to zero or below, one page at a time |
| SyxSnapshot.IterationsExact | libafl/syx-snapshot/syx-snapshot.c:592-597 | a count that brings the remaining length to zero or below, and the count before it did not, is the loop's iteration count |
| SyxSnapshot.HostPagesAsWritten | libafl/syx-snapshot/syx-snapshot.c:571-598 | as written, the range marks the page of the start address first |
| SyxSnapshot.HostPages | libafl/syx-snapshot/syx-snapshot.c:571-598 | as intended, the range marks as many addresses as the loop as written, each a page after the one before, starting at the start address's page |
| SyxSnapshot.HostPagesCoverRange | libafl/syx-snapshot/syx-snapshot.c:571-598 | as intended, every address of the range has its page marked, and no page past the range's end is marked |
| SyxSnapshot.HostPagesAsWrittenSkipsPages | libafl/syx-snapshot/syx-snapshot.c:592-597 | a three-page range from 0 marks 0, 4096, 4096 as written, so page 8192 is never marked; the intended range marks it |
| SyxSnapshot.PageSourceAsWritten | libafl/syx-snapshot/syx-snapshot.c:405-427 | as written, a page no increment saved is copied from offset 0 of the root block |
| SyxSnapshot.PageSource | libafl/syx-snapshot/syx-snapshot.c:405-427 | as intended, a page comes from the root exactly when no increment saved it, then from its own offset; otherwise from the newest increment that saved it, at a slot holding the page |
| SyxSnapshot.PageSourceAsWrittenDiffers | libafl/syx-snapshot/syx-snapshot.c:419-426 | the code as written agrees with the intended source exactly for pages an increment saved and for the first page of a block |
| SyxSnapshot.RestorePlanAsWritten | libafl/syx-snapshot/syx-snapshot.c:429-452 | a restore to an increment has one source for every dirty page of every dirty block |
| SyxSnapshot.RootRestorePlan | libafl/syx-snapshot/syx-snapshot.c:608-651 | the root restore takes each dirty page from its own offset in the root copy of its block |
| SyxSnapshot.RestoreWithoutPagesAsWritten | libafl/syx-snapshot/syx-snapshot.c:419-426 | popping a single increment that saved nothing copies offset 0 of the root block as written, where the root restore and the intended source copy the page's own offset |
| SyxSnapshot.IncrementPagesAsWritten | libafl/syx-snapshot/syx-snapshot.c:322-350 | as written, an increment holds no page at all, because the walk at line 343 goes over the new increment's empty table and the lists it builds are never inserted |
| SyxSnapshot.DirtyPagesToLists | libafl/syx-snapshot/syx-snapshot.c:322-350 | as intended, every dirty block that still exists gets a list of each of its dirty pages exactly once, and blocks that are gone are skipped |
| SyxSnapshot.PushedPagesAreFound | libafl/syx-snapshot/syx-snapshot.c:366-403 | after the intended push, every dirty page of an existing block is found in the new increment; as written, the new increment changes no page's source |
| SyxSnapshot.NearestPrefix | libafl/syx-snapshot/syx-snapshot.c:382-403 | the search looks only at the increments below its start, so adding later increments does not change it |
| SyxSnapshot.Snapshot.constructor | libafl/syx-snapshot/syx-snapshot.c:166-175 | a snapshot starts with its root, no increment and an empty dirty list |
| SyxSnapshot.Snapshot.GetDirtyPageFromAddrRec | libafl/syx-snapshot/syx-snapshot.c:382-403 | the recursive search computes `NearestIncrement` |
| SyxSnapshot.Snapshot.RestoreRbToIncrement | libafl/syx-snapshot/syx-snapshot.c:405-442 | the walk over one block's dirty pages takes each page from `PageSourceAsWritten` |
| SyxSnapshot.Snapshot.RestoreToIncrement | libafl/syx-snapshot/syx-snapshot.c:444-452 | the walk over the dirty blocks performs the restore `RestorePlanAsWritten` describes |
| SyxSnapshot.Snapshot.DirtyListFlush | libafl/syx-snapshot/syx-snapshot.c:487-491 | the walk empties every block's set, keeps every block and leaves the increments alone |
| SyxSnapshot.Snapshot.IncrementPush | libafl/syx-snapshot/syx-snapshot.c:366-380 | as written, a new increment on top with the device state of the given kind and no saved page; older increments are kept and the dirty list loses every entry |
| SyxSnapshot.Snapshot.IncrementPushCorrected | libafl/syx-snapshot/syx-snapshot.c:366-380 | as intended, the new increment lists each dirty page of every existing block once; older increments are kept and the dirty list is emptied |
| SyxSnapshot.Snapshot.IncrementPop | libafl/syx-snapshot/syx-snapshot.c:454-465 | the last increment's devices are loaded, the dirty pages restored from the chain including it, then it is dropped and the dirty list flushed |
| SyxSnapshot.Snapshot.IncrementPopDocumented | include/libafl/syx-snapshot/syx-snapshot.h:89-90 | as the header documents: with an increment, exactly the pop (last increment's devices, the chain's plan, the increment dropped, the dirty list flushed, no cache flush); with none, the root restore (root devices, each dirty page from its own root offset, top cache layer flushed, dirty list emptied, increments kept), failing exactly when a dirty block is gone |
| SyxSnapshot.Snapshot.IncrementRestoreLast | libafl/syx-snapshot/syx-snapshot.c:467-475 | the same load and restore as a pop, but the chain is kept |
| SyxSnapshot.Snapshot.RootRestore | libafl/syx-snapshot/syx-snapshot.c:713-744 | every dirty page is restored from its own offset in the root, the root's devices are loaded, the cache's top layer is flushed and the dirty list emptied; a dirty block that no longer exists ends the process |
| SyxSnapshot.SyxState.Init | libafl/syx-snapshot/syx-snapshot.c:147-164 | 4 KiB pages and their mask, an empty tracker of SYX_SNAPSHOT_LIST_INIT_SIZE slots, a before-fuzz cache exactly when block devices are cached, no active snapshot and disabled |
| SyxSnapshot.SyxState.NewSnapshot | libafl/syx-snapshot/syx-snapshot.c:166-195 | a new snapshot with a fresh root of every RAM block and the requested devices; an active-cache snapshot becomes active and takes the before-fuzz cache; it is tracked exactly when asked; the engine is enabled; a hash collision ends the process with nothing changed |
| SyxSnapshot.SyxState.DirtyListAddInternal | libafl/syx-snapshot/syx-snapshot.c:493-522 | an aligned offset is marked in the dirty list of every tracked snapshot, once even for a snapshot tracked twice; increments are unchanged |
| SyxSnapshot.SyxState.DirtyListAddHostaddr | libafl/syx-snapshot/syx-snapshot.c:549-569 | while enabled, the page the host address resolves to, if any, is marked in every tracked snapshot; disabled, nothing changes |
| SyxSnapshot.SyxState.DirtyListAddHostaddrRange | libafl/syx-snapshot/syx-snapshot.c:571-598 | as written, while enabled, the addresses of `HostPagesAsWritten` are marked in order in every tracked snapshot; disabled, nothing is marked, and the length and no-wrap assertions are demanded only while enabled, as the early return comes first |
| SyxSnapshot.SyxState.CowCacheEntry | libafl/syx-snapshot/syx-snapshot.c:746-787 | a block request goes to the active snapshot's cache when there is one, else to the before-fuzz cache when it exists, and otherwise is not handled |
| SyxCowCache.PowersOfTwo | libafl/syx-snapshot/syx-cow-cache.c:15 | the power-of-two test the chunk size must pass accepts 1, 2 and 4096 and refuses 0, 3 and 4095 |
| SyxCowCache.RoundDown | libafl/syx-snapshot/syx-cow-cache.c:218 | the aligned start of the chunk holding an offset: a multiple of the chunk size, at most the offset and less than one chunk below it |
| SyxCowCache.RoundUp | libafl/syx-snapshot/syx-cow-cache.c:223 | the first chunk boundary at or after an offset: a multiple of the chunk size less than one chunk above it, the offset itself when aligned |
| SyxCowCache.SplitFacts | libafl/syx-snapshot/syx-cow-cache.c:218-230 | a request splits into an unaligned head, a whole number of middle chunks and an unaligned tail: rounded-down offset plus remainder is the offset, an unaligned start rounds up one chunk past its round-down, and the middle span is that many chunks |
| SyxCowCache.EmptyDevice | libafl/syx-snapshot/syx-cow-cache.c:97-100 | a new device has elements of the layer's chunk size and caches no byte |
| SyxCowCache.GetReadChunk | libafl/syx-snapshot/syx-cow-cache.c:155-170 | a chunk comes back exactly when its aligned offset is recorded; it has the chunk size and holds the cached bytes of that chunk; when none comes back no byte of the chunk is cached |
| SyxCowCache.DiskChunk | libafl/syx-snapshot/syx-cow-cache.c:196 | the chunk read from the backing file at an offset: chunk-size bytes, each the disk's byte at that offset |
| SyxCowCache.ReserveWriteChunk | libafl/syx-snapshot/syx-cow-cache.c:177-201 | the chunk is recorded afterwards and its element index returned; a recorded chunk changes nothing; a new one is appended after the existing elements; no byte of another chunk changes, and with a backing file every byte reads as before |
| SyxCowCache.ReserveWriteChunkAsWritten | libafl/syx-snapshot/syx-cow-cache.c:177-201 | as written: a new chunk is appended uninitialised, and with a backing file the prefill targets the element index itself used as a pointer, so the chunk's bytes are never filled |
| SyxCowCache.ReservePrefillLost | libafl/syx-snapshot/syx-cow-cache.c:190-196 | with a 2-byte chunk, an empty device and a disk of 7s, the code as written makes byte 0 read 0 while the corrected reservation keeps it 7 |
| SyxCowCache.AsWrittenReservation | libafl/syx-snapshot/syx-cow-cache.c:177-201 | the reservation as written gives the same device and index as the intended one over a disk holding the uninitialised chunk bytes in every chunk |
| SyxCowCache.CopyToChunk | libafl/syx-snapshot/syx-cow-cache.c:245-247 | copying into one element caches exactly the copied bytes at their offsets and leaves every other byte of the device as it was |
| SyxCowCache.WriteOneChunk | libafl/syx-snapshot/syx-cow-cache.c:240-249 | one reserve-and-copy step extends a partial write by the next bytes of the request: they are cached, everything else still reads as before the request over the disk the reservation prefills from |
| SyxCowCache.WriteChunkToCacheLayerDeviceCorrected | libafl/syx-snapshot/syx-cow-cache.c:203-289 | with the intended prefill, the write covers exactly `bytes` bytes; afterwards each byte of the request is cached with the request's value, every other byte reads as before, and no recorded chunk is lost |
| SyxCowCache.BlankFillWritten | libafl/syx-snapshot/syx-cow-cache.c:177-201 | a write that reads as before over the uninitialised-bytes disk leaves every cached byte outside the request unchanged, and every uncached one uncached or uninitialised |
| SyxCowCache.WriteChunkToCacheLayerDevice | libafl/syx-snapshot/syx-cow-cache.c:203-289 | as written, the write covers exactly `bytes` bytes; each byte of the request is cached with the request's value; outside it a cached byte is unchanged and an uncached byte stays uncached or becomes an uninitialised byte of a fresh head or tail chunk; no recorded chunk is lost |
| SyxCowCache.ReadChunk | libafl/syx-snapshot/syx-cow-cache.c:331-345 | one chunk read overwrites the buffer positions it covers with the device's cached bytes where there are any and leaves the rest of the buffer |
| SyxCowCache.ReadChunkFromCacheLayerDevice | libafl/syx-snapshot/syx-cow-cache.c:292-392 | the read covers exactly `bytes` bytes; afterwards each of them is the device's cached byte where it caches one and the buffer's old byte elsewhere; the rest of the buffer is unchanged |
| SyxCowCache.WriteChunkToCacheLayer | libafl/syx-snapshot/syx-cow-cache.c:394-406 | the write as written goes to device `id` of the layer with that layer's chunk size; the other devices, the chunk size and the maximum are unchanged |
| SyxCowCache.WriteChunkToCacheLayerCorrected | libafl/syx-snapshot/syx-cow-cache.c:394-406 | the intended write goes to device `id` of the layer, after which it reads as before outside the request over the backing file; the other devices, the chunk size and the maximum are unchanged |
| SyxCowCache.ReadChunkFromCacheLayer | libafl/syx-snapshot/syx-cow-cache.c:408-420 | the read overlays the cached bytes of device `id` of the layer onto the buffer |
| SyxCowCache.EmptyLayerIsTransparent | libafl/syx-snapshot/syx-cow-cache.c:451-454 | a top layer whose device caches nothing reads exactly like the layers below it |
| SyxCowCache.ReadAfterWrite | libafl/syx-snapshot/syx-cow-cache.c:591-614 | after a write as written to the top layer, a layered read of any byte in the written range returns the byte written, whatever the older layers hold |
| SyxCowCache.WriteKeepsClone | libafl/syx-snapshot/syx-cow-cache.c:605-611 | with the intended prefill, if the cache and the clone device agree on a byte before a write that goes to both, they agree after it: the written value inside the range, the clone's old byte outside |
| SyxCowCache.PushedAsWritten | libafl/syx-snapshot/syx-cow-cache.c:111-136 | the layers after `push` as written: the new layer first, then only the first older layer |
| SyxCowCache.PushDropsOlderLayers | libafl/syx-snapshot/syx-cow-cache.c:117-122 | pushing onto layers A, B, C leaves the new layer and A: B and C are lost |
| SyxCowCache.CowCache.constructor | libafl/syx-snapshot/syx-cow-cache.c:80-87 | a new cache has no layers |
| SyxCowCache.CowCache.AddBlk | libafl/syx-snapshot/syx-cow-cache.c:89-103 | the top layer (there must be one) gets one more device, empty, with the layer's chunk size; every other layer is unchanged |
| SyxCowCache.CowCache.Push | libafl/syx-snapshot/syx-cow-cache.c:111-136 | as written: the chunk size must be a power of two dividing the maximum; the queue walk re-inserts only the first older layer into the returned cache, and the cache pushed onto ends up as the new layer followed by that one layer |
| SyxCowCache.CowCache.PushCorrected | libafl/syx-snapshot/syx-cow-cache.c:111-136 | the new layer goes on top of all the older layers, which are kept in order |
| SyxCowCache.CowCache.FlushHighestLayer | libafl/syx-snapshot/syx-cow-cache.c:140-151 | every device of the top layer loses its recorded positions and its chunks but keeps its chunk size; the older layers are unchanged |
| SyxCowCache.CowCache.DoPreadv | libafl/syx-snapshot/syx-cow-cache.c:423-457 | each byte read is the byte of the newest layer caching it, else the disk's; the buffer past `bytes` is unchanged; `bytes` is returned |
| SyxCowCache.CowCache.CoPwritev | libafl/syx-snapshot/syx-cow-cache.c:590-614 | the request is written as the code does it into device `id` of the top layer (fresh partial chunks keep uninitialised bytes), the older layers and the other devices are unchanged, and `bytes` is returned |
| SyxCowCache.CowCache.CoPwritevCorrected | libafl/syx-snapshot/syx-cow-cache.c:590-614 | the request is written with the intended prefill, so device `id` of the top layer reads as before outside it over the backing file; the older layers and the other devices are unchanged, and `bytes` is returned |

## Left out

- Process and file I/O of the interceptor (`json.dump`, `subprocess.run`): the record and the forwarded argument vector are return values.
- TCG code generation, the jit helpers and `target/riscv/translate.c`: an emitted call is an abstract event, and IR contents are not modelled.
- Page and buffer contents copied by `memcpy` into RAM blocks: a snapshot restore is modelled as a plan naming, for each dirty page, where its bytes come from. `vmstate` saving and loading is an opaque device-state value.
- Concurrency and locking: the iothread mutex, the BQL, `async_run_on_cpu` and the coroutine/graph locks of the block driver entry points. Every operation is modelled as one sequential step.
- QEMU's own TLB flushes (`tlb_flush*`, `tlb_set_page`), `cpu_loop_exit`, `address_space_stl` and IRQ lines: they appear as returned effects or are omitted.
- Memory management (allocation, `free`, `g_realloc`), and the nodes `cpu.c` unlinks without freeing.
- Debug output (`printf`, `SYX_PRINTF`).
- `syx_snapshot_handler`, the `*_free` functions and `syx_snapshot_check` in both snapshot engines: these are free, I/O and debug paths.
- Assertions of the source (aligned offsets, `usage <= capacity`, an existing layer or increment) are preconditions. The abort paths they guard are not modelled, except where the code handles the case itself, as with an untracked snapshot in `stop_track`.
- `syx_cow_cache_pop` (an unconditional failing assertion), `syx_cow_cache_check_files_ro`, `syx_cow_cache_open`, the debug comparison in `syx_cow_cache_co_preadv`, the aborting `co_pwrite_zeroes`, and the `flush`/`pdiscard` pass-throughs: these are I/O or foreign block-layer calls.
- GArray capacities and `INITIAL_NB_CHUNKS_PER_DEVICE`: a device's data is an unbounded sequence of chunks, and the preallocated count only affects allocation.
- Uninitialised bytes of a newly appended chunk are a `blank` parameter, an arbitrary fixed content.
- The backward (`tql_prev`) links of the cow layer queue: `Push` follows only the forward links.
- `ChannelBuffer.Channel.Readv`, `ChannelBuffer.Channel.Finalize` and `ChannelBuffer.Channel.Close` require `usage` to be within the capacity. After an overrunning write (`Channel.Writev`) the source reads and copies bytes past the end of the buffer, which the model does not represent.
- `SyxCowCache.WriteKeepsClone`: states the agreement with the clone device for a single-layer cache and for the intended write (`CowCache.CoPwritevCorrected`) only. With older layers the top layer's prefill reads the backing file, not the layers below. As written, a fresh partial chunk shows uninitialised bytes, so the comparison can fail.
- `SyxCowCache.ReserveWriteChunkAsWritten`: names the address the stray prefill read is aimed at (the chunk index), but does not model the write through that near-NULL pointer, which is undefined behaviour.
- `SyxCowCache.CowCache.PushCorrected`: models only the cache pushed onto, not the second cache the source allocates and returns.
- `SyxSnapshot.SyxState.DirtyListAddHostaddrRange`: follows the code as written (`HostPagesAsWritten`). The intended range is `HostPages`, proved beside it.
- `SyxSnapshot.SyxState.DirtyListAddInternal`: states the alignment assertion as "the offset is a multiple of 4096" instead of the test against `page_mask`. `SyxSnapshot.MaskKeepsAligned` proves the two agree on 64-bit words, but the model does not convert the integer offset into a word.
- `SyxSnapshot.Snapshot.IncrementPop`: restores along the plan as written (`RestorePlanAsWritten`), including the offset-0 root fallback, because that is what the increments of this engine hold. The intended source is `PageSource`.
- `SyxSnapshot.Snapshot.IncrementPop`: requires an increment, standing for the NULL dereference of the code; the root-restore fallback its header documents is not part of this member and is modelled by `IncrementPopDocumented`.
- `SyxSnapshot.SyxState.NewSnapshot`: the snapshot's own copy-on-write cache is abstracted. The model does not create it, does not move the before-fuzz cache into it (it only clears `hasBeforeFuzzCache`), and does not push the default layer (`SYX_SNAPSHOT_COW_CACHE_DEFAULT_CHUNK_SIZE`, `_MAX_BLOCKS`) onto it for a non-active snapshot. `RootRestore` reports the flush of that cache's top layer as `flushCache` instead of performing it.
- Hook ids are unbounded naturals. The source's counters are `size_t` and incremented without an overflow check (libafl_extras/hook.c:40-41, libafl/hooks/tcg/instruction.c:36-37), so after 2^64 additions ids would wrap and the strictly decreasing ids along a list, which the unlink proofs rely on, would no longer hold.
- Parameters of type `target_ulong` (the exit breakpoints, translator pcs, TLB addresses) are 64-bit values, as on a 64-bit guest. The explicit casts of `cpu.c` are modelled for 32-bit guests too (`CpuCommon.ToTargetUlong`).
- The constants taken from headers that are not part of this model (HPPA block-TLB count, page bits and exception numbers, LoongArch IPI offsets, TCG `cflags` bits) are stated, not derived.

## Findings

| source | as written | input that shows it | evidently intended | confidence | as-written member | corrected member |
|---|---|---|---|---|---|---|
| libafl/syx-snapshot/channel-buffer-writeback.c:129 | `writev` adds every written byte to `usage`, even where it overwrites bytes below `usage` | capacity 16, usage 16, offset 0, write 8 bytes: usage becomes 24, past the capacity | usage becomes the larger of the old usage and the new offset | not executed | ChannelBuffer.Channel.Writev, ChannelBuffer.WritevUsageAsWritten, ChannelBuffer.WritevOverrunsCapacity | ChannelBuffer.Channel.WritevCorrected, ChannelBuffer.WritevUsage, ChannelBuffer.WritevUsageBounded |
| libafl/syx-snapshot/syx-snapshot.c:293 | `stop_track` starts its shift at `j = i + i`, so it removes the wrong entry, and for `i == 0` writes index -1 | five tracked snapshots, removing the third: the fourth is dropped and the third stays | the shift starts at `j = i + 1`, removing the snapshot found | not executed | SyxTracker.Tracker.StopTrack, SyxTracker.StopTrackKeepsThird | SyxTracker.Tracker.StopTrackCorrected, SyxTracker.RemoveAtMultiset |
| libafl/syx-snapshot/syx-snapshot.c:592-597 | `add_hostaddr_range` never advances `host_addr` inside its loop | a three-page range starting at 0 marks 0, 4096, 4096, so page 8192 is never marked | one page further on each iteration | not executed | SyxSnapshot.HostPagesAsWritten, SyxSnapshot.HostPagesAsWrittenSkipsPages | SyxSnapshot.HostPages, SyxSnapshot.HostPagesCoverRange |
| libafl/syx-snapshot/syx-snapshot.c:425 | a dirty page that no increment saved is restored from offset 0 of the root copy of its block | one increment saving nothing; popping it restores page 4096 of a block from the root's page 0 | copy the root's page at the same offset | not executed | SyxSnapshot.PageSourceAsWritten, SyxSnapshot.RestoreWithoutPagesAsWritten | SyxSnapshot.PageSource, SyxSnapshot.PageSourceAsWrittenDiffers |
| libafl/syx-snapshot/syx-snapshot.c:343 | the increment push walks the new increment's still-empty page table, and the page lists it builds are never inserted, so an increment saves no page | dirty one page, push an increment: the increment holds nothing, and a later pop takes the page from the root | save every dirty page of every existing block into the new increment | not executed | SyxSnapshot.IncrementPagesAsWritten, SyxSnapshot.Snapshot.IncrementPush | SyxSnapshot.Snapshot.IncrementPushCorrected, SyxSnapshot.PushedPagesAreFound |
| libafl/syx-snapshot/syx-cow-cache.c:119-121 | `push` re-inserts older layers at the head of the new cache while walking them with `QTAILQ_FOREACH`, which rewrites the link it follows, so the walk stops after the first layer | layers A, B, C: after the push the cache holds the new layer and A only | the new layer on top of all older layers | not executed | SyxCowCache.CowCache.Push, SyxCowCache.PushDropsOlderLayers | SyxCowCache.CowCache.PushCorrected |
| libafl/syx-snapshot/syx-cow-cache.c:195-197 | `reserve_write_chunk` prefills a new chunk by reading into `data_position`, which holds the element index, not the chunk's address | reserving chunk 0 of 2 bytes in an empty device over a disk of 7s: byte 0 then reads 0 instead of 7 | read the backing bytes into the new chunk | not executed | SyxCowCache.ReserveWriteChunkAsWritten, SyxCowCache.ReservePrefillLost, SyxCowCache.CowCache.CoPwritev | SyxCowCache.ReserveWriteChunk, SyxCowCache.CowCache.CoPwritevCorrected |
