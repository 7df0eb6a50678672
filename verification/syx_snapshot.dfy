// The SYX snapshot engine of libafl/syx-snapshot/syx-snapshot.c: a root
// copy of every RAM block, a chain of increments on top of it, per-snapshot
// dirty lists that every tracked snapshot keeps up to date, and the choice of
// the block-device copy-on-write cache. Page contents are not modelled: an
// increment records which pages it saved, and a restore says, page by page,
// where the bytes it copies come from.
module SyxSnapshot {
  import opened Common
  import DeviceSave
  import opened SyxTracker

  /** TARGET_PAGE_SIZE, for a target with 4 KiB pages. */
  const TARGET_PAGE_SIZE: nat := 4096

  /** INT64_MAX, the bound `add_hostaddr_range` asserts on its length. */
  const INT64_MAX: nat := 0x7FFF_FFFF_FFFF_FFFF

  /** Count of trailing zero bits of a positive number (`__builtin_ctz`). */
  function Ctz(n: nat): (c: nat)
    requires n > 0
    ensures Pow2(c) <= n
  {
    if n % 2 == 1 then 0 else 1 + Ctz(n / 2)
  }

  /** What is left of a positive number once its trailing zero bits are shifted out. */
  function OddPart(n: nat): (o: nat)
    requires n > 0
    ensures o % 2 == 1
  {
    if n % 2 == 1 then n else OddPart(n / 2)
  }

  /** `n` is `2^Ctz(n)` times an odd number: the mask built from `Ctz` clears exactly the low zero bits. */
  lemma {:induction false} CtzSplitsOdd(n: nat)
    requires n > 0
    ensures n == Pow2(Ctz(n)) * OddPart(n)
  {
    if n % 2 == 0 {
      var h := n / 2;
      CtzSplitsOdd(h);
      var p, o := Pow2(Ctz(h)), OddPart(h);
      assert Ctz(n) == Ctz(h) + 1 && OddPart(n) == o;
      assert Pow2(Ctz(n)) == 2 * p;
      assert h == p * o;
      assert n == 2 * h;
      MulAssoc(2, p, o);
    }
  }

  lemma MulAssoc(a: nat, b: nat, c: nat)
    ensures (a * b) * c == a * (b * c)
  {
  }

  /** A page size below 2^32 has fewer than 32 trailing zero bits. */
  lemma CtzBelow32(n: nat)
    requires 0 < n < 0x1_0000_0000
    ensures Ctz(n) < 32
  {
    Pow2Of32();
    if Ctz(n) > 32 {
      Pow2Monotone(32, Ctz(n));
    }
  }

  /**
   * `((uint64_t)-1) << __builtin_ctz(page_size)`: all ones above the
   * page-offset bits. `__builtin_ctz` takes a 32-bit argument.
   */
  function PageMask(pageSize: nat): (m: bv64)
    requires 0 < pageSize < 0x1_0000_0000
  {
    CtzBelow32(pageSize);
    0xFFFF_FFFF_FFFF_FFFF << Ctz(pageSize)
  }

  /** With 4 KiB pages the mask keeps the upper 52 bits. */
  lemma PageMaskOf4K()
    ensures Ctz(TARGET_PAGE_SIZE) == 12
    ensures PageMask(TARGET_PAGE_SIZE) == 0xFFFF_FFFF_FFFF_F000
  {
    assert Ctz(1) == 0;
    assert Ctz(2) == 1;
    assert Ctz(4) == 2;
    assert Ctz(8) == 3;
    assert Ctz(16) == 4;
    assert Ctz(32) == 5;
    assert Ctz(64) == 6;
    assert Ctz(128) == 7;
    assert Ctz(256) == 8;
    assert Ctz(512) == 9;
    assert Ctz(1024) == 10;
    assert Ctz(2048) == 11;
  }

  /** An offset survives the mask exactly when it is page-aligned. */
  lemma MaskKeepsAligned(x: bv64)
    ensures x & PageMask(TARGET_PAGE_SIZE) == x <==> x % 4096 == 0
  {
    PageMaskOf4K();
  }

  /** A RAM block as the snapshot code reads it: its name, the hash of the name, and its contents. */
  datatype RamBlock = RamBlock(idstr: string, idstrHash: nat, host: seq<u8>)

  /** Two different RAM blocks never share a name hash. */
  predicate HashesDistinct(blocks: seq<RamBlock>)
  {
    forall i, j :: 0 <= i < |blocks| && 0 <= j < |blocks| && i != j ==> blocks[i].idstrHash != blocks[j].idstrHash
  }

  /**
   * `syx_snapshot_root_new`: the device state, then a copy of every RAM
   * block keyed by its name hash. Two blocks with the same hash end the
   * process (`ok` is false).
   */
  method RootNew(kind: DeviceSave.SnapshotKind, devices: seq<string>, handlers: seq<DeviceSave.Handler>,
                 blocks: seq<RamBlock>)
    returns (ok: bool, root: map<nat, seq<u8>>, dss: DeviceSave.DeviceSaveState)
    ensures dss.kind == DeviceSave.DEVICE_SAVE_KIND_FULL
    ensures dss.sections == DeviceSave.SelectedSections(kind, devices, handlers)
    ensures ok <==> HashesDistinct(blocks)
    ensures ok ==> root.Keys == set b | b in blocks :: b.idstrHash
    ensures ok ==> forall i :: 0 <= i < |blocks| ==> root[blocks[i].idstrHash] == blocks[i].host
  {
    dss := DeviceSave.DeviceSaveKind(kind, devices, handlers);
    root := map[];
    var i := 0;
    while i < |blocks|
      invariant i <= |blocks|
      invariant forall a, b :: 0 <= a < i && 0 <= b < |blocks| && a != b ==> blocks[a].idstrHash != blocks[b].idstrHash
      invariant root.Keys == set b | b in blocks[..i] :: b.idstrHash
      invariant forall a :: 0 <= a < i ==> root[blocks[a].idstrHash] == blocks[a].host
    {
      var j := 0;
      while j < |blocks|
        invariant j <= |blocks|
        invariant forall b :: 0 <= b < j && b != i ==> blocks[i].idstrHash != blocks[b].idstrHash
      {
        if j != i && blocks[j].idstrHash == blocks[i].idstrHash {
          return false, root, dss;
        }
        j := j + 1;
      }
      assert blocks[..i + 1] == blocks[..i] + [blocks[i]];
      root := root[blocks[i].idstrHash := blocks[i].host];
      i := i + 1;
    }
    assert blocks[..i] == blocks;
    ok := true;
  }

  /**
   * A `SyxSnapshotIncrement`: per RAM block (by name hash) the offsets of
   * the pages it saved, in table order, and its device state. The chain of
   * parents is the order of the increments in the snapshot.
   */
  datatype Increment = Increment(pages: map<nat, seq<nat>>, dss: DeviceSave.DeviceSaveState)

  /** Where a restore takes the bytes of a dirty page from. */
  datatype Source =
    | FromIncrement(index: nat, slot: nat)   // slot `slot` of the page list of increment `index`
    | FromRoot(rootOffset: nat)              // the root copy of the block, at this offset

  /** The increment saved the page at `off` of block `rb`. */
  predicate Holds(inc: Increment, rb: nat, off: nat)
  {
    rb in inc.pages && off in inc.pages[rb]
  }

  /** The first slot of a page list that holds `off`. */
  function FirstIndex(list: seq<nat>, off: nat): (r: Option<nat>)
    ensures r.None? <==> off !in list
    ensures r.Some? ==> r.value < |list| && list[r.value] == off && off !in list[..r.value]
  {
    if off !in list then None
    else if list[0] == off then Some(0)
    else
      var r := FirstIndex(list[1..], off);
      assert list[1..][..r.value] == list[1..r.value + 1];
      assert list[..r.value + 1] == [list[0]] + list[1..r.value + 1];
      Some(r.value + 1)
  }

  /**
   * The page record `get_dirty_page_from_addr_rec` finds when it starts at
   * increment `n - 1`: the newest of the first `n` increments that saved the
   * page, and the slot of the page in its list.
   */
  function NearestIncrement(incs: seq<Increment>, n: nat, rb: nat, off: nat): (r: Option<(nat, nat)>)
    requires n <= |incs|
    ensures r.None? <==> forall k :: 0 <= k < n ==> !Holds(incs[k], rb, off)
    ensures r.Some? ==> r.value.0 < n && Holds(incs[r.value.0], rb, off)
    ensures r.Some? ==> forall k :: r.value.0 < k < n ==> !Holds(incs[k], rb, off)
    ensures r.Some? ==> FirstIndex(incs[r.value.0].pages[rb], off) == Some(r.value.1)
    decreases n
  {
    if n == 0 then None
    else if Holds(incs[n - 1], rb, off) then Some((n - 1, FirstIndex(incs[n - 1].pages[rb], off).value))
    else NearestIncrement(incs, n - 1, rb, off)
  }

  /** Recording the page `off` of block `rb` as dirty in one dirty list. */
  function Mark(dirty: map<nat, set<nat>>, rb: nat, off: nat): (d: map<nat, set<nat>>)
    ensures d.Keys == dirty.Keys + {rb}
    ensures d[rb] == (if rb in dirty then dirty[rb] else {}) + {off}
    ensures forall r :: r in dirty && r != rb ==> d[r] == dirty[r]
  {
    dirty[rb := (if rb in dirty then dirty[rb] else {}) + {off}]
  }

  /** Marking a page twice is marking it once. */
  lemma MarkIdempotent(dirty: map<nat, set<nat>>, rb: nat, off: nat)
    ensures Mark(Mark(dirty, rb, off), rb, off) == Mark(dirty, rb, off)
  {
  }

  /** The order in which two pages are marked does not matter. */
  lemma MarkCommutes(dirty: map<nat, set<nat>>, rb1: nat, off1: nat, rb2: nat, off2: nat)
    ensures Mark(Mark(dirty, rb1, off1), rb2, off2) == Mark(Mark(dirty, rb2, off2), rb1, off1)
  {
    var a := Mark(Mark(dirty, rb1, off1), rb2, off2);
    var b := Mark(Mark(dirty, rb2, off2), rb1, off1);
    assert a.Keys == b.Keys;
    forall r | r in a
      ensures a[r] == b[r]
    {
    }
  }

  /** `syx_snapshot_dirty_list_flush`: every block keeps its entry, with no page left in it. */
  function Flushed(dirty: map<nat, set<nat>>): (d: map<nat, set<nat>>)
    ensures d.Keys == dirty.Keys && forall r :: r in d ==> d[r] == {}
  {
    map r | r in dirty :: {}
  }

  /** The page a host address `qemu_ram_block_from_host` resolves to: its block and its offset, if any. */
  datatype RamOffset = RamOffset(rb: nat, offset: u64)

  /** Marking the page a host address resolves to, when it resolves. */
  function MarkHost(dirty: map<nat, set<nat>>, resolve: nat -> Option<RamOffset>, host: nat): map<nat, set<nat>>
  {
    match resolve(host)
    case None => dirty
    case Some(ro) => Mark(dirty, ro.rb, ro.offset)
  }

  /** A host address that resolves marks the page it resolves to. */
  lemma MarkHostResolved(dirty: map<nat, set<nat>>, resolve: nat -> Option<RamOffset>, host: nat, ro: RamOffset)
    requires resolve(host) == Some(ro)
    ensures MarkHost(dirty, resolve, host) == Mark(dirty, ro.rb, ro.offset)
  {
  }

  /** Marking the pages of several host addresses, first to last. */
  function MarkHosts(dirty: map<nat, set<nat>>, resolve: nat -> Option<RamOffset>, hosts: seq<nat>): map<nat, set<nat>>
  {
    if hosts == [] then dirty
    else MarkHost(MarkHosts(dirty, resolve, hosts[..|hosts| - 1]), resolve, hosts[|hosts| - 1])
  }

  /** Marking one more host address marks it after the others. */
  lemma MarkHostsSnoc(resolve: nat -> Option<RamOffset>, hosts: seq<nat>, h: nat)
    ensures forall d :: MarkHosts(d, resolve, hosts + [h]) == MarkHost(MarkHosts(d, resolve, hosts), resolve, h)
  {
    assert (hosts + [h])[..|hosts|] == hosts;
  }

  /** Every page `MarkHosts` adds is the page of one of the host addresses; nothing is removed. */
  lemma {:induction false} MarkHostsOnlyAdds(dirty: map<nat, set<nat>>, resolve: nat -> Option<RamOffset>, hosts: seq<nat>,
                                             rb: nat, off: u64)
    ensures rb in dirty && off in dirty[rb] ==> rb in MarkHosts(dirty, resolve, hosts) && off in MarkHosts(dirty, resolve, hosts)[rb]
    ensures rb in MarkHosts(dirty, resolve, hosts) && off in MarkHosts(dirty, resolve, hosts)[rb] ==>
      (rb in dirty && off in dirty[rb]) || exists h :: h in hosts && resolve(h) == Some(RamOffset(rb, off))
    decreases |hosts|
  {
    if hosts != [] {
      var init := hosts[..|hosts| - 1];
      MarkHostsOnlyAdds(dirty, resolve, init, rb, off);
      var prev := MarkHosts(dirty, resolve, init);
      if rb in MarkHosts(dirty, resolve, hosts) && off in MarkHosts(dirty, resolve, hosts)[rb] && !(rb in prev && off in prev[rb]) {
        assert resolve(hosts[|hosts| - 1]) == Some(RamOffset(rb, off));
      } else if rb in prev && off in prev[rb] && !(rb in dirty && off in dirty[rb]) {
        var h :| h in init && resolve(h) == Some(RamOffset(rb, off));
        assert h in hosts;
      }
    }
  }

  /** QEMU_ALIGN_DOWN to a page. */
  function PageDown(a: nat): (p: nat)
    ensures p <= a < p + TARGET_PAGE_SIZE && p % TARGET_PAGE_SIZE == 0
  {
    a - a % TARGET_PAGE_SIZE
  }

  /** How often the loop of `add_hostaddr_range` runs once `rest` bytes remain past the first page. */
  function RangeIterations(rest: int): (n: nat)
    ensures rest <= 0 ==> n == 0
    ensures rest > 0 ==> (n - 1) * TARGET_PAGE_SIZE < rest <= n * TARGET_PAGE_SIZE
  {
    if rest <= 0 then 0 else (rest + TARGET_PAGE_SIZE - 1) / TARGET_PAGE_SIZE
  }

  /** The loop stops after the first step that leaves no byte to mark. */
  lemma IterationsExact(rest: int, done: nat)
    requires rest - done * TARGET_PAGE_SIZE <= 0
    requires done == 0 || rest - (done - 1) * TARGET_PAGE_SIZE > 0
    ensures done == RangeIterations(rest)
  {
  }

  /** `n` copies of `x`. */
  function Repeat(x: nat, n: nat): (s: seq<nat>)
    ensures |s| == n && forall k :: 0 <= k < n ==> s[k] == x
  {
    if n == 0 then [] else Repeat(x, n - 1) + [x]
  }

  /**
   * The host addresses `syx_snapshot_dirty_list_add_hostaddr_range` marks,
   * as written: the page holding `host`, then, for every further page the
   * range reaches, the page after `host`'s again, because the loop never
   * advances `host_addr`.
   */
  function HostPagesAsWritten(host: nat, len: nat): (pages: seq<nat>)
    ensures |pages| >= 1 && pages[0] == PageDown(host)
  {
    var next := PageDown(host) + TARGET_PAGE_SIZE;
    [PageDown(host)] + Repeat(next, RangeIterations(len - (next - host)))
  }

  /** The host addresses the range marking evidently intends: one per page the range reaches. */
  function HostPages(host: nat, len: nat): (pages: seq<nat>)
    ensures |pages| == |HostPagesAsWritten(host, len)| && pages[0] == PageDown(host)
    ensures forall k :: 0 <= k < |pages| ==> pages[k] == PageDown(host) + k * TARGET_PAGE_SIZE
  {
    var next := PageDown(host) + TARGET_PAGE_SIZE;
    [PageDown(host)] + seq(RangeIterations(len - (next - host)), k => next + k * TARGET_PAGE_SIZE)
  }

  /** Every byte of the range lies on one of the intended pages, and every such page meets the range or holds `host`. */
  lemma HostPagesCoverRange(host: nat, len: nat)
    ensures forall a :: host <= a < host + len ==> PageDown(a) in HostPages(host, len)
    ensures forall p :: p in HostPages(host, len) ==> p == PageDown(host) || p < host + len
  {
    var pages := HostPages(host, len);
    var first := PageDown(host);
    var next := first + TARGET_PAGE_SIZE;
    var n := RangeIterations(len - (next - host));
    forall a | host <= a < host + len
      ensures PageDown(a) in pages
    {
      if a < next {
        assert PageDown(a) == first;
        assert pages[0] == first;
      } else {
        var k := (a - next) / TARGET_PAGE_SIZE;
        assert a - next == k * TARGET_PAGE_SIZE + (a - next) % TARGET_PAGE_SIZE;
        assert PageDown(a) == next + k * TARGET_PAGE_SIZE;
        assert k < n;
        assert pages[k + 1] == first + (k + 1) * TARGET_PAGE_SIZE;
      }
    }
    forall p | p in pages
      ensures p == first || p < host + len
    {
      var k :| 0 <= k < |pages| && pages[k] == p;
      if k > 0 {
        assert p == next + (k - 1) * TARGET_PAGE_SIZE;
      }
    }
  }

  /**
   * A range of three pages from address 0 marks page 0 and then the page at
   * 4096 twice; the page at 8192, which the range covers, is never marked.
   */
  lemma HostPagesAsWrittenSkipsPages()
    ensures HostPagesAsWritten(0, 3 * TARGET_PAGE_SIZE) == [0, 4096, 4096]
    ensures 8192 < 0 + 3 * TARGET_PAGE_SIZE && PageDown(8192) !in HostPagesAsWritten(0, 3 * TARGET_PAGE_SIZE)
    ensures PageDown(8192) in HostPages(0, 3 * TARGET_PAGE_SIZE)
  {
    assert RangeIterations(2 * TARGET_PAGE_SIZE) == 2;
    assert Repeat(4096, 2) == [4096, 4096];
    assert HostPages(0, 3 * TARGET_PAGE_SIZE)[2] == 8192;
  }

  /** The source of a dirty page in a restore to the increment at `n - 1`, as written: a page no increment saved comes from the start of the root block. */
  function PageSourceAsWritten(incs: seq<Increment>, n: nat, rb: nat, off: nat): (s: Source)
    requires n <= |incs|
    ensures s.FromRoot? ==> s.rootOffset == 0
  {
    match NearestIncrement(incs, n, rb, off)
    case Some(found) => FromIncrement(found.0, found.1)
    case None => FromRoot(0)
  }

  /** The source the restore evidently intends: a page no increment saved comes from its own offset in the root block. */
  function PageSource(incs: seq<Increment>, n: nat, rb: nat, off: nat): (s: Source)
    requires n <= |incs|
    ensures s.FromRoot? <==> NearestIncrement(incs, n, rb, off).None?
    ensures s.FromRoot? ==> s.rootOffset == off
    ensures s.FromIncrement? ==> s.index < n && Holds(incs[s.index], rb, off)
    ensures s.FromIncrement? ==> s.slot < |incs[s.index].pages[rb]| && incs[s.index].pages[rb][s.slot] == off
    ensures s.FromIncrement? ==> forall k :: s.index < k < n ==> !Holds(incs[k], rb, off)
  {
    match NearestIncrement(incs, n, rb, off)
    case Some(found) => FromIncrement(found.0, found.1)
    case None => FromRoot(off)
  }

  /** The two agree on every page an increment saved and on the first page of a block, and nowhere else. */
  lemma PageSourceAsWrittenDiffers(incs: seq<Increment>, n: nat, rb: nat, off: nat)
    requires n <= |incs|
    ensures PageSourceAsWritten(incs, n, rb, off) == PageSource(incs, n, rb, off) <==>
      NearestIncrement(incs, n, rb, off).Some? || off == 0
  {
  }

  /** The sources of a restore of every dirty page, per block, as written. */
  function RestorePlanAsWritten(incs: seq<Increment>, n: nat, dirty: map<nat, set<nat>>): (plan: map<nat, map<nat, Source>>)
    requires n <= |incs|
    ensures plan.Keys == dirty.Keys
    ensures forall rb :: rb in plan ==> plan[rb].Keys == dirty[rb]
  {
    map rb | rb in dirty :: map off | off in dirty[rb] :: PageSourceAsWritten(incs, n, rb, off)
  }

  /** The sources of a restore of every dirty page as the root restore takes them: each page from its own offset in the root copy. */
  function RootRestorePlan(dirty: map<nat, set<nat>>): (plan: map<nat, map<nat, Source>>)
    ensures plan.Keys == dirty.Keys
    ensures forall rb, off :: rb in plan && off in plan[rb] ==> off in dirty[rb] && plan[rb][off] == FromRoot(off)
  {
    map rb | rb in dirty :: map off | off in dirty[rb] :: FromRoot(off)
  }

  /**
   * Popping the only increment when it saved nothing should restore what
   * the root restore restores; as written, every dirty page away from the
   * start of its block gets the first page of the block instead.
   */
  lemma RestoreWithoutPagesAsWritten(dirty: map<nat, set<nat>>, dss: DeviceSave.DeviceSaveState, rb: nat, off: nat)
    requires rb in dirty && off in dirty[rb]
    ensures RestorePlanAsWritten([Increment(map[], dss)], 1, dirty)[rb][off] == FromRoot(0)
    ensures RootRestorePlan(dirty)[rb][off] == FromRoot(off)
    ensures PageSource([Increment(map[], dss)], 1, rb, off) == FromRoot(off)
  {
    var incs := [Increment(map[], dss)];
    assert !Holds(incs[0], rb, off);
    assert NearestIncrement(incs, 1, rb, off).None?;
  }

  /**
   * The page lists `syx_snapshot_increment_push` builds, as written: its
   * walk goes over the new increment's own table, which is still empty, and
   * the lists it allocates are never inserted, so the increment saves no
   * page at all.
   */
  function IncrementPagesAsWritten(dirty: map<nat, set<nat>>, blocks: set<nat>): (pages: map<nat, seq<nat>>)
    ensures forall rb, off :: !Holds(Increment(pages, DeviceSave.DeviceSaveState(0, [])), rb, off)
  {
    map[]
  }

  /** A list that holds each element of a set exactly once, in any order. */
  predicate Enumerates(list: seq<nat>, s: set<nat>)
  {
    (forall x :: x in list ==> x in s) && (forall x :: x in s ==> x in list) &&
    forall i, j :: 0 <= i < j < |list| ==> list[i] != list[j]
  }

  /**
   * The page lists the push evidently intends: for every block that still
   * exists, a list of each of its dirty pages once, in the order the walk
   * of the hash table meets them.
   */
  predicate ListsDirtyPages(pages: map<nat, seq<nat>>, dirty: map<nat, set<nat>>, blocks: set<nat>)
  {
    pages.Keys == dirty.Keys * blocks &&
    forall rb :: rb in pages ==> Enumerates(pages[rb], dirty[rb])
  }

  /**
   * `rb_dirty_list_to_dirty_pages` as evidently intended: walk the dirty
   * list, skip blocks that no longer exist, and list each block's dirty
   * pages into its own table.
   */
  method DirtyPagesToLists(dirty: map<nat, set<nat>>, blocks: set<nat>) returns (pages: map<nat, seq<nat>>)
    ensures ListsDirtyPages(pages, dirty, blocks)
  {
    pages := map[];
    var rbs := dirty.Keys;
    while rbs != {}
      invariant rbs <= dirty.Keys
      invariant pages.Keys == (dirty.Keys - rbs) * blocks
      invariant forall rb :: rb in pages ==> Enumerates(pages[rb], dirty[rb])
    {
      var rb :| rb in rbs;
      if rb in blocks {
        var list: seq<nat> := [];
        var todo := dirty[rb];
        while todo != {}
          invariant todo <= dirty[rb]
          invariant forall x :: x in list <==> x in dirty[rb] - todo
          invariant forall i, j :: 0 <= i < j < |list| ==> list[i] != list[j]
        {
          var off :| off in todo;
          assert off !in list;
          list := list + [off];
          todo := todo - {off};
        }
        pages := pages[rb := list];
      }
      rbs := rbs - {rb};
    }
  }

  /**
   * After the intended push, a restore to the new increment takes every
   * page that was dirty in an existing block from that increment; as
   * written, the new increment changes no source.
   */
  lemma PushedPagesAreFound(incs: seq<Increment>, dirty: map<nat, set<nat>>, blocks: set<nat>,
                            pages: map<nat, seq<nat>>, dss: DeviceSave.DeviceSaveState, rb: nat, off: nat)
    requires ListsDirtyPages(pages, dirty, blocks)
    ensures rb in dirty && rb in blocks && off in dirty[rb] ==>
      PageSource(incs + [Increment(pages, dss)], |incs| + 1, rb, off).FromIncrement? &&
      PageSource(incs + [Increment(pages, dss)], |incs| + 1, rb, off).index == |incs|
    ensures PageSourceAsWritten(incs + [Increment(IncrementPagesAsWritten(dirty, blocks), dss)], |incs| + 1, rb, off) ==
      PageSourceAsWritten(incs, |incs|, rb, off)
  {
    var incs2 := incs + [Increment(IncrementPagesAsWritten(dirty, blocks), dss)];
    assert !Holds(incs2[|incs|], rb, off);
    NearestPrefix(incs, incs2, |incs|, rb, off);
  }

  /** The lookup over the first `n` increments only reads those increments. */
  lemma {:induction false} NearestPrefix(incs: seq<Increment>, incs2: seq<Increment>, n: nat, rb: nat, off: nat)
    requires n <= |incs| && n <= |incs2| && incs[..n] == incs2[..n]
    ensures NearestIncrement(incs, n, rb, off) == NearestIncrement(incs2, n, rb, off)
    decreases n
  {
    if n > 0 {
      assert incs[n - 1] == incs[..n][n - 1] == incs2[n - 1];
      assert incs[..n - 1] == incs[..n][..n - 1];
      assert incs2[..n - 1] == incs2[..n][..n - 1];
      NearestPrefix(incs, incs2, n - 1, rb, off);
    }
  }

  /** A `SyxSnapshot`: its root, its chain of increments (oldest first) and its dirty list. */
  class Snapshot {
    const root: map<nat, seq<u8>>
    const rootDss: DeviceSave.DeviceSaveState
    var increments: seq<Increment>
    var dirty: map<nat, set<nat>>

    constructor (root: map<nat, seq<u8>>, rootDss: DeviceSave.DeviceSaveState)
      ensures this.root == root && this.rootDss == rootDss
      ensures increments == [] && dirty == map[]
    {
      this.root := root;
      this.rootDss := rootDss;
      increments := [];
      dirty := map[];
    }

    /**
     * `get_dirty_page_from_addr_rec` from increment `n - 1`: search its
     * list for the block, then recurse into the parent.
     */
    method GetDirtyPageFromAddrRec(n: nat, rb: nat, off: nat) returns (r: Option<(nat, nat)>)
      requires n <= |increments|
      ensures r == NearestIncrement(increments, n, rb, off)
      decreases n
    {
      if n == 0 {
        return None;
      }
      var inc := increments[n - 1];
      if rb in inc.pages {
        var list := inc.pages[rb];
        var i := 0;
        while i < |list|
          invariant i <= |list| && off !in list[..i]
        {
          if list[i] == off {
            assert FirstIndex(list, off) == Some(i);
            return Some((n - 1, i));
          }
          assert list[..i + 1] == list[..i] + [list[i]];
          i := i + 1;
        }
        assert list[..i] == list;
      }
      r := GetDirtyPageFromAddrRec(n - 1, rb, off);
    }

    /** `restore_rb_to_increment` for one block: the source of each of its dirty pages. */
    method RestoreRbToIncrement(n: nat, rb: nat, offs: set<nat>) returns (plan: map<nat, Source>)
      requires n <= |increments|
      ensures plan == map off | off in offs :: PageSourceAsWritten(increments, n, rb, off)
    {
      plan := map[];
      var todo := offs;
      while todo != {}
        invariant todo <= offs
        invariant plan == map off | off in offs - todo :: PageSourceAsWritten(increments, n, rb, off)
      {
        var off :| off in todo;
        var dp := GetDirtyPageFromAddrRec(n, rb, off);
        var src := if dp.Some? then FromIncrement(dp.value.0, dp.value.1) else FromRoot(0);
        plan := plan[off := src];
        todo := todo - {off};
      }
    }

    /** `restore_to_increment`: walk the dirty list block by block. */
    method RestoreToIncrement(n: nat) returns (plan: map<nat, map<nat, Source>>)
      requires n <= |increments|
      ensures plan == RestorePlanAsWritten(increments, n, dirty)
    {
      plan := map[];
      var todo := dirty.Keys;
      while todo != {}
        invariant todo <= dirty.Keys
        invariant plan == map rb | rb in dirty.Keys - todo :: map off | off in dirty[rb] :: PageSourceAsWritten(increments, n, rb, off)
      {
        var rb :| rb in todo;
        var p := RestoreRbToIncrement(n, rb, dirty[rb]);
        plan := plan[rb := p];
        todo := todo - {rb};
      }
    }

    /** `syx_snapshot_dirty_list_flush`: empty every block's set of dirty pages. */
    method DirtyListFlush()
      modifies this
      ensures dirty == Flushed(old(dirty))
      ensures increments == old(increments)
    {
      var todo := dirty.Keys;
      var d := dirty;
      while todo != {}
        invariant todo <= d.Keys == old(dirty).Keys
        invariant forall r :: r in d ==> d[r] == if r in todo then old(dirty)[r] else {}
      {
        var rb :| rb in todo;
        d := d[rb := {}];
        todo := todo - {rb};
      }
      dirty := d;
    }

    /**
     * `syx_snapshot_increment_push` as written: a new increment on top of
     * the chain, with the device state of the given kind and the (empty)
     * page lists of `IncrementPagesAsWritten`; the dirty list loses every
     * entry.
     */
    method IncrementPush(kind: DeviceSave.SnapshotKind, devices: seq<string>, handlers: seq<DeviceSave.Handler>,
                         blocks: set<nat>)
      modifies this
      ensures |increments| == |old(increments)| + 1 && increments[..|old(increments)|] == old(increments)
      ensures increments[|old(increments)|].pages == IncrementPagesAsWritten(old(dirty), blocks)
      ensures increments[|old(increments)|].dss.kind == DeviceSave.DEVICE_SAVE_KIND_FULL
      ensures increments[|old(increments)|].dss.sections == DeviceSave.SelectedSections(kind, devices, handlers)
      ensures dirty == map[]
    {
      var dss := DeviceSave.DeviceSaveKind(kind, devices, handlers);
      increments := increments + [Increment(IncrementPagesAsWritten(dirty, blocks), dss)];
      dirty := map[];
    }

    /** The push with the page lists it evidently intends (`ListsDirtyPages`). */
    method IncrementPushCorrected(kind: DeviceSave.SnapshotKind, devices: seq<string>, handlers: seq<DeviceSave.Handler>,
                                  blocks: set<nat>)
      modifies this
      ensures |increments| == |old(increments)| + 1 && increments[..|old(increments)|] == old(increments)
      ensures ListsDirtyPages(increments[|old(increments)|].pages, old(dirty), blocks)
      ensures increments[|old(increments)|].dss.sections == DeviceSave.SelectedSections(kind, devices, handlers)
      ensures dirty == map[]
    {
      var pages := DirtyPagesToLists(dirty, blocks);
      var dss := DeviceSave.DeviceSaveKind(kind, devices, handlers);
      increments := increments + [Increment(pages, dss)];
      dirty := map[];
    }

    /**
     * `syx_snapshot_increment_pop`: load the device state of the last
     * increment, restore every dirty page from the chain (the plan), drop
     * the last increment so that its parent becomes the last, and flush the
     * dirty list. The code dereferences the last increment, so there must
     * be one.
     */
    method IncrementPop() returns (loaded: DeviceSave.DeviceSaveState, plan: map<nat, map<nat, Source>>)
      requires increments != []
      modifies this
      ensures loaded == old(increments)[|old(increments)| - 1].dss
      ensures plan == RestorePlanAsWritten(old(increments), |old(increments)|, old(dirty))
      ensures increments == old(increments)[..|old(increments)| - 1]
      ensures dirty == Flushed(old(dirty))
    {
      loaded := increments[|increments| - 1].dss;
      plan := RestoreToIncrement(|increments|);
      increments := increments[..|increments| - 1];
      DirtyListFlush();
    }

    /**
     * What the header of `syx_snapshot_increment_pop` documents: the pop
     * above when there is an increment, and the root restore when there is
     * none. `restoredRoot` tells which of the two ran.
     */
    method IncrementPopDocumented(blocks: set<nat>) returns (ok: bool, restoredRoot: bool, loaded: DeviceSave.DeviceSaveState,
                                                          plan: map<nat, map<nat, Source>>, flushCache: bool)
      modifies this
      ensures restoredRoot <==> old(increments) == []
      ensures restoredRoot ==> (ok <==> old(dirty).Keys <= blocks) && increments == old(increments)
      ensures restoredRoot && ok ==> loaded == rootDss && plan == RootRestorePlan(old(dirty)) && flushCache && dirty == Flushed(old(dirty))
      ensures !restoredRoot ==> ok && !flushCache
      ensures !restoredRoot ==> loaded == old(increments)[|old(increments)| - 1].dss
      ensures !restoredRoot ==> plan == RestorePlanAsWritten(old(increments), |old(increments)|, old(dirty))
      ensures !restoredRoot ==> increments == old(increments)[..|old(increments)| - 1] && dirty == Flushed(old(dirty))
    {
      if increments == [] {
        restoredRoot := true;
        ok, loaded, plan, flushCache := RootRestore(blocks);
      } else {
        restoredRoot, ok, flushCache := false, true, false;
        loaded, plan := IncrementPop();
      }
    }

    /** `syx_snapshot_increment_restore_last`: the same restore, keeping the chain. */
    method IncrementRestoreLast() returns (loaded: DeviceSave.DeviceSaveState, plan: map<nat, map<nat, Source>>)
      requires increments != []
      modifies this
      ensures loaded == old(increments)[|old(increments)| - 1].dss
      ensures plan == RestorePlanAsWritten(old(increments), |old(increments)|, old(dirty))
      ensures increments == old(increments)
      ensures dirty == Flushed(old(dirty))
    {
      loaded := increments[|increments| - 1].dss;
      plan := RestoreToIncrement(|increments|);
      DirtyListFlush();
    }

    /**
     * `syx_snapshot_root_restore`: load the root device state, restore every
     * dirty page from its own offset in the root copy, flush the top layer
     * of the block cache (`flushCache`) and the dirty list. A dirty block
     * that no longer exists ends the process (`ok` is false).
     */
    method RootRestore(blocks: set<nat>) returns (ok: bool, loaded: DeviceSave.DeviceSaveState,
                                                 plan: map<nat, map<nat, Source>>, flushCache: bool)
      modifies this
      ensures ok <==> old(dirty).Keys <= blocks
      ensures ok ==> loaded == rootDss && plan == RootRestorePlan(old(dirty)) && flushCache
      ensures ok ==> dirty == Flushed(old(dirty)) && increments == old(increments)
      ensures !ok ==> dirty == old(dirty) && increments == old(increments)
    {
      loaded := rootDss;
      flushCache := false;
      plan := map[];
      var todo := dirty.Keys;
      while todo != {}
        invariant todo <= dirty.Keys && dirty.Keys - todo <= blocks
        invariant plan == map rb | rb in dirty.Keys - todo :: map off | off in dirty[rb] :: FromRoot(off)
      {
        var rb :| rb in todo;
        if rb !in blocks {
          return false, loaded, plan, flushCache;
        }
        plan := plan[rb := map off | off in dirty[rb] :: FromRoot(off)];
        todo := todo - {rb};
      }
      flushCache := true;
      DirtyListFlush();
      ok := true;
    }
  }

  /** Which copy-on-write cache a block request goes to. */
  datatype CacheChoice = ActiveSnapshotCache(snapshot: Snapshot) | BeforeFuzzCache | NoCache

  /** `SyxSnapshotState`: the global state of the engine. */
  class SyxState {
    const pageSize: nat
    const pageMask: bv64
    const tracker: Tracker<Snapshot>
    var isEnabled: bool
    var hasBeforeFuzzCache: bool
    var active: Option<Snapshot>

    /**
     * `syx_snapshot_init`: the page size and mask, an empty tracker, a
     * before-fuzz cache when block devices are cached, and disabled.
     */
    constructor Init(cachedBdrvs: bool)
      ensures pageSize == TARGET_PAGE_SIZE && pageMask == PageMask(TARGET_PAGE_SIZE)
      ensures fresh(tracker) && tracker.Valid() && tracker.tracked == []
      ensures tracker.capacity == SYX_SNAPSHOT_LIST_INIT_SIZE
      ensures hasBeforeFuzzCache == cachedBdrvs && active == None && !isEnabled
    {
      pageSize := TARGET_PAGE_SIZE;
      pageMask := PageMask(TARGET_PAGE_SIZE);
      tracker := new Tracker();
      hasBeforeFuzzCache := cachedBdrvs;
      active := None;
      isEnabled := false;
    }

    /**
     * `syx_snapshot_new`: a snapshot with a fresh root, no increment and an
     * empty dirty list. An active-cache snapshot takes over the before-fuzz
     * cache, which the move leaves NULL; a tracked one is appended to the
     * tracker. The engine is enabled. A hash collision between RAM blocks
     * ends the process (`s` is None, nothing changes).
     */
    method NewSnapshot(track: bool, isActiveBdrvCache: bool, kind: DeviceSave.SnapshotKind, devices: seq<string>,
                       handlers: seq<DeviceSave.Handler>, blocks: seq<RamBlock>) returns (s: Option<Snapshot>)
      requires tracker.Valid()
      modifies this, tracker
      ensures tracker.Valid()
      ensures s.None? <==> !HashesDistinct(blocks)
      ensures s.None? ==> isEnabled == old(isEnabled) && active == old(active) && tracker.tracked == old(tracker.tracked)
      ensures s.Some? ==> fresh(s.value) && s.value.increments == [] && s.value.dirty == map[]
      ensures s.Some? ==> s.value.root.Keys == set b | b in blocks :: b.idstrHash
      ensures s.Some? ==> forall i :: 0 <= i < |blocks| ==> s.value.root[blocks[i].idstrHash] == blocks[i].host
      ensures s.Some? ==> s.value.rootDss.sections == DeviceSave.SelectedSections(kind, devices, handlers)
      ensures s.Some? ==> isEnabled && tracker.tracked == old(tracker.tracked) + (if track then [s.value] else [])
      ensures s.Some? && isActiveBdrvCache ==> active == s && !hasBeforeFuzzCache
      ensures s.Some? && !isActiveBdrvCache ==> active == old(active) && hasBeforeFuzzCache == old(hasBeforeFuzzCache)
    {
      var ok, root, dss := RootNew(kind, devices, handlers, blocks);
      if !ok {
        return None;
      }
      var snapshot := new Snapshot(root, dss);
      if isActiveBdrvCache {
        hasBeforeFuzzCache := false;
        active := Some(snapshot);
      }
      if track {
        tracker.Track(snapshot);
      }
      isEnabled := true;
      s := Some(snapshot);
    }

    /**
     * `syx_snapshot_dirty_list_add_internal`: the offset must be
     * page-aligned (the assertion against the 4 KiB mask, see
     * `MaskKeepsAligned`); every tracked snapshot records it in its set for
     * the block. A snapshot tracked twice records it once.
     */
    method DirtyListAddInternal(rb: nat, offset: u64)
      requires offset % TARGET_PAGE_SIZE == 0
      modifies set s | s in tracker.tracked
      ensures forall s :: s in tracker.tracked ==> s.dirty == Mark(old(s.dirty), rb, offset)
      ensures forall s :: s in tracker.tracked ==> s.increments == old(s.increments)
    {
      var i := 0;
      while i < |tracker.tracked|
        invariant i <= |tracker.tracked|
        invariant forall s :: s in tracker.tracked ==> s.increments == old(s.increments)
        invariant forall s :: s in tracker.tracked ==>
          s.dirty == if s in tracker.tracked[..i] then Mark(old(s.dirty), rb, offset) else old(s.dirty)
      {
        var s := tracker.tracked[i];
        if s in tracker.tracked[..i] {
          MarkIdempotent(old(s.dirty), rb, offset);
        }
        s.dirty := Mark(s.dirty, rb, offset);
        assert tracker.tracked[..i + 1] == tracker.tracked[..i] + [s];
        i := i + 1;
      }
      assert tracker.tracked[..i] == tracker.tracked;
    }

    /** `qemu_ram_block_from_host` is asked for a page-rounded offset: the offsets it gives are page multiples. */
    ghost predicate ResolvesAligned(resolve: nat -> Option<RamOffset>)
    {
      forall h :: resolve(h).Some? ==> resolve(h).value.offset % TARGET_PAGE_SIZE == 0
    }

    /**
     * `syx_snapshot_dirty_list_add_hostaddr`: nothing while disabled;
     * otherwise the page the address resolves to, if any, is marked in every
     * tracked snapshot.
     */
    method DirtyListAddHostaddr(host: nat, resolve: nat -> Option<RamOffset>)
      requires isEnabled ==> ResolvesAligned(resolve)
      modifies set s | s in tracker.tracked
      ensures forall s :: s in tracker.tracked ==>
        s.dirty == (if isEnabled then MarkHost(old(s.dirty), resolve, host) else old(s.dirty))
      ensures forall s :: s in tracker.tracked ==> s.increments == old(s.increments)
    {
      if !isEnabled {
        return;
      }
      var ro := resolve(host);
      if ro.None? {
        return;
      }
      DirtyListAddInternal(ro.value.rb, ro.value.offset);
      forall s | s in tracker.tracked
        ensures s.dirty == MarkHost(old(s.dirty), resolve, host)
      {
        MarkHostResolved(old(s.dirty), resolve, host, ro.value);
      }
    }

    /**
     * `syx_snapshot_dirty_list_add_hostaddr_range` as written: nothing
     * while disabled; otherwise the page of `host`, then one call per
     * further page of the range, each with the same address, the page after
     * `host`'s (`marked` lists the addresses, see `HostPagesAsWritten`). The
     * code asserts that the length fits an int64 and that the next page does
     * not wrap around.
     */
    method DirtyListAddHostaddrRange(host: nat, len: u64, resolve: nat -> Option<RamOffset>) returns (marked: seq<nat>)
      requires isEnabled ==> ResolvesAligned(resolve)
      requires isEnabled ==> len < INT64_MAX && PageDown(host) + TARGET_PAGE_SIZE < U64_LIMIT
      modifies set s | s in tracker.tracked
      ensures marked == if isEnabled then HostPagesAsWritten(host, len) else []
      ensures forall s :: s in tracker.tracked ==> s.dirty == MarkHosts(old(s.dirty), resolve, marked)
      ensures forall s :: s in tracker.tracked ==> s.increments == old(s.increments)
    {
      marked := [];
      if !isEnabled {
        return;
      }
      var lenSigned: int := len;
      DirtyListAddHostaddr(PageDown(host), resolve);
      marked := [PageDown(host)];
      var nextPage := PageDown(host) + TARGET_PAGE_SIZE;
      var lenToNextPage := nextPage - host;
      var h := host + lenToNextPage;
      lenSigned := lenSigned - lenToNextPage;
      var rest := lenSigned;
      var done: nat := 0;
      while lenSigned > 0
        invariant h == nextPage && h % TARGET_PAGE_SIZE == 0
        invariant lenSigned == rest - done * TARGET_PAGE_SIZE
        invariant done == 0 || lenSigned + TARGET_PAGE_SIZE > 0
        invariant marked == [PageDown(host)] + Repeat(nextPage, done)
        invariant forall s :: s in tracker.tracked ==> s.dirty == MarkHosts(old(s.dirty), resolve, marked)
        invariant forall s :: s in tracker.tracked ==> s.increments == old(s.increments)
        decreases lenSigned
      {
        DirtyListAddHostaddr(h, resolve);
        MarkHostsSnoc(resolve, marked, h);
        marked := marked + [h];
        lenSigned := lenSigned - TARGET_PAGE_SIZE;
        done := done + 1;
      }
      IterationsExact(rest, done);
    }

    /**
     * `syx_snapshot_cow_cache_read_entry` and `_write_entry`: a request goes
     * to the active snapshot's cache when there is one, else to the
     * before-fuzz cache when it exists; otherwise it is not handled.
     */
    method CowCacheEntry() returns (handled: bool, cache: CacheChoice)
      ensures handled <==> active.Some? || hasBeforeFuzzCache
      ensures active.Some? ==> cache == ActiveSnapshotCache(active.value)
      ensures active.None? && hasBeforeFuzzCache ==> cache == BeforeFuzzCache
      ensures !handled ==> cache == NoCache
    {
      if active.None? {
        if hasBeforeFuzzCache {
          return true, BeforeFuzzCache;
        }
        return false, NoCache;
      } else {
        return true, ActiveSnapshotCache(active.value);
      }
    }
  }
}
