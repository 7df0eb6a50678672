// The earlier snapshot engine of libafl_extras/syx-snapshot/syx-snapshot.c.
// Its dirty list holds guest-physical page addresses (without duplicates,
// in an array that doubles when full); an increment keeps the pages of the
// dirty list that lie in RAM; a restore takes every dirty page from the
// nearest increment that saved it, or else from the copy of its RAM block in
// the root.
module SyxSnapshotExtras {
  import opened Common
  import DeviceSave
  import opened SyxTracker
  import SyxSnapshot

  /** `hwaddr`: a 64-bit guest-physical address. */
  type HwAddr = bv64

  /** The name of the SMM region the root restore switches off to reach the RAM below it. */
  const TSEG_BLACKHOLE: string := "tseg-blackhole"

  /** The mask of `syx_snapshot_init` for TARGET_PAGE_SIZE (4 KiB) pages. */
  const PAGE_MASK: bv64 := 0xFFFF_FFFF_FFFF_F000

  /** A page address with its offset bits cleared is aligned, at most the address and less than a page below it. */
  lemma MaskedAligned(p: HwAddr)
    ensures (p & 0xFFFF_FFFF_FFFF_F000) % 4096 == 0
    ensures p % 4096 == 0 ==> p & 0xFFFF_FFFF_FFFF_F000 == p
    ensures p & 0xFFFF_FFFF_FFFF_F000 <= p && p - (p & 0xFFFF_FFFF_FFFF_F000) < 4096
  {
  }

  /** `paddr & page_mask`: the address of the page holding `paddr`. */
  function PageOf(paddr: HwAddr): (p: HwAddr)
    ensures p % 4096 == 0 && p <= paddr && paddr - p < 4096
    ensures paddr % 4096 == 0 ==> p == paddr
  {
    MaskedAligned(paddr);
    paddr & 0xFFFF_FFFF_FFFF_F000
  }

  /** `rb->mr->addr + offset`: the guest address of a region plus an offset in it, wrapping at 64 bits. */
  function Paddr(r: (HwAddr, HwAddr)): HwAddr
  {
    r.0 + r.1
  }

  /**
   * What `memory_region_find` on the system memory reports for the page at
   * an address: nothing, a RAM region (the name of its RAM block and the
   * offset within the region) or another region (its name).
   */
  datatype Section =
    | Unmapped
    | RamSection(idstr: string, offset: nat)
    | OtherSection(name: string)

  /**
   * The memory map as the snapshot code sees it, for an address and for
   * whether the TSEG blackhole is switched off (`mr_to_enable` is set).
   */
  type MemoryMap = (HwAddr, bool) -> Section

  /** A RAM block: its name and contents; the root keeps a copy of each. */
  datatype RamBlock = RamBlock(idstr: string, ram: seq<u8>)

  /** `syx_snapshot_root_t`: the copied RAM blocks and the device state. */
  datatype Root = Root(blocks: seq<RamBlock>, dss: DeviceSave.DeviceSaveState)

  /**
   * A `syx_snapshot_increment_t`: the addresses of its saved pages, in list
   * order, and its device state. The parent chain is the order of the
   * increments in the snapshot. The saved bytes are not modelled.
   */
  datatype Increment = Increment(pages: seq<HwAddr>, dss: DeviceSave.DeviceSaveState)

  /** Where a restore takes a dirty page from. */
  datatype PageRestore =
    | FromIncrement(index: nat, slot: nat)   // slot `slot` of the page list of increment `index`
    | FromRoot(block: nat, offset: nat)      // root block `block`, at the offset within its region
    | NotRestored                            // no region, or a region that is neither RAM nor the blackhole

  /** No two entries are equal. */
  predicate Distinct(s: seq<HwAddr>)
  {
    forall i, j :: 0 <= i < j < |s| ==> s[i] != s[j]
  }

  /** Recording a page in a dirty list: appended unless it is already there. */
  function AddOnce(dirty: seq<HwAddr>, p: HwAddr): (d: seq<HwAddr>)
    ensures |dirty| <= |d| <= |dirty| + 1 && p in d && d[..|dirty|] == dirty
    ensures forall a :: a in d <==> a in dirty || a == p
    ensures Distinct(dirty) ==> Distinct(d)
  {
    if p in dirty then dirty else dirty + [p]
  }

  /** The capacity of a dirty list after recording `p`: doubled when a new entry finds it full. */
  function GrownCapacity(dirty: seq<HwAddr>, capacity: nat, p: HwAddr): (c: nat)
    requires |dirty| <= capacity && capacity > 0
    ensures capacity <= c && |AddOnce(dirty, p)| <= c
  {
    if p !in dirty && |dirty| == capacity then capacity * SYX_SNAPSHOT_LIST_GROW_FACTOR else capacity
  }

  /** The list and capacity `d`, `c` are those of `d0`, `c0` after adding `p`. */
  ghost predicate Recorded(d: seq<HwAddr>, c: nat, d0: seq<HwAddr>, c0: nat, p: HwAddr)
  {
    |d0| <= c0 && c0 > 0 && d == AddOnce(d0, p) && c == GrownCapacity(d0, c0, p)
  }

  /** Recording a page twice is recording it once, and does not grow the list again. */
  lemma AddOnceIdempotent(dirty: seq<HwAddr>, capacity: nat, p: HwAddr)
    requires |dirty| <= capacity && capacity > 0
    ensures AddOnce(AddOnce(dirty, p), p) == AddOnce(dirty, p)
    ensures GrownCapacity(AddOnce(dirty, p), GrownCapacity(dirty, capacity, p), p) == GrownCapacity(dirty, capacity, p)
  {
  }

  /** The first index of a root block named `idstr`, as `find_ramblock` returns it. */
  function FirstBlock(blocks: seq<RamBlock>, idstr: string): (r: Option<nat>)
    ensures r.None? <==> forall b :: 0 <= b < |blocks| ==> blocks[b].idstr != idstr
    ensures r.Some? ==> r.value < |blocks| && blocks[r.value].idstr == idstr
    ensures r.Some? ==> forall b :: 0 <= b < r.value ==> blocks[b].idstr != idstr
    decreases |blocks|
  {
    if blocks == [] then None
    else if blocks[0].idstr == idstr then Some(0)
    else
      var r := FirstBlock(blocks[1..], idstr);
      if r.None? then None else Some(r.value + 1)
  }

  /** `find_ramblock`: the first root block whose name equals `idstr`, if any. */
  method FindRamblock(root: Root, idstr: string) returns (r: Option<nat>)
    ensures r == FirstBlock(root.blocks, idstr)
  {
    var i := 0;
    while i < |root.blocks|
      invariant i <= |root.blocks|
      invariant forall b :: 0 <= b < i ==> root.blocks[b].idstr != idstr
    {
      if root.blocks[i].idstr == idstr {
        return Some(i);
      }
      i := i + 1;
    }
    return None;
  }

  /**
   * The assertions of the root restore hold: every RAM region belongs to a
   * block the root copied, and once switched off the blackhole is no longer
   * found.
   */
  ghost predicate MapSound(root: Root, find: MemoryMap)
  {
    (forall a, off :: find(a, off).RamSection? ==> FirstBlock(root.blocks, find(a, off).idstr).Some?)
    && (forall a :: find(a, true) != OtherSection(TSEG_BLACKHOLE))
  }

  /**
   * `restore_page_from_root` for the page at `a`, with `off` telling
   * whether the blackhole is switched off: the restore and the new value of
   * that flag. A RAM page comes from the first root block of the same name
   * at the same offset; the blackhole is switched off and the lookup
   * repeated; anything else is left alone.
   */
  function RootPageSource(root: Root, find: MemoryMap, a: HwAddr, off: bool): (r: (PageRestore, bool))
    requires MapSound(root, find)
    ensures off ==> r.1
    ensures r.0.FromIncrement? == false
    ensures r.0.FromRoot? ==>
      (r.0.block < |root.blocks| && find(a, r.1) == RamSection(root.blocks[r.0.block].idstr, r.0.offset))
    ensures r.1 != off ==> find(a, false) == OtherSection(TSEG_BLACKHOLE)
    decreases if off then 0 else 1
  {
    match find(a, off)
    case Unmapped => (NotRestored, off)
    case RamSection(idstr, offset) => (FromRoot(FirstBlock(root.blocks, idstr).value, offset), off)
    case OtherSection(name) =>
      if name == TSEG_BLACKHOLE && !off then RootPageSource(root, find, a, true)
      else (NotRestored, off)
  }

  /** The first slot of a page list that holds `a`. */
  function FirstIndex(list: seq<HwAddr>, a: HwAddr): (r: Option<nat>)
    ensures r.None? <==> a !in list
    ensures r.Some? ==> r.value < |list| && list[r.value] == a && a !in list[..r.value]
  {
    if a !in list then None
    else if list[0] == a then Some(0)
    else
      var r := FirstIndex(list[1..], a);
      assert list[1..][..r.value] == list[1..r.value + 1];
      assert list[..r.value + 1] == [list[0]] + list[1..r.value + 1];
      Some(r.value + 1)
  }

  /**
   * The page `get_dirty_page_from_addr_rec` finds from increment `n - 1`:
   * the newest of the first `n` increments that saved `a`, and its slot.
   */
  function NearestIncrement(incs: seq<Increment>, n: nat, a: HwAddr): (r: Option<(nat, nat)>)
    requires n <= |incs|
    ensures r.None? <==> forall k :: 0 <= k < n ==> a !in incs[k].pages
    ensures r.Some? ==> r.value.0 < n && a in incs[r.value.0].pages
    ensures r.Some? ==> forall k :: r.value.0 < k < n ==> a !in incs[k].pages
    ensures r.Some? ==> FirstIndex(incs[r.value.0].pages, a) == Some(r.value.1)
    decreases n
  {
    if n == 0 then None
    else if a in incs[n - 1].pages then Some((n - 1, FirstIndex(incs[n - 1].pages, a).value))
    else NearestIncrement(incs, n - 1, a)
  }

  /** The lookup over the first `n` increments only reads those increments. */
  lemma {:induction false} NearestPrefix(incs: seq<Increment>, incs2: seq<Increment>, n: nat, a: HwAddr)
    requires n <= |incs| && n <= |incs2| && incs[..n] == incs2[..n]
    ensures NearestIncrement(incs, n, a) == NearestIncrement(incs2, n, a)
    decreases n
  {
    if n > 0 {
      assert incs[n - 1] == incs[..n][n - 1] == incs2[n - 1];
      assert incs[..n - 1] == incs[..n][..n - 1];
      assert incs2[..n - 1] == incs2[..n][..n - 1];
      NearestPrefix(incs, incs2, n - 1, a);
    }
  }

  /** One step of `restore_to_last_increment`: the nearest increment, or else the root. */
  function PageSource(incs: seq<Increment>, root: Root, find: MemoryMap, a: HwAddr, off: bool): (r: (PageRestore, bool))
    requires MapSound(root, find)
  {
    match NearestIncrement(incs, |incs|, a)
    case Some(found) => (FromIncrement(found.0, found.1), off)
    case None => RootPageSource(root, find, a, off)
  }

  /**
   * The restores of a dirty list, in list order, with the blackhole flag
   * carried from page to page, and the flag at the end.
   */
  function RestorePlan(incs: seq<Increment>, root: Root, find: MemoryMap, addrs: seq<HwAddr>, off: bool): (r: (seq<PageRestore>, bool))
    requires MapSound(root, find)
    ensures |r.0| == |addrs|
    ensures off ==> r.1
    decreases |addrs|
  {
    if addrs == [] then ([], off)
    else
      var first := PageSource(incs, root, find, addrs[0], off);
      var rest := RestorePlan(incs, root, find, addrs[1..], first.1);
      ([first.0] + rest.0, rest.1)
  }

  /** One step of a restore loop: the page at index `i`, then the pages after it. */
  lemma RestorePlanStep(incs: seq<Increment>, root: Root, find: MemoryMap, addrs: seq<HwAddr>, i: nat, off: bool)
    requires MapSound(root, find) && i < |addrs|
    ensures var first := PageSource(incs, root, find, addrs[i], off);
      var rest := RestorePlan(incs, root, find, addrs[i + 1..], first.1);
      RestorePlan(incs, root, find, addrs[i..], off) == ([first.0] + rest.0, rest.1)
  {
    assert addrs[i..][0] == addrs[i];
    assert addrs[i..][1..] == addrs[i + 1..];
  }

  /** One step of a restore loop keeps its account: the plan so far, then the rest of the list. */
  lemma PlanAdvance(incs: seq<Increment>, root: Root, find: MemoryMap, addrs: seq<HwAddr>, i: nat, off: bool,
                    plan: seq<PageRestore>, whole: (seq<PageRestore>, bool))
    requires MapSound(root, find) && i < |addrs|
    requires plan + RestorePlan(incs, root, find, addrs[i..], off).0 == whole.0
    requires RestorePlan(incs, root, find, addrs[i..], off).1 == whole.1
    ensures var first := PageSource(incs, root, find, addrs[i], off);
      var rest := RestorePlan(incs, root, find, addrs[i + 1..], first.1);
      (plan + [first.0]) + rest.0 == whole.0 && rest.1 == whole.1
  {
    RestorePlanStep(incs, root, find, addrs, i, off);
    var first := PageSource(incs, root, find, addrs[i], off);
    var rest := RestorePlan(incs, root, find, addrs[i + 1..], first.1);
    assert plan + ([first.0] + rest.0) == (plan + [first.0]) + rest.0;
  }

  /** With no increment every page comes from the root. */
  lemma NoIncrementFromRoot(root: Root, find: MemoryMap, a: HwAddr, off: bool)
    requires MapSound(root, find)
    ensures PageSource([], root, find, a, off) == RootPageSource(root, find, a, off)
  {
  }

  /**
   * A dirty page is restored from an increment exactly when one of them
   * saved it, and then from the newest such increment; every other page
   * comes from the root block its RAM region belongs to, or is left alone.
   */
  lemma {:induction false} RestorePlanSources(incs: seq<Increment>, root: Root, find: MemoryMap, addrs: seq<HwAddr>,
                                              off: bool, i: nat)
    requires MapSound(root, find) && i < |addrs|
    ensures var p := RestorePlan(incs, root, find, addrs, off).0[i];
      (p.FromIncrement? <==> NearestIncrement(incs, |incs|, addrs[i]).Some?) &&
      (p.FromIncrement? ==> NearestIncrement(incs, |incs|, addrs[i]) == Some((p.index, p.slot)))
    ensures var p := RestorePlan(incs, root, find, addrs, off).0[i];
      p.FromRoot? ==>
        (p.block < |root.blocks| &&
         (find(addrs[i], false) == RamSection(root.blocks[p.block].idstr, p.offset) ||
          find(addrs[i], true) == RamSection(root.blocks[p.block].idstr, p.offset)))
    decreases |addrs|
  {
    var first := PageSource(incs, root, find, addrs[0], off);
    if i > 0 {
      RestorePlanSources(incs, root, find, addrs[1..], first.1, i - 1);
      assert addrs[1..][i - 1] == addrs[i];
    }
  }

  /**
   * Without the blackhole in the memory map the flag never changes, and a
   * restore with no increment takes nothing from an increment.
   */
  lemma {:induction false} RestorePlanFlag(incs: seq<Increment>, root: Root, find: MemoryMap, addrs: seq<HwAddr>, off: bool)
    requires MapSound(root, find)
    requires forall a :: find(a, false) != OtherSection(TSEG_BLACKHOLE)
    ensures RestorePlan(incs, root, find, addrs, off).1 == off
    decreases |addrs|
  {
    if addrs != [] {
      var first := PageSource(incs, root, find, addrs[0], off);
      RestorePlanFlag(incs, root, find, addrs[1..], first.1);
    }
  }

  /** The root restore takes nothing from an increment. */
  lemma RootPlanFromRoot(root: Root, find: MemoryMap, addrs: seq<HwAddr>, off: bool, i: nat)
    requires MapSound(root, find) && i < |addrs|
    ensures !RestorePlan([], root, find, addrs, off).0[i].FromIncrement?
  {
    RestorePlanSources([], root, find, addrs, off, i);
  }

  /** The page lies in a RAM region. */
  predicate IsRam(find: MemoryMap, off: bool, a: HwAddr)
  {
    find(a, off).RamSection?
  }

  /** The entries of a dirty list that lie in RAM, in list order. */
  function RamPages(find: MemoryMap, off: bool, dirty: seq<HwAddr>): (pages: seq<HwAddr>)
    ensures |pages| <= |dirty|
  {
    if dirty == [] then []
    else RamPages(find, off, dirty[..|dirty| - 1]) + (if IsRam(find, off, dirty[|dirty| - 1]) then [dirty[|dirty| - 1]] else [])
  }

  /** An address is kept exactly when it is in the dirty list and in RAM. */
  lemma {:induction false} RamPagesExact(find: MemoryMap, off: bool, dirty: seq<HwAddr>, a: HwAddr)
    ensures a in RamPages(find, off, dirty) <==> a in dirty && IsRam(find, off, a)
  {
    if dirty != [] {
      var n := |dirty|;
      RamPagesExact(find, off, dirty[..n - 1], a);
      assert dirty == dirty[..n - 1] + [dirty[n - 1]];
    }
  }

  /** Keeping the RAM pages of a list without duplicates gives a list without duplicates. */
  lemma {:induction false} RamPagesDistinct(find: MemoryMap, off: bool, dirty: seq<HwAddr>)
    requires Distinct(dirty)
    ensures Distinct(RamPages(find, off, dirty))
  {
    if dirty != [] {
      var n := |dirty|;
      var last := dirty[n - 1];
      assert Distinct(dirty[..n - 1]);
      RamPagesDistinct(find, off, dirty[..n - 1]);
      assert last !in dirty[..n - 1];
      RamPagesExact(find, off, dirty[..n - 1], last);
    }
  }

  /**
   * `syx_snapshot_dirty_list_to_dirty_page_list`: save the dirty pages one
   * by one; a page outside RAM is dropped and the list keeps `real_len`
   * entries. Every dirty page must lie in some region.
   */
  method DirtyListToDirtyPageList(find: MemoryMap, off: bool, dirty: seq<HwAddr>) returns (pages: seq<HwAddr>)
    requires forall a :: a in dirty ==> find(a, off) != Unmapped
    ensures pages == RamPages(find, off, dirty)
  {
    pages := [];
    var i := 0;
    while i < |dirty|
      invariant i <= |dirty|
      invariant pages == RamPages(find, off, dirty[..i])
    {
      assert dirty[..i + 1][..i] == dirty[..i];
      var section := find(dirty[i], off);
      if section.RamSection? {
        pages := pages + [dirty[i]];
      }
      i := i + 1;
    }
    assert dirty[..i] == dirty;
  }

  /**
   * After a push, every dirty RAM page is restored from the new increment;
   * the lookups of older pages do not change.
   */
  lemma PushedPagesAreFound(incs: seq<Increment>, find: MemoryMap, off: bool, dirty: seq<HwAddr>,
                            dss: DeviceSave.DeviceSaveState, a: HwAddr)
    ensures var incs2 := incs + [Increment(RamPages(find, off, dirty), dss)];
      a in dirty && IsRam(find, off, a) ==>
        (NearestIncrement(incs2, |incs2|, a).Some? && NearestIncrement(incs2, |incs2|, a).value.0 == |incs|)
    ensures var incs2 := incs + [Increment(RamPages(find, off, dirty), dss)];
      a !in dirty ==> NearestIncrement(incs2, |incs2|, a) == NearestIncrement(incs, |incs|, a)
  {
    var incs2 := incs + [Increment(RamPages(find, off, dirty), dss)];
    RamPagesExact(find, off, dirty, a);
    assert incs2[|incs|].pages == RamPages(find, off, dirty);
    NearestPrefix(incs, incs2, |incs|, a);
  }

  /** A `syx_snapshot_t`: its root, its chain of increments (oldest first) and its dirty list. */
  class Snapshot {
    const root: Root
    var increments: seq<Increment>
    var dirty: seq<HwAddr>
    var dirtyCapacity: nat

    /** The dirty list fits its array, has no duplicates and holds page addresses. */
    ghost predicate Valid()
      reads this
    {
      |dirty| <= dirtyCapacity && dirtyCapacity >= SYX_SNAPSHOT_LIST_INIT_SIZE &&
      Distinct(dirty) && forall a :: a in dirty ==> a % 4096 == 0
    }

    /** A snapshot of `root` with no increment and the list of `syx_snapshot_dirty_list_create`. */
    constructor (root: Root)
      ensures Valid() && this.root == root
      ensures increments == [] && dirty == [] && dirtyCapacity == SYX_SNAPSHOT_LIST_INIT_SIZE
    {
      this.root := root;
      increments := [];
      dirty := [];
      dirtyCapacity := SYX_SNAPSHOT_LIST_INIT_SIZE;
    }

    /** `get_dirty_page_from_addr_rec` from increment `n - 1`: search its list, then the parent. */
    method GetDirtyPageFromAddrRec(n: nat, a: HwAddr) returns (r: Option<(nat, nat)>)
      requires n <= |increments|
      ensures r == NearestIncrement(increments, n, a)
      decreases n
    {
      if n == 0 {
        return None;
      }
      var list := increments[n - 1].pages;
      var i := 0;
      while i < |list|
        invariant i <= |list| && a !in list[..i]
      {
        if list[i] == a {
          assert FirstIndex(list, a) == Some(i);
          return Some((n - 1, i));
        }
        assert list[..i + 1] == list[..i] + [list[i]];
        i := i + 1;
      }
      assert list[..i] == list;
      r := GetDirtyPageFromAddrRec(n - 1, a);
    }

    /**
     * The body of the loop of `syx_snapshot_dirty_list_add_internal` for
     * one snapshot: search the list for the page address; when absent,
     * double a full array and append it.
     */
    method Add(p: HwAddr)
      requires Valid() && p % 4096 == 0
      modifies this
      ensures Valid()
      ensures dirty == AddOnce(old(dirty), p) && dirtyCapacity == GrownCapacity(old(dirty), old(dirtyCapacity), p)
      ensures increments == old(increments)
    {
      var j := 0;
      while j < |dirty|
        invariant j <= |dirty| && p !in dirty[..j]
      {
        if dirty[j] == p {
          return;
        }
        j := j + 1;
      }
      assert dirty[..j] == dirty;
      if |dirty| == dirtyCapacity {
        dirtyCapacity := dirtyCapacity * SYX_SNAPSHOT_LIST_GROW_FACTOR;
      }
      dirty := dirty + [p];
    }

    /** `syx_snapshot_dirty_list_flush`: the length drops to 0, the array stays. */
    method DirtyListFlush()
      requires Valid()
      modifies this
      ensures Valid() && dirty == [] && dirtyCapacity == old(dirtyCapacity)
      ensures increments == old(increments)
    {
      dirty := [];
    }

    /**
     * `restore_to_last_increment`: for each dirty page in list order, the
     * nearest increment that saved it, or else `restore_page_from_root`.
     */
    method RestoreToLastIncrement(find: MemoryMap, off: bool) returns (plan: seq<PageRestore>, offAfter: bool)
      requires MapSound(root, find)
      ensures plan == RestorePlan(increments, root, find, dirty, off).0 && offAfter == RestorePlan(increments, root, find, dirty, off).1
    {
      var list := dirty;
      ghost var whole := RestorePlan(increments, root, find, list, off);
      plan := [];
      offAfter := off;
      var i := 0;
      assert list[i..] == list;
      while i < |list|
        invariant i <= |list|
        invariant plan + RestorePlan(increments, root, find, list[i..], offAfter).0 == whole.0
        invariant RestorePlan(increments, root, find, list[i..], offAfter).1 == whole.1
      {
        PlanAdvance(increments, root, find, list, i, offAfter, plan, whole);
        var r;
        r, offAfter := RestorePage(find, list[i], offAfter);
        plan := plan + [r];
        i := i + 1;
      }
      assert list[i..] == [];
    }

    /** The body of the loop of `restore_to_last_increment` for one dirty page. */
    method RestorePage(find: MemoryMap, a: HwAddr, off: bool) returns (r: PageRestore, offAfter: bool)
      requires MapSound(root, find)
      ensures (r, offAfter) == PageSource(increments, root, find, a, off)
    {
      var page := GetDirtyPageFromAddrRec(|increments|, a);
      if page.None? {
        r, offAfter := RestorePageFromRoot(root, find, a, off);
      } else {
        r, offAfter := FromIncrement(page.value.0, page.value.1), off;
      }
    }

    /** `syx_snapshot_restore_root_from_dirty_list`: every dirty page from the root. */
    method RestoreRootFromDirtyList(find: MemoryMap, off: bool) returns (plan: seq<PageRestore>, offAfter: bool)
      requires MapSound(root, find)
      ensures plan == RestorePlan([], root, find, dirty, off).0 && offAfter == RestorePlan([], root, find, dirty, off).1
    {
      var list := dirty;
      ghost var whole := RestorePlan([], root, find, list, off);
      plan := [];
      offAfter := off;
      var i := 0;
      assert list[i..] == list;
      while i < |list|
        invariant i <= |list|
        invariant plan + RestorePlan([], root, find, list[i..], offAfter).0 == whole.0
        invariant RestorePlan([], root, find, list[i..], offAfter).1 == whole.1
      {
        PlanAdvance([], root, find, list, i, offAfter, plan, whole);
        NoIncrementFromRoot(root, find, list[i], offAfter);
        var r;
        r, offAfter := RestorePageFromRoot(root, find, list[i], offAfter);
        plan := plan + [r];
        i := i + 1;
      }
      assert list[i..] == [];
    }
  }

  /**
   * `restore_page_from_root`: look the page up; for the blackhole, switch
   * it off (it must not be off already) and look again.
   */
  method RestorePageFromRoot(root: Root, find: MemoryMap, a: HwAddr, off: bool) returns (r: PageRestore, offAfter: bool)
    requires MapSound(root, find)
    ensures (r, offAfter) == RootPageSource(root, find, a, off)
    decreases if off then 0 else 1
  {
    var section := find(a, off);
    match section
    case Unmapped =>
      r, offAfter := NotRestored, off;
    case RamSection(idstr, offset) =>
      var block := FindRamblock(root, idstr);
      r, offAfter := FromRoot(block.value, offset), off;
    case OtherSection(name) =>
      if name == TSEG_BLACKHOLE {
        r, offAfter := RestorePageFromRoot(root, find, a, true);
      } else {
        r, offAfter := NotRestored, off;
      }
  }

  /**
   * `syx_snapshot_root_create`: the device state of every device and a copy
   * of every RAM block, in block-list order.
   */
  method RootCreate(blocks: seq<RamBlock>, handlers: seq<DeviceSave.Handler>) returns (root: Root)
    ensures root.dss.sections == DeviceSave.SelectedSections(DeviceSave.All, [], handlers)
    ensures |root.blocks| == |blocks| && forall i :: 0 <= i < |blocks| ==> root.blocks[i] == blocks[i]
  {
    var dss := DeviceSave.DeviceSaveAll(handlers);
    var copies: seq<RamBlock> := [];
    var i := 0;
    while i < |blocks|
      invariant i <= |blocks| && copies == blocks[..i]
    {
      copies := copies + [RamBlock(blocks[i].idstr, blocks[i].ram)];
      i := i + 1;
    }
    root := Root(copies, dss);
  }

  /**
   * `syx_snapshot_state_t` with the file-level `mr_to_enable`: the page
   * size and mask, the tracker, whether dirty pages are recorded, and
   * whether the blackhole is switched off.
   */
  class SyxState {
    const pageSize: nat
    const pageMask: bv64
    const tracker: Tracker<Snapshot>
    var isEnabled: bool
    var blackholeOff: bool

    /** Every tracked snapshot's dirty list is valid. */
    ghost predicate TrackedValid()
      reads this, tracker, set s | s in tracker.tracked
    {
      forall s :: s in tracker.tracked ==> s.Valid()
    }

    /** `syx_snapshot_init`: TARGET_PAGE_SIZE pages, an empty tracker, disabled. */
    constructor Init()
      ensures pageSize == SyxSnapshot.TARGET_PAGE_SIZE && pageMask == PAGE_MASK
      ensures pageMask == SyxSnapshot.PageMask(SyxSnapshot.TARGET_PAGE_SIZE)
      ensures fresh(tracker) && tracker.Valid() && tracker.tracked == []
      ensures !isEnabled && !blackholeOff
    {
      SyxSnapshot.PageMaskOf4K();
      pageSize := SyxSnapshot.TARGET_PAGE_SIZE;
      pageMask := SyxSnapshot.PageMask(SyxSnapshot.TARGET_PAGE_SIZE);
      tracker := new Tracker();
      isEnabled := false;
      blackholeOff := false;
    }

    /**
     * `syx_snapshot_create`: a snapshot with a fresh root, no increment and
     * an empty dirty list, tracked on request; the engine is enabled.
     */
    method Create(track: bool, blocks: seq<RamBlock>, handlers: seq<DeviceSave.Handler>) returns (s: Snapshot)
      requires tracker.Valid()
      modifies this, tracker
      ensures tracker.Valid() && fresh(s) && s.Valid()
      ensures s.root.blocks == blocks && s.root.dss.sections == DeviceSave.SelectedSections(DeviceSave.All, [], handlers)
      ensures s.increments == [] && s.dirty == []
      ensures tracker.tracked == old(tracker.tracked) + (if track then [s] else [])
      ensures isEnabled && blackholeOff == old(blackholeOff)
    {
      var root := RootCreate(blocks, handlers);
      s := new Snapshot(root);
      if track {
        tracker.Track(s);
      }
      isEnabled := true;
    }

    /**
     * `syx_snapshot_dirty_list_add_internal`: clear the offset bits of the
     * address, then record the page in the dirty list of every tracked
     * snapshot that does not hold it yet, doubling a full array first.
     */
    method DirtyListAddInternal(paddr: HwAddr)
      requires pageMask == PAGE_MASK && TrackedValid()
      modifies set s | s in tracker.tracked
      ensures TrackedValid()
      ensures forall s :: s in tracker.tracked ==> s.dirty == AddOnce(old(s.dirty), PageOf(paddr))
      ensures forall s :: s in tracker.tracked ==>
        s.dirtyCapacity == GrownCapacity(old(s.dirty), old(s.dirtyCapacity), PageOf(paddr))
      ensures forall s :: s in tracker.tracked ==> s.increments == old(s.increments)
    {
      var p := paddr & pageMask;
      assert p == PageOf(paddr);
      var i := 0;
      ghost var done: set<Snapshot> := {};
      while i < |tracker.tracked|
        invariant i <= |tracker.tracked|
        invariant forall k :: 0 <= k < i ==> tracker.tracked[k] in done
        invariant forall s :: s in tracker.tracked ==> s.Valid() && s.increments == old(s.increments)
        invariant forall s :: s in tracker.tracked ==>
          if s in done then Recorded(s.dirty, s.dirtyCapacity, old(s.dirty), old(s.dirtyCapacity), p)
          else s.dirty == old(s.dirty) && s.dirtyCapacity == old(s.dirtyCapacity)
      {
        var s := tracker.tracked[i];
        if s in done {
          AddOnceIdempotent(old(s.dirty), old(s.dirtyCapacity), p);
        }
        s.Add(p);
        assert Recorded(s.dirty, s.dirtyCapacity, old(s.dirty), old(s.dirtyCapacity), p);
        done := done + {s};
        i := i + 1;
      }
    }

    /** `syx_snapshot_dirty_list_add`: record the page of `paddr` while enabled. */
    method DirtyListAdd(paddr: HwAddr)
      requires pageMask == PAGE_MASK && TrackedValid()
      modifies set s | s in tracker.tracked
      ensures TrackedValid()
      ensures forall s :: s in tracker.tracked ==>
        s.dirty == if isEnabled then AddOnce(old(s.dirty), PageOf(paddr)) else old(s.dirty)
      ensures forall s :: s in tracker.tracked ==> s.increments == old(s.increments)
    {
      if !isEnabled {
        return;
      }
      DirtyListAddInternal(paddr);
    }

    /**
     * `syx_snapshot_dirty_list_add_hostaddr`: nothing while disabled;
     * otherwise the host address must lie in a RAM block (`resolve` gives
     * the guest address of its region and the page-rounded offset) and the
     * sum, wrapping at 64 bits, must be page-aligned; that page is recorded.
     */
    method DirtyListAddHostaddr(host: nat, resolve: nat -> Option<(HwAddr, HwAddr)>)
      requires pageMask == PAGE_MASK && TrackedValid()
      requires isEnabled ==> resolve(host).Some? && PageOf(Paddr(resolve(host).value)) == Paddr(resolve(host).value)
      modifies set s | s in tracker.tracked
      ensures TrackedValid()
      ensures forall s :: s in tracker.tracked ==>
        s.dirty == if isEnabled then AddOnce(old(s.dirty), Paddr(resolve(host).value)) else old(s.dirty)
      ensures forall s :: s in tracker.tracked ==> s.increments == old(s.increments)
    {
      if !isEnabled {
        return;
      }
      var rb := resolve(host);
      var paddr := Paddr(rb.value);
      DirtyListAddInternal(paddr);
    }

    /**
     * `syx_snapshot_increment_push`: a new increment on top of the chain
     * with the RAM pages of the dirty list and the state of every device;
     * the dirty list is then flushed.
     */
    method IncrementPush(s: Snapshot, find: MemoryMap, handlers: seq<DeviceSave.Handler>)
      requires s.Valid()
      requires forall a :: a in s.dirty ==> find(a, blackholeOff) != Unmapped
      modifies s
      ensures s.Valid() && s.dirty == [] && s.dirtyCapacity == old(s.dirtyCapacity)
      ensures |s.increments| == |old(s.increments)| + 1 && s.increments[..|old(s.increments)|] == old(s.increments)
      ensures s.increments[|old(s.increments)|].pages == RamPages(find, blackholeOff, old(s.dirty))
      ensures s.increments[|old(s.increments)|].dss.sections == DeviceSave.SelectedSections(DeviceSave.All, [], handlers)
    {
      var pages := DirtyListToDirtyPageList(find, blackholeOff, s.dirty);
      var dss := DeviceSave.DeviceSaveAll(handlers);
      s.increments := s.increments + [Increment(pages, dss)];
      s.DirtyListFlush();
    }

    /**
     * `syx_snapshot_increment_pop`: restore the dirty pages to the last
     * increment, load its device state, flush the dirty list and drop the
     * increment from the chain. The code reads the last increment without
     * checking it, so there must be one.
     */
    method IncrementPop(s: Snapshot, find: MemoryMap) returns (plan: seq<PageRestore>, loaded: DeviceSave.DeviceSaveState)
      requires s.Valid() && s.increments != [] && MapSound(s.root, find)
      modifies this, s
      ensures (plan, blackholeOff) == RestorePlan(old(s.increments), s.root, find, old(s.dirty), old(blackholeOff))
      ensures loaded == old(s.increments)[|old(s.increments)| - 1].dss
      ensures s.Valid() && s.dirty == [] && s.increments == old(s.increments)[..|old(s.increments)| - 1]
      ensures isEnabled == old(isEnabled)
    {
      plan, blackholeOff := s.RestoreToLastIncrement(find, blackholeOff);
      loaded := s.increments[|s.increments| - 1].dss;
      s.DirtyListFlush();
      s.increments := s.increments[..|s.increments| - 1];
    }

    /** `syx_snapshot_increment_restore_last`: as a pop, but the increment stays. */
    method IncrementRestoreLast(s: Snapshot, find: MemoryMap) returns (plan: seq<PageRestore>, loaded: DeviceSave.DeviceSaveState)
      requires s.Valid() && s.increments != [] && MapSound(s.root, find)
      modifies this, s
      ensures (plan, blackholeOff) == RestorePlan(s.increments, s.root, find, old(s.dirty), old(blackholeOff))
      ensures s.Valid() && s.dirty == [] && s.increments == old(s.increments)
      ensures loaded == s.increments[|s.increments| - 1].dss
      ensures isEnabled == old(isEnabled)
    {
      plan, blackholeOff := s.RestoreToLastIncrement(find, blackholeOff);
      loaded := s.increments[|s.increments| - 1].dss;
      s.DirtyListFlush();
    }

    /**
     * `syx_snapshot_root_restore`: every dirty page from the root, then the
     * blackhole switched back on if a lookup switched it off
     * (`reenabled`), the root device state loaded and the dirty list
     * flushed.
     */
    method RootRestore(s: Snapshot, find: MemoryMap) returns (plan: seq<PageRestore>, reenabled: bool, loaded: DeviceSave.DeviceSaveState)
      requires s.Valid() && MapSound(s.root, find)
      modifies this, s
      ensures plan == RestorePlan([], s.root, find, old(s.dirty), old(blackholeOff)).0
      ensures reenabled == RestorePlan([], s.root, find, old(s.dirty), old(blackholeOff)).1 && !blackholeOff
      ensures loaded == s.root.dss
      ensures s.Valid() && s.dirty == [] && s.increments == old(s.increments)
      ensures isEnabled == old(isEnabled)
    {
      plan, blackholeOff := s.RestoreRootFromDirtyList(find, blackholeOff);
      reenabled := false;
      if blackholeOff {
        reenabled := true;
        blackholeOff := false;
      }
      loaded := s.root.dss;
      s.DirtyListFlush();
    }
  }
}
