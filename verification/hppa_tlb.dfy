// The PA-RISC 1.1 software TLB of target/hppa/mem_helper.c: the entry
// array whose first HPPA_BTLB_ENTRIES slots are block-TLB entries, the
// round-robin replacement pointer `tlb_last`, the ITLBA/ITLBP insertion
// pair, the purges, the PDC_BLOCK_TLB firmware call, and the translation
// with its access-rights and fault checks. The flushes of QEMU's own TLB
// that accompany these updates are not part of this model.
module HppaTlb {
  import opened Common

  /** Block-TLB slots at the front of the array (HPPA_BTLB_FIXED + HPPA_BTLB_VARIABLE = 0 + 16). */
  const HPPA_BTLB_FIXED: nat := 0
  const HPPA_BTLB_VARIABLE: nat := 16
  const HPPA_BTLB_ENTRIES: nat := 16

  const TARGET_PAGE_BITS: nat := 12
  const TARGET_PAGE_SIZE: nat := 4096

  /** QEMU page protection bits. */
  const PAGE_READ: nat := 1
  const PAGE_WRITE: nat := 2
  const PAGE_EXEC: nat := 4

  /** The MMU index with translation disabled; otherwise the index is the privilege level. */
  const MMU_PHYS_IDX: int := 4

  /** Exception numbers of the PA-RISC target. */
  const EXCP_ITLB_MISS: int := 6
  const EXCP_IMP: int := 7
  const EXCP_DTLB_MISS: int := 15
  const EXCP_DMB: int := 19
  const EXCP_TLB_DIRTY: int := 20
  const EXCP_PAGE_REF: int := 21
  const EXCP_DMAR: int := 26
  const EXCP_DMPI: int := 27

  /** PDC return codes left in `gr[28]`. */
  const PDC_OK: int := 0
  const PDC_BAD_OPTION: int := -2
  const PDC_INVALID_ARG: int := -10

  /** `hppa_tlb_entry`: the covered range, the physical page and the access-rights fields. */
  datatype TlbEntry = TlbEntry(
    vaB: u64, vaE: u64, pa: u64,
    accessId: nat, u: bool, arPl2: nat, arPl1: nat, arType: nat,
    b: bool, d: bool, t: bool, valid: bool)

  /** An entry after `memset(ent, 0, ...)`. */
  const ZERO_ENTRY: TlbEntry := TlbEntry(0, 0, 0, 0, false, 0, 0, 0, false, false, false, false)

  /** An entry after `hppa_flush_tlb_ent` cleared it: zeroed, with `va_b = -1` so it covers nothing. */
  const FLUSHED: TlbEntry := ZERO_ENTRY.(vaB := U64_MAX)

  predicate Covers(e: TlbEntry, addr: u64) {
    e.vaB <= addr <= e.vaE
  }

  /** A cleared entry covers no address; a zeroed one still covers address 0. */
  lemma FlushedCoversNothing(addr: u64)
    ensures !Covers(FLUSHED, addr)
    ensures Covers(ZERO_ENTRY, addr) <==> addr == 0
  {
  }

  /** `extract32(v, start, len)` with `unit = 2^start` and `count = 2^len`. */
  function Bits(v: nat, unit: nat, count: nat): (r: nat)
    requires unit > 0 && count > 0
    ensures r < count
  {
    (v / unit) % count
  }

  // ---------------------------------------------------------------------
  // Pure parts: lookup, flushing, access bits, protection
  // ---------------------------------------------------------------------

  /** The lowest index at or after `i` whose range covers `addr`, valid or not. */
  function FindFrom(s: seq<TlbEntry>, addr: u64, i: nat): (k: Option<nat>)
    requires i <= |s|
    ensures k.Some? ==> i <= k.value < |s| && Covers(s[k.value], addr)
    ensures k.Some? ==> forall j :: i <= j < k.value ==> !Covers(s[j], addr)
    ensures k.None? <==> forall j :: i <= j < |s| ==> !Covers(s[j], addr)
    decreases |s| - i
  {
    if i == |s| then None
    else if Covers(s[i], addr) then Some(i)
    else FindFrom(s, addr, i + 1)
  }

  /** The first index in `[lo, hi)` whose range covers `addr`. */
  function FirstCoverIn(s: seq<TlbEntry>, addr: u64, lo: nat, hi: nat): (k: Option<nat>)
    requires hi <= |s|
    ensures k.Some? ==> lo <= k.value < hi && Covers(s[k.value], addr)
    ensures k.Some? ==> forall j :: lo <= j < k.value ==> !Covers(s[j], addr)
    ensures k.None? <==> forall j :: lo <= j < hi ==> !Covers(s[j], addr)
  {
    if hi <= lo then None
    else match FirstCoverIn(s, addr, lo, hi - 1)
      case Some(k) => Some(k)
      case None => if Covers(s[hi - 1], addr) then Some(hi - 1) else None
  }

  /**
   * `hppa_flush_tlb_ent` on slot `i`: invalid entries and (unless forced)
   * BTLB entries are kept, anything else is cleared.
   */
  function Flushed(e: TlbEntry, i: nat, force: bool): (r: TlbEntry)
    ensures !e.valid ==> r == e
    ensures e.valid && (i >= HPPA_BTLB_ENTRIES || force) ==> r == FLUSHED
    ensures e.valid && i < HPPA_BTLB_ENTRIES && !force ==> r == e
    ensures r.valid <==> e.valid && i < HPPA_BTLB_ENTRIES && !force
  {
    if !e.valid then e
    else if i < HPPA_BTLB_ENTRIES && !force then e
    else FLUSHED
  }

  /** `set_access_bits`: the fields of the protection word, and the entry becomes valid. */
  function WithAccessBits(e: TlbEntry, reg: nat): (r: TlbEntry)
    ensures r.valid && r.vaB == e.vaB && r.vaE == e.vaE && r.pa == e.pa
    ensures r.accessId == Bits(reg, 2, 0x40000) && r.u == (Bits(reg, 0x80000, 2) == 1)
    ensures r.arPl2 == Bits(reg, 0x100000, 4) && r.arPl1 == Bits(reg, 0x400000, 4)
    ensures r.arType == Bits(reg, 0x1000000, 8)
    ensures r.b == (Bits(reg, 0x8000000, 2) == 1) && r.d == (Bits(reg, 0x10000000, 2) == 1)
    ensures r.t == (Bits(reg, 0x20000000, 2) == 1)
  {
    e.(accessId := Bits(reg, 2, 0x40000),
       u := Bits(reg, 0x80000, 2) == 1,
       arPl2 := Bits(reg, 0x100000, 4),
       arPl1 := Bits(reg, 0x400000, 4),
       arType := Bits(reg, 0x1000000, 8),
       b := Bits(reg, 0x8000000, 2) == 1,
       d := Bits(reg, 0x10000000, 2) == 1,
       t := Bits(reg, 0x20000000, 2) == 1,
       valid := true)
  }

  function B2N(b: bool): nat {
    if b then 1 else 0
  }

  /** The protection word laid out as the architecture defines it (the inverse of `set_access_bits`). */
  function PackAccessBits(accessId: nat, u: bool, arPl2: nat, arPl1: nat, arType: nat, b: bool, d: bool, t: bool): nat
  {
    accessId * 2 + B2N(u) * 0x80000 + arPl2 * 0x100000 + arPl1 * 0x400000 + arType * 0x1000000 +
    B2N(b) * 0x8000000 + B2N(d) * 0x10000000 + B2N(t) * 0x20000000
  }

  /** Decoding a packed protection word gives back every field. */
  lemma AccessBitsRoundTrip(e: TlbEntry, accessId: nat, u: bool, arPl2: nat, arPl1: nat, arType: nat, b: bool, d: bool, t: bool)
    requires accessId < 0x40000 && arPl2 < 4 && arPl1 < 4 && arType < 8
    ensures var r := WithAccessBits(e, PackAccessBits(accessId, u, arPl2, arPl1, arType, b, d, t));
      r.accessId == accessId && r.u == u && r.arPl2 == arPl2 && r.arPl1 == arPl1 &&
      r.arType == arType && r.b == b && r.d == d && r.t == t
  {
    LowFields(accessId, u, arPl2, arPl1, arType, b, d, t);
    HighFields(accessId, u, arPl2, arPl1, arType, b, d, t);
  }

  /** The access id, the U bit and the two privilege levels of a packed word. */
  lemma LowFields(accessId: nat, u: bool, arPl2: nat, arPl1: nat, arType: nat, b: bool, d: bool, t: bool)
    requires accessId < 0x40000 && arPl2 < 4 && arPl1 < 4 && arType < 8
    ensures var reg := PackAccessBits(accessId, u, arPl2, arPl1, arType, b, d, t);
      Bits(reg, 2, 0x40000) == accessId && Bits(reg, 0x80000, 2) == B2N(u) &&
      Bits(reg, 0x100000, 4) == arPl2 && Bits(reg, 0x400000, 4) == arPl1
  {
    var reg := PackAccessBits(accessId, u, arPl2, arPl1, arType, b, d, t);
    var ub := B2N(u);
    var lo19 := accessId * 2;
    var lo20 := lo19 + 0x80000 * ub;
    var lo22 := lo20 + 0x100000 * arPl2;
    var hi24 := arType + 8 * (B2N(b) + 2 * (B2N(d) + 2 * B2N(t)));
    var hi22 := arPl1 + 4 * hi24;
    var hi20 := arPl2 + 4 * hi22;
    var hi19 := ub + 2 * hi20;
    assert Bits(reg, 2, 0x40000) == accessId by {
      assert reg == 0 + 2 * (accessId + 0x40000 * hi19);
      FieldAt(0, accessId, hi19, 2, 0x40000);
    }
    assert Bits(reg, 0x80000, 2) == ub by {
      assert reg == lo19 + 0x80000 * (ub + 2 * hi20);
      FieldAt(lo19, ub, hi20, 0x80000, 2);
    }
    assert Bits(reg, 0x100000, 4) == arPl2 by {
      assert reg == lo20 + 0x100000 * (arPl2 + 4 * hi22);
      FieldAt(lo20, arPl2, hi22, 0x100000, 4);
    }
    assert Bits(reg, 0x400000, 4) == arPl1 by {
      assert reg == lo22 + 0x400000 * (arPl1 + 4 * hi24);
      FieldAt(lo22, arPl1, hi24, 0x400000, 4);
    }
  }

  /** The access type and the B, D and T bits of a packed word. */
  lemma HighFields(accessId: nat, u: bool, arPl2: nat, arPl1: nat, arType: nat, b: bool, d: bool, t: bool)
    requires accessId < 0x40000 && arPl2 < 4 && arPl1 < 4 && arType < 8
    ensures var reg := PackAccessBits(accessId, u, arPl2, arPl1, arType, b, d, t);
      Bits(reg, 0x1000000, 8) == arType && Bits(reg, 0x8000000, 2) == B2N(b) &&
      Bits(reg, 0x10000000, 2) == B2N(d) && Bits(reg, 0x20000000, 2) == B2N(t)
  {
    var reg := PackAccessBits(accessId, u, arPl2, arPl1, arType, b, d, t);
    var bb, db, tb := B2N(b), B2N(d), B2N(t);
    var lo24 := accessId * 2 + 0x80000 * B2N(u) + 0x100000 * arPl2 + 0x400000 * arPl1;
    var lo27 := lo24 + 0x1000000 * arType;
    var lo28 := lo27 + 0x8000000 * bb;
    var lo29 := lo28 + 0x10000000 * db;
    var hi28 := db + 2 * tb;
    var hi27 := bb + 2 * hi28;
    assert Bits(reg, 0x1000000, 8) == arType by {
      assert reg == lo24 + 0x1000000 * (arType + 8 * hi27);
      FieldAt(lo24, arType, hi27, 0x1000000, 8);
    }
    assert Bits(reg, 0x8000000, 2) == bb by {
      assert reg == lo27 + 0x8000000 * (bb + 2 * hi28);
      FieldAt(lo27, bb, hi28, 0x8000000, 2);
    }
    assert Bits(reg, 0x10000000, 2) == db by {
      assert reg == lo28 + 0x10000000 * (db + 2 * tb);
      FieldAt(lo28, db, tb, 0x10000000, 2);
    }
    assert Bits(reg, 0x20000000, 2) == tb by {
      assert reg == lo29 + 0x20000000 * (tb + 2 * 0);
      FieldAt(lo29, tb, 0, 0x20000000, 2);
    }
  }

  /** The field `x` sits at `unit` in `low + unit * (x + count * high)` when `low < unit` and `x < count`. */
  lemma FieldAt(low: nat, x: nat, high: nat, unit: nat, count: nat)
    requires unit > 0 && count > 0 && low < unit && x < count
    ensures Bits(low + unit * (x + count * high), unit, count) == x
  {
    var q := x + count * high;
    DivUnique(low + unit * q, unit, q, low);
    DivUnique(q, count, high, x);
  }

  /** Euclidean division is determined by quotient and remainder. */
  lemma DivUnique(n: nat, d: nat, q: nat, r: nat)
    requires d > 0 && r < d && n == d * q + r
    ensures n / d == q && n % d == r
  {
    MulGap(d, q, n / d);
    MulGap(d, n / d, q);
  }

  /** Consecutive multiples of `d` are at least `d` apart. */
  lemma MulGap(d: nat, a: nat, b: nat)
    ensures a < b ==> d * a + d <= d * b
  {
    if a < b {
      var k := b - a;
      assert d * b == d * a + d * k;
      assert d * k >= d * 1;
    }
  }

  /** QEMU protection as three flags. */
  datatype Prot = Prot(r: bool, w: bool, x: bool)

  /** The integer `prot` value (PAGE_READ | PAGE_WRITE | PAGE_EXEC subset). */
  function ProtBits(p: Prot): nat {
    (if p.r then PAGE_READ else 0) + (if p.w then PAGE_WRITE else 0) + (if p.x then PAGE_EXEC else 0)
  }

  /** The `type` argument: 0 (a non-architectural access from inside QEMU) or one of the page bits. */
  datatype AccessType = NonArch | ReadAccess | WriteAccess | ExecAccess

  predicate Allows(p: Prot, ty: AccessType) {
    match ty
    case NonArch => false
    case ReadAccess => p.r
    case WriteAccess => p.w
    case ExecAccess => p.x
  }

  predicate SubProt(p: Prot, q: Prot) {
    (p.r ==> q.r) && (p.w ==> q.w) && (p.x ==> q.x)
  }

  /**
   * The access-rights table: read if `priv <= PL1`, write if
   * `priv <= PL2`, execute if `PL2 <= priv <= PL1`, combined by `ar_type`
   * (0 read-only, 1 read/write, 2 read/execute, 3 read/write/execute,
   * 4..7 execute only).
   */
  function BaseProt(e: TlbEntry, priv: int): (p: Prot)
    ensures p.r ==> e.arType <= 3 && priv <= e.arPl1
    ensures p.w ==> (e.arType == 1 || e.arType == 3) && priv <= e.arPl2
    ensures p.x ==> e.arType != 0 && e.arType != 1 && e.arPl2 <= priv <= e.arPl1
  {
    var r := priv <= e.arPl1;
    var w := priv <= e.arPl2;
    var x := e.arPl2 <= priv <= e.arPl1;
    match e.arType
    case 0 => Prot(r, false, false)
    case 1 => Prot(r, w, false)
    case 2 => Prot(r, false, x)
    case 3 => Prot(r, w, x)
    case _ => Prot(false, false, x)
  }

  /** The result of `hppa_get_physical_address`: the return code (-1 for none), `*pphys`, `*pprot` and `*tlb_entry`. */
  datatype Translation = Translation(ret: int, phys: u64, prot: Prot, entry: Option<nat>)

  /**
   * The checks after the rights table: the D, B and T bits are examined in
   * reverse priority order, each stripping the permissions it covers, so
   * the last applicable fault wins.
   */
  function BitChecks(e: TlbEntry, p: Prot, ty: AccessType): (r: (int, Prot))
    requires ty != NonArch
  {
    var (r1, p1) := if !e.d then (if ty == WriteAccess then EXCP_TLB_DIRTY else -1, p.(w := false)) else (-1, p);
    var (r2, p2) := if e.b then (if ty == WriteAccess then EXCP_DMB else r1, p1.(w := false)) else (r1, p1);
    if e.t then (if ty != ExecAccess then EXCP_PAGE_REF else r2, Prot(false, false, p2.x)) else (r2, p2)
  }

  /** With the PSW P bit set, a non-public entry whose `access_id * 2 + 1` is one of the protection-id registers is write-suppressed. */
  predicate PidMatch(e: TlbEntry, pswP: bool, pids: seq<int>) {
    pswP && e.accessId != 0 && e.accessId * 2 + 1 in pids
  }

  /** The rights table with write permission removed on a protection-id match. */
  function PidProt(e: TlbEntry, pswP: bool, pids: seq<int>, priv: int): (p: Prot)
    ensures SubProt(p, BaseProt(e, priv))
    ensures PidMatch(e, pswP, pids) ==> !p.w
  {
    if PidMatch(e, pswP, pids) then BaseProt(e, priv).(w := false) else BaseProt(e, priv)
  }

  /**
   * The fault the architecture assigns to a permitted access by priority:
   * page reference (T bit, not an instruction fetch) first, then data
   * memory break (B bit, a write), then TLB dirty (D bit clear, a write);
   * -1 when none applies.
   */
  function BitFault(e: TlbEntry, ty: AccessType): int {
    if e.t && ty != ExecAccess then EXCP_PAGE_REF
    else if e.b && ty == WriteAccess then EXCP_DMB
    else if !e.d && ty == WriteAccess then EXCP_TLB_DIRTY
    else -1
  }

  /** The protection-id check, the bypass for non-architectural accesses and the rights check. */
  function Checks(e: TlbEntry, pswP: bool, pids: seq<int>, priv: int, ty: AccessType): (r: (int, Prot))
  {
    var pidMatch := PidMatch(e, pswP, pids);
    var p := PidProt(e, pswP, pids, priv);
    if pidMatch && ty == WriteAccess then (EXCP_DMPI, p)
    else if ty == NonArch then (-1, p)
    else if !Allows(p, ty) then (if ty == ExecAccess then EXCP_IMP else EXCP_DMAR, p)
    else BitChecks(e, p, ty)
  }

  /**
   * `hppa_get_physical_address` on the entry array `tlb`, with the PSW P
   * bit and the four protection-id registers: the identity map for
   * MMU_PHYS_IDX; a miss exception when no valid entry covers `addr`;
   * otherwise `pa + (addr - va_b)` and the checked protection.
   */
  function PhysicalAddress(tlb: seq<TlbEntry>, pswP: bool, pids: seq<int>, addr: u64, mmuIdx: int, ty: AccessType): (t: Translation)
  {
    if mmuIdx == MMU_PHYS_IDX then Translation(-1, addr, Prot(true, true, true), None)
    else match FindFrom(tlb, addr, 0)
      case None => Translation(if ty == ExecAccess then EXCP_ITLB_MISS else EXCP_DTLB_MISS, 0, Prot(false, false, false), None)
      case Some(k) =>
        if !tlb[k].valid then
          Translation(if ty == ExecAccess then EXCP_ITLB_MISS else EXCP_DTLB_MISS, 0, Prot(false, false, false), None)
        else
          var (ret, prot) := Checks(tlb[k], pswP, pids, mmuIdx, ty);
          Translation(ret, (tlb[k].pa + (addr - tlb[k].vaB)) % U64_LIMIT, prot, Some(k))
  }

  /**
   * The translation contract: physical mode maps 1:1 with every
   * permission; a miss reports no entry, address 0 and no permission;
   * a hit never grants more than the rights table, never faults a
   * non-architectural access, and when it reports no fault for an
   * architectural access it permits exactly that access.
   */
  lemma PhysicalAddressSpec(tlb: seq<TlbEntry>, pswP: bool, pids: seq<int>, addr: u64, mmuIdx: int, ty: AccessType)
    ensures var t := PhysicalAddress(tlb, pswP, pids, addr, mmuIdx, ty);
      mmuIdx == MMU_PHYS_IDX ==> t == Translation(-1, addr, Prot(true, true, true), None)
    ensures var t := PhysicalAddress(tlb, pswP, pids, addr, mmuIdx, ty);
      mmuIdx != MMU_PHYS_IDX && t.entry.None? ==>
        t.phys == 0 && t.prot == Prot(false, false, false) &&
        t.ret == (if ty == ExecAccess then EXCP_ITLB_MISS else EXCP_DTLB_MISS) &&
        forall j :: 0 <= j < |tlb| && Covers(tlb[j], addr) ==> !tlb[FindFrom(tlb, addr, 0).value].valid
    ensures var t := PhysicalAddress(tlb, pswP, pids, addr, mmuIdx, ty);
      t.entry.Some? ==>
        var e := tlb[t.entry.value];
        t.entry.value < |tlb| && e.valid && Covers(e, addr) &&
        t.phys == (e.pa + (addr - e.vaB)) % U64_LIMIT &&
        SubProt(t.prot, BaseProt(e, mmuIdx)) &&
        (ty == NonArch ==> t.ret == -1) &&
        (ty != NonArch && t.ret == -1 ==> Allows(t.prot, ty))
  {
    if mmuIdx != MMU_PHYS_IDX {
      var k := FindFrom(tlb, addr, 0);
      if k.Some? && tlb[k.value].valid {
        var e := tlb[k.value];
        var p := PidProt(e, pswP, pids, mmuIdx);
        if ty != NonArch && Allows(p, ty) {
          BitChecksSpec(e, p, ty);
        }
      }
    }
  }

  /** The D/B/T stage only removes permissions, and lets the access through only when it stays permitted. */
  lemma BitChecksSpec(e: TlbEntry, p: Prot, ty: AccessType)
    requires ty != NonArch && Allows(p, ty)
    ensures SubProt(BitChecks(e, p, ty).1, p)
    ensures BitChecks(e, p, ty).0 == -1 ==> Allows(BitChecks(e, p, ty).1, ty)
    ensures e.t && ty != ExecAccess ==> BitChecks(e, p, ty).0 == EXCP_PAGE_REF
    ensures !e.t && e.b && ty == WriteAccess ==> BitChecks(e, p, ty).0 == EXCP_DMB
    ensures !e.t && !e.b && !e.d && ty == WriteAccess ==> BitChecks(e, p, ty).0 == EXCP_TLB_DIRTY
    ensures e.d && !e.b && !e.t ==> BitChecks(e, p, ty) == (-1, p)
    ensures BitChecks(e, p, ty).0 == BitFault(e, ty)
    ensures BitChecks(e, p, ty).1 == Prot(p.r && !e.t, p.w && e.d && !e.b && !e.t, p.x)
  {
  }

  /**
   * Which fault a hit raises: a write to a protection-id-matched page is
   * a data memory protection-id trap; an access the rights deny is an
   * instruction (fetch) or data memory access-rights trap; a permitted
   * access gets the D/B/T fault of `BitFault`, so an entry with D set and
   * B, T clear lets it through with the permissions of the rights check.
   */
  lemma PhysicalAddressFaults(tlb: seq<TlbEntry>, pswP: bool, pids: seq<int>, addr: u64, mmuIdx: int, ty: AccessType)
    requires mmuIdx != MMU_PHYS_IDX
    ensures var t := PhysicalAddress(tlb, pswP, pids, addr, mmuIdx, ty);
      t.entry.Some? ==>
        var e := tlb[t.entry.value];
        var p := PidProt(e, pswP, pids, mmuIdx);
        t.entry.value < |tlb| &&
        (PidMatch(e, pswP, pids) && ty == WriteAccess ==> t.ret == EXCP_DMPI) &&
        (ty != NonArch && !(PidMatch(e, pswP, pids) && ty == WriteAccess) && !Allows(p, ty) ==>
           t.ret == (if ty == ExecAccess then EXCP_IMP else EXCP_DMAR) && t.prot == p) &&
        (ty != NonArch && Allows(p, ty) ==> t.ret == BitFault(e, ty)) &&
        (ty != NonArch && Allows(p, ty) && e.d && !e.b && !e.t ==> t.ret == -1 && t.prot == p)
  {
    var k := FindFrom(tlb, addr, 0);
    if k.Some? && tlb[k.value].valid {
      var e := tlb[k.value];
      var p := PidProt(e, pswP, pids, mmuIdx);
      if ty != NonArch && Allows(p, ty) {
        BitChecksSpec(e, p, ty);
      }
    }
  }

  // ---------------------------------------------------------------------
  // Round-robin replacement
  // ---------------------------------------------------------------------

  /** The slot `hppa_alloc_tlb_ent` takes: `tlb_last` if it is a non-block slot, else the first non-block slot. */
  function AllocIndex(last: nat, n: nat): nat {
    if last < HPPA_BTLB_ENTRIES || last >= n then HPPA_BTLB_ENTRIES else last
  }

  /** `tlb_last` after the allocation. */
  function NextLast(last: nat, n: nat): nat {
    if last < HPPA_BTLB_ENTRIES || last >= n then HPPA_BTLB_ENTRIES + 1 else last + 1
  }

  /** Allocations cycle through the non-block slots in order and never pick a block slot. */
  lemma AllocRoundRobin(last: nat, n: nat)
    requires n > HPPA_BTLB_ENTRIES
    ensures HPPA_BTLB_ENTRIES <= AllocIndex(last, n) < n
    ensures AllocIndex(NextLast(last, n), n) ==
      (if AllocIndex(last, n) + 1 < n then AllocIndex(last, n) + 1 else HPPA_BTLB_ENTRIES)
  {
  }

  // ---------------------------------------------------------------------
  // The CPU's TLB state
  // ---------------------------------------------------------------------

  /** The entries with every valid non-block entry covering `addr` cleared (the first loop of ITLBA). */
  function Zapped(s: seq<TlbEntry>, addr: u64): (z: seq<TlbEntry>)
    ensures |z| == |s|
    ensures forall j :: 0 <= j < |s| && j < HPPA_BTLB_ENTRIES ==> z[j] == s[j]
    ensures forall j :: HPPA_BTLB_ENTRIES <= j < |s| ==> !(z[j].valid && Covers(z[j], addr))
  {
    seq(|s|, j requires 0 <= j < |s| =>
      if j >= HPPA_BTLB_ENTRIES && s[j].valid && Covers(s[j], addr) then FLUSHED else s[j])
  }

  /** The page fields ITLBA writes: the page of `addr` and the physical page from bits 5..24 of `reg`. */
  function Placed(e: TlbEntry, addr: u64, reg: nat): (r: TlbEntry)
    ensures Covers(r, addr) && r.vaE - r.vaB == TARGET_PAGE_SIZE - 1 && r.vaB % TARGET_PAGE_SIZE == 0
    ensures r.valid == e.valid
  {
    var vaB := addr / TARGET_PAGE_SIZE * TARGET_PAGE_SIZE;
    e.(vaB := vaB, vaE := vaB + TARGET_PAGE_SIZE - 1, pa := Bits(reg, 32, 0x100000) * TARGET_PAGE_SIZE)
  }

  /** The registers `diag_btlb` reads (`gr[19..25]`). */
  datatype PdcArgs = PdcArgs(gr19: u32, gr20: u32, gr21: u32, gr22: u32, gr23: u32, gr24: u32, gr25: u32)

  class HppaCpu {
    const tlb: array<TlbEntry>
    var tlbLast: nat

    ghost predicate Valid()
      reads this
    {
      tlb.Length > HPPA_BTLB_ENTRIES
    }

    constructor (n: nat)
      requires n > HPPA_BTLB_ENTRIES
      ensures Valid() && fresh(tlb) && tlb.Length == n && tlbLast == 0
      ensures forall j :: 0 <= j < n ==> tlb[j] == ZERO_ENTRY
    {
      tlb := new TlbEntry[n](_ => ZERO_ENTRY);
      tlbLast := 0;
    }

    /** `hppa_find_tlb`: the lowest slot whose range covers `addr`, whether valid or not. */
    method FindTlb(addr: u64) returns (k: Option<nat>)
      ensures k == FindFrom(tlb[..], addr, 0)
    {
      var i := 0;
      while i < tlb.Length
        invariant 0 <= i <= tlb.Length
        invariant FindFrom(tlb[..], addr, i) == FindFrom(tlb[..], addr, 0)
      {
        if tlb[i].vaB <= addr && addr <= tlb[i].vaE {
          return Some(i);
        }
        i := i + 1;
      }
      return None;
    }

    /** `hppa_flush_tlb_ent` on slot `i`. */
    method FlushEnt(i: nat, force: bool)
      requires i < tlb.Length
      modifies tlb
      ensures tlb[..] == old(tlb[..])[i := Flushed(old(tlb[i]), i, force)]
    {
      if !tlb[i].valid {
        return;
      }
      if i < HPPA_BTLB_ENTRIES && !force {
        return;
      }
      tlb[i] := FLUSHED;
    }

    /**
     * `hppa_alloc_tlb_ent`: take the round-robin slot, advance `tlb_last`
     * and clear the slot; block slots are never touched.
     */
    method AllocTlbEnt() returns (i: nat)
      requires Valid()
      modifies this, tlb
      ensures Valid()
      ensures i == AllocIndex(old(tlbLast), tlb.Length) && tlbLast == NextLast(old(tlbLast), tlb.Length)
      ensures HPPA_BTLB_ENTRIES <= i < tlb.Length
      ensures tlb[..] == old(tlb[..])[i := Flushed(old(tlb[i]), i, false)]
      ensures !tlb[i].valid
    {
      if tlbLast < HPPA_BTLB_ENTRIES || tlbLast >= tlb.Length {
        i := HPPA_BTLB_ENTRIES;
        tlbLast := HPPA_BTLB_ENTRIES + 1;
      } else {
        i := tlbLast;
        tlbLast := tlbLast + 1;
      }
      FlushEnt(i, false);
    }

    /**
     * `hppa_get_physical_address` with this CPU's entries; `pswP` is the
     * PSW P bit and `pids` the four protection-id registers.
     */
    method GetPhysicalAddress(pswP: bool, pids: seq<int>, addr: u64, mmuIdx: int, ty: AccessType)
      returns (t: Translation)
      ensures t == PhysicalAddress(tlb[..], pswP, pids, addr, mmuIdx, ty)
    {
      if mmuIdx == MMU_PHYS_IDX {
        return Translation(-1, addr, Prot(true, true, true), None);
      }
      var k := FindTlb(addr);
      var miss := if ty == ExecAccess then EXCP_ITLB_MISS else EXCP_DTLB_MISS;
      if k.None? || !tlb[k.value].valid {
        return Translation(miss, 0, Prot(false, false, false), None);
      }
      var e := tlb[k.value];
      var (ret, prot) := Checks(e, pswP, pids, mmuIdx, ty);
      t := Translation(ret, (e.pa + (addr - e.vaB)) % U64_LIMIT, prot, k);
    }

    /**
     * ITLBA: clear every valid non-block entry covering `addr`, reuse the
     * first non-block entry that covered it (or allocate one), and give it
     * the page of `addr` and the physical page from `reg`. The entry stays
     * invalid until ITLBP; block entries are untouched.
     */
    method Itlba(addr: u64, reg: u32)
      requires Valid()
      modifies this, tlb
      ensures Valid()
      ensures var z := Zapped(old(tlb[..]), addr);
        match FirstCoverIn(old(tlb[..]), addr, HPPA_BTLB_ENTRIES, tlb.Length)
        case Some(k) => tlbLast == old(tlbLast) && tlb[..] == z[k := Placed(z[k], addr, reg)]
        case None =>
          var i := AllocIndex(old(tlbLast), tlb.Length);
          tlbLast == NextLast(old(tlbLast), tlb.Length) &&
          tlb[..] == z[i := Placed(Flushed(z[i], i, false), addr, reg)]
      ensures forall j :: 0 <= j < HPPA_BTLB_ENTRIES ==> tlb[j] == old(tlb[j])
      ensures forall j :: HPPA_BTLB_ENTRIES <= j < tlb.Length ==> !(tlb[j].valid && Covers(tlb[j], addr))
    {
      ghost var s := tlb[..];
      ghost var z := Zapped(s, addr);
      var empty: Option<nat> := None;
      var i := HPPA_BTLB_ENTRIES;
      while i < tlb.Length
        invariant HPPA_BTLB_ENTRIES <= i <= tlb.Length
        invariant forall j :: 0 <= j < tlb.Length ==> tlb[j] == (if HPPA_BTLB_ENTRIES <= j < i then z[j] else s[j])
        invariant empty == FirstCoverIn(s, addr, HPPA_BTLB_ENTRIES, i)
        invariant tlbLast == old(tlbLast)
      {
        if tlb[i].vaB <= addr && addr <= tlb[i].vaE {
          if tlb[i].valid {
            FlushEnt(i, false);
          }
          if empty.None? {
            empty := Some(i);
          }
        }
        i := i + 1;
      }
      assert tlb[..] == z;
      var slot: nat;
      if empty.None? {
        slot := AllocTlbEnt();
      } else {
        slot := empty.value;
      }
      tlb[slot] := Placed(tlb[slot], addr, reg);
    }

    /** ITLBP: set the access bits of the entry covering `addr`; nothing when none does. */
    method Itlbp(addr: u64, reg: u32)
      modifies tlb
      ensures match FindFrom(old(tlb[..]), addr, 0)
        case None => tlb[..] == old(tlb[..])
        case Some(k) => tlb[..] == old(tlb[..])[k := WithAccessBits(old(tlb[k]), reg)]
    {
      var k := FindTlb(addr);
      if k.None? {
        return;
      }
      tlb[k.value] := WithAccessBits(tlb[k.value], reg);
    }

    /** The per-CPU work of PTLB: clear the entry covering `addr` when it is valid (block entries stay). */
    method PtlbWork(addr: u64)
      modifies tlb
      ensures match FindFrom(old(tlb[..]), addr, 0)
        case None => tlb[..] == old(tlb[..])
        case Some(k) => tlb[..] == old(tlb[..])[k := Flushed(old(tlb[k]), k, false)]
    {
      var k := FindTlb(addr);
      if k.Some? && tlb[k.value].valid {
        FlushEnt(k.value, false);
      }
    }

    /** PTLBE: zero every non-block entry and restart the round robin at the first non-block slot. */
    method Ptlbe()
      requires Valid()
      modifies this, tlb
      ensures Valid() && tlbLast == HPPA_BTLB_ENTRIES
      ensures forall j :: 0 <= j < tlb.Length ==> tlb[j] == (if j < HPPA_BTLB_ENTRIES then old(tlb[j]) else ZERO_ENTRY)
    {
      forall j | HPPA_BTLB_ENTRIES <= j < tlb.Length {
        tlb[j] := ZERO_ENTRY;
      }
      tlbLast := HPPA_BTLB_ENTRIES;
    }

    /** `hppa_artype_for_page`: the `ar_type` of the covering entry (valid or not), else -1. */
    method ArtypeForPage(vaddr: u64) returns (r: int)
      ensures match FindFrom(tlb[..], vaddr, 0)
        case None => r == -1
        case Some(k) => r == tlb[k].arType
    {
      var k := FindTlb(vaddr);
      r := if k.Some? then tlb[k.value].arType else -1;
    }

    /**
     * `diag_btlb`, the PDC_BLOCK_TLB firmware call on a 32-bit CPU, with
     * the option in `gr[25]`: 0 reports the block-TLB parameters (written
     * to guest memory when `probeOk`), 1 inserts a block entry, 2 purges one
     * slot, 3 purges every block slot. Returns the new `gr[28]` and the
     * parameter words written; the non-block entries never change.
     */
    method DiagBtlb(args: PdcArgs, probeOk: bool) returns (gr28: int, info: Option<seq<nat>>)
      requires Valid()
      modifies tlb
      ensures forall j :: HPPA_BTLB_ENTRIES <= j < tlb.Length ==> tlb[j] == old(tlb[j])
      ensures args.gr25 == 0 ==> (tlb[..] == old(tlb[..]) &&
        (if probeOk then gr28 == PDC_OK && info == Some([1, 16 * 1024, HPPA_BTLB_FIXED, HPPA_BTLB_VARIABLE])
         else gr28 == PDC_INVALID_ARG && info == None))
      ensures args.gr25 == 1 && args.gr19 < HPPA_BTLB_ENTRIES ==>
        (gr28 == PDC_OK && tlb[..] == old(tlb[..])[args.gr19 := BtlbEntry(args)])
      ensures args.gr25 == 2 && args.gr22 < HPPA_BTLB_ENTRIES ==>
        (gr28 == PDC_OK && tlb[..] == old(tlb[..])[args.gr22 := Flushed(old(tlb[args.gr22]), args.gr22, true)])
      ensures (args.gr25 == 1 && args.gr19 >= HPPA_BTLB_ENTRIES) || (args.gr25 == 2 && args.gr22 >= HPPA_BTLB_ENTRIES) ==>
        (gr28 == PDC_INVALID_ARG && tlb[..] == old(tlb[..]))
      ensures args.gr25 == 3 ==>
        (gr28 == PDC_OK && forall j :: 0 <= j < HPPA_BTLB_ENTRIES ==> tlb[j] == Flushed(old(tlb[j]), j, true))
      ensures args.gr25 > 3 ==> gr28 == PDC_BAD_OPTION && tlb[..] == old(tlb[..])
      ensures args.gr25 != 0 ==> info == None
    {
      gr28 := PDC_OK;
      info := None;
      if args.gr25 == 0 {
        if probeOk {
          info := Some([1, 16 * 1024, HPPA_BTLB_FIXED, HPPA_BTLB_VARIABLE]);
        } else {
          gr28 := PDC_INVALID_ARG;
        }
      } else if args.gr25 == 1 {
        if args.gr19 < HPPA_BTLB_ENTRIES {
          FlushEnt(args.gr19, true);
          tlb[args.gr19] := BtlbEntry(args);
        } else {
          gr28 := PDC_INVALID_ARG;
        }
      } else if args.gr25 == 2 {
        if args.gr22 < HPPA_BTLB_ENTRIES {
          FlushEnt(args.gr22, true);
        } else {
          gr28 := PDC_INVALID_ARG;
        }
      } else if args.gr25 == 3 {
        var slot := 0;
        while slot < HPPA_BTLB_ENTRIES
          invariant 0 <= slot <= HPPA_BTLB_ENTRIES
          invariant forall j :: 0 <= j < tlb.Length ==>
            tlb[j] == (if j < slot then Flushed(old(tlb[j]), j, true) else old(tlb[j]))
        {
          FlushEnt(slot, true);
          slot := slot + 1;
        }
      } else {
        gr28 := PDC_BAD_OPTION;
      }
    }
  }

  /**
   * The block entry PDC_BTLB_INSERT builds in a cleared slot: virtual page
   * `gr[24]:gr[23]`, `len = gr[21]` pages (the byte length is computed in
   * 32-bit unsigned arithmetic), physical page `gr[22]` (shifted in 32
   * bits), access bits from `gr[20]`, then T cleared and D set.
   */
  function BtlbEntry(args: PdcArgs): (e: TlbEntry)
    ensures e.valid && e.d && !e.t
    ensures e.vaB == (args.gr24 * 0x1_0000_0000 + args.gr23) * TARGET_PAGE_SIZE % U64_LIMIT
    ensures e.vaE == (e.vaB + args.gr21 * TARGET_PAGE_SIZE % 0x1_0000_0000 - 1) % U64_LIMIT
    ensures e.pa == args.gr22 * TARGET_PAGE_SIZE % 0x1_0000_0000
    ensures e.accessId == Bits(args.gr20, 2, 0x40000) && e.u == (Bits(args.gr20, 0x80000, 2) == 1)
    ensures e.arPl2 == Bits(args.gr20, 0x100000, 4) && e.arPl1 == Bits(args.gr20, 0x400000, 4)
    ensures e.arType == Bits(args.gr20, 0x1000000, 8) && e.b == (Bits(args.gr20, 0x8000000, 2) == 1)
  {
    var virtPage := args.gr24 * 0x1_0000_0000 + args.gr23;
    var vaB := virtPage * TARGET_PAGE_SIZE % U64_LIMIT;
    var bytes := args.gr21 * TARGET_PAGE_SIZE % 0x1_0000_0000;
    var placed := FLUSHED.(vaB := vaB, vaE := (vaB + bytes - 1) % U64_LIMIT,
                           pa := args.gr22 * TARGET_PAGE_SIZE % 0x1_0000_0000);
    WithAccessBits(placed, args.gr20).(t := false, d := true)
  }
}
