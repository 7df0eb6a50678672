// The per-core inter-processor-interrupt register block of
// hw/intc/loongarch_ipi.c: the STATUS/EN/SET/CLEAR registers, the eight
// 32-bit mailbox words, and the three send registers, whose 64-bit values
// are decoded into a target CPU, an IOCSR address and a data word. The
// IOCSR stores and the IRQ line changes are returned as effects.
module LoongArchIpi {
  import opened Common

  /** Register offsets within the 0x100-byte IOCSR window of one core. */
  const CORE_STATUS_OFF: nat := 0x0
  const CORE_EN_OFF: nat := 0x4
  const CORE_SET_OFF: nat := 0x8
  const CORE_CLEAR_OFF: nat := 0xc
  const CORE_BUF_20: nat := 0x20
  const CORE_BUF_38: nat := 0x38
  const IOCSR_IPI_SEND: nat := 0x40
  const IOCSR_MAIL_SEND: nat := 0x48
  const IOCSR_ANY_SEND: nat := 0x158

  /** Mailboxes per core; each 64-bit mailbox is kept as two 32-bit words. */
  const IPI_MBX_NUM: nat := 4

  /** The IOCSR addresses the send registers store to on the target CPU. */
  const IOCSR_IPI_SET: nat := 0x1008
  const IOCSR_MBUF_BASE: nat := 0x1020

  /** What a register access does outside the core's own fields. */
  datatype Effect =
    | RaiseIrq
    | LowerIrq
    | SetCpuIpiIrq(cpuid: nat)
    | IocsrStore(cpuid: nat, addr: nat, data: nat)

  /**
   * The 32-bit registers and data words are kept in 64-bit vectors whose
   * high half is zero; `Lo32` is the truncation a store to a `uint32_t`
   * field performs.
   */
  function Lo32(v: bv64): (r: bv64)
    ensures r <= 0xFFFF_FFFF
  {
    v & 0xFFFF_FFFF
  }

  /** The offsets `CORE_BUF_20 ... CORE_BUF_38 + 4` the mailbox case covers. */
  predicate IsBuf(a: nat) {
    CORE_BUF_20 <= a <= CORE_BUF_38 + 4
  }

  /** `(addr - CORE_BUF_20) >> 2`: the 32-bit word a mailbox offset selects. */
  function BufIndex(a: nat): (i: nat)
    requires IsBuf(a)
    ensures i < IPI_MBX_NUM * 2 && CORE_BUF_20 + 4 * i <= a < CORE_BUF_20 + 4 * i + 4
  {
    (a - CORE_BUF_20) / 4
  }

  // ---------------------------------------------------------------------
  // get_ipi_data
  // ---------------------------------------------------------------------

  // The data word is kept as its four byte lanes (lane k is bits 8k..8k+7);
  // clearing lane k is the AND with `~(0xff << (k * 8))` the source performs.

  /** Byte `k` of the high half of `val`, i.e. byte `k` of `val >> 32`. */
  function HiByte(val: bv64, k: nat): (b: nat)
    requires k < 4
    ensures b < 256
  {
    (match k
     case 0 => (val >> 32) & 0xff
     case 1 => (val >> 40) & 0xff
     case 2 => (val >> 48) & 0xff
     case _ => (val >> 56) & 0xff) as bv8 as nat
  }

  /** Bit `k` of the lane mask `(val >> 27) & 0xf`, i.e. bit `27 + k` of `val`. */
  predicate MaskBit(val: bv64, k: nat)
    requires k < 4
  {
    match k
    case 0 => val & 0x800_0000 != 0
    case 1 => val & 0x1000_0000 != 0
    case 2 => val & 0x2000_0000 != 0
    case _ => val & 0x4000_0000 != 0
  }

  /** The value of four little-endian byte lanes. */
  function Word(lanes: seq<nat>): (w: nat)
    requires |lanes| == 4 && forall k :: 0 <= k < 4 ==> lanes[k] < 256
    ensures w < 0x1_0000_0000
  {
    lanes[0] + 0x100 * lanes[1] + 0x1_0000 * lanes[2] + 0x100_0000 * lanes[3]
  }

  /** The data word of a mail or any send: the high half of `val`, each lane zero when its mask bit is set. */
  function IpiLanes(val: bv64): (lanes: seq<nat>)
    ensures |lanes| == 4 && forall k :: 0 <= k < 4 ==> lanes[k] < 256
  {
    seq(4, k requires 0 <= k < 4 => if MaskBit(val, k) then 0 else HiByte(val, k))
  }

  function IpiData(val: bv64): (data: nat)
    ensures data < 0x1_0000_0000
  {
    Word(IpiLanes(val))
  }

  /** With no lane masked the data word is the whole high half. */
  lemma IpiDataUnmasked(val: bv64)
    requires forall k :: 0 <= k < 4 ==> !MaskBit(val, k)
    ensures forall k :: 0 <= k < 4 ==> IpiLanes(val)[k] == HiByte(val, k)
  {
  }

  /** `get_ipi_data`: start from `val >> 32` and clear, lane by lane, the bytes the mask selects. */
  method GetIpiData(val: bv64) returns (data: seq<nat>)
    ensures data == IpiLanes(val)
  {
    data := [HiByte(val, 0), HiByte(val, 1), HiByte(val, 2), HiByte(val, 3)];
    var i: nat := 0;
    while i < 4
      invariant i <= 4 && |data| == 4
      invariant forall k :: 0 <= k < 4 ==> data[k] == if k < i && MaskBit(val, k) then 0 else HiByte(val, k)
    {
      if MaskBit(val, i) {
        data := data[i := 0];
      }
      i := i + 1;
    }
  }

  // ---------------------------------------------------------------------
  // The send registers
  // ---------------------------------------------------------------------

  /** `(val >> 16) & 0x3ff`: the target CPU of every send. */
  function CpuId(val: bv64): (c: nat)
    ensures c < 1024
  {
    ((val >> 16) & 0x3ff) as bv10 as nat
  }

  /** `1 << (val & 0x1f)`: a single bit of the 32-bit status word. */
  function IpiVector(val: bv64): (data: nat)
    ensures data == Pow2(VectorBit(val)) && 1 <= data < 0x1_0000_0000
  {
    Pow2Monotone(VectorBit(val), 32);
    Pow2Of32();
    Pow2(VectorBit(val))
  }

  /** `val & 0x1f`: the status bit IPI_SEND sets. */
  function VectorBit(val: bv64): (n: nat)
    ensures n < 32
  {
    (val & 0x1f) as bv5 as nat
  }

  /** `0x1020 + (val & 0x1c)`: one of the eight mailbox words of the target. */
  function MailAddr(val: bv64): (a: nat)
    ensures IOCSR_MBUF_BASE <= a < IOCSR_MBUF_BASE + 0x20 && a % 4 == 0
  {
    IOCSR_MBUF_BASE + 4 * ((val >> 2) & 0x7) as bv3 as nat
  }

  /** `val & 0xffff`: any IOCSR address in the first 64 KiB. */
  function AnyAddr(val: bv64): (a: nat)
    ensures a < 0x10000
  {
    (val & 0xffff) as bv16 as nat
  }

  /** `ipi_send`: raise the target's IPI line and set the vector bit in its SET register. */
  function IpiSend(val: bv64): (es: seq<Effect>)
    ensures |es| == 2 && es[0] == SetCpuIpiIrq(CpuId(val))
    ensures es[1].IocsrStore? && es[1].cpuid == CpuId(val) && es[1].addr == IOCSR_IPI_SET
    ensures es[1].data == IpiVector(val)
  {
    [SetCpuIpiIrq(CpuId(val)), IocsrStore(CpuId(val), IOCSR_IPI_SET, IpiVector(val))]
  }

  /** The one store `mail_send` makes: the masked data word into a mailbox word of the target. */
  function MailEffects(val: bv64): (es: seq<Effect>)
    ensures |es| == 1 && es[0].IocsrStore? && es[0].cpuid == CpuId(val)
    ensures es[0].addr == MailAddr(val) && es[0].data == IpiData(val)
  {
    [IocsrStore(CpuId(val), MailAddr(val), IpiData(val))]
  }

  /** `mail_send`: store the masked data word into a mailbox word of the target. */
  method MailSend(val: bv64) returns (es: seq<Effect>)
    ensures es == MailEffects(val)
  {
    var data := GetIpiData(val);
    es := [IocsrStore(CpuId(val), MailAddr(val), Word(data))];
  }

  /** `any_send`: store the masked data word at any IOCSR address of the target. */
  method AnySend(val: bv64) returns (es: seq<Effect>)
    ensures es == [IocsrStore(CpuId(val), AnyAddr(val), IpiData(val))]
  {
    var data := GetIpiData(val);
    es := [IocsrStore(CpuId(val), AnyAddr(val), Word(data))];
  }

  /**
   * Both handlers keep only the low 8 bits of the offset, so the
   * IOCSR_ANY_SEND case of the write handler can never be selected.
   */
  lemma AnySendOffsetUnreachable(addr: nat)
    ensures addr % 0x100 != IOCSR_ANY_SEND
  {
  }

  /** After a SET write: the line is raised iff an enabled bit is pending. */
  function SetIrq(status: bv64, en: bv64): (es: seq<Effect>)
    ensures es == [] || es == [RaiseIrq]
    ensures es == [RaiseIrq] <==> status & en != 0
  {
    if status != 0 && status & en != 0 then [RaiseIrq] else []
  }

  /**
   * After a CLEAR write: the line is lowered iff nothing is pending and EN
   * is non-zero (with EN zero the line is left as it is).
   */
  function ClearIrq(status: bv64, en: bv64): (es: seq<Effect>)
    ensures es == [] || es == [LowerIrq]
    ensures es == [LowerIrq] <==> status == 0 && en != 0
  {
    if status == 0 && en != 0 then [LowerIrq] else []
  }

  // ---------------------------------------------------------------------
  // One core's registers
  // ---------------------------------------------------------------------

  /** `IPICore`: STATUS, EN and the mailbox words. */
  class IpiCore {
    var status: bv64
    var en: bv64
    const buf: array<bv64>

    ghost predicate Valid()
      reads this
    {
      buf.Length == IPI_MBX_NUM * 2
    }

    constructor ()
      ensures Valid() && status == 0 && en == 0 && fresh(buf)
      ensures forall i :: 0 <= i < buf.Length ==> buf[i] == 0
    {
      status := 0;
      en := 0;
      buf := new bv64[IPI_MBX_NUM * 2](_ => 0);
    }

    /**
     * `loongarch_ipi_readl`: STATUS and EN read back, SET and CLEAR read 0,
     * a mailbox offset reads its word, and any other offset reads 0.
     */
    function Read(addr: nat): (r: bv64)
      requires Valid()
      reads this, buf
      ensures var a := addr % 0x100;
        (a == CORE_STATUS_OFF ==> r == status) &&
        (a == CORE_EN_OFF ==> r == en) &&
        (IsBuf(a) ==> r == buf[BufIndex(a)]) &&
        (a != CORE_STATUS_OFF && a != CORE_EN_OFF && !IsBuf(a) ==> r == 0)
    {
      var a := addr % 0x100;
      if a == CORE_STATUS_OFF then status
      else if a == CORE_EN_OFF then en
      else if a == CORE_SET_OFF || a == CORE_CLEAR_OFF then 0
      else if IsBuf(a) then buf[BufIndex(a)]
      else 0
    }

    /**
     * `loongarch_ipi_writel`. STATUS is read-only; EN takes the low word;
     * SET ORs into STATUS and raises the line when an enabled bit is
     * pending; CLEAR removes bits and lowers the line when nothing is
     * pending while EN is non-zero; a mailbox offset stores its word, which
     * a later read of the same offset returns; the send offsets only
     * produce effects on the target CPU.
     */
    method Write(addr: nat, val: bv64) returns (effects: seq<Effect>)
      requires Valid()
      modifies this, buf
      ensures Valid()
      ensures var a := addr % 0x100;
        (a == CORE_EN_OFF ==> en == Lo32(val)) && (a != CORE_EN_OFF ==> en == old(en))
      ensures var a := addr % 0x100;
        (a == CORE_SET_OFF ==> status == old(status) | Lo32(val) && effects == SetIrq(status, en)) &&
        (a == CORE_CLEAR_OFF ==> status == old(status) & !Lo32(val) && effects == ClearIrq(status, en)) &&
        (a != CORE_SET_OFF && a != CORE_CLEAR_OFF ==> status == old(status))
      ensures var a := addr % 0x100;
        (IsBuf(a) ==> buf[..] == old(buf[..])[BufIndex(a) := Lo32(val)] && Read(addr) == Lo32(val)) &&
        (!IsBuf(a) ==> buf[..] == old(buf[..]))
      ensures addr % 0x100 == IOCSR_IPI_SEND ==> effects == IpiSend(val)
      ensures addr % 0x100 == IOCSR_MAIL_SEND ==> effects == MailEffects(val)
      ensures var a := addr % 0x100;
        a != CORE_SET_OFF && a != CORE_CLEAR_OFF && a != IOCSR_IPI_SEND && a != IOCSR_MAIL_SEND ==> effects == []
    {
      var a := addr % 0x100;
      effects := [];
      if a == CORE_STATUS_OFF {
        // read-only: the guest error is only logged
      } else if a == CORE_EN_OFF {
        en := Lo32(val);
      } else if a == CORE_SET_OFF {
        status := status | Lo32(val);
        effects := SetIrq(status, en);
      } else if a == CORE_CLEAR_OFF {
        status := status & !Lo32(val);
        effects := ClearIrq(status, en);
      } else if IsBuf(a) {
        buf[BufIndex(a)] := Lo32(val);
      } else if a == IOCSR_IPI_SEND {
        effects := IpiSend(val);
      } else if a == IOCSR_MAIL_SEND {
        effects := MailSend(val);
      }
    }
  }
}
