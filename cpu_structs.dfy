/**
 * The x86-64 descriptor structures of `kernel/cpu.h`: the TSS (task state segment),
 * the GDT segment descriptor, the 64-bit interrupt gate and RFLAGS.
 *
 * The TSS and the segment descriptor are updated field by field through their
 * setters, so they are classes; the interrupt gate and RFLAGS are built once by
 * a constructor that only packs bits, so they are values. Bit-fields are
 * subset types of their width; `x & (2^k - 1)` is written `x % 2^k` and
 * `x >> k` is `x / 2^k`, while the `|` that reassembles fields is `Bits.Or`.
 */
module CpuStructs {
  import opened Types
  import opened Bits

  type u1 = x: int | 0 <= x < 2
  type u2 = x: int | 0 <= x < 4
  type u3 = x: int | 0 <= x < 8
  type u4 = x: int | 0 <= x < 16

  /**
   * The TSS (task state segment). Only the ring-0 stack and the first interrupt
   * stack are ever set by the kernel; the other stack slots stay zero.
   */
  class Tss {
    var rsp0Low: u32
    var rsp0High: u32
    var ist1Low: u32
    var ist1High: u32

    /** Every field is zero-initialised. */
    constructor ()
      ensures rsp0Low == 0 && rsp0High == 0 && ist1Low == 0 && ist1High == 0
    {
      rsp0Low, rsp0High, ist1Low, ist1High := 0, 0, 0, 0;
    }

    /** `get_cpl0_stack`. */
    function Cpl0Stack(): u64
      reads this
    {
      Join32(rsp0High, rsp0Low)
    }

    /** `get_ist1_stack`. */
    function Ist1Stack(): u64
      reads this
    {
      Join32(ist1High, ist1Low)
    }

    /** `set_cpl0_stack`: the stack is stored as two halves and read back unchanged. */
    method SetCpl0Stack(stackAddr: u64)
      modifies this
      ensures rsp0Low == Low32(stackAddr) && rsp0High == High32(stackAddr)
      ensures ist1Low == old(ist1Low) && ist1High == old(ist1High)
      ensures Cpl0Stack() == stackAddr
      ensures Ist1Stack() == old(Ist1Stack())
    {
      rsp0Low := Low32(stackAddr);
      rsp0High := High32(stackAddr);
      JoinSplit(stackAddr);
    }

    /** `set_ist1_stack`: the same for the first interrupt stack. */
    method SetIst1Stack(stackAddr: u64)
      modifies this
      ensures ist1Low == Low32(stackAddr) && ist1High == High32(stackAddr)
      ensures rsp0Low == old(rsp0Low) && rsp0High == old(rsp0High)
      ensures Ist1Stack() == stackAddr
      ensures Cpl0Stack() == old(Cpl0Stack())
    {
      ist1Low := Low32(stackAddr);
      ist1High := High32(stackAddr);
      JoinSplit(stackAddr);
    }
  }

  // Segment descriptor types (the 4-bit `type` field).
  const LDT: u4 := 0x2
  const TSS64_AVAILABLE: u4 := 0x9
  const TSS64_BUSY: u4 := 0xB
  const CALL_GATE64: u4 := 0xC
  const INTERRUPT_GATE64: u4 := 0xE
  const TRAP_GATE64: u4 := 0xF
  const DATA_READ_WRITE: u4 := 0x2
  const DATA_READ_ONLY: u4 := 0x0
  const NONCONFORMING_CODE_EXECUTE_ONLY: u4 := 0x8
  const NONCONFORMING_CODE_EXECUTE_READ: u4 := 0xA

  /** The three base-address fields `set_base_addr` stores: 16, 8 and 8 bits. */
  function BaseFields(addr: u64): (u16, u8, u8)
  {
    (addr % 0x1_0000, (addr / 0x1_0000) % 0x100, (addr / 0x100_0000) % 0x100)
  }

  /**
   * `base_addr1 | ((u64)base_addr2 << 16) | ((u64)base_addr3 << 24)`: the base
   * address the descriptor describes, the fields placed side by side.
   */
  function BaseAddrOf(b1: u16, b2: u8, b3: u8): (r: u64)
    ensures r == b1 + b2 * 0x1_0000 + b3 * 0x100_0000
  {
    Pow2Mid();
    Pow2Large();
    MulMod(b2, 0x1_0000);
    MulMod(b3, 0x100_0000);
    OrShifted(b1, b2 * 0x1_0000, 16, 64);
    OrShifted(b1 + b2 * 0x1_0000, b3 * 0x100_0000, 24, 64);
    Or(Or(b1, b2 * 0x1_0000, 64), b3 * 0x100_0000, 64)
  }

  /**
   * `bitfield << 24` on an 8-bit bit-field: the field is promoted to a 32-bit
   * `int`, so a set top bit lands in the sign bit and the value is negative.
   */
  function IntShiftLeft24(b: u8): (v: int)
    ensures -0x8000_0000 <= v < 0x8000_0000
  {
    var w := b * 0x100_0000;
    if w < 0x8000_0000 then w else w - 0x1_0000_0000
  }

  /** Converting a signed value to `u64`: two's complement, so a negative value is sign-extended. */
  function IntToU64(v: int): u64
    requires -0x8000_0000_0000_0000 <= v < 0x8000_0000_0000_0000
  {
    v % U64_MOD
  }

  /** The promoted, sign-extended `base_addr3 << 24` is still a multiple of `2^24`. */
  lemma SignExtendedShift(b3: u8)
    ensures IntToU64(IntShiftLeft24(b3)) ==
      b3 * 0x100_0000 + (if b3 >= 0x80 then 0xFFFF_FFFF_0000_0000 else 0)
    ensures IntToU64(IntShiftLeft24(b3)) % Pow2(24) == 0
  {
    Pow2Mid();
    if b3 < 0x80 {
      MulMod(b3, 0x100_0000);
    } else {
      MulMod(b3 + 0xFF_FFFF_FF00, 0x100_0000);
    }
  }

  /**
   * `get_base_addr` as written: the last `|=` or-s in the promoted `int`,
   * so when bit 31 of the base is set the upper 32 bits come back all ones.
   */
  function BaseAddrAsWrittenOf(b1: u16, b2: u8, b3: u8): (r: u64)
    ensures b3 < 0x80 ==> r == BaseAddrOf(b1, b2, b3)
    ensures b3 >= 0x80 ==> r == BaseAddrOf(b1, b2, b3) + 0xFFFF_FFFF_0000_0000
  {
    var low := Or(b1, b2 * 0x1_0000, 64);
    var high := IntToU64(IntShiftLeft24(b3));
    Pow2Mid();
    Pow2Large();
    MulMod(b2, 0x1_0000);
    OrShifted(b1, b2 * 0x1_0000, 16, 64);
    SignExtendedShift(b3);
    OrShifted(low, high, 24, 64);
    Or(low, high, 64)
  }

  /** The two limit fields `set_limit` stores: 16 and 4 bits. */
  function LimitFields(limit: u64): (u16, u4)
  {
    (limit % 0x1_0000, (limit / 0x1_0000) % 0x10)
  }

  /** `limit1 | (limit2 << 16)`: the 20-bit segment limit. */
  function LimitOf(l1: u16, l2: u4): (r: u64)
    ensures r == l1 + l2 * 0x1_0000
  {
    Pow2Mid();
    Pow2Large();
    MulMod(l2, 0x1_0000);
    OrShifted(l1, l2 * 0x1_0000, 16, 64);
    Or(l1, l2 * 0x1_0000, 64)
  }

  /** Storing a base address and reading it back keeps exactly its low 32 bits. */
  lemma BaseAddrRoundTrip(addr: u64)
    ensures BaseAddrOf(BaseFields(addr).0, BaseFields(addr).1, BaseFields(addr).2) == addr % U32_MOD
  {
    var (b1, b2, b3) := BaseFields(addr);
    var q1 := addr / 0x1_0000;
    var q2 := q1 / 0x100;
    DivModUnique(addr, 0x1_0000, q1, b1);
    DivModUnique(q1, 0x100, q2, b2);
    assert addr == b1 + b2 * 0x1_0000 + q2 * 0x100_0000;
    DivModUnique(addr, 0x100_0000, q2, b1 + b2 * 0x1_0000);
    DivModUnique(q2, 0x100, q2 / 0x100, b3);
    DivModUnique(addr, U32_MOD, q2 / 0x100, b1 + b2 * 0x1_0000 + b3 * 0x100_0000);
  }

  /** Reading the fields of a base address and storing it again gives the same fields. */
  lemma BaseFieldsRoundTrip(b1: u16, b2: u8, b3: u8)
    ensures BaseFields(BaseAddrOf(b1, b2, b3)) == (b1, b2, b3)
  {
    var a := BaseAddrOf(b1, b2, b3);
    DivModUnique(a, 0x1_0000, b2 + b3 * 0x100, b1);
    DivModUnique(b2 + b3 * 0x100, 0x100, b3, b2);
    DivModUnique(a, 0x100_0000, b3, b1 + b2 * 0x1_0000);
    ModSmall(b3, 0x100);
  }

  /**
   * The as-written getter returns what was stored exactly when bit 31 of the
   * stored address is clear; otherwise the upper half reads as all ones.
   */
  lemma BaseAddrAsWrittenRoundTrip(addr: u64)
    ensures var (b1, b2, b3) := BaseFields(addr);
      BaseAddrAsWrittenOf(b1, b2, b3) == addr % U32_MOD <==> addr % U32_MOD < 0x8000_0000
  {
    BaseAddrRoundTrip(addr);
  }

  /**
   * Every base address with bit 31 set reads back through the as-written
   * getter with its upper 32 bits all ones; `0x8000_0000` reads back as
   * `0xFFFF_FFFF_8000_0000`.
   */
  lemma BaseAddrBit31Finding(addr: u64)
    requires addr % U32_MOD >= 0x8000_0000
    ensures var (b1, b2, b3) := BaseFields(addr);
      BaseAddrAsWrittenOf(b1, b2, b3) == addr % U32_MOD + 0xFFFF_FFFF_0000_0000
  {
    BaseAddrRoundTrip(addr);
  }

  /** Storing a limit and reading it back keeps exactly its low 20 bits. */
  lemma LimitRoundTrip(limit: u64)
    ensures LimitOf(LimitFields(limit).0, LimitFields(limit).1) == limit % 0x10_0000
  {
    var (l1, l2) := LimitFields(limit);
    var q1 := limit / 0x1_0000;
    DivModUnique(limit, 0x1_0000, q1, l1);
    DivModUnique(q1, 0x10, q1 / 0x10, l2);
    DivModUnique(limit, 0x10_0000, q1 / 0x10, l1 + l2 * 0x1_0000);
  }

  /** Reading a limit out of its fields and storing it again gives the same fields. */
  lemma LimitFieldsRoundTrip(l1: u16, l2: u4)
    ensures LimitFields(LimitOf(l1, l2)) == (l1, l2)
  {
    DivModUnique(LimitOf(l1, l2), 0x1_0000, l2, l1);
    ModSmall(l2, 0x10);
  }

  /** A GDT entry, one field per bit-field of the descriptor. */
  class SegmentDescriptor {
    var limit1: u16
    var baseAddr1: u16
    var baseAddr2: u8
    var typ: u4
    var codeOrDataSegment: u1
    var dpl: u2
    var present: u1
    var limit2: u4
    var ignored: u1
    var longModeCodeSegment: u1
    var db: u1
    var limitGranularity: u1
    var baseAddr3: u8

    /** A descriptor whose two dwords were cleared. */
    constructor ()
      ensures limit1 == 0 && baseAddr1 == 0 && baseAddr2 == 0 && typ == 0
      ensures codeOrDataSegment == 0 && dpl == 0 && present == 0 && limit2 == 0
      ensures ignored == 0 && longModeCodeSegment == 0 && db == 0
      ensures limitGranularity == 0 && baseAddr3 == 0
    {
      limit1, baseAddr1, baseAddr2, typ := 0, 0, 0, 0;
      codeOrDataSegment, dpl, present, limit2 := 0, 0, 0, 0;
      ignored, longModeCodeSegment, db, limitGranularity, baseAddr3 := 0, 0, 0, 0, 0;
    }

    /** `get_base_addr` with the shift done in 64 bits. */
    function BaseAddr(): u64
      reads this
    {
      BaseAddrOf(baseAddr1, baseAddr2, baseAddr3)
    }

    /** `get_base_addr` as written (see `BaseAddrAsWrittenOf`). */
    function BaseAddrAsWritten(): u64
      reads this
    {
      BaseAddrAsWrittenOf(baseAddr1, baseAddr2, baseAddr3)
    }

    /** `get_limit`. */
    function Limit(): u64
      reads this
    {
      LimitOf(limit1, limit2)
    }

    /** `set_base_addr`: only the three base fields change, and the base reads back as `addr mod 2^32`. */
    method SetBaseAddr(addr: u64)
      modifies this
      ensures (baseAddr1, baseAddr2, baseAddr3) == BaseFields(addr)
      ensures BaseAddr() == addr % U32_MOD
      ensures limit1 == old(limit1) && limit2 == old(limit2) && typ == old(typ)
      ensures codeOrDataSegment == old(codeOrDataSegment) && dpl == old(dpl) && present == old(present)
      ensures ignored == old(ignored) && longModeCodeSegment == old(longModeCodeSegment)
      ensures db == old(db) && limitGranularity == old(limitGranularity)
    {
      var (b1, b2, b3) := BaseFields(addr);
      baseAddr1, baseAddr2, baseAddr3 := b1, b2, b3;
      BaseAddrRoundTrip(addr);
    }

    /** `set_limit`: only the two limit fields change, and the limit reads back as `limit mod 2^20`. */
    method SetLimit(limit: u64)
      modifies this
      ensures (limit1, limit2) == LimitFields(limit)
      ensures Limit() == limit % 0x10_0000
      ensures baseAddr1 == old(baseAddr1) && baseAddr2 == old(baseAddr2) && baseAddr3 == old(baseAddr3)
      ensures typ == old(typ) && codeOrDataSegment == old(codeOrDataSegment) && dpl == old(dpl)
      ensures present == old(present) && ignored == old(ignored)
      ensures longModeCodeSegment == old(longModeCodeSegment) && db == old(db)
      ensures limitGranularity == old(limitGranularity)
    {
      var (l1, l2) := LimitFields(limit);
      limit1, limit2 := l1, l2;
      LimitRoundTrip(limit);
    }
  }

  /** A 64-bit IDT entry. */
  datatype InterruptGate = InterruptGate(
    offset1: u16, codeSegmentSelector: u16, istIndex: u3, zero1: nat,
    typ: u4, zero2: u1, dpl: u2, present: u1,
    offset2: u16, offset3: u32, zero3: u32)

  /** The default constructor: every field zero, so the gate is not present. */
  const EmptyGate := InterruptGate(0, 0, 0, 0, 0, 0, 0, 0, 0, 0, 0)

  /** The handler address the processor reads from a gate: `offset1 | offset2 << 16 | offset3 << 32`. */
  function GateOffset(g: InterruptGate): (r: u64)
    ensures r == g.offset1 + g.offset2 * 0x1_0000 + g.offset3 * U32_MOD
  {
    Pow2Mid();
    Pow2Large();
    MulMod(g.offset2, 0x1_0000);
    MulMod(g.offset3, U32_MOD);
    OrShifted(g.offset1, g.offset2 * 0x1_0000, 16, 64);
    OrShifted(g.offset1 + g.offset2 * 0x1_0000, g.offset3 * U32_MOD, 32, 64);
    Or(Or(g.offset1, g.offset2 * 0x1_0000, 64), g.offset3 * U32_MOD, 64)
  }

  /**
   * `InterruptGate(offset, code_segment, ist, type, dpl)`. A failed `ASSERT`
   * (an IST index of 8 or more, a type other than an interrupt or trap gate)
   * halts the kernel and gives `None`. The 8-bit `dpl` argument is stored in a
   * 2-bit field, so only its low two bits survive.
   */
  function MakeInterruptGate(offset: u64, codeSegment: u16, ist: u8, typ: u8, dpl: u8): (r: Option<InterruptGate>)
    ensures r.Some? <==> ist < 8 && (typ == INTERRUPT_GATE64 || typ == TRAP_GATE64)
    ensures r.Some? ==> GateOffset(r.value) == offset
    ensures r.Some? ==> r.value.present == 1 && r.value.codeSegmentSelector == codeSegment
    ensures r.Some? ==> r.value.istIndex == ist && r.value.typ == typ && r.value.dpl == dpl % 4
    ensures r.Some? ==> r.value.zero1 == 0 && r.value.zero2 == 0 && r.value.zero3 == 0
  {
    if ist >= 8 then None
    else if typ != INTERRUPT_GATE64 && typ != TRAP_GATE64 then None
    else
      var g := InterruptGate(
        offset % 0x1_0000, codeSegment, ist, 0, typ, 0, dpl % 4, 1,
        (offset / 0x1_0000) % 0x1_0000, offset / U32_MOD, 0);
      DivModUnique(offset, 0x1_0000, offset / 0x1_0000, g.offset1);
      DivModUnique(offset / 0x1_0000, 0x1_0000, offset / U32_MOD, g.offset2);
      Some(g)
  }

  /** The RFLAGS register image; bit 1 is reserved and always reads as one. */
  datatype RFlags = RFlags(raw: u64)

  /** `RFlags()`: only the reserved bit set. */
  const DefaultRFlags := RFlags(2)

  lemma AndTwo(v: nat)
    ensures And(v, 2, 64) == 2 * Bit(v, 1)
  {
    Pow2Small();
    AndUnfold(v, 2, 64);
    AndUnfold(v / 2, 1, 63);
    AndZero(v / 2 / 2, 62);
  }

  /** `RFlags(val)`: `ASSERT(val & 2)`, so a value without the reserved bit halts. */
  function MakeRFlags(v: u64): (r: Option<RFlags>)
    ensures r.Some? <==> Bit(v, 1) == 1
    ensures r.Some? ==> r.value.raw == v
  {
    AndTwo(v);
    if And(v, 2, 64) != 0 then Some(RFlags(v)) else None
  }

  /** The default flags satisfy the reserved-bit check. */
  lemma DefaultRFlagsValid()
    ensures MakeRFlags(DefaultRFlags.raw) == Some(DefaultRFlags)
  {
    Pow2Small();
  }

  /** Byte widths of the fields of each packed structure, in declaration order. */
  const TssFieldBytes: seq<nat> :=
    [4, 4, 4, 4, 4, 4, 4, 8, 4, 4, 4, 4, 4, 4, 4, 4, 4, 4, 4, 4, 4, 4, 8, 2, 2]
  const InterruptGateFieldBytes: seq<nat> := [2, 2, 1, 1, 2, 4, 4]
  const RegisterStateFieldBytes: seq<nat> := [8, 8, 8, 8, 8, 8, 8, 8, 8, 8, 8, 8, 8, 8, 8, 8, 8]

  /** The total of the widths from position `i` on. */
  function SumBytes(s: seq<nat>, i: nat): nat
    decreases |s| - i
  {
    if i >= |s| then 0 else s[i] + SumBytes(s, i + 1)
  }

  /** The packed sizes the hardware and the interrupt entry code rely on. */
  lemma LayoutSizes()
    ensures SumBytes(TssFieldBytes, 0) == 0x68
    ensures SumBytes(InterruptGateFieldBytes, 0) == 16
    ensures SumBytes(RegisterStateFieldBytes, 0) == 136
  {
    assert SumBytes(TssFieldBytes, 24) == 2 && SumBytes(TssFieldBytes, 23) == 4 && SumBytes(TssFieldBytes, 22) == 12;
    assert SumBytes(TssFieldBytes, 21) == 16 && SumBytes(TssFieldBytes, 20) == 20 && SumBytes(TssFieldBytes, 19) == 24;
    assert SumBytes(TssFieldBytes, 18) == 28 && SumBytes(TssFieldBytes, 17) == 32 && SumBytes(TssFieldBytes, 16) == 36;
    assert SumBytes(TssFieldBytes, 15) == 40 && SumBytes(TssFieldBytes, 14) == 44 && SumBytes(TssFieldBytes, 13) == 48;
    assert SumBytes(TssFieldBytes, 12) == 52 && SumBytes(TssFieldBytes, 11) == 56 && SumBytes(TssFieldBytes, 10) == 60;
    assert SumBytes(TssFieldBytes, 9) == 64 && SumBytes(TssFieldBytes, 8) == 68 && SumBytes(TssFieldBytes, 7) == 76;
    assert SumBytes(TssFieldBytes, 6) == 80 && SumBytes(TssFieldBytes, 5) == 84 && SumBytes(TssFieldBytes, 4) == 88;
    assert SumBytes(TssFieldBytes, 3) == 92 && SumBytes(TssFieldBytes, 2) == 96 && SumBytes(TssFieldBytes, 1) == 100;
    assert SumBytes(TssFieldBytes, 0) == 104;
    assert SumBytes(InterruptGateFieldBytes, 6) == 4 && SumBytes(InterruptGateFieldBytes, 5) == 8 && SumBytes(InterruptGateFieldBytes, 4) == 10;
    assert SumBytes(InterruptGateFieldBytes, 3) == 11 && SumBytes(InterruptGateFieldBytes, 2) == 12 && SumBytes(InterruptGateFieldBytes, 1) == 14;
    assert SumBytes(InterruptGateFieldBytes, 0) == 16;
    assert SumBytes(RegisterStateFieldBytes, 16) == 8 && SumBytes(RegisterStateFieldBytes, 15) == 16 && SumBytes(RegisterStateFieldBytes, 14) == 24;
    assert SumBytes(RegisterStateFieldBytes, 13) == 32 && SumBytes(RegisterStateFieldBytes, 12) == 40 && SumBytes(RegisterStateFieldBytes, 11) == 48;
    assert SumBytes(RegisterStateFieldBytes, 10) == 56 && SumBytes(RegisterStateFieldBytes, 9) == 64 && SumBytes(RegisterStateFieldBytes, 8) == 72;
    assert SumBytes(RegisterStateFieldBytes, 7) == 80 && SumBytes(RegisterStateFieldBytes, 6) == 88 && SumBytes(RegisterStateFieldBytes, 5) == 96;
    assert SumBytes(RegisterStateFieldBytes, 4) == 104 && SumBytes(RegisterStateFieldBytes, 3) == 112 && SumBytes(RegisterStateFieldBytes, 2) == 120;
    assert SumBytes(RegisterStateFieldBytes, 1) == 128 && SumBytes(RegisterStateFieldBytes, 0) == 136;
  }
}
