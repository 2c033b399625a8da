/**
 * The x86-64 4-level paging format as the kernel uses it (`kernel/page_tables.h`
 * and the pure helpers of `kernel/page_tables.cpp`), after the Intel 64 and
 * IA-32 Architectures Software Developer's Manual, Volume 3, Chapter 4.
 *
 * An entry is its raw `u64`; the bit fields the code touches (present,
 * writable, page size, physical address) are read and written through the
 * bitwise operators of module `Bits`.
 */
module PageTableFormat {
  import opened Types
  import opened Bits

  const KB: nat := 1024
  const GB: nat := 1024 * 1024 * 1024

  const BYTES_MAPPED_BY_PAGE: nat := 4 * KB
  const BYTES_MAPPED_BY_PT: nat := 512 * BYTES_MAPPED_BY_PAGE
  const BYTES_MAPPED_BY_PD: nat := 512 * BYTES_MAPPED_BY_PT
  const BYTES_MAPPED_BY_PDPT: nat := 512 * BYTES_MAPPED_BY_PD
  const BYTES_MAPPED_BY_PML4T: nat := 512 * BYTES_MAPPED_BY_PDPT

  /** Every table type holds 512 entries of 8 bytes: one 4096-byte, 4096-aligned frame. */
  const ENTRY_COUNT: nat := 512
  const ENTRY_SIZE: nat := 8
  const TABLE_SIZE: nat := 4096
  const TABLE_ALIGNMENT: nat := 4096

  /** Address field of PML4TE, PDPTE, PDE and PTE: bits 12..47. */
  const PHYS_ADDR_MASK: u64 := 0x0000_ffff_ffff_f000
  /** Address field of a PDE that maps a 2 MiB page: bits 21..47. */
  const PHYS_ADDR_MASK_2MB: u64 := 0x0000_ffff_ffe0_0000
  const PAGE_SIZE_BIT: u64 := 0x80
  const PRESENT_BIT: nat := 0
  const WRITABLE_BIT: nat := 1

  lemma TableSizes()
    ensures ENTRY_COUNT * ENTRY_SIZE == TABLE_SIZE
    ensures BYTES_MAPPED_BY_PT == 2 * 1024 * 1024
    ensures BYTES_MAPPED_BY_PD == GB
    ensures BYTES_MAPPED_BY_PDPT == 512 * GB
    ensures BYTES_MAPPED_BY_PML4T == 256 * 1024 * GB
  {
  }

  /** The two literal masks are the bands of bits 12..47 and 21..47. */
  lemma MasksAreBands()
    ensures PHYS_ADDR_MASK == Band(12, 48)
    ensures PHYS_ADDR_MASK_2MB == Band(21, 48)
  {
    Pow2Small(); Pow2Mid(); Pow2Large();
  }

  // ---- index decomposition (page_tables.cpp, the five index functions) ----

  /** `addr >> shift` */
  function Shr(addr: nat, shift: nat): nat
  {
    var d := Pow2(shift);
    assert addr / d >= 0 by { DivNat(addr, d); }
    addr / d
  }

  /** `(addr >> shift) & 0x1ff` */
  function Index9(addr: u64, shift: nat): (i: nat)
    ensures i < 512
  {
    AndAtMostRight(Shr(addr, shift), 0x1ff, 64);
    And(Shr(addr, shift), 0x1ff, 64)
  }

  function Pml4tIndex(addr: u64): (i: nat) ensures i < 512 { Index9(addr, 39) }
  function PdptIndex(addr: u64): (i: nat) ensures i < 512 { Index9(addr, 30) }
  function PdIndex(addr: u64): (i: nat) ensures i < 512 { Index9(addr, 21) }
  function PtIndex(addr: u64): (i: nat) ensures i < 512 { Index9(addr, 12) }

  /** `addr & 0xfff` */
  function PageIndex(addr: u64): (i: nat)
    ensures i < 4096
  {
    AndAtMostRight(addr, 0xfff, 64);
    And(addr, 0xfff, 64)
  }

  /** Each index is the 9-bit digit of the address at its position. */
  lemma Index9Digit(addr: u64, shift: nat)
    ensures Index9(addr, shift) == Shr(addr, shift) % 512
  {
    AndLowMask(Shr(addr, shift), 9, 64);
    assert Pow2(9) == 512 by { Pow2Small(); }
  }

  lemma PageIndexDigit(addr: u64)
    ensures PageIndex(addr) == addr % 4096
  {
    Pow2Small();
    AndLowMask(addr, 12, 64);
  }

  /** Peeling one digit off a number, in base `b`. */
  lemma DigitSplit(x: nat, b: nat, c: nat)
    requires b > 0 && c > 0
    ensures x % (b * c) == (x / b) % c * b + x % b
    ensures x / (b * c) == (x / b) / c
  {
    var q, r := x / b, x % b;
    assert x == b * q + r;
    var q2, r2 := q / c, q % c;
    assert q == c * q2 + r2;
    assert x == (b * c) * q2 + (r2 * b + r);
    assert r2 * b + r < b * c by {
      assert r2 <= c - 1;
      assert r2 * b <= (c - 1) * b;
    }
    DivModUnique(x, b * c, q2, r2 * b + r);
  }

  /**
   * For an address below 2^48 the five indexes reassemble it:
   * `pml4t·2^39 + pdpt·2^30 + pd·2^21 + pt·2^12 + page == addr`.
   */
  lemma IndexDecomposition(addr: u64)
    requires addr < 0x1_0000_0000_0000
    ensures Pml4tIndex(addr) * 0x80_0000_0000 + PdptIndex(addr) * 0x4000_0000
          + PdIndex(addr) * 0x20_0000 + PtIndex(addr) * 0x1000 + PageIndex(addr) == addr
  {
    var i4, i3, i2, i1, p := Pml4tIndex(addr), PdptIndex(addr), PdIndex(addr), PtIndex(addr), PageIndex(addr);
    assert p == addr % 0x1000 by { PageIndexDigit(addr); }
    assert i1 == (addr / 0x1000) % 512 by { Index9Digit(addr, 12); Pow2Small(); }
    assert i2 == (addr / 0x20_0000) % 512 by { Index9Digit(addr, 21); Pow2Mid(); }
    assert i3 == (addr / 0x4000_0000) % 512 by { Index9Digit(addr, 30); Pow2Mid(); }
    assert i4 == (addr / 0x80_0000_0000) % 512 by { Index9Digit(addr, 39); Pow2Large(); }
    assert addr % 0x20_0000 == i1 * 0x1000 + p by { DigitSplit(addr, 0x1000, 512); }
    assert addr % 0x4000_0000 == i2 * 0x20_0000 + addr % 0x20_0000 by { DigitSplit(addr, 0x20_0000, 512); }
    assert addr % 0x80_0000_0000 == i3 * 0x4000_0000 + addr % 0x4000_0000 by { DigitSplit(addr, 0x4000_0000, 512); }
    assert addr % 0x1_0000_0000_0000 == i4 * 0x80_0000_0000 + addr % 0x80_0000_0000 by { DigitSplit(addr, 0x80_0000_0000, 512); }
    assert addr % 0x1_0000_0000_0000 == addr by { ModSmall(addr, 0x1_0000_0000_0000); }
  }

  /** The virtual page number the four indexes select: bits 12–47 of the address. */
  function Slot(addr: u64): (s: nat)
    ensures s < 0x10_0000_0000
  {
    (addr / 0x1000) % 0x10_0000_0000
  }

  /** The four table indexes are the base-512 digits of the page number. */
  lemma SlotDigits(addr: u64)
    ensures Slot(addr) == Pml4tIndex(addr) * 0x800_0000 + PdptIndex(addr) * 0x4_0000
                        + PdIndex(addr) * 0x200 + PtIndex(addr)
  {
    var s := addr / 0x1000;
    assert PtIndex(addr) == s % 512 by { Index9Digit(addr, 12); Pow2Small(); }
    assert PdIndex(addr) == (s / 512) % 512 by {
      Index9Digit(addr, 21); Pow2Mid(); DigitSplit(addr, 0x1000, 512);
    }
    assert PdptIndex(addr) == (s / 0x4_0000) % 512 by {
      Index9Digit(addr, 30); Pow2Mid(); DigitSplit(addr, 0x1000, 0x4_0000);
    }
    assert Pml4tIndex(addr) == (s / 0x800_0000) % 512 by {
      Index9Digit(addr, 39); Pow2Large(); DigitSplit(addr, 0x1000, 0x800_0000);
    }
    DigitSplit(s, 512, 0x800_0000);
    DigitSplit(s / 512, 512, 0x4_0000);
    DigitSplit(s, 512, 512);
    DigitSplit(s / 512 / 512, 512, 512);
    DigitSplit(s, 0x4_0000, 512);
  }

  /** Base-512 numerals with four digits are equal only when their digits are. */
  lemma DigitsUnique(a3: nat, a2: nat, a1: nat, a0: nat, b3: nat, b2: nat, b1: nat, b0: nat)
    requires a3 < 512 && a2 < 512 && a1 < 512 && a0 < 512
    requires b3 < 512 && b2 < 512 && b1 < 512 && b0 < 512
    requires a3 * 0x800_0000 + a2 * 0x4_0000 + a1 * 0x200 + a0 == b3 * 0x800_0000 + b2 * 0x4_0000 + b1 * 0x200 + b0
    ensures a3 == b3 && a2 == b2 && a1 == b1 && a0 == b0
  {
    var x := a3 * 0x800_0000 + a2 * 0x4_0000 + a1 * 0x200 + a0;
    DivModUnique(x, 512, a3 * 0x4_0000 + a2 * 0x200 + a1, a0);
    DivModUnique(x, 512, b3 * 0x4_0000 + b2 * 0x200 + b1, b0);
    var y := a3 * 0x4_0000 + a2 * 0x200 + a1;
    DivModUnique(y, 512, a3 * 0x200 + a2, a1);
    DivModUnique(y, 512, b3 * 0x200 + b2, b1);
    var z := a3 * 0x200 + a2;
    DivModUnique(z, 512, a3, a2);
    DivModUnique(z, 512, b3, b2);
  }

  // ---- entries (page_tables.cpp, set_phys_addr / get_phys_addr / clear) ----

  /** `~mask` on 64 bits. */
  function Complement(mask: u64): (c: nat)
    ensures c + mask == U64_MOD - 1
  {
    Pow2Large();
    Not(mask, 64)
  }

  /** `get_phys_addr`: `raw & phys_addr_mask`. */
  function GetPhysAddr(raw: u64, mask: u64): (a: u64)
    ensures a <= mask
  {
    AndAtMostRight(raw, mask, 64);
    And(raw, mask, 64)
  }

  /**
   * `set_phys_addr`: halts (None) when `addr` has bits outside the mask,
   * otherwise replaces the masked bits of `raw` with those of `addr`.
   */
  function SetPhysAddr(raw: u64, addr: u64, mask: u64): (r: Option<u64>)
  {
    if And(addr, Complement(mask), 64) != 0 then None
    else
      Pow2Large();
      Some(Or(And(raw, Complement(mask), 64), And(addr, mask, 64), 64))
  }

  /** `clear`: the all-zero entry. */
  const CLEARED: u64 := 0

  /** A cleared entry after `bitfield.present = 1; bitfield.writable = 1;`. */
  const PRESENT_WRITABLE: u64 := 3

  function Present(raw: u64): bool { Bit(raw, 0) == 1 }
  function Writable(raw: u64): bool { Bit(raw, 1) == 1 }

  /**
   * `clear(); present = 1; writable = 1; set_phys_addr(frame);`, the sequence
   * the page-table walker uses to install a new table or page.
   */
  function NewEntry(frame: u64): (r: Option<u64>)
  {
    SetPhysAddr(PRESENT_WRITABLE, frame, PHYS_ADDR_MASK)
  }

  /** The raw-value constructor of `PDEMaps2MBPage` halts unless the page-size bit is set. */
  function Make2MBEntry(raw: u64): (r: Option<u64>)
  {
    if And(raw, PAGE_SIZE_BIT, 64) == 0 then None else Some(raw)
  }

  // ---- properties ----

  /** The lowest bit and the rest of a masked write. */
  lemma MaskedWriteStep(raw: nat, addr: nat, m: nat, n: nat)
    requires n > 0 && m < Pow2(n)
    ensures m / 2 < Pow2(n - 1)
    ensures Not(m, n) % 2 == 1 - m % 2 && Not(m, n) / 2 == Not(m / 2, n - 1)
    ensures var e := Or(And(raw, Not(m, n), n), And(addr, m, n), n);
      e % 2 == (if m % 2 == 1 then addr % 2 else raw % 2) &&
      e / 2 == Or(And(raw / 2, Not(m / 2, n - 1), n - 1), And(addr / 2, m / 2, n - 1), n - 1)
  {
    NotStep(m, n);
    var c := Not(m, n);
    var lo := And(raw, c, n);
    var hi := And(addr, m, n);
    var lo', hi' := And(raw / 2, c / 2, n - 1), And(addr / 2, m / 2, n - 1);
    var lb := if m % 2 == 1 then 0 else raw % 2;
    var hb := if m % 2 == 1 then addr % 2 else 0;
    AndUnfold(raw, c, n);
    AndUnfold(addr, m, n);
    DivModUnique(lo, 2, lo', lb);
    DivModUnique(hi, 2, hi', hb);
    var e := Or(lo, hi, n);
    var eb := if lo % 2 == 1 || hi % 2 == 1 then 1 else 0;
    assert e == eb + 2 * Or(lo', hi', n - 1);
    DivModUnique(e, 2, Or(lo', hi', n - 1), eb);
  }

  /** Writing a masked field then reading it back. */
  lemma MaskedWrite(raw: nat, addr: nat, m: nat, n: nat)
    requires m < Pow2(n)
    ensures And(Or(And(raw, Not(m, n), n), And(addr, m, n), n), m, n) == And(addr, m, n)
    ensures And(Or(And(raw, Not(m, n), n), And(addr, m, n), n), Not(m, n), n) == And(raw, Not(m, n), n)
  {
    MaskedWriteField(raw, addr, m, n);
    MaskedWriteRest(raw, addr, m, n);
  }

  /** The bits under the mask come from `addr`, bit by bit. */
  lemma {:induction false} MaskedWriteField(raw: nat, addr: nat, m: nat, n: nat)
    requires m < Pow2(n)
    ensures And(Or(And(raw, Not(m, n), n), And(addr, m, n), n), m, n) == And(addr, m, n)
  {
    if n > 0 {
      MaskedWriteStep(raw, addr, m, n);
      var e := Or(And(raw, Not(m, n), n), And(addr, m, n), n);
      MaskedWriteField(raw / 2, addr / 2, m / 2, n - 1);
      AndUnfold(e, m, n);
      AndUnfold(addr, m, n);
    }
  }

  /** The bits outside the mask are kept from `raw`, bit by bit. */
  lemma {:induction false} MaskedWriteRest(raw: nat, addr: nat, m: nat, n: nat)
    requires m < Pow2(n)
    ensures And(Or(And(raw, Not(m, n), n), And(addr, m, n), n), Not(m, n), n) == And(raw, Not(m, n), n)
  {
    if n > 0 {
      MaskedWriteStep(raw, addr, m, n);
      var c := Not(m, n);
      var e := Or(And(raw, c, n), And(addr, m, n), n);
      MaskedWriteRest(raw / 2, addr / 2, m / 2, n - 1);
      AndUnfold(e, c, n);
      AndUnfold(raw, c, n);
    }
  }

  /** `(addr & ~mask) == 0` iff `addr` lies inside the band of a band mask. */
  lemma OutsideBandZero(addr: u64, lo: nat, hi: nat)
    requires lo <= hi <= 64
    ensures Band(lo, hi) < U64_MOD
    ensures And(addr, Complement(Band(lo, hi)), 64) == 0 <==> addr < Pow2(hi) && addr % Pow2(lo) == 0
  {
    Pow2Large();
    Pow2Monotone(hi, 64);
    var inside := And(addr, Band(lo, hi), 64);
    var outside := And(addr, Complement(Band(lo, hi)), 64);
    assert inside + outside == addr by {
      AndComplement(addr, Band(lo, hi), 64);
      ModSmall(addr, Pow2(64));
    }
    assert inside == addr % Pow2(hi) - addr % Pow2(lo) by { AndBand(addr, lo, hi, 64); }
    if addr < Pow2(hi) {
      ModSmall(addr, Pow2(hi));
    } else {
      assert addr % Pow2(hi) < Pow2(hi);
    }
  }

  /** An address that fits the field is stored whole: `And(addr, mask) == addr`. */
  lemma InsideBand(addr: u64, lo: nat, hi: nat)
    requires lo <= hi <= 64
    requires addr < Pow2(hi) && addr % Pow2(lo) == 0
    ensures And(addr, Band(lo, hi), 64) == addr
  {
    AndBand(addr, lo, hi, 64);
    ModSmall(addr, Pow2(hi));
  }

  /**
   * `set_phys_addr` accepts exactly the 4 KiB-aligned addresses below 2^48;
   * after it `get_phys_addr` returns that address and every bit outside the
   * mask (the flags) is what it was.
   */
  lemma SetGetPhysAddr(raw: u64, addr: u64)
    ensures SetPhysAddr(raw, addr, PHYS_ADDR_MASK).Some? <==> addr < 0x1_0000_0000_0000 && addr % 4096 == 0
    ensures SetPhysAddr(raw, addr, PHYS_ADDR_MASK).Some? ==>
      var r := SetPhysAddr(raw, addr, PHYS_ADDR_MASK).value;
      GetPhysAddr(r, PHYS_ADDR_MASK) == addr &&
      And(r, Complement(PHYS_ADDR_MASK), 64) == And(raw, Complement(PHYS_ADDR_MASK), 64)
  {
    Pow2Small(); Pow2Large();
    MasksAreBands();
    OutsideBandZero(addr, 12, 48);
    if addr < 0x1_0000_0000_0000 && addr % 4096 == 0 {
      InsideBand(addr, 12, 48);
      MaskedWrite(raw, addr, PHYS_ADDR_MASK, 64);
    }
  }

  /** The same for the 2 MiB entries: 2 MiB-aligned addresses below 2^48. */
  lemma SetGetPhysAddr2MB(raw: u64, addr: u64)
    ensures SetPhysAddr(raw, addr, PHYS_ADDR_MASK_2MB).Some? <==> addr < 0x1_0000_0000_0000 && addr % 0x20_0000 == 0
    ensures SetPhysAddr(raw, addr, PHYS_ADDR_MASK_2MB).Some? ==>
      var r := SetPhysAddr(raw, addr, PHYS_ADDR_MASK_2MB).value;
      GetPhysAddr(r, PHYS_ADDR_MASK_2MB) == addr &&
      And(r, Complement(PHYS_ADDR_MASK_2MB), 64) == And(raw, Complement(PHYS_ADDR_MASK_2MB), 64)
  {
    Pow2Mid(); Pow2Large();
    MasksAreBands();
    OutsideBandZero(addr, 21, 48);
    if addr < 0x1_0000_0000_0000 && addr % 0x20_0000 == 0 {
      InsideBand(addr, 21, 48);
      MaskedWrite(raw, addr, PHYS_ADDR_MASK_2MB, 64);
    }
  }

  /** A cleared (default-constructed) entry is neither present nor writable and holds address 0. */
  lemma ClearedNotPresent()
    ensures !Present(CLEARED) && !Writable(CLEARED) && GetPhysAddr(CLEARED, PHYS_ADDR_MASK) == 0
  {
    AndZero(PHYS_ADDR_MASK, 64);
    AndSymmetric(CLEARED, PHYS_ADDR_MASK, 64);
  }

  /**
   * A freshly installed entry for a frame is present and writable and points
   * at the frame; a frame outside the address field is fatal.
   */
  lemma NewEntryFacts(frame: u64)
    ensures NewEntry(frame).Some? <==> frame < 0x1_0000_0000_0000 && frame % 4096 == 0
    ensures NewEntry(frame).Some? ==>
      var e := NewEntry(frame).value;
      Present(e) && Writable(e) && GetPhysAddr(e, PHYS_ADDR_MASK) == frame
  {
    SetGetPhysAddr(PRESENT_WRITABLE, frame);
    if NewEntry(frame).Some? {
      var e := NewEntry(frame).value;
      var c := Complement(PHYS_ADDR_MASK);
      assert And(e, c, 64) == And(PRESENT_WRITABLE, c, 64);
      LowFlagsOutsideMask();
      AndBit(e, c, 64, 0);
      AndBit(e, c, 64, 1);
      AndBit(PRESENT_WRITABLE, c, 64, 0);
      AndBit(PRESENT_WRITABLE, c, 64, 1);
      assert Bit(PRESENT_WRITABLE, 0) == 1 && Bit(PRESENT_WRITABLE, 1) == 1 by { Pow2Small(); }
    }
  }

  /** Bits 0 and 1 (present, writable) lie outside the address field. */
  lemma LowFlagsOutsideMask()
    ensures Bit(Complement(PHYS_ADDR_MASK), 0) == 1 && Bit(Complement(PHYS_ADDR_MASK), 1) == 1
  {
    Pow2Small();
    assert Complement(PHYS_ADDR_MASK) == 0xffff_0000_0000_0fff;
  }

  /** The 2 MiB constructor accepts exactly the raw values with the page-size bit (bit 7). */
  lemma Make2MBEntryFacts(raw: u64)
    ensures Make2MBEntry(raw).Some? <==> Bit(raw, 7) == 1
  {
    Pow2Small();
    assert PAGE_SIZE_BIT == Band(7, 8);
    AndBand(raw, 7, 8, 64);
    DigitSplit(raw, 0x80, 2);
  }
}
