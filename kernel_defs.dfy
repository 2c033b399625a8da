/**
 * The kernel's virtual-address layout (`kernel/kernel_defs.h`): a 32 GiB
 * kernel span starting at 32 GiB and a 32 GiB user span starting at the
 * reach of one PDPT (512 GiB), so that the two live under different PML4
 * entries and the kernel half can be shared by copying PML4 entry 0.
 */
module KernelDefs {
  import opened Types
  import opened Bits
  import opened PageTableFormat

  const MAX_KERNEL_PSPACE_SIZE: u64 := 32 * GB
  const KERNEL_VSPACE_START: u64 := MAX_KERNEL_PSPACE_SIZE
  const KERNEL_VSPACE_SIZE: u64 := 32 * GB
  const USER_VSPACE_START: u64 := BYTES_MAPPED_BY_PDPT
  const USER_VSPACE_SIZE: u64 := 32 * GB

  /** The three `static_assert`s of the header. */
  lemma StaticAsserts()
    ensures KERNEL_VSPACE_START + KERNEL_VSPACE_SIZE <= USER_VSPACE_START
    ensures KERNEL_VSPACE_START + KERNEL_VSPACE_SIZE <= BYTES_MAPPED_BY_PDPT
    ensures USER_VSPACE_START / BYTES_MAPPED_BY_PDPT > 0
  {
  }

  predicate InKernelSpan(v: int)
  {
    KERNEL_VSPACE_START <= v < KERNEL_VSPACE_START + KERNEL_VSPACE_SIZE
  }

  predicate InUserSpan(v: int)
  {
    USER_VSPACE_START <= v < USER_VSPACE_START + USER_VSPACE_SIZE
  }

  /** The kernel and user spans share no address. */
  lemma SpansDisjoint(v: int)
    ensures !(InKernelSpan(v) && InUserSpan(v))
  {
  }

  /** Every kernel address is translated through PML4 entry 0. */
  lemma {:induction false} KernelUnderPml4Zero(v: u64)
    requires InKernelSpan(v)
    ensures Pml4tIndex(v) == 0
  {
    Index9Digit(v, 39);
    Pow2Large();
    ModSmall(v, Pow2(39));
    ModSmall(0, 512);
  }

  /** Every user address is translated through PML4 entry 1, never entry 0. */
  lemma {:induction false} UserUnderPml4One(v: u64)
    requires InUserSpan(v)
    ensures Pml4tIndex(v) == 1
  {
    Index9Digit(v, 39);
    Pow2Large();
    DivModUnique(v, Pow2(39), 1, v - Pow2(39));
    ModSmall(1, 512);
  }
}
