/**
 * Address ranges (`kernel/range.cpp`): `PRange` for physical and `VRange` for
 * virtual memory. The two structs are member-for-member identical, so both
 * are this one datatype.
 */
module Range {
  import opened Types

  datatype Range = Range(addr: u64, length: u64)

  type PRange = Range
  type VRange = Range

  /** `one_past_end`: `addr + length`, wrapping like the source's `u64` sum. */
  function OnePastEnd(r: Range): (e: u64)
    ensures r.addr + r.length < U64_MOD ==> e == r.addr + r.length
  {
    Add64(r.addr, r.length)
  }

  /** The range does not wrap past the top of the 64-bit address space. */
  predicate NoWrap(r: Range)
  {
    r.addr + r.length < U64_MOD
  }

  /** Address `x` lies in the range. */
  predicate Contains(r: Range, x: int)
  {
    r.addr <= x < r.addr + r.length
  }

  /**
   * `subtract(other)`: a range that ends at or before this one starts takes
   * nothing away; otherwise the result starts where `other` ends and keeps
   * this range's end.
   */
  function SubtractRange(self: Range, other: Range): (r: Range)
    ensures OnePastEnd(other) <= self.addr ==> r == self
    ensures NoWrap(self) && NoWrap(other) && self.addr < OnePastEnd(other) <= OnePastEnd(self) ==>
      r.addr == OnePastEnd(other) && NoWrap(r) && OnePastEnd(r) == OnePastEnd(self)
  {
    if OnePastEnd(other) <= self.addr then Range(self.addr, self.length)
    else
      var lost := Sub64(OnePastEnd(other), self.addr);
      Range(OnePastEnd(other), Sub64(self.length, lost))
  }

  /** `subtract(size)`: drop the first `size` bytes, keeping the end. */
  function SubtractSize(self: Range, size: u64): (r: Range)
    ensures NoWrap(self) && size <= self.length ==>
      r.addr == self.addr + size && r.length == self.length - size &&
      NoWrap(r) && OnePastEnd(r) == OnePastEnd(self)
  {
    Range(Add64(self.addr, size), Sub64(self.length, size))
  }

  /**
   * When `other` covers the start of this range, subtracting it leaves
   * exactly the addresses of this range that `other` does not contain.
   */
  lemma SubtractRangeCovers(self: Range, other: Range, x: int)
    requires NoWrap(self) && NoWrap(other)
    requires other.addr <= self.addr && OnePastEnd(other) <= OnePastEnd(self)
    ensures Contains(SubtractRange(self, other), x) <==> Contains(self, x) && !Contains(other, x)
  {
  }

  /** Subtracting a size keeps exactly the addresses from `addr + size` on. */
  lemma SubtractSizeCovers(self: Range, size: u64, x: int)
    requires NoWrap(self) && size <= self.length
    ensures Contains(SubtractSize(self, size), x) <==> Contains(self, x) && x >= self.addr + size
  {
  }
}
