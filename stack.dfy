/**
 * A process or interrupt stack (`kernel/stack.h`): `bottom` is its lowest
 * address and `top` the aligned address the stack pointer starts from.
 */
module Stacks {
  import opened Types
  import opened Math
  import Bits

  /**
   * The `top` that `set_stack_top` computes: the last byte of the stack,
   * `bottom + size - 1` in 64-bit arithmetic, rounded down to `alignment`.
   * Without wrap-around it lies in the stack, and for an aligned `bottom` it
   * is at or above `bottom`.
   */
  function StackTop(bottom: u64, size: u64, alignment: u64): (top: u64)
    ensures alignment > 0 ==> top % alignment == 0
    ensures IsPowerOf2(alignment) ==> IsAligned(top, alignment)
    ensures 1 <= size && bottom + size - 1 < U64_MOD ==> top <= bottom + size - 1
    ensures 1 <= size && bottom + size - 1 < U64_MOD && alignment > 0 && bottom % alignment == 0 ==>
      bottom <= top
  {
    StackTopBounds(bottom, size, alignment);
    RoundDownAlign((bottom + size - 1) % U64_MOD, alignment)
  }

  lemma StackTopBounds(bottom: u64, size: u64, alignment: u64)
    ensures var top := RoundDownAlign((bottom + size - 1) % U64_MOD, alignment);
      && (IsPowerOf2(alignment) ==> IsAligned(top, alignment))
      && (1 <= size && bottom + size - 1 < U64_MOD ==> top <= bottom + size - 1)
      && (1 <= size && bottom + size - 1 < U64_MOD && alignment > 0 && bottom % alignment == 0 ==> bottom <= top)
  {
    var last := (bottom + size - 1) % U64_MOD;
    var top := RoundDownAlign(last, alignment);
    if IsPowerOf2(alignment) {
      IsAlignedPowerOf2(top, alignment);
    }
    if 1 <= size && bottom + size - 1 < U64_MOD {
      Bits.ModSmall(bottom + size - 1, U64_MOD);
      if alignment > 0 && bottom % alignment == 0 && top < bottom {
        MultiplesApart(bottom, top, alignment);
      }
    }
  }

  class Stack {
    var bottom: u64
    var top: u64

    /** A zero-initialised `Stack`. */
    constructor ()
      ensures bottom == 0 && top == 0
    {
      bottom, top := 0, 0;
    }

    /** `set_stack_top`: `top` becomes `StackTop(bottom, size, alignment)`; `bottom` stays. */
    method SetStackTop(size: u64, alignment: u64)
      modifies this
      ensures bottom == old(bottom)
      ensures top == StackTop(bottom, size, alignment)
    {
      var t := (bottom + size - 1) % U64_MOD;
      top := RoundDownAlign(t, alignment);
    }

    /** `is_ptr_in_stack`: inclusive at both ends. */
    predicate IsPtrInStack(ptr: u64)
      reads this
    {
      ptr >= bottom && ptr <= top
    }
  }

  /**
   * Once `set_stack_top` has run on an aligned `bottom`, the pointers that
   * count as in the stack are exactly those from `bottom` to `top`, all of
   * them within the `size` bytes from `bottom`, and `bottom` is one of them.
   */
  lemma InStackWithin(st: Stack, size: u64, alignment: u64, ptr: u64)
    requires st.top == StackTop(st.bottom, size, alignment)
    requires 1 <= size && st.bottom + size - 1 < U64_MOD && alignment > 0 && st.bottom % alignment == 0
    ensures st.IsPtrInStack(ptr) ==> st.bottom <= ptr < st.bottom + size
    ensures st.IsPtrInStack(st.bottom)
  {
  }
}
