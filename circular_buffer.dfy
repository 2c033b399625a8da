/**
 * The kernel's ring buffer (`kernel/circular_buffer.h`): `size` slots,
 * `startI` the oldest element, `endI` one past the newest. `startI == endI`
 * means empty, so at most `size - 1` elements are held; pushing onto a full
 * ring drops the oldest one.
 */
module CircularBuffers {
  import opened Types
  import Bits

  /** Slot `start + k` of a ring of `size` slots. */
  function Slot(start: nat, k: nat, size: nat): (i: nat)
    requires start < size && k < size
    ensures i < size
  {
    if start + k < size then start + k else start + k - size
  }

  /** How many slots lie from `start` up to (not including) `end`, going round. */
  function RingCount(start: nat, end: nat, size: nat): (n: nat)
    requires start < size && end < size
    ensures n < size
  {
    if start <= end then end - start else end + size - start
  }

  /** The `n` slots of `s` from `start` onward, going round. */
  function Window<T>(s: seq<T>, start: nat, n: nat): seq<T>
    requires start < |s| && n <= |s|
  {
    seq(n, k requires 0 <= k < n => s[Slot(start, k, |s|)])
  }

  /** The last `m` elements of `s` (all of them when there are fewer). */
  function Newest<T>(s: seq<T>, m: nat): seq<T>
  {
    if |s| <= m then s else s[|s| - m..]
  }

  /** The contents after `push_end(obj)`: `obj` comes last, and only the newest `size - 1` stay. */
  function Pushed<T>(c: seq<T>, obj: T, size: nat): (r: seq<T>)
    requires |c| < size
    ensures |r| < size
    ensures r == Newest(c + [obj], size - 1)
  {
    if |c| + 1 < size then c + [obj] else (c + [obj])[1..]
  }

  /**
   * Keeping the newest `m`, appending `x` and keeping the newest `m` again is
   * appending first: a run of pushes leaves the newest `size - 1` of the old
   * contents followed by the pushed elements, and, short of `size - 1` in
   * all, pops from the start return the pushed elements in order.
   */
  lemma NewestAppend<T>(t: seq<T>, x: T, m: nat)
    ensures Newest(Newest(t, m) + [x], m) == Newest(t + [x], m)
  {
    if |t| > m {
      assert Newest(t, m) + [x] == (t + [x])[|t| - m..];
      if m > 0 {
        assert (t + [x])[|t| - m..][1..] == (t + [x])[|t| + 1 - m..];
      }
    }
  }

  /** The slot before `end`, going round: where the newest element sits. */
  function PrevIndex(end: u32, size: u32): (i: u32)
    requires end < size
    ensures i < size
    ensures size > 1 ==> Slot(i as nat, 1, size as nat) == end as nat
  {
    if end == 0 then size - 1 else end - 1
  }

  /** `(end_i - 1) % Size` as the source computes it, in 32-bit unsigned arithmetic. */
  function PrevIndexAsWritten(end: u32, size: u32): (i: u32)
    requires 0 < size
    ensures i < size
  {
    ((end as int - 1) % U32_MOD) % size as int
  }

  /**
   * The source's index is the slot before `end` exactly when `end` is not 0
   * or `size` divides 2^32.
   */
  lemma PrevIndexAgrees(end: u32, size: u32)
    requires end < size
    ensures PrevIndexAsWritten(end, size) == PrevIndex(end, size) <==> (end > 0 || U32_MOD % size as int == 0)
  {
    var d := size as int;
    if end == 0 {
      assert PrevIndexAsWritten(end, size) == (U32_MOD - 1) % d by {
        Bits.DivModUnique(-1, U32_MOD, -1, U32_MOD - 1);
      }
      var q, r := (U32_MOD - 1) / d, (U32_MOD - 1) % d;
      assert U32_MOD - 1 == d * q + r;
      if r == d - 1 {
        Bits.DivModUnique(U32_MOD, d, q + 1, 0);
      } else if U32_MOD % d == 0 {
        var m := U32_MOD / d;
        assert U32_MOD == d * m;
        Bits.DivModUnique(U32_MOD - 1, d, m - 1, d - 1);
      }
    } else {
      Bits.DivModUnique(end as int - 1, U32_MOD, 0, end as int - 1);
      Bits.DivModUnique(end as int - 1, d, 0, end as int - 1);
    }
  }

  /**
   * The TTY's ring has 10000 slots, which does not divide 2^32: with
   * `end_i == 0` the source's `pop_end` and `peek_end` read slot 7295
   * instead of 9999, and `pop_end` leaves a full ring (`start_i == 1`)
   * holding 7294 elements instead of 9998.
   */
  lemma PopEndWrapFinding()
    ensures PrevIndexAsWritten(0, 10000) == 7295 && PrevIndex(0, 10000) == 9999
    ensures RingCount(1, PrevIndexAsWritten(0, 10000) as nat, 10000) == 7294
    ensures RingCount(1, PrevIndex(0, 10000) as nat, 10000) == 9998
  {
  }

  /** A value below twice the modulus wraps at most once. */
  lemma ModOnce(x: int, size: int)
    requires 0 <= x < 2 * size
    ensures x % size == if x < size then x else x - size
  {
    if x < size {
      Bits.DivModUnique(x, size, 0, x);
    } else {
      Bits.DivModUnique(x, size, 1, x - size);
    }
  }

  /** `count`'s 32-bit unrolling: any wrap-around of `end + size` cancels in the subtraction. */
  lemma UnrolledCount(start: u32, end: u32, size: u32)
    requires start < size && end < size
    ensures var unrolled := if end < start then (end + size) % U32_MOD else end as int;
      var c := (unrolled - start) % U32_MOD;
      c == RingCount(start as nat, end as nat, size as nat) && c == (end as int - start as int) % size as int
  {
    var unrolled := if end < start then (end + size) % U32_MOD else end as int;
    var c := RingCount(start as nat, end as nat, size as nat);
    if end < start {
      ModOnce(end as int + size as int, U32_MOD);
      if end as int + size as int < U32_MOD {
        Bits.DivModUnique(unrolled - start as int, U32_MOD, 0, c);
      } else {
        Bits.DivModUnique(unrolled - start as int, U32_MOD, -1, c);
      }
      Bits.DivModUnique(end as int - start as int, size as int, -1, c);
    } else {
      Bits.DivModUnique(unrolled - start as int, U32_MOD, 0, c);
      Bits.DivModUnique(end as int - start as int, size as int, 0, c);
    }
  }

  /** `operator[]`'s index: below the ring's size it is the `i`-th slot from `start`. */
  lemma IndexSlot(start: u32, i: u64, size: u32)
    requires start < size
    ensures i < size ==> ((start + i) % U64_MOD) % size as int == Slot(start as nat, i as nat, size as nat)
  {
    if i < size {
      Bits.DivModUnique(start as int + i as int, U64_MOD, 0, start as int + i as int);
      ModOnce(start as int + i as int, size as int);
    }
  }

  /**
   * Writing `obj` into the slot after a window of `n` either extends the
   * window by `obj` or, when it fills the ring, moves the window on by one.
   */
  lemma WindowPush<T>(a: seq<T>, s: nat, n: nat, obj: T)
    requires s < |a| && n < |a|
    ensures n + 1 < |a| ==> Window(a[Slot(s, n, |a|) := obj], s, n + 1) == Window(a, s, n) + [obj]
    ensures n + 1 == |a| > 1 ==>
      Window(a[Slot(s, n, |a|) := obj], Slot(s, 1, |a|), n) == (Window(a, s, n) + [obj])[1..]
  {
    var a' := a[Slot(s, n, |a|) := obj];
    if n + 1 < |a| {
      var w, v := Window(a', s, n + 1), Window(a, s, n) + [obj];
      assert |w| == |v|;
      forall k | 0 <= k < |w|
        ensures w[k] == v[k]
      {
      }
    } else if |a| > 1 {
      var w, v := Window(a', Slot(s, 1, |a|), n), (Window(a, s, n) + [obj])[1..];
      assert |w| == |v|;
      forall k | 0 <= k < |w|
        ensures w[k] == v[k]
      {
        assert Slot(Slot(s, 1, |a|), k, |a|) == Slot(s, k + 1, |a|);
      }
    }
  }

  class CircularBuffer<T(0)> {
    const size: u32
    const arr: array<T>
    var startI: u32
    var endI: u32

    ghost predicate Valid()
      reads this
    {
      0 < size && arr.Length == size as int && startI < size && endI < size
    }

    /** The elements held, oldest first. */
    ghost function Contents(): seq<T>
      reads this, arr
      requires Valid()
    {
      Window(arr[..], startI as nat, RingCount(startI as nat, endI as nat, size as nat))
    }

    /** A ring of `size` slots with `start_i == end_i == 0`: empty. */
    constructor (size: u32)
      requires 0 < size
      ensures Valid() && this.size == size && Contents() == [] && fresh(arr)
    {
      this.size := size;
      arr := new T[size];
      startI, endI := 0, 0;
    }

    /** `is_empty`: the indices meet exactly when nothing is held. */
    function IsEmpty(): (b: bool)
      reads this, arr
      requires Valid()
      ensures b <==> Contents() == []
    {
      startI == endI
    }

    /**
     * `count`: `end_i` is unrolled by `Size` when it is behind `start_i`, in
     * 32-bit arithmetic; the wrap-around cancels out, so the result is the
     * number of elements, `(end_i - start_i) mod Size`.
     */
    function Count(): (c: u32)
      reads this, arr
      requires Valid()
      ensures c as int == |Contents()|
      ensures c as int == (endI as int - startI as int) % size as int
    {
      var unrolled := if endI < startI then (endI + size) % U32_MOD else endI as int;
      UnrolledCount(startI, endI, size);
      (unrolled - startI) % U32_MOD
    }

    /** `empty_slots`: the slots not holding an element, so it and `count` add up to `Size`. */
    function EmptySlots(): (e: u32)
      reads this, arr
      requires Valid()
      ensures e as int + |Contents()| == size as int
    {
      if startI > endI then startI - endI else startI + (size - endI)
    }

    /** `push_end`: `obj` becomes the newest element; on a full ring the oldest is dropped. */
    method PushEnd(obj: T)
      requires Valid()
      modifies this, arr
      ensures Valid()
      ensures Contents() == Pushed(old(Contents()), obj, size as nat)
    {
      ghost var a, c := arr[..], Contents();
      ghost var n := |c|;
      ghost var s, e, sz := startI as nat, endI as nat, size as nat;
      assert e == Slot(s, n, sz);
      arr[endI] := obj;
      assert arr[..] == a[e := obj];
      ModOnce(endI as int + 1, size as int);
      endI := (endI + 1) % size;
      if endI == startI {
        ModOnce(endI as int + 1, size as int);
        startI := (endI + 1) % size;
      }
      WindowPush(a, s, n, obj);
      if n + 1 < sz {
        assert startI as nat == s && RingCount(s, endI as nat, sz) == n + 1;
      } else if sz > 1 {
        assert startI as nat == Slot(s, 1, sz) && RingCount(startI as nat, endI as nat, sz) == n;
      }
    }

    /** `pop_start`: nothing on an empty ring; otherwise the oldest element, removed. */
    method PopStart() returns (r: Option<T>)
      requires Valid()
      modifies this
      ensures Valid() && endI == old(endI)
      ensures old(Contents()) == [] ==> r == None && startI == old(startI)
      ensures old(Contents()) != [] ==> r == Some(old(Contents())[0]) && Contents() == old(Contents())[1..]
    {
      if IsEmpty() {
        return None;
      }
      ghost var c := Contents();
      r := Some(arr[startI]);
      ModOnce(startI as int + 1, size as int);
      startI := (startI + 1) % size;
      assert Contents() == c[1..] by {
        forall k | 0 <= k < |c| - 1
          ensures Contents()[k] == c[k + 1]
        {
        }
      }
    }

    /** `pop_end`, stepping back from `end_i == 0` to the last slot: nothing on an empty ring; otherwise the newest element, removed. */
    method PopEnd() returns (r: Option<T>)
      requires Valid()
      modifies this
      ensures Valid() && startI == old(startI)
      ensures old(Contents()) == [] ==> r == None && endI == old(endI)
      ensures old(Contents()) != [] ==>
        r == Some(old(Contents())[|old(Contents())| - 1]) && Contents() == old(Contents())[..|old(Contents())| - 1]
    {
      if IsEmpty() {
        return None;
      }
      ghost var c := Contents();
      var i := PrevIndex(endI, size);
      assert i as nat == Slot(startI as nat, |c| - 1, size as nat);
      r := Some(arr[i]);
      endI := i;
      assert Contents() == c[..|c| - 1];
    }

    /** `pop_end` as written: the index is `(end_i - 1) % Size` in 32-bit arithmetic. */
    method PopEndAsWritten() returns (r: Option<T>)
      requires Valid()
      modifies this
      ensures Valid() && startI == old(startI)
      ensures old(Contents()) == [] ==> r == None && endI == old(endI)
      ensures old(Contents()) != [] ==>
        r == Some(arr[PrevIndexAsWritten(old(endI), size)]) && endI == PrevIndexAsWritten(old(endI), size)
    {
      if IsEmpty() {
        return None;
      }
      var i := PrevIndexAsWritten(endI, size);
      r := Some(arr[i]);
      endI := i;
    }

    /** `peek_start`: what `pop_start` would return, with nothing changed. */
    function PeekStart(): (r: Option<T>)
      reads this, arr
      requires Valid()
      ensures Contents() == [] ==> r == None
      ensures Contents() != [] ==> r == Some(Contents()[0])
    {
      if IsEmpty() then None else Some(arr[startI])
    }

    /** `peek_end`, with the same step back as `PopEnd`: the newest element, with nothing changed. */
    function PeekEnd(): (r: Option<T>)
      reads this, arr
      requires Valid()
      ensures Contents() == [] ==> r == None
      ensures Contents() != [] ==> r == Some(Contents()[|Contents()| - 1])
    {
      if IsEmpty() then None
      else
        assert PrevIndex(endI, size) as nat == Slot(startI as nat, |Contents()| - 1, size as nat);
        Some(arr[PrevIndex(endI, size)])
    }

    /**
     * `peek_end` as written, with the same 32-bit step back as
     * `PopEndAsWritten`: it returns the newest element exactly when the step
     * back agrees with `PrevIndex`, and slot 7295 of the TTY's ring when
     * `end_i == 0` (`PopEndWrapFinding`).
     */
    function PeekEndAsWritten(): (r: Option<T>)
      reads this, arr
      requires Valid()
      ensures Contents() == [] ==> r == None
      ensures Contents() != [] ==> r == Some(arr[PrevIndexAsWritten(endI, size)])
      ensures Contents() != [] && (endI > 0 || U32_MOD % size as int == 0) ==> r == PeekEnd()
    {
      if IsEmpty() then None
      else
        PrevIndexAgrees(endI, size);
        Some(arr[PrevIndexAsWritten(endI, size)])
    }

    /** `operator[]`: slot `(start_i + i) mod Size`, so index 0 is the oldest element. */
    function Get(i: u64): (v: T)
      reads this, arr
      requires Valid()
      ensures i < |Contents()| ==> v == Contents()[i]
    {
      IndexSlot(startI, i, size);
      arr[((startI + i) % U64_MOD) % size as int]
    }
  }
}
