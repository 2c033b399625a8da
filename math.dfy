/**
 * The kernel's alignment arithmetic (`include/math.cpp`) and the `min`/`max`
 * templates (`include/math.h`), on unsigned 64-bit values with the source's
 * wrap-around written out.
 */
module Math {
  import opened Types
  import opened Bits

  /** How many of the low `n` bits of `v` are set. */
  function SetBits(v: nat, n: nat): nat
  {
    if n == 0 then 0 else v % 2 + SetBits(v / 2, n - 1)
  }

  /** `is_power_of_2`: the 64-bit population count is exactly one. */
  function IsPowerOf2(v: u64): bool
  {
    SetBits(v, 64) == 1
  }

  lemma {:induction false} SetBitsZero(v: nat, n: nat)
    requires v < Pow2(n)
    ensures SetBits(v, n) == 0 <==> v == 0
  {
    if n > 0 {
      SetBitsZero(v / 2, n - 1);
    }
  }

  lemma {:induction false} SetBitsOne(v: nat, n: nat)
    requires v < Pow2(n)
    ensures SetBits(v, n) == 1 <==> exists k :: 0 <= k < n && v == Pow2(k)
  {
    if n == 0 {
    } else if v % 2 == 1 {
      assert v / 2 < Pow2(n - 1);
      SetBitsZero(v / 2, n - 1);
      if SetBits(v, n) == 1 {
        assert v == Pow2(0);
      }
      forall k | 0 < k < n ensures v != Pow2(k) {
        assert Pow2(k) == 2 * Pow2(k - 1);
      }
    } else {
      var h := v / 2;
      assert v == 2 * h;
      assert h < Pow2(n - 1);
      SetBitsOne(h, n - 1);
      assert SetBits(v, n) == SetBits(h, n - 1);
      if SetBits(v, n) == 1 {
        var k :| 0 <= k < n - 1 && h == Pow2(k);
        assert Pow2(k + 1) == 2 * Pow2(k);
        assert 0 <= k + 1 < n && v == Pow2(k + 1);
      }
      if exists k :: 0 <= k < n && v == Pow2(k) {
        var k :| 0 <= k < n && v == Pow2(k);
        assert k != 0;
        assert Pow2(k) == 2 * Pow2(k - 1);
        assert 0 <= k - 1 < n - 1 && h == Pow2(k - 1);
        assert SetBits(h, n - 1) == 1;
      }
    }
  }

  /** `is_power_of_2(v)` holds exactly for the 64 single-bit values. */
  lemma PowerOf2Iff(v: u64)
    ensures IsPowerOf2(v) <==> exists k :: 0 <= k < 64 && v == Pow2(k)
  {
    Pow2Large();
    SetBitsOne(v, 64);
  }

  /**
   * `round_up_align`: zero alignment is the identity; otherwise `v + (a-1)`
   * (wrapping) is rounded down to a multiple of `a`.
   */
  function RoundUpAlign(v: u64, a: u64): (r: u64)
    ensures a == 0 ==> r == v
    ensures a > 0 && v + a - 1 < U64_MOD ==> r % a == 0 && v <= r < v + a
  {
    if a == 0 then v
    else
      var sum := v + (a - 1);
      var t := if sum < U64_MOD then sum else sum - U64_MOD;
      RoundDownMultiple(t, a);
      t - t % a
  }

  /** `round_down_align`: the largest multiple of `a` not above `v`. */
  function RoundDownAlign(v: u64, a: u64): (r: u64)
    ensures a == 0 ==> r == v
    ensures a > 0 ==> r % a == 0 && r <= v < r + a
  {
    if a == 0 then v
    else
      RoundDownMultiple(v, a);
      v - v % a
  }

  /** Two multiples of `a` less than `a` apart are equal. */
  lemma MultiplesApart(x: int, y: int, a: int)
    requires a > 0 && x % a == 0 && y % a == 0 && y <= x < y + a
    ensures x == y
  {
    var qx, qy := x / a, y / a;
    assert x == a * qx && y == a * qy;
    assert x - y == a * (qx - qy);
    assert y - x == a * (qy - qx);
    if qx > qy {
      MulAtLeast(a, qx - qy);
    } else if qx < qy {
      MulAtLeast(a, qy - qx);
    }
  }

  /** Both roundings leave an already aligned value where it is. */
  lemma AlignFixedPoints(v: u64, a: u64)
    requires a > 0 && v % a == 0 && v + a - 1 < U64_MOD
    ensures RoundUpAlign(v, a) == v && RoundDownAlign(v, a) == v
  {
    MultiplesApart(RoundUpAlign(v, a), v, a);
    MultiplesApart(v, RoundDownAlign(v, a), a);
  }

  /** `round_up_divide`: `(n + (d-1)) / d`, the ceiling of `n / d` when the sum does not wrap. */
  function RoundUpDivide(n: u64, d: u64): (r: u64)
    requires d > 0
    ensures n + d - 1 < U64_MOD ==> r * d >= n && (r - 1) * d < n
  {
    var sum := n + (d - 1);
    var t := if sum < U64_MOD then sum else sum - U64_MOD;
    var q := t / d;
    assert t == d * q + t % d;
    q
  }

  /** `is_aligned`: true for alignment 0, otherwise the mask test `(v & (a-1)) == 0`. */
  function IsAligned(v: u64, a: u64): bool
  {
    a == 0 || And(v, a - 1, 64) == 0
  }

  /** For a power-of-two alignment the mask test is divisibility. */
  lemma IsAlignedPowerOf2(v: u64, a: u64)
    requires IsPowerOf2(a)
    ensures a > 0
    ensures IsAligned(v, a) <==> v % a == 0
  {
    var k := PowerOf2Exponent(a);
    MaskIsMod(v, k);
  }

  /** The exponent of a power of two. */
  lemma PowerOf2Exponent(a: u64) returns (k: nat)
    requires IsPowerOf2(a)
    ensures k < 64 && a == Pow2(k)
  {
    PowerOf2Iff(a);
    k :| 0 <= k < 64 && a == Pow2(k);
  }

  lemma MaskIsMod(v: u64, k: nat)
    requires k < 64
    ensures And(v, Pow2(k) - 1, 64) == v % Pow2(k)
  {
    AndLowMask(v, k, 64);
  }

  /** `x & (x / 2)` vanishes for `x` in {2, 4}: their single set bit does not meet the one below it. */
  lemma EvenAndHalf(x: nat, n: nat)
    requires (x == 2 && n > 0) || (x == 4 && n > 1)
    ensures And(x, x / 2, n) == 0
  {
    if x == 2 {
      AndZero(1, n - 1);
      assert And(x, 1, n) == 0 * 1 + 2 * And(1, 0, n - 1);
    } else {
      EvenAndHalf(2, n - 1);
      assert And(x, 2, n) == 0 * 0 + 2 * And(2, 1, n - 1);
    }
  }

  /** For an alignment that is not a power of two the mask test is not divisibility. */
  lemma IsAlignedNonPowerOf2(v: u64, a: u64)
    requires v == 4 && a == 3
    ensures IsAligned(v, a) && v % a != 0
  {
    EvenAndHalf(v, 64);
    assert a - 1 == v / 2;
  }

  /**
   * Rounding down and rounding up bracket `v`, and both results pass
   * `is_aligned` for a power-of-two alignment.
   */
  lemma AlignBracket(v: u64, a: u64)
    requires IsPowerOf2(a)
    requires v + a - 1 < U64_MOD
    ensures RoundDownAlign(v, a) <= v <= RoundUpAlign(v, a)
    ensures IsAligned(RoundDownAlign(v, a), a) && IsAligned(RoundUpAlign(v, a), a)
  {
    IsAlignedPowerOf2(RoundDownAlign(v, a), a);
    IsAlignedPowerOf2(RoundUpAlign(v, a), a);
  }

  /** `xor_` on booleans. */
  function Xor(a: bool, b: bool): (r: bool)
    ensures r <==> a != b
  {
    (!a && b) || (a && !b)
  }

  /** The `min` template: the smaller argument (the second one on a tie). */
  function Min(a: int, b: int): (r: int)
    ensures r <= a && r <= b
    ensures r == a || r == b
  {
    if a < b then a else b
  }

  /** The `max` template: the larger argument (the second one on a tie). */
  function Max(a: int, b: int): (r: int)
    ensures r >= a && r >= b
    ensures r == a || r == b
  {
    if a > b then a else b
  }
}
