/**
 * Bitwise operations on unsigned integers, defined bit by bit on `nat`.
 *
 * The kernel tests and builds bit fields with `&`, `|`, `~`, `<<` and `>>`
 * on `u64` values (alignment masks, page-table entries, descriptor fields).
 * `And` and `Or` below are those operators on the low `n` bits; the lemmas
 * connect them with the division and remainder arithmetic the rest of the
 * model reasons in.
 */
module Bits {
  import opened Types

  function Pow2(k: nat): (r: nat)
    ensures r >= 1
  {
    if k == 0 then 1 else 2 * Pow2(k - 1)
  }

  lemma {:induction false} Pow2Add(a: nat, b: nat)
    ensures Pow2(a + b) == Pow2(a) * Pow2(b)
  {
    if a > 0 {
      Pow2Add(a - 1, b);
    }
  }

  lemma Pow2Monotone(a: nat, b: nat)
    requires a <= b
    ensures Pow2(a) <= Pow2(b)
    ensures Pow2(b) % Pow2(a) == 0
  {
    Pow2Le(a, b);
    Pow2Divides(a, b);
  }

  lemma {:induction false} Pow2Le(a: nat, b: nat)
    requires a <= b
    ensures Pow2(a) <= Pow2(b)
  {
    if a < b {
      Pow2Le(a, b - 1);
    }
  }

  lemma Pow2Divides(a: nat, b: nat)
    requires a <= b
    ensures Pow2(b) % Pow2(a) == 0
  {
    var k := b - a;
    Pow2Add(a, k);
    assert a + k == b;
    MulModLeft(Pow2(a), Pow2(k));
  }

  lemma MulModLeft(d: nat, q: nat)
    requires d > 0
    ensures (d * q) % d == 0
  {
    MulMod(q, d);
    assert q * d == d * q;
  }

  /** The powers of two that name the kernel's bit positions and sizes. */
  lemma Pow2Small()
    ensures Pow2(1) == 2 && Pow2(2) == 4 && Pow2(3) == 8 && Pow2(4) == 16
    ensures Pow2(7) == 0x80 && Pow2(8) == 0x100 && Pow2(9) == 0x200 && Pow2(12) == 0x1000
  {
    assert Pow2(4) == 16;
    Pow2Add(4, 3); Pow2Add(4, 4); Pow2Add(8, 1); Pow2Add(8, 4);
  }

  lemma Pow2Mid()
    ensures Pow2(16) == 0x1_0000 && Pow2(20) == 0x10_0000 && Pow2(21) == 0x20_0000
    ensures Pow2(24) == 0x100_0000 && Pow2(30) == 0x4000_0000 && Pow2(31) == 0x8000_0000
    ensures Pow2(32) == 0x1_0000_0000
  {
    Pow2Small();
    Pow2Add(8, 8); Pow2Add(16, 4); Pow2Add(20, 1); Pow2Add(12, 12); Pow2Add(21, 9);
    Pow2Add(30, 1); Pow2Add(16, 16);
  }

  lemma Pow2Large()
    ensures Pow2(39) == 0x80_0000_0000 && Pow2(48) == 0x1_0000_0000_0000
    ensures Pow2(64) == 0x1_0000_0000_0000_0000
  {
    Pow2Small(); Pow2Mid();
    Pow2Add(30, 9); Pow2Add(24, 24); Pow2Add(32, 32);
  }

  lemma MulAtLeast(d: int, k: int)
    requires d > 0 && k >= 1
    ensures d * k >= d
  {
    assert d * k == d * (k - 1) + d;
  }

  /** Dividing a natural number by a positive one gives a natural number no larger. */
  lemma DivNat(x: nat, d: nat)
    requires d > 0
    ensures 0 <= x / d <= x
  {
    var q, r := x / d, x % d;
    assert x == d * q + r;
    if q < 0 {
      MulAtLeast(d, -q);
    } else if q > 0 {
      MulAtLeast(q, d);
    }
  }

  /** Division with remainder is unique: the usual characterisation of `/` and `%`. */

  lemma DivModUnique(x: int, d: int, q: int, r: int)
    requires d > 0 && x == d * q + r && 0 <= r < d
    ensures x % d == r && x / d == q
  {
    var q', r' := x / d, x % d;
    assert x == d * q' + r';
    assert d * (q - q') == r' - r;
    if q > q' {
      MulAtLeast(d, q - q');
    } else if q < q' {
      MulAtLeast(d, q' - q);
    }
  }

  lemma ModSmall(x: nat, d: nat)
    requires x < d
    ensures x % d == x && x / d == 0
  {
    DivModUnique(x, d, 0, x);
  }

  lemma MulMod(q: nat, d: nat)
    requires d > 0
    ensures (q * d) % d == 0 && (q * d) / d == q
  {
    DivModUnique(q * d, d, q, 0);
  }

  /** Rounding down to a multiple of `d` lands on a multiple of `d`. */
  lemma RoundDownMultiple(x: nat, d: nat)
    requires d > 0
    ensures x - x % d == (x / d) * d
    ensures (x - x % d) % d == 0
  {
    MulMod(x / d, d);
  }

  /** Splitting off the lowest bit: `x mod 2m` from `x mod 2` and `(x / 2) mod m`. */
  lemma ModDouble(x: nat, m: nat)
    requires m > 0
    ensures x % (2 * m) == x % 2 + 2 * ((x / 2) % m)
    ensures x / (2 * m) == (x / 2) / m
  {
    var q := (x / 2) / m;
    var r := x % 2 + 2 * ((x / 2) % m);
    assert x / 2 == m * q + (x / 2) % m;
    assert x == (2 * m) * q + r;
    DivModUnique(x, 2 * m, q, r);
  }

  lemma ModPow2Succ(x: nat, k: nat)
    ensures x % Pow2(k + 1) == x % 2 + 2 * ((x / 2) % Pow2(k))
    ensures x / Pow2(k + 1) == (x / 2) / Pow2(k)
  {
    ModDouble(x, Pow2(k));
  }

  /** Bit `i` of `x`, i.e. `(x >> i) & 1`. */
  function Bit(x: nat, i: nat): (b: nat)
    ensures b < 2
  {
    (x / Pow2(i)) % 2
  }

  /** `x & y` restricted to bits `0 .. n-1`. */
  function And(x: nat, y: nat, n: nat): (r: nat)
    ensures r < Pow2(n)
  {
    if n == 0 then 0
    else
      (x % 2) * (y % 2) + 2 * And(x / 2, y / 2, n - 1)
  }

  /** One step of `And`, with the lowest bit as a case split instead of a product. */
  lemma AndUnfold(x: nat, y: nat, n: nat)
    requires n > 0
    ensures And(x, y, n) == (if x % 2 == 1 && y % 2 == 1 then 1 else 0) + 2 * And(x / 2, y / 2, n - 1)
  {
    if x % 2 == 0 {
      assert (x % 2) * (y % 2) == 0;
    } else {
      assert (x % 2) * (y % 2) == y % 2;
    }
  }

  lemma {:induction false} AndAtMostRight(x: nat, y: nat, n: nat)
    ensures And(x, y, n) <= y
  {
    if n > 0 {
      AndAtMostRight(x / 2, y / 2, n - 1);
      assert And(x, y, n) == (x % 2) * (y % 2) + 2 * And(x / 2, y / 2, n - 1);
      assert (x % 2) * (y % 2) <= y % 2 by {
        if x % 2 == 0 { assert (x % 2) * (y % 2) == 0; }
      }
    }
  }

  /** `x | y` restricted to bits `0 .. n-1`. */
  function Or(x: nat, y: nat, n: nat): (r: nat)
    ensures r < Pow2(n)
  {
    if n == 0 then 0
    else
      (if x % 2 == 1 || y % 2 == 1 then 1 else 0) + 2 * Or(x / 2, y / 2, n - 1)
  }

  /** `~y` on an `n`-bit word. */
  function Not(y: nat, n: nat): (r: nat)
    requires y < Pow2(n)
    ensures r < Pow2(n)
    ensures r + y == Pow2(n) - 1
  {
    Pow2(n) - 1 - y
  }

  lemma {:induction false} AndSymmetric(x: nat, y: nat, n: nat)
    ensures And(x, y, n) == And(y, x, n)
  {
    if n > 0 {
      AndSymmetric(x / 2, y / 2, n - 1);
    }
  }

  /** Masking with `2^k - 1` keeps the remainder modulo `2^k`. */
  lemma {:induction false} AndLowMask(x: nat, k: nat, n: nat)
    requires k <= n
    ensures And(x, Pow2(k) - 1, n) == x % Pow2(k)
  {
    if k == 0 {
      AndZero(x, n);
    } else {
      var P := Pow2(k - 1);
      var y := Pow2(k) - 1;
      assert Pow2(k) == 2 * P;
      assert y % 2 == 1 && y / 2 == P - 1 by { DivModUnique(y, 2, P - 1, 1); }
      calc {
        And(x, y, n);
      ==
        (x % 2) * 1 + 2 * And(x / 2, P - 1, n - 1);
      == { AndLowMask(x / 2, k - 1, n - 1); }
        x % 2 + 2 * ((x / 2) % P);
      == { ModDouble(x, P); }
        x % (2 * P);
      }
    }
  }

  lemma {:induction false} AndZero(x: nat, n: nat)
    ensures And(x, 0, n) == 0
  {
    if n > 0 {
      AndZero(x / 2, n - 1);
    }
  }

  /** The mask whose set bits are `lo .. hi-1`. */
  function Band(lo: nat, hi: nat): (m: nat)
    requires lo <= hi
    ensures m + Pow2(lo) == Pow2(hi)
  {
    Pow2Monotone(lo, hi);
    Pow2(hi) - Pow2(lo)
  }

  /** Masking with a band keeps exactly the bits `lo .. hi-1`. */
  lemma {:induction false} AndBand(x: nat, lo: nat, hi: nat, n: nat)
    requires lo <= hi <= n
    ensures And(x, Band(lo, hi), n) == x % Pow2(hi) - x % Pow2(lo)
  {
    if lo == 0 {
      AndLowMask(x, hi, n);
    } else {
      var m, m' := Band(lo, hi), Band(lo - 1, hi - 1);
      var P, Q := Pow2(hi - 1), Pow2(lo - 1);
      assert Pow2(hi) == 2 * P && Pow2(lo) == 2 * Q;
      assert m == 2 * m';
      calc {
        And(x, m, n);
      == { assert m % 2 == 0 && m / 2 == m'; }
        2 * And(x / 2, m', n - 1);
      == { AndBand(x / 2, lo - 1, hi - 1, n - 1); }
        2 * ((x / 2) % P - (x / 2) % Q);
      == { ModDouble(x, P); ModDouble(x, Q); }
        x % (2 * P) - x % (2 * Q);
      }
    }
  }

  /** `~y` splits into `~(y / 2)` and the flipped lowest bit. */
  lemma NotStep(y: nat, n: nat)
    requires n > 0 && y < Pow2(n)
    ensures y / 2 < Pow2(n - 1)
    ensures Not(y, n) % 2 == 1 - y % 2 && Not(y, n) / 2 == Not(y / 2, n - 1)
  {
    var P := Pow2(n - 1);
    assert Pow2(n) == 2 * P;
    var c := Not(y, n);
    assert y == 2 * (y / 2) + y % 2;
    assert c == 2 * (P - 1 - y / 2) + (1 - y % 2);
    DivModUnique(c, 2, P - 1 - y / 2, 1 - y % 2);
  }

  /** The bits of `x` under `y` and under `~y` add up to `x` itself. */
  lemma {:induction false} AndComplement(x: nat, y: nat, n: nat)
    requires y < Pow2(n)
    ensures And(x, y, n) + And(x, Not(y, n), n) == x % Pow2(n)
  {
    if n > 0 {
      var P := Pow2(n - 1);
      var c := Not(y, n);
      assert Pow2(n) == 2 * P;
      NotStep(y, n);
      var a, b := And(x / 2, y / 2, n - 1), And(x / 2, c / 2, n - 1);
      assert And(x, y, n) == (x % 2) * (y % 2) + 2 * a;
      assert And(x, c, n) == (x % 2) * (c % 2) + 2 * b;
      assert (x % 2) * (y % 2) + (x % 2) * (c % 2) == x % 2 by {
        if x % 2 == 0 {
        } else {
          assert (x % 2) * (y % 2) == y % 2 && (x % 2) * (c % 2) == c % 2;
        }
      }
      calc {
        And(x, y, n) + And(x, c, n);
        x % 2 + 2 * (a + b);
      == { AndComplement(x / 2, y / 2, n - 1); }
        x % 2 + 2 * ((x / 2) % P);
      == { ModDouble(x, P); }
        x % (2 * P);
      }
    }
  }

  /** `|` of two words with no common bit is their sum. */
  lemma {:induction false} OrDisjoint(x: nat, y: nat, n: nat)
    requires And(x, y, n) == 0
    ensures Or(x, y, n) == x % Pow2(n) + y % Pow2(n)
  {
    if n > 0 {
      var P := Pow2(n - 1);
      assert Pow2(n) == 2 * P;
      assert (x % 2) * (y % 2) == 0 && And(x / 2, y / 2, n - 1) == 0;
      var lowbit := if x % 2 == 1 || y % 2 == 1 then 1 else 0;
      assert lowbit == x % 2 + y % 2 by {
        if x % 2 == 1 { assert y % 2 == 0; }
      }
      calc {
        Or(x, y, n);
        lowbit + 2 * Or(x / 2, y / 2, n - 1);
      == { OrDisjoint(x / 2, y / 2, n - 1); }
        x % 2 + y % 2 + 2 * ((x / 2) % P) + 2 * ((y / 2) % P);
      == { ModDouble(x, P); ModDouble(y, P); }
        x % (2 * P) + y % (2 * P);
      }
    }
  }

  /** Every bit position of `And` is the product of the two bits. */
  lemma {:induction false} AndBit(x: nat, y: nat, n: nat, i: nat)
    requires i < n
    ensures Bit(And(x, y, n), i) == Bit(x, i) * Bit(y, i)
  {
    var a := And(x, y, n);
    if i == 0 {
    } else {
      AndBit(x / 2, y / 2, n - 1, i - 1);
      BitShift(a, i);
      BitShift(x, i);
      BitShift(y, i);
      AndUnfold(x, y, n);
      var b := if x % 2 == 1 && y % 2 == 1 then 1 else 0;
      DivModUnique(a, 2, And(x / 2, y / 2, n - 1), b);
    }
  }

  /** A word below `2^k` and a multiple of `2^k` have no bit in common. */
  lemma {:induction false} AndShiftedZero(x: nat, y: nat, k: nat, n: nat)
    requires x < Pow2(k) && y % Pow2(k) == 0
    ensures And(x, y, n) == 0
  {
    if n > 0 {
      if k == 0 {
        AndShiftedZero(x / 2, y / 2, 0, n - 1);
      } else {
        var P := Pow2(k - 1);
        assert Pow2(k) == 2 * P;
        ModDouble(y, P);
        assert y % 2 == 0;
        AndShiftedZero(x / 2, y / 2, k - 1, n - 1);
        assert (x % 2) * (y % 2) == 0;
      }
    }
  }

  /** `x | (y << k)`-style packing: or-ing a word below `2^k` into a multiple of `2^k` adds them. */
  lemma OrShifted(x: nat, y: nat, k: nat, n: nat)
    requires x < Pow2(k) && y % Pow2(k) == 0 && x + y < Pow2(n)
    ensures Or(x, y, n) == x + y
  {
    AndShiftedZero(x, y, k, n);
    OrDisjoint(x, y, n);
    ModSmall(x, Pow2(n));
    ModSmall(y, Pow2(n));
  }

  /** Bit `i` of `x` is bit `i - 1` of `x / 2`. */
  lemma BitShift(x: nat, i: nat)
    requires i > 0
    ensures Bit(x, i) == Bit(x / 2, i - 1)
  {
    ModPow2Succ(x, i - 1);
  }

  /** `1 << i` has exactly bit `i` set. */
  lemma {:induction false} Pow2Bit(i: nat, j: nat)
    ensures Bit(Pow2(i), j) == if i == j then 1 else 0
  {
    if j > 0 {
      BitShift(Pow2(i), j);
      if i > 0 {
        assert Pow2(i) / 2 == Pow2(i - 1);
        Pow2Bit(i - 1, j - 1);
      }
    } else if i > 0 {
      assert Pow2(i) == 2 * Pow2(i - 1);
    }
  }

  /** Every bit position of `Or` is set when either input has it set. */
  lemma {:induction false} OrBit(x: nat, y: nat, n: nat, i: nat)
    requires i < n
    ensures Bit(Or(x, y, n), i) == if Bit(x, i) == 1 || Bit(y, i) == 1 then 1 else 0
  {
    if i > 0 {
      var o := Or(x, y, n);
      var b := if x % 2 == 1 || y % 2 == 1 then 1 else 0;
      DivModUnique(o, 2, Or(x / 2, y / 2, n - 1), b);
      OrBit(x / 2, y / 2, n - 1, i - 1);
      BitShift(o, i);
      BitShift(x, i);
      BitShift(y, i);
    }
  }

  /** Every bit position of `~y` is the flipped bit of `y`. */
  lemma {:induction false} NotBit(y: nat, n: nat, i: nat)
    requires y < Pow2(n) && i < n
    ensures Bit(Not(y, n), i) == 1 - Bit(y, i)
  {
    NotStep(y, n);
    if i > 0 {
      NotBit(y / 2, n - 1, i - 1);
      BitShift(Not(y, n), i);
      BitShift(y, i);
    }
  }

  /** `x & (1 << i)` keeps just bit `i` of `x`. */
  lemma {:induction false} AndPow2(x: nat, i: nat, n: nat)
    requires i < n
    ensures And(x, Pow2(i), n) == Bit(x, i) * Pow2(i)
  {
    if i == 0 {
      AndZero(x / 2, n - 1);
      assert And(x, 1, n) == (x % 2) * 1 + 2 * And(x / 2, 0, n - 1);
    } else {
      var P := Pow2(i - 1);
      assert Pow2(i) == 2 * P;
      assert Pow2(i) % 2 == 0 && Pow2(i) / 2 == P;
      AndPow2(x / 2, i - 1, n - 1);
      BitShift(x, i);
      assert And(x, Pow2(i), n) == (x % 2) * 0 + 2 * And(x / 2, P, n - 1);
    }
  }

  /** `x | (1 << i)` sets bit `i` and keeps every other bit. */
  lemma OrPow2Bit(x: nat, i: nat, n: nat, j: nat)
    requires i < n && j < n
    ensures Bit(Or(x, Pow2(i), n), j) == if j == i then 1 else Bit(x, j)
  {
    OrBit(x, Pow2(i), n, j);
    Pow2Bit(i, j);
  }

  /** On a clear bit `i`, `x | (1 << i)` adds `2^i`. */
  lemma OrPow2Value(x: nat, i: nat, n: nat)
    requires i < n && x < Pow2(n) && Bit(x, i) == 0
    ensures Or(x, Pow2(i), n) == x + Pow2(i)
  {
    AndPow2(x, i, n);
    OrDisjoint(x, Pow2(i), n);
    Pow2Le(i + 1, n);
    assert Pow2(i) < Pow2(n);
    ModSmall(x, Pow2(n));
    ModSmall(Pow2(i), Pow2(n));
  }

  /** `x & ~(1 << i)` clears bit `i` and keeps every other bit. */
  lemma AndNotPow2Bit(x: nat, i: nat, n: nat, j: nat)
    requires i < n && j < n
    ensures Pow2(i) < Pow2(n)
    ensures Bit(And(x, Not(Pow2(i), n), n), j) == if j == i then 0 else Bit(x, j)
  {
    Pow2Le(i + 1, n);
    AndBit(x, Not(Pow2(i), n), n, j);
    NotBit(Pow2(i), n, j);
    Pow2Bit(i, j);
  }

  /** On a set bit `i`, `x & ~(1 << i)` subtracts `2^i`. */
  lemma AndNotPow2Value(x: nat, i: nat, n: nat)
    requires i < n && x < Pow2(n) && Bit(x, i) == 1
    ensures Pow2(i) < Pow2(n)
    ensures And(x, Not(Pow2(i), n), n) == x - Pow2(i)
  {
    Pow2Le(i + 1, n);
    AndPow2(x, i, n);
    AndComplement(x, Pow2(i), n);
    ModSmall(x, Pow2(n));
  }

  /** `x ^ y` restricted to bits `0 .. n-1`. */
  function XorBits(x: nat, y: nat, n: nat): (r: nat)
    ensures r < Pow2(n)
  {
    if n == 0 then 0
    else
      (if x % 2 != y % 2 then 1 else 0) + 2 * XorBits(x / 2, y / 2, n - 1)
  }

  /** Every bit position of `XorBits` is set exactly when the two inputs differ there. */
  lemma {:induction false} XorBit(x: nat, y: nat, n: nat, i: nat)
    requires i < n
    ensures Bit(XorBits(x, y, n), i) == if Bit(x, i) != Bit(y, i) then 1 else 0
  {
    if i > 0 {
      var o := XorBits(x, y, n);
      var b := if x % 2 != y % 2 then 1 else 0;
      DivModUnique(o, 2, XorBits(x / 2, y / 2, n - 1), b);
      XorBit(x / 2, y / 2, n - 1, i - 1);
      BitShift(o, i);
      BitShift(x, i);
      BitShift(y, i);
    }
  }

  lemma {:induction false} XorZero(n: nat)
    ensures XorBits(0, 0, n) == 0
  {
    if n > 0 {
      XorZero(n - 1);
    }
  }

  /** Two `n`-bit words that agree on every bit are equal. */
  lemma {:induction false} BitsEqual(x: nat, y: nat, n: nat)
    requires x < Pow2(n) && y < Pow2(n)
    requires forall i :: 0 <= i < n ==> Bit(x, i) == Bit(y, i)
    ensures x == y
  {
    if n > 0 {
      var P := Pow2(n - 1);
      assert Pow2(n) == 2 * P;
      forall i | 0 <= i < n - 1
        ensures Bit(x / 2, i) == Bit(y / 2, i)
      {
        BitShift(x, i + 1);
        BitShift(y, i + 1);
      }
      BitsEqual(x / 2, y / 2, n - 1);
      assert Bit(x, 0) == x % 2 && Bit(y, 0) == y % 2;
    }
  }

  /** An `n`-bit word is zero exactly when none of its bits is set. */
  lemma ZeroIffNoBits(x: nat, n: nat)
    requires x < Pow2(n)
    ensures x == 0 <==> forall i :: 0 <= i < n ==> Bit(x, i) == 0
  {
    if forall i :: 0 <= i < n ==> Bit(x, i) == 0 {
      forall i | 0 <= i < n
        ensures Bit(0, i) == 0
      {
      }
      BitsEqual(x, 0, n);
    }
  }

  /** `x & ((1 << a) | (1 << b))` is non-zero exactly when bit `a` or bit `b` of `x` is set. */
  lemma MaskTwoBits(x: nat, a: nat, b: nat, n: nat)
    requires a < n && b < n
    ensures And(x, Or(Pow2(a), Pow2(b), n), n) != 0 <==> Bit(x, a) == 1 || Bit(x, b) == 1
  {
    var o := Or(Pow2(a), Pow2(b), n);
    var r := And(x, o, n);
    ZeroIffNoBits(r, n);
    forall i | 0 <= i < n
      ensures Bit(r, i) == if i == a || i == b then Bit(x, i) else 0
    {
      AndBit(x, o, n, i);
      OrBit(Pow2(a), Pow2(b), n, i);
      Pow2Bit(a, i);
      Pow2Bit(b, i);
    }
  }

  /** `(u32)x`: the low half of a 64-bit value. */
  function Low32(x: u64): u32
  {
    x % U32_MOD
  }

  /** `(u32)(x >> 32)`: the high half of a 64-bit value. */
  function High32(x: u64): u32
  {
    x / U32_MOD
  }

  /** `((u64)hi << 32) | (u64)lo`: the two halves put back together. */
  function Join32(hi: u32, lo: u32): (r: u64)
    ensures r == hi * U32_MOD + lo
  {
    Pow2Mid();
    Pow2Large();
    MulMod(hi, U32_MOD);
    OrShifted(lo, hi * U32_MOD, 32, 64);
    Or(lo, hi * U32_MOD, 64)
  }

  /** Splitting a 64-bit address and joining the halves gives it back. */
  lemma JoinSplit(x: u64)
    ensures Join32(High32(x), Low32(x)) == x
  {
  }

  /** Joining two halves and splitting the result gives the halves back. */
  lemma SplitJoin(hi: u32, lo: u32)
    ensures High32(Join32(hi, lo)) == hi && Low32(Join32(hi, lo)) == lo
  {
    DivModUnique(Join32(hi, lo), U32_MOD, hi, lo);
  }
}
