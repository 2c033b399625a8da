/**
 * The user-space string helpers (`include/string.h`, and the second
 * `uint_to_str` in `include/string.cpp`): decimal conversion both ways,
 * bounded concatenation, character search, and path resolution against a
 * working directory.
 *
 * As in `CStrings`, a buffer is a byte array, a pointer into it an index,
 * and a C string the bytes before the first NUL.
 */
module Strings {
  import opened Types
  import opened Math
  import opened CStrings
  import Bits

  const ZERO_CHAR: u8 := 0x30
  const NINE_CHAR: u8 := 0x39
  const SLASH: u8 := 0x2F

  function Pow10(k: nat): (r: nat)
    ensures r >= 1
  {
    if k == 0 then 1 else 10 * Pow10(k - 1)
  }

  predicate IsDigit(c: u8)
  {
    ZERO_CHAR <= c <= NINE_CHAR
  }

  /** The character `'0' + d`. */
  function DigitChar(d: nat): (c: u8)
    requires d < 10
    ensures IsDigit(c) && DigitValue(c) == d
  {
    ZERO_CHAR + d as u8
  }

  /** `c - '0'` on a signed `char`: the digit for '0'..'9', something else for any other byte. */
  function DigitValue(c: u8): (v: int)
    ensures IsDigit(c) <==> 0 <= v < 10
  {
    Signed(c) - ZERO_CHAR as int
  }

  /** How many decimal digits `x` has; 0 has none. */
  function NumDigits(x: nat): nat
  {
    if x == 0 then 0 else 1 + NumDigits(x / 10)
  }

  /** The character for the digit of `x` at place value `10^e`. */
  function DigitAt(x: nat, e: nat): (c: u8)
    ensures IsDigit(c)
  {
    DigitChar(Shift(x, e) % 10)
  }

  /** `x` with its `k` lowest decimal digits dropped: `x / 10^k` (see `ShiftIsDiv`). */
  function Shift(x: nat, k: nat): nat
  {
    if k == 0 then x else Shift(x / 10, k - 1)
  }

  lemma {:induction false} ShiftIsDiv(x: nat, k: nat)
    ensures Shift(x, k) == x / Pow10(k)
  {
    if k > 0 {
      ShiftIsDiv(x / 10, k - 1);
      DivDiv(x, 10, Pow10(k - 1));
    }
  }

  /** Dropping one more digit is dividing by ten. */
  lemma {:induction false} ShiftStep(x: nat, k: nat)
    ensures Shift(x, k + 1) == Shift(x, k) / 10
  {
    if k > 0 {
      ShiftStep(x / 10, k - 1);
    }
  }

  /** Nothing is left after dropping `k` digits exactly when `x` has at most `k` of them. */
  lemma {:induction false} ShiftZero(x: nat, k: nat)
    ensures Shift(x, k) == 0 <==> NumDigits(x) <= k
  {
    if k > 0 {
      ShiftZero(x / 10, k - 1);
    }
  }

  /** The `k` lowest decimal digits of `x` as characters, most significant first (leading zeros kept). */
  function LowDigits(x: nat, k: nat): (r: seq<u8>)
    ensures |r| == k
  {
    if k == 0 then [] else [DigitAt(x, k - 1)] + LowDigits(x, k - 1)
  }

  /** The positional decimal value of `s`, each character read as `c - '0'`. */
  function DecimalValue(s: seq<u8>): int
  {
    if s == [] then 0 else DigitValue(s[0]) * Pow10(|s| - 1) + DecimalValue(s[1..])
  }

  /** `str_to_uint`'s value as written: the digits weighted 1, 2, 3, ... from the right. */
  function WeightedValue(s: seq<u8>): int
  {
    if s == [] then 0 else DigitValue(s[0]) * |s| + WeightedValue(s[1..])
  }

  /** Division with remainder by `a` then by `b` is division with remainder by `a * b`. */
  lemma DivDiv(x: nat, a: nat, b: nat)
    requires a > 0 && b > 0
    ensures (x / a) / b == x / (a * b)
    ensures x % (a * b) == ((x / a) % b) * a + x % a
  {
    var q, r := x / a, x % a;
    var q2, r2 := q / b, q % b;
    Bits.DivNat(x, a);
    assert x == a * (b * q2 + r2) + r;
    assert r2 <= b - 1;
    assert a * r2 <= a * (b - 1) by {
      Bits.MulAtLeast(a, b - 1 - r2 + 1);
      assert a * (b - 1) - a * r2 == a * (b - 1 - r2);
    }
    assert x == (a * b) * q2 + (a * r2 + r);
    Bits.DivModUnique(x, a * b, q2, a * r2 + r);
  }

  /** A natural number divided by a larger one gives 0, and only then. */
  lemma DivZero(x: nat, d: nat)
    requires d > 0
    ensures x / d == 0 <==> x < d
  {
    if x < d {
      Bits.ModSmall(x, d);
    } else {
      Bits.DivNat(x, d);
      assert x == d * (x / d) + x % d;
    }
  }

  /** `x` has at most `k` digits exactly when it is below `10^k`. */
  lemma {:induction false} DigitsBound(x: nat, k: nat)
    ensures NumDigits(x) <= k <==> x < Pow10(k)
  {
    if k > 0 && x > 0 {
      DigitsBound(x / 10, k - 1);
      DivDiv(x, 10, Pow10(k - 1));
      DivZero(x, Pow10(k));
      DivZero(x / 10, Pow10(k - 1));
    } else if x > 0 {
      assert NumDigits(x) >= 1;
    }
  }

  /** The character at index `j` of `LowDigits(x, k)` is the digit for `10^(k-1-j)`. */
  lemma {:induction false} LowDigitsAt(x: nat, k: nat, j: nat)
    requires j < k
    ensures LowDigits(x, k)[j] == DigitAt(x, k - 1 - j)
  {
    if j > 0 {
      LowDigitsAt(x, k - 1, j - 1);
    }
  }

  /** The low `k` digits read back give `x` modulo `10^k`. */
  lemma {:induction false} LowDigitsValue(x: nat, k: nat)
    ensures DecimalValue(LowDigits(x, k)) == x % Pow10(k)
  {
    if k > 0 {
      var s := LowDigits(x, k);
      LowDigitsValue(x, k - 1);
      assert s[1..] == LowDigits(x, k - 1);
      DivDiv(x, Pow10(k - 1), 10);
      ShiftIsDiv(x, k - 1);
      assert Pow10(k - 1) * 10 == Pow10(k);
    }
  }

  /** Every character `uint_to_str` writes is a digit, so `str_is_num` accepts it. */
  lemma LowDigitsAreDigits(x: nat, k: nat)
    ensures forall j :: 0 <= j < k ==> IsDigit(LowDigits(x, k)[j])
  {
    forall j | 0 <= j < k {
      LowDigitsAt(x, k, j);
    }
  }

  /**
   * Round trip: the `NumDigits(x)` digits of a positive `x` read back as
   * `x`, so a buffer of at least that many characters loses nothing.
   */
  lemma UintToStrRoundTrip(x: nat)
    ensures DecimalValue(LowDigits(x, NumDigits(x))) == x
  {
    LowDigitsValue(x, NumDigits(x));
    DigitsBound(x, NumDigits(x));
    Bits.ModSmall(x, Pow10(NumDigits(x)));
  }

  /** Where `uint_to_str` (`include/string.h`) says its digits start. */
  function UintToStrStart(num: u64, len: int): (p: int)
    ensures len > 0 ==> 0 <= p < len
    ensures len <= 0 ==> p == 0
  {
    if len <= 0 then 0
    else if num == 0 then len - 1
    else len - Min(len, NumDigits(num))
  }

  /** Where the `uint_to_str` of `include/string.cpp` says its digits start. */
  function UintToStrAltStart(num: u64, len: int): (p: int)
    ensures len > 0 ==> 0 <= p <= len
    ensures len <= 0 ==> p == 0
  {
    if len <= 0 then 0 else len - Min(len, NumDigits(num))
  }

  /**
   * The two `uint_to_str`s agree on every positive number, but for 0 the
   * one in `include/string.cpp` returns the end of the buffer: the '0' it
   * wrote lies outside the (empty) string it returns.
   */
  lemma UintToStrZeroFinding(num: u64, len: int)
    ensures num > 0 ==> UintToStrAltStart(num, len) == UintToStrStart(num, len)
    ensures num == 0 && len > 0 ==> UintToStrAltStart(num, len) == len && UintToStrStart(num, len) == len - 1
  {
  }

  /** `after` is `before` with `after[p..len] == digits` and every byte outside `p..len` kept. */
  predicate Wrote(before: seq<u8>, after: seq<u8>, p: int, len: int, digits: seq<u8>)
  {
    && |after| == |before| && 0 <= p <= len <= |after| && after[p..len] == digits
    && forall j :: 0 <= j < |after| && !(p <= j < len) ==> after[j] == before[j]
  }

  /** What `uint_to_str` (`include/string.h`) writes for a positive `len`: "0" for 0, else the low digits that fit. */
  function UintToStrDigits(num: u64, len: int): (d: seq<u8>)
    requires len > 0
    ensures |d| == len - UintToStrStart(num, len)
    ensures forall j :: 0 <= j < |d| ==> IsDigit(d[j])
  {
    LowDigitsAreDigits(num as int, len - UintToStrStart(num, len));
    if num == 0 then [ZERO_CHAR] else LowDigits(num as int, len - UintToStrStart(num, len))
  }

  /**
   * Reading back what `uint_to_str` wrote gives `num` modulo `10^(digits
   * written)`, and `num` itself when `len` leaves room for all its digits.
   */
  lemma UintToStrReadsBack(num: u64, len: int)
    requires len > 0
    ensures DecimalValue(UintToStrDigits(num, len)) == num as int % Pow10(len - UintToStrStart(num, len))
    ensures NumDigits(num as int) <= len ==> DecimalValue(UintToStrDigits(num, len)) == num as int
  {
    var k := len - UintToStrStart(num, len);
    if num == 0 {
      assert [ZERO_CHAR][1..] == [];
    } else {
      LowDigitsValue(num as int, k);
      if NumDigits(num as int) <= len {
        UintToStrRoundTrip(num as int);
      }
    }
  }

  /**
   * `uint_to_str` (`include/string.h`): writes the decimal digits of `num`
   * right-aligned so they end at `buf[len - 1]` and returns where they
   * start; a `num` with more than `len` digits keeps its low `len` digits,
   * and 0 is written as "0". A non-positive `len` writes nothing.
   */
  method UintToStr(num: u64, buf: array<u8>, len: int) returns (p: int)
    requires len <= buf.Length
    modifies buf
    ensures p == UintToStrStart(num, len)
    ensures len <= 0 ==> buf[..] == old(buf[..])
    ensures len > 0 ==> Wrote(old(buf[..]), buf[..], p, len, UintToStrDigits(num, len))
  {
    if len <= 0 {
      return 0;
    }
    if num == 0 {
      buf[len - 1] := ZERO_CHAR;
      ZeroWrote(old(buf[..]), buf[..], len);
      return len - 1;
    }
    var i := len;
    var n := num;
    ghost var k: nat := 0;
    while n > 0 && i > 0
      invariant i == len - k && 0 <= i && k <= NumDigits(num)
      invariant n as int == Shift(num as int, k)
      invariant forall j :: i <= j < len ==> buf[j] == DigitAt(num as int, len - 1 - j)
      invariant forall j :: 0 <= j < buf.Length && !(i <= j < len) ==> buf[j] == old(buf[j])
    {
      DigitStep(num as int, k, n as int);
      i := i - 1;
      var digit := n % 10;
      buf[i] := ZERO_CHAR + digit as u8;
      n := n / 10;
      k := k + 1;
    }
    p := i;
    DigitsDone(num as int, k, len);
    DigitsWrote(old(buf[..]), buf[..], p, len, num as int);
  }

  /** One step of `uint_to_str`'s loop: with digits left, `x` has more than `k` of them, and dividing by ten moves to the next place. */
  lemma DigitStep(x: nat, k: nat, n: nat)
    requires n == Shift(x, k) && n > 0
    ensures NumDigits(x) > k && n / 10 == Shift(x, k + 1)
    ensures DigitAt(x, k) == ZERO_CHAR + (n % 10) as u8
  {
    ShiftZero(x, k);
    ShiftStep(x, k);
  }

  /** When the loop stops after `k` digits, having run out of digits or of room, `k` is what it had to be. */
  lemma DigitsDone(x: nat, k: nat, len: nat)
    requires k <= len && k <= NumDigits(x) && (Shift(x, k) == 0 || k == len)
    ensures k == Min(len, NumDigits(x))
  {
    ShiftZero(x, k);
  }

  /** A buffer whose bytes `p..len` are the digits of `x` for `10^(len-p-1)` down to `10^0` holds `LowDigits(x, len - p)` there. */
  lemma DigitsWrote(before: seq<u8>, after: seq<u8>, p: int, len: int, x: nat)
    requires |after| == |before| && 0 <= p < len <= |after|
    requires forall j :: p <= j < len ==> after[j] == DigitAt(x, len - 1 - j)
    requires forall j :: 0 <= j < |after| && !(p <= j < len) ==> after[j] == before[j]
    ensures Wrote(before, after, p, len, LowDigits(x, len - p))
  {
    forall j | 0 <= j < len - p
      ensures after[p..len][j] == LowDigits(x, len - p)[j]
    {
      LowDigitsAt(x, len - p, j);
    }
  }

  /** Bytes overwritten again inside `p..len` no longer show what was there before. */
  lemma WroteOver(before: seq<u8>, mid: seq<u8>, after: seq<u8>, p: int, len: int, digits: seq<u8>)
    requires Wrote(before, mid, len - 1, len, [ZERO_CHAR]) && Wrote(mid, after, p, len, digits) && p < len
    ensures Wrote(before, after, p, len, digits)
  {
  }

  /** A buffer changed only at `len - 1`, where it now holds '0'. */
  lemma ZeroWrote(before: seq<u8>, after: seq<u8>, len: int)
    requires |after| == |before| && 0 < len <= |after| && after[len - 1] == ZERO_CHAR
    requires forall j :: 0 <= j < |after| && j != len - 1 ==> after[j] == before[j]
    ensures Wrote(before, after, len - 1, len, [ZERO_CHAR])
  {
    assert after[len - 1..len] == [ZERO_CHAR];
  }

  /**
   * The `uint_to_str` of `include/string.cpp`: the same digits, written
   * after a '0' at `buf[len - 1]` that the first digit overwrites; for 0
   * that '0' stays but the returned start is `len`.
   */
  method UintToStrAlt(num: u64, buf: array<u8>, len: int) returns (p: int)
    requires len <= buf.Length
    modifies buf
    ensures p == UintToStrAltStart(num, len)
    ensures len <= 0 ==> buf[..] == old(buf[..])
    ensures len > 0 && num > 0 ==> Wrote(old(buf[..]), buf[..], p, len, UintToStrDigits(num, len))
    ensures len > 0 && num == 0 ==> Wrote(old(buf[..]), buf[..], len - 1, len, [ZERO_CHAR])
  {
    if len <= 0 {
      return 0;
    }
    buf[len - 1] := ZERO_CHAR;
    ghost var zeroed := buf[..];
    p := WriteDigits(num, buf, len);
    if num == 0 {
      assert buf[..] == zeroed;
      ZeroWrote(old(buf[..]), buf[..], len);
    } else {
      DigitsWrote(zeroed, buf[..], p, len, num as int);
      WroteOver(old(buf[..]), zeroed, buf[..], p, len, UintToStrDigits(num, len));
    }
  }

  /** The loop of `include/string.cpp`'s `uint_to_str`: the digits of `num`, lowest first, go leftwards from `len - 1` while there is room. */
  method WriteDigits(num: u64, buf: array<u8>, len: int) returns (p: int)
    requires 0 < len <= buf.Length
    modifies buf
    ensures p == len - Min(len, NumDigits(num as int))
    ensures forall j :: p <= j < len ==> buf[j] == DigitAt(num as int, len - 1 - j)
    ensures forall j :: 0 <= j < buf.Length && !(p <= j < len) ==> buf[j] == old(buf[j])
  {
    var i := len - 1;
    var n := num;
    ghost var k: nat := 0;
    while n > 0 && i >= 0
      invariant i == len - 1 - k && -1 <= i && k <= NumDigits(num as int)
      invariant n as int == Shift(num as int, k)
      invariant forall j :: i + 1 <= j < len ==> buf[j] == DigitAt(num as int, len - 1 - j)
      invariant forall j :: 0 <= j < buf.Length && !(i + 1 <= j < len) ==> buf[j] == old(buf[j])
    {
      DigitStep(num as int, k, n as int);
      var digit := n % 10;
      buf[i] := ZERO_CHAR + digit as u8;
      n := n / 10;
      i := i - 1;
      k := k + 1;
    }
    DigitsDone(num as int, k, len);
    p := i + 1;
  }

  /** `str_is_num`: every character of the string is '0'..'9' (so the empty string counts). */
  method StrIsNum(s: seq<u8>) returns (b: bool)
    requires 0 in s
    ensures b <==> forall j :: 0 <= j < NulIndex(s) ==> IsDigit(s[j])
  {
    var len := Strlen(s);
    var i := 0;
    while i < len
      invariant i <= len && forall j :: 0 <= j < i ==> IsDigit(s[j])
    {
      if Signed(s[i]) < ZERO_CHAR as int || Signed(s[i]) > NINE_CHAR as int {
        return false;
      }
      i := i + 1;
    }
    return true;
  }

  /** One step of `str_to_uint`'s loop: adding `s[i]` at place value `pow10` extends the value read so far. */
  lemma SuffixStep(s: seq<u8>, i: nat, len: nat, v: int, pow10: int)
    requires i < len <= |s|
    ensures v == DecimalValue(s[i + 1..len]) && pow10 == Pow10(len - (i + 1)) ==>
      v + pow10 * DigitValue(s[i]) == DecimalValue(s[i..len])
    ensures v == WeightedValue(s[i + 1..len]) && pow10 == len - i ==>
      v + pow10 * DigitValue(s[i]) == WeightedValue(s[i..len])
  {
    assert s[i..len][1..] == s[i + 1..len];
  }

  /** `str_to_uint` with the place values it evidently means: `pow10` multiplied by ten at each step. */
  method StrToUint(s: seq<u8>) returns (v: int)
    requires 0 in s
    ensures v == DecimalValue(CString(s))
  {
    var len := Strlen(s);
    var i := len;
    var pow10 := 1;
    v := 0;
    while i > 0
      invariant 0 <= i <= len
      invariant pow10 == Pow10(len - i) && v == DecimalValue(s[i..len])
    {
      i := i - 1;
      var digit := DigitValue(s[i]);
      SuffixStep(s, i, len, v, pow10);
      v := v + pow10 * digit;
      pow10 := pow10 * 10;
    }
  }

  /** `str_to_uint` as written: `pow10++` makes the place values 1, 2, 3, ... */
  method StrToUintAsWritten(s: seq<u8>) returns (v: int)
    requires 0 in s
    ensures v == WeightedValue(CString(s))
  {
    var len := Strlen(s);
    var i := len;
    var pow10 := 1;
    v := 0;
    while i > 0
      invariant 0 <= i <= len
      invariant pow10 == len - i + 1 && v == WeightedValue(s[i..len])
    {
      i := i - 1;
      var digit := DigitValue(s[i]);
      SuffixStep(s, i, len, v, pow10);
      v := v + pow10 * digit;
      pow10 := pow10 + 1;
    }
  }

  /**
   * The two readings agree on strings of at most one character, and part
   * from the second: "12" reads as 1 * 2 + 2 * 1 = 4 rather than 12.
   */
  lemma StrToUintWeightsFinding(s: seq<u8>)
    ensures |s| <= 1 ==> WeightedValue(s) == DecimalValue(s)
    ensures WeightedValue([0x31, 0x32]) == 4 && DecimalValue([0x31, 0x32]) == 12
  {
    assert [0x31, 0x32][1..] == [0x32 as u8];
    if |s| == 1 {
      assert s[1..] == [];
    }
  }

  /**
   * Round trip: `str_to_uint` (with its place values corrected) reads back
   * the digits `uint_to_str` wrote for a positive number that fits.
   */
  lemma StrToUintReadsUintToStr(num: nat, buf: seq<u8>)
    requires num > 0 && |buf| > NumDigits(num)
    requires buf[..NumDigits(num)] == LowDigits(num, NumDigits(num)) && buf[NumDigits(num)] == 0
    ensures 0 in buf && DecimalValue(CString(buf)) == num
  {
    var k := NumDigits(num);
    LowDigitsAreDigits(num, k);
    CStringOf(buf, LowDigits(num, k));
    UintToStrRoundTrip(num);
  }

  /** The C string of `s` is `r` when `r` followed by a NUL starts `s` and `r` holds no NUL. */
  lemma CStringOf(s: seq<u8>, r: seq<u8>)
    requires |r| < |s| && s[..|r|] == r && s[|r|] == 0 && 0 !in r
    ensures 0 in s && CString(s) == r
  {
  }

  /** What `concat` stores before its NUL: as much of the two strings, joined, as fits in `bufLen` bytes. */
  function Concatenated(s1: seq<u8>, s2: seq<u8>, bufLen: nat): (r: seq<u8>)
    requires 0 in s1 && 0 in s2
    ensures |r| <= bufLen && 0 !in r
    ensures |CString(s1)| + |CString(s2)| <= bufLen ==> r == CString(s1) + CString(s2)
  {
    var c := CString(s1) + CString(s2);
    c[..Min(bufLen, |c|)]
  }

  /**
   * `concat`: `min(buf_len, |src1|)` bytes of `src1`, then as many of `src2`
   * as still fit in `buf_len`, then a NUL, which may land at `dest[buf_len]`.
   * The sources are separate from `dest`.
   */
  method Concat(dest: array<u8>, src1: array<u8>, src2: array<u8>, bufLen: int)
    requires 0 in src1[..] && 0 in src2[..] && dest != src1 && dest != src2 && 0 <= bufLen
    requires Min(bufLen, NulIndex(src1[..]) + NulIndex(src2[..])) < dest.Length
    modifies dest
    ensures Written(old(dest[..]), dest[..], Concatenated(src1[..], src2[..], bufLen) + [0])
    ensures 0 in dest[..] && CString(dest[..]) == Concatenated(src1[..], src2[..], bufLen)
  {
    ghost var before := dest[..];
    var src1Len := Strlen(src1[..]);
    var copy1Len := Min(bufLen, src1Len);
    assert Written(before, dest[..], []);
    MoveIn(dest, before, [], 0, src1, copy1Len);
    var src2Len := Strlen(src2[..]);
    var copy2Len := Min(bufLen - copy1Len, src2Len);
    MoveIn(dest, before, src1[..copy1Len], copy1Len, src2, copy2Len);
    ConcatParts(src1[..], src2[..], bufLen, copy1Len, copy2Len);
    PutByte(dest, before, src1[..copy1Len] + src2[..copy2Len], copy1Len + copy2Len, 0);
    WrittenCString(before, dest[..], Concatenated(src1[..], src2[..], bufLen));
  }

  /** A `memmove_workaround` of the first `len` bytes of `src` to just after the `w` already written. */
  method MoveIn(buf: array<u8>, ghost before: seq<u8>, ghost w: seq<u8>, at: nat, src: array<u8>, len: nat)
    requires src != buf && Written(before, buf[..], w) && at == |w| && at + len <= buf.Length && len <= src.Length
    modifies buf
    ensures Written(before, buf[..], w + src[..len])
  {
    Memmove(buf, at, src, 0, len);
    WrittenMove(before, old(buf[..]), w, buf[..], src[..len]);
  }

  /** A store of `c` just after the `w` already written. */
  method PutByte(buf: array<u8>, ghost before: seq<u8>, ghost w: seq<u8>, at: nat, c: u8)
    requires Written(before, buf[..], w) && at == |w| && at < buf.Length
    modifies buf
    ensures Written(before, buf[..], w + [c])
  {
    buf[at] := c;
    WrittenAppend(before, old(buf[..]), w, buf[..], c);
  }

  /** A buffer whose first bytes were overwritten by `r` and a NUL holds `r` as its C string. */
  lemma WrittenCString(before: seq<u8>, after: seq<u8>, r: seq<u8>)
    requires Written(before, after, r + [0]) && 0 !in r
    ensures 0 in after && CString(after) == r
  {
    assert after[..|r|] == (after[..|r| + 1])[..|r|];
    CStringOf(after, r);
  }

  /** The two copies `concat` makes are, together, `Concatenated(s1, s2, bufLen)`. */
  lemma ConcatParts(s1: seq<u8>, s2: seq<u8>, bufLen: nat, k1: int, k2: int)
    requires 0 in s1 && 0 in s2
    requires k1 == Min(bufLen, NulIndex(s1)) && k2 == Min(bufLen - k1, NulIndex(s2))
    ensures 0 <= k1 <= |s1| && 0 <= k2 <= |s2| && s1[..k1] + s2[..k2] == Concatenated(s1, s2, bufLen)
  {
    ConcatPrefix(CString(s1), CString(s2), bufLen);
  }

  /** What fits of `c1 + c2` in `n` bytes is `min(n, |c1|)` of `c1` then what remains of `c2`. */
  lemma ConcatPrefix(c1: seq<u8>, c2: seq<u8>, n: nat)
    ensures var k1 := Min(n, |c1|); var k2 := Min(n - k1, |c2|);
      k1 + k2 == Min(n, |c1 + c2|) && (c1 + c2)[..k1 + k2] == c1[..k1] + c2[..k2]
  {
    if n <= |c1| {
      assert (c1 + c2)[..n] == c1[..n];
    } else {
      var k2 := Min(n - |c1|, |c2|);
      assert (c1 + c2)[..|c1| + k2] == c1 + c2[..k2];
      assert c1[..|c1|] == c1;
    }
  }

  /** `contains`: `c` occurs in the C string `s` (never true for NUL). */
  method Contains(s: seq<u8>, c: u8) returns (b: bool)
    requires 0 in s
    ensures b <==> c in CString(s)
  {
    var i := 0;
    while s[i] != 0
      invariant i <= NulIndex(s) && c !in s[..i]
      decreases NulIndex(s) - i
    {
      if s[i] == c {
        assert c == CString(s)[i];
        return true;
      }
      assert s[..i + 1] == s[..i] + [s[i]];
      i := i + 1;
    }
    assert s[..i] == CString(s);
    return false;
  }

  /** A relative path is read only against a non-empty working directory. */
  predicate PathReadable(pwd: seq<u8>, path: seq<u8>)
  {
    0 in pwd && 0 in path && (path[0] == SLASH || NulIndex(pwd) > 0)
  }

  /** The working directory as a prefix: `pwd` with a '/' added when it does not end in one. */
  function PwdPrefix(pwd: seq<u8>): (r: seq<u8>)
    requires 0 in pwd && NulIndex(pwd) > 0
    ensures |r| > 0 && r[|r| - 1] == SLASH && 0 !in r
    ensures r == CString(pwd) || r == CString(pwd) + [SLASH]
  {
    var w := CString(pwd);
    if w[|w| - 1] == SLASH then w else w + [SLASH]
  }

  /** The path `resolve_path` builds: an absolute `path` as it is, a relative one after `PwdPrefix(pwd)`. */
  function ResolvedPath(pwd: seq<u8>, path: seq<u8>): (r: seq<u8>)
    requires PathReadable(pwd, path)
    ensures 0 !in r
    ensures path[0] == SLASH ==> r == CString(path)
    ensures path[0] != SLASH ==> |r| > NulIndex(path) && r[|r| - NulIndex(path)..] == CString(path)
  {
    if path[0] == SLASH then CString(path) else PwdPrefix(pwd) + CString(path)
  }

  /** A resolved path is absolute whenever the working directory is. */
  lemma ResolvedAbsolute(pwd: seq<u8>, path: seq<u8>)
    requires PathReadable(pwd, path) && pwd[0] == SLASH
    ensures |ResolvedPath(pwd, path)| > 0 && ResolvedPath(pwd, path)[0] == SLASH
  {
    if path[0] != SLASH {
      assert CString(pwd)[0] == SLASH;
    }
  }

  /** Resolving an already resolved absolute path, against any directory, gives it back unchanged. */
  lemma ResolveIdempotent(pwd: seq<u8>, path: seq<u8>, pwd2: seq<u8>)
    requires PathReadable(pwd, path)
    requires var r := ResolvedPath(pwd, path); |r| > 0 && r[0] == SLASH
    ensures var r := ResolvedPath(pwd, path); PathReadable(pwd2, r + [0]) ==> ResolvedPath(pwd2, r + [0]) == r
  {
    var r := ResolvedPath(pwd, path);
    CStringOf(r + [0], r);
  }

  /** `resolve_path` gives up before writing anything: the path, or a relative path's directory, alone leaves no room for a NUL. */
  predicate GivesUpEarly(pwd: seq<u8>, path: seq<u8>, bufLen: int)
    requires 0 in pwd && 0 in path
  {
    NulIndex(path) + 1 > bufLen || (path[0] != SLASH && NulIndex(pwd) + 1 > bufLen)
  }

  /** `after` is `before` with its first bytes replaced by `w`. */
  predicate Written(before: seq<u8>, after: seq<u8>, w: seq<u8>)
  {
    |w| <= |before| == |after| && after[..|w|] == w && after[|w|..] == before[|w|..]
  }

  /**
   * What `resolve_path` leaves in the buffer: nothing new when it gives up
   * early; `ResolvedPath(pwd, path)` and a NUL when they fit in `bufLen`
   * bytes; otherwise `PwdPrefix(pwd)` with no NUL after it.
   */
  predicate ResolveOutcome(pwd: seq<u8>, path: seq<u8>, bufLen: int, before: seq<u8>, after: seq<u8>)
    requires 0 in pwd && 0 in path && (!GivesUpEarly(pwd, path, bufLen) ==> PathReadable(pwd, path))
  {
    if GivesUpEarly(pwd, path, bufLen) then after == before
    else if |ResolvedPath(pwd, path)| + 1 <= bufLen then Written(before, after, ResolvedPath(pwd, path) + [0])
    else Written(before, after, PwdPrefix(pwd))
  }

  /**
   * When it does not give up early, `resolve_path` succeeds exactly when the
   * result fits, and the buffer then holds the result as a C string; an
   * absolute path never half-fails.
   */
  lemma ResolveOutcomeMeans(pwd: seq<u8>, path: seq<u8>, bufLen: int, before: seq<u8>, after: seq<u8>)
    requires 0 in pwd && 0 in path && !GivesUpEarly(pwd, path, bufLen) && PathReadable(pwd, path)
    requires ResolveOutcome(pwd, path, bufLen, before, after)
    ensures path[0] == SLASH ==> |ResolvedPath(pwd, path)| + 1 <= bufLen
    ensures |ResolvedPath(pwd, path)| + 1 <= bufLen ==> 0 in after && CString(after) == ResolvedPath(pwd, path)
  {
    var r := ResolvedPath(pwd, path);
    if |r| + 1 <= bufLen {
      WrittenCString(before, after, r);
    }
  }

  lemma WrittenAppend(before: seq<u8>, mid: seq<u8>, w: seq<u8>, after: seq<u8>, c: u8)
    requires Written(before, mid, w) && |w| < |mid| && after == mid[|w| := c]
    ensures Written(before, after, w + [c])
  {
    assert after[..|w| + 1] == after[..|w|] + [c];
  }

  /** Bytes `d..d + |src|` replaced by `src` in a buffer that already starts with `w`, `|w| == d`. */
  lemma WrittenMove(before: seq<u8>, mid: seq<u8>, w: seq<u8>, after: seq<u8>, src: seq<u8>)
    requires Written(before, mid, w) && |w| + |src| <= |mid| == |after|
    requires after[|w|..|w| + |src|] == src && after[..|w|] == mid[..|w|] && after[|w| + |src|..] == mid[|w| + |src|..]
    ensures Written(before, after, w + src)
  {
    assert after[..|w| + |src|] == after[..|w|] + after[|w|..|w| + |src|];
  }

  /**
   * `resolve_path`: see `ResolveOutcome`. A relative path needs a non-empty
   * `pwd` (its last byte is read) once both lengths have passed the early
   * checks.
   */
  method ResolvePath(pwd: array<u8>, path: array<u8>, buf: array<u8>, bufLen: int)
    requires 0 in pwd[..] && 0 in path[..] && pwd != buf && path != buf && bufLen <= buf.Length
    requires !GivesUpEarly(pwd[..], path[..], bufLen) ==> PathReadable(pwd[..], path[..])
    modifies buf
    ensures ResolveOutcome(pwd[..], path[..], bufLen, old(buf[..]), buf[..])
  {
    ghost var before := buf[..];
    assert Written(before, buf[..], []);
    var absPath := path[0] == SLASH;
    var pathLen := Strlen(path[..]);
    if pathLen + 1 > bufLen {
      return;
    }
    if absPath {
      MoveIn(buf, before, [], 0, path, pathLen);
      PutByte(buf, before, path[..pathLen], pathLen, 0);
      ResolveWrote(pwd[..], path[..], bufLen, before, buf[..], path[..pathLen] + [0]);
      return;
    }
    var pwdLen := Strlen(pwd[..]);
    if pwdLen + 1 > bufLen {
      return;
    }
    MoveIn(buf, before, [], 0, pwd, pwdLen);
    ghost var w := pwd[..pwdLen];
    PrefixRead(before, buf[..], pwd[..], pwdLen);
    if buf[pwdLen - 1] != SLASH {
      PutByte(buf, before, w, pwdLen, SLASH);
      w := w + [SLASH];
      pwdLen := pwdLen + 1;
    }
    if pathLen + pwdLen + 1 > bufLen {
      ResolveWrote(pwd[..], path[..], bufLen, before, buf[..], w);
      return;
    }
    MoveIn(buf, before, w, pwdLen, path, pathLen);
    PutByte(buf, before, w + path[..pathLen], pwdLen + pathLen, 0);
    ResolveWrote(pwd[..], path[..], bufLen, before, buf[..], w + path[..pathLen] + [0]);
  }

  /** After copying the `n` bytes of `pwd`'s C string, the last of them is `pwd`'s last, and decides `PwdPrefix`. */
  lemma PrefixRead(before: seq<u8>, after: seq<u8>, pwd: seq<u8>, n: nat)
    requires 0 in pwd && n == NulIndex(pwd) && n > 0 && Written(before, after, [] + pwd[..n])
    ensures after[n - 1] == pwd[n - 1]
    ensures PwdPrefix(pwd) == if pwd[n - 1] == SLASH then pwd[..n] else pwd[..n] + [SLASH]
  {
    assert after[..n][n - 1] == after[n - 1];
  }

  /** The buffer's new start `w` is what `ResolveOutcome` asks for on a run that passed the early checks. */
  lemma ResolveWrote(pwd: seq<u8>, path: seq<u8>, bufLen: int, before: seq<u8>, after: seq<u8>, w: seq<u8>)
    requires 0 in pwd && 0 in path && !GivesUpEarly(pwd, path, bufLen) && PathReadable(pwd, path)
    requires Written(before, after, w)
    requires path[0] == SLASH ==> w == path[..NulIndex(path)] + [0]
    requires path[0] != SLASH ==> var pre := PwdPrefix(pwd);
      if |pre| + NulIndex(path) + 1 <= bufLen then w == pre + path[..NulIndex(path)] + [0] else w == pre
    ensures ResolveOutcome(pwd, path, bufLen, before, after)
  {
  }

  /** `abs_path_len`: the length of the path `resolve_path` builds. */
  method AbsPathLen(pwd: seq<u8>, path: seq<u8>) returns (n: int)
    requires PathReadable(pwd, path)
    ensures n == |ResolvedPath(pwd, path)|
  {
    var isAbsPath := path[0] == SLASH;
    var pathLen := Strlen(path);
    if isAbsPath {
      return pathLen;
    }
    var pwdLen := Strlen(pwd);
    if pwd[pwdLen - 1] != SLASH {
      pwdLen := pwdLen + 1;
    }
    return pwdLen + pathLen;
  }
}
