/**
 * The kernel's freestanding replacements for the C library
 * (`include/stdlib_workaround.cpp`).
 *
 * Memory is a byte array and a pointer an index into it. A C string is the
 * run of bytes before the first NUL. `char` is signed on this target, so
 * comparisons between characters go through `Signed`.
 */
module CStrings {
  import opened Types

  /** A byte read as a signed C `char`. */
  function Signed(c: u8): (v: int)
    ensures -0x80 <= v < 0x80
    ensures v % 0x100 == c as int
  {
    if c < 0x80 then c as int else c as int - 0x100
  }

  /** The index of the first NUL: the length of the C string held in `s`. */
  function NulIndex(s: seq<u8>): (n: nat)
    requires 0 in s
    ensures n < |s| && s[n] == 0
    ensures forall i :: 0 <= i < n ==> s[i] != 0
  {
    if s[0] == 0 then 0 else NulIndex(s[1..]) + 1
  }

  /** The C string held in `s`: the bytes before its first NUL. */
  function CString(s: seq<u8>): (r: seq<u8>)
    requires 0 in s
    ensures |r| < |s| && 0 !in r && r == s[..|r|] && s[|r|] == 0
  {
    s[..NulIndex(s)]
  }

  /** `strlen_workaround`: counts the bytes up to the first NUL. */
  method Strlen(s: seq<u8>) returns (n: nat)
    requires 0 in s
    ensures n == NulIndex(s)
  {
    n := 0;
    while s[n] != 0
      invariant n <= NulIndex(s)
      decreases NulIndex(s) - n
    {
      n := n + 1;
    }
  }

  /**
   * `memmove_workaround`: `len` bytes from `src[s..]` to `dest[d..]`, correct
   * when the two ranges overlap. Equal pointers do nothing; within one buffer
   * the copy runs left to right when the destination comes first and right to
   * left otherwise. The order of two distinct buffers is not modelled: either
   * direction copies the same bytes between them, and this one goes left to
   * right.
   */
  method Memmove(dest: array<u8>, d: nat, src: array<u8>, s: nat, len: nat)
    requires d + len <= dest.Length && s + len <= src.Length
    modifies dest
    ensures dest[d..d + len] == old(src[s..s + len])
    ensures dest[..d] == old(dest[..d]) && dest[d + len..] == old(dest[d + len..])
  {
    if dest == src && d == s {
      return;
    }
    if dest != src || d < s {
      CopyLeftToRight(dest, d, src, s, len);
    } else {
      CopyRightToLeft(dest, d, s, len);
    }
  }

  /** `memmove_workaround`'s left-to-right loop: safe when the destination does not start inside the source. */
  method CopyLeftToRight(dest: array<u8>, d: nat, src: array<u8>, s: nat, len: nat)
    requires d + len <= dest.Length && s + len <= src.Length
    requires dest != src || d < s
    modifies dest
    ensures dest[d..d + len] == old(src[s..s + len])
    ensures dest[..d] == old(dest[..d]) && dest[d + len..] == old(dest[d + len..])
  {
    ghost var from := src[s..s + len];
    var i := 0;
    while i < len
      invariant i <= len
      invariant forall j :: d <= j < d + i ==> dest[j] == from[j - d]
      invariant forall j :: s + i <= j < s + len ==> src[j] == from[j - s]
      invariant forall j :: 0 <= j < dest.Length && !(d <= j < d + len) ==> dest[j] == old(dest[j])
    {
      dest[d + i] := src[s + i];
      i := i + 1;
    }
    assert dest[d..d + len] == from;
  }

  /** `memmove_workaround`'s right-to-left loop within one buffer, for a destination after the source. */
  method CopyRightToLeft(mem: array<u8>, d: nat, s: nat, len: nat)
    requires d + len <= mem.Length && s < d
    modifies mem
    ensures mem[d..d + len] == old(mem[s..s + len])
    ensures mem[..d] == old(mem[..d]) && mem[d + len..] == old(mem[d + len..])
  {
    ghost var from := mem[s..s + len];
    var i := len;
    while i > 0
      invariant 0 <= i <= len
      invariant forall j :: d + i <= j < d + len ==> mem[j] == from[j - d]
      invariant forall j :: s <= j < s + i ==> mem[j] == from[j - s]
      invariant forall j :: 0 <= j < mem.Length && !(d <= j < d + len) ==> mem[j] == old(mem[j])
    {
      i := i - 1;
      mem[d + i] := mem[s + i];
    }
    assert mem[d..d + len] == from;
  }

  /** `memset_workaround`: `len` bytes of `dest` from `d` become `val` truncated to a byte. */
  method Memset(dest: array<u8>, d: nat, val: int, len: nat)
    requires d + len <= dest.Length
    modifies dest
    ensures forall i :: d <= i < d + len ==> dest[i] == val % 0x100
    ensures dest[..d] == old(dest[..d]) && dest[d + len..] == old(dest[d + len..])
  {
    var i := 0;
    while i < len
      invariant i <= len
      invariant forall j :: d <= j < d + i ==> dest[j] == val % 0x100
      invariant dest[..d] == old(dest[..d]) && dest[d + len..] == old(dest[d + len..])
    {
      dest[d + i] := val % 0x100;
      i := i + 1;
    }
  }

  /** What `strncmp_workaround` may read: each string is either `len` long or NUL-terminated. */
  predicate Comparable(s1: seq<u8>, s2: seq<u8>, len: nat)
  {
    (len <= |s1| || 0 in s1) && (len <= |s2| || 0 in s2)
  }

  /**
   * Where `strncmp_workaround`'s loop stops: the first of the first `len`
   * positions at which either string ends or the two differ, or `len`.
   */
  function Stop(s1: seq<u8>, s2: seq<u8>, len: nat): (k: nat)
    requires Comparable(s1, s2, len)
    ensures k <= len
    ensures forall j :: 0 <= j < k ==> j < |s1| && j < |s2| && s1[j] != 0 && s1[j] == s2[j]
    ensures k < len ==> k < |s1| && k < |s2| && (s1[k] == 0 || s2[k] == 0 || s1[k] != s2[k])
  {
    if len == 0 then 0
    else if s1[0] == 0 || s2[0] == 0 || s1[0] != s2[0] then 0
    else
      assert 0 in s1 ==> 0 in s1[1..];
      assert 0 in s2 ==> 0 in s2[1..];
      Stop(s1[1..], s2[1..], len - 1) + 1
  }

  /**
   * The value `strncmp_workaround` returns: 0 when nothing differs in the
   * first `len` positions; otherwise -1 when `s1` has ended there (even when
   * `s2` ends at the same place), 1 when only `s2` has ended, and the sign of
   * the signed difference when both characters are present.
   */
  function StrNCmpResult(s1: seq<u8>, s2: seq<u8>, len: nat): (r: int)
    requires Comparable(s1, s2, len)
    ensures r in {-1, 0, 1}
  {
    var k := Stop(s1, s2, len);
    if k == len then 0
    else if s1[k] == 0 then -1
    else if s2[k] == 0 then 1
    else if Signed(s1[k]) < Signed(s2[k]) then -1
    else 1
  }

  /** `strncmp_workaround`. */
  method StrNCmp(s1: seq<u8>, s2: seq<u8>, len: nat) returns (r: int)
    requires Comparable(s1, s2, len)
    ensures r == StrNCmpResult(s1, s2, len)
  {
    if len == 0 {
      return 0;
    }
    var i, n := 0, len;
    while n > 0 && s1[i] != 0 && s2[i] != 0
      invariant i + n == len && i <= Stop(s1, s2, len)
      invariant i < len ==> i < |s1| && i < |s2|
    {
      if Signed(s1[i]) < Signed(s2[i]) {
        return -1;
      }
      if Signed(s1[i]) > Signed(s2[i]) {
        return 1;
      }
      i, n := i + 1, n - 1;
    }
    if n == 0 {
      return 0;
    }
    if s1[i] == 0 {
      return -1;
    }
    return 1;
  }

  /** Comparing no characters, or `len` equal characters none of them NUL, gives 0. */
  lemma StrNCmpEqual(s1: seq<u8>, s2: seq<u8>, len: nat)
    requires len <= |s1| && len <= |s2| && s1[..len] == s2[..len] && 0 !in s1[..len]
    ensures StrNCmpResult(s1, s2, len) == 0
  {
  }

  /**
   * Two equal C strings shorter than `len` compare as -1: the loop stops at
   * their common NUL, and the test after it sees `s1` ended.
   */
  lemma {:induction false} StrNCmpEqualShorter(s1: seq<u8>, s2: seq<u8>, len: nat)
    requires 0 in s1 && 0 in s2 && CString(s1) == CString(s2) && NulIndex(s1) < len
    ensures StrNCmpResult(s1, s2, len) == -1
  {
    var n := NulIndex(s1);
    assert s1[..n] == s2[..n];
    assert NulIndex(s2) == n by {
      assert |CString(s2)| == n;
    }
  }

  /** At the first difference among the first `len` characters, the signed order of the two decides. */
  lemma StrNCmpOrders(s1: seq<u8>, s2: seq<u8>, len: nat, k: nat)
    requires k < len && k < |s1| && k < |s2|
    requires s1[..k] == s2[..k] && 0 !in s1[..k]
    requires s1[k] != 0 && s2[k] != 0 && s1[k] != s2[k] && Comparable(s1, s2, len)
    ensures StrNCmpResult(s1, s2, len) == if Signed(s1[k]) < Signed(s2[k]) then -1 else 1
  {
  }

  /** `strchr_workaround`: the first occurrence of `c`, or the terminating NUL when there is none. */
  method Strchr(s: seq<u8>, c: int) returns (i: nat)
    requires 0 in s
    ensures i <= NulIndex(s)
    ensures i < NulIndex(s) ==> Signed(s[i]) == c
    ensures forall j :: 0 <= j < i ==> Signed(s[j]) != c
  {
    i := 0;
    while s[i] != 0 && Signed(s[i]) != c
      invariant i <= NulIndex(s)
      invariant forall j :: 0 <= j < i ==> Signed(s[j]) != c
      decreases NulIndex(s) - i
    {
      i := i + 1;
    }
  }
}
