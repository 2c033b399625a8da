/**
 * Absolute-path normalisation in the kernel (`kernel/cpu.cpp`):
 * `should_normalize`, `normalize_path`, `max_normalized_path_len` and the part
 * of `kmalloc_and_normalize_path` that chooses between the resolved path and
 * its normalised copy.
 *
 * A path is a byte buffer holding a C string. The scans walk it with an index
 * where the source walks a pointer; a component is a maximal run of bytes
 * without '/'. `fs_stat`, which asks the file system whether the normalised
 * path names a directory, is the parameter `dirs`: the set of paths it reports
 * as existing directories.
 */
module Paths {
  import opened Types
  import opened CStrings
  import Strings

  const SLASH: u8 := 0x2F
  const DOT: u8 := 0x2E

  /** The first index at or after `i` that does not hold a '/'. */
  function SkipSlashes(p: seq<u8>, i: nat): (j: nat)
    requires i <= |p|
    ensures i <= j <= |p| && (j < |p| ==> p[j] != SLASH)
    ensures forall k :: i <= k < j ==> p[k] == SLASH
    decreases |p| - i
  {
    if i < |p| && p[i] == SLASH then SkipSlashes(p, i + 1) else i
  }

  /** The first index at or after `i` that holds a '/', or the end. */
  function PartEnd(p: seq<u8>, i: nat): (j: nat)
    requires i <= |p|
    ensures i <= j <= |p| && (j < |p| ==> p[j] == SLASH)
    ensures forall k :: i <= k < j ==> p[k] != SLASH
    decreases |p| - i
  {
    if i < |p| && p[i] != SLASH then PartEnd(p, i + 1) else i
  }

  /** The components of `p` from index `i` on, in order. */
  function ComponentsFrom(p: seq<u8>, i: nat): seq<seq<u8>>
    requires i <= |p|
    decreases |p| - i
  {
    var s := SkipSlashes(p, i);
    var e := PartEnd(p, s);
    if e == s then [] else [p[s..e]] + ComponentsFrom(p, e)
  }

  function Components(p: seq<u8>): seq<seq<u8>>
  {
    ComponentsFrom(p, 0)
  }

  /** A component as the scan finds it: non-empty, without '/' and without NUL. */
  predicate WellFormed(c: seq<u8>)
  {
    |c| > 0 && SLASH !in c && 0 !in c
  }

  predicate IsDotPart(c: seq<u8>)
  {
    c == [DOT] || c == [DOT, DOT]
  }

  /** Some component is "." or "..". */
  predicate HasDotPart(cs: seq<seq<u8>>)
  {
    exists k :: 0 <= k < |cs| && IsDotPart(cs[k])
  }

  predicate HasDoubleSlash(p: seq<u8>)
  {
    exists k :: 0 <= k < |p| - 1 && p[k] == SLASH && p[k + 1] == SLASH
  }

  /** What `should_normalize` looks for: a repeated '/', or a "." or ".." component. */
  predicate NeedsNormalizing(p: seq<u8>)
  {
    HasDoubleSlash(p) || HasDotPart(Components(p))
  }

  /** One component of the scan: "." is dropped, ".." drops the last kept part (nothing at the root), any other is kept. */
  function Step(kept: seq<seq<u8>>, c: seq<u8>): seq<seq<u8>>
  {
    if c == [DOT, DOT] then (if |kept| > 0 then kept[..|kept| - 1] else kept)
    else if c == [DOT] then kept
    else kept + [c]
  }

  /** The parts left after scanning `cs` from the left. */
  function Kept(cs: seq<seq<u8>>): seq<seq<u8>>
  {
    if cs == [] then [] else Step(Kept(cs[..|cs| - 1]), cs[|cs| - 1])
  }

  /** Every part followed by a '/'. */
  function Joined(ps: seq<seq<u8>>): seq<u8>
  {
    if ps == [] then [] else ps[0] + [SLASH] + Joined(ps[1..])
  }

  /**
   * The bytes `normalize_path` writes from the start of `dest` when the path
   * has a "." or ".." component: "/" alone when no part is kept (with no NUL
   * after it); otherwise "/" and the kept parts joined by '/', then a '/' only
   * when `fs_stat` reports that path as a directory, then a NUL.
   */
  function Normalized(p: seq<u8>, dirs: set<seq<u8>>): seq<u8>
  {
    var kept := Kept(Components(p));
    var full := [SLASH] + Joined(kept);
    if kept == [] then [SLASH]
    else if full[..|full| - 1] in dirs then full + [0]
    else full[..|full| - 1] + [0]
  }

  /** `max_normalized_path_len`: the length of the path plus one, the size of the buffer the caller allocates. */
  function MaxNormalizedPathLen(src: seq<u8>): (n: nat)
    requires 0 in src
  {
    NulIndex(src) + 1
  }

  lemma {:induction false} JoinedAppend(a: seq<seq<u8>>, b: seq<seq<u8>>)
    ensures Joined(a + b) == Joined(a) + Joined(b)
  {
    if a == [] {
      assert a + b == b;
    } else {
      assert (a + b)[1..] == a[1..] + b;
      JoinedAppend(a[1..], b);
    }
  }

  /** Joining one more part appends it and a '/'. */
  lemma JoinedSnoc(a: seq<seq<u8>>, c: seq<u8>)
    ensures Joined(a + [c]) == Joined(a) + c + [SLASH]
  {
    JoinedAppend(a, [c]);
    assert Joined([c]) == c + [SLASH] + Joined([]);
  }

  /** Every component the scan finds is well formed, when the path holds no NUL. */
  lemma {:induction false} ComponentsWellFormed(p: seq<u8>, i: nat)
    requires i <= |p| && 0 !in p
    ensures forall k :: 0 <= k < |ComponentsFrom(p, i)| ==> WellFormed(ComponentsFrom(p, i)[k])
    decreases |p| - i
  {
    var s := SkipSlashes(p, i);
    var e := PartEnd(p, s);
    if e != s {
      ComponentsWellFormed(p, e);
      var c := p[s..e];
      assert SLASH !in c by {
        forall j | 0 <= j < |c| ensures c[j] != SLASH {
          assert c[j] == p[s + j];
        }
      }
      assert 0 !in c by {
        forall j | 0 <= j < |c| ensures c[j] != 0 {
          assert c[j] == p[s + j];
        }
      }
    }
  }

  /**
   * The components take no more room, each with one '/', than the path
   * itself; one '/' less when the path starts with '/' (or is used up).
   */
  lemma {:induction false} ComponentsSize(p: seq<u8>, i: nat)
    requires i <= |p|
    ensures |Joined(ComponentsFrom(p, i))| <= |p| - i + 1
    ensures i == |p| || p[i] == SLASH ==> |Joined(ComponentsFrom(p, i))| <= |p| - i
    decreases |p| - i
  {
    var s := SkipSlashes(p, i);
    var e := PartEnd(p, s);
    if e != s {
      ComponentsSize(p, e);
      assert ComponentsFrom(p, i) == [p[s..e]] + ComponentsFrom(p, e);
      assert |Joined(ComponentsFrom(p, i))| == e - s + 1 + |Joined(ComponentsFrom(p, e))|;
    }
  }

  /** What the scan keeps is well formed and holds no "." or ".." part. */
  lemma {:induction false} KeptWellFormed(cs: seq<seq<u8>>)
    requires forall k :: 0 <= k < |cs| ==> WellFormed(cs[k])
    ensures forall k :: 0 <= k < |Kept(cs)| ==> WellFormed(Kept(cs)[k]) && !IsDotPart(Kept(cs)[k])
  {
    if cs != [] {
      KeptWellFormed(cs[..|cs| - 1]);
    }
  }

  /** Without "." or ".." every component is kept, in order. */
  lemma {:induction false} KeptIdentity(cs: seq<seq<u8>>)
    requires !HasDotPart(cs)
    ensures Kept(cs) == cs
  {
    if cs != [] {
      var init := cs[..|cs| - 1];
      forall k | 0 <= k < |init|
        ensures !IsDotPart(init[k])
      {
        assert init[k] == cs[k];
      }
      KeptIdentity(init);
      assert !IsDotPart(cs[|cs| - 1]);
      assert init + [cs[|cs| - 1]] == cs;
    }
  }

  /**
   * Scanning never makes the parts longer, and a "." or ".." component saves
   * at least two bytes (itself and its '/').
   */
  lemma {:induction false} KeptShrinks(cs: seq<seq<u8>>)
    ensures |Joined(Kept(cs))| + (if HasDotPart(cs) then 2 else 0) <= |Joined(cs)|
  {
    if cs != [] {
      var init := cs[..|cs| - 1];
      var c := cs[|cs| - 1];
      var kept := Kept(init);
      KeptShrinks(init);
      assert init + [c] == cs;
      JoinedSnoc(init, c);
      assert HasDotPart(cs) ==> HasDotPart(init) || IsDotPart(c) by {
        if HasDotPart(cs) {
          var k :| 0 <= k < |cs| && IsDotPart(cs[k]);
          if k < |init| {
            assert init[k] == cs[k];
          }
        }
      }
      assert HasDotPart(init) ==> HasDotPart(cs) by {
        if HasDotPart(init) {
          var k :| 0 <= k < |init| && IsDotPart(init[k]);
          assert cs[k] == init[k];
        }
      }
      if c == [DOT, DOT] && |kept| > 0 {
        assert kept[..|kept| - 1] + [kept[|kept| - 1]] == kept;
        JoinedSnoc(kept[..|kept| - 1], kept[|kept| - 1]);
      } else if c != [DOT, DOT] && c != [DOT] {
        JoinedSnoc(kept, c);
      }
    }
  }

  /**
   * What normalisation writes, NUL included, is never longer than the path it
   * normalises, so the `strlen + 1` buffer of `max_normalized_path_len`
   * always holds it.
   */
  lemma NormalizedFits(src: seq<u8>, dirs: set<seq<u8>>)
    requires 0 in src && src[0] == SLASH
    requires HasDotPart(Components(CString(src)))
    ensures |Normalized(CString(src), dirs)| <= NulIndex(src) < MaxNormalizedPathLen(src)
  {
    var p := CString(src);
    ComponentsSize(p, 0);
    KeptShrinks(Components(p));
  }
  /** No two '/' in a row among the first `n` bytes. */
  predicate NoDoubleSlashBefore(p: seq<u8>, n: nat)
    requires n <= |p|
  {
    forall k :: 0 <= k && k + 1 < n ==> !(p[k] == SLASH && p[k + 1] == SLASH)
  }

  /** Scanning one component: the components from `i` start with `p[s..e]`. */
  lemma ComponentsUnfold(p: seq<u8>, i: nat, s: nat, e: nat)
    requires i <= |p| && s == SkipSlashes(p, i) && e == PartEnd(p, s)
    ensures e == s ==> s == |p| && ComponentsFrom(p, i) == []
    ensures e != s ==> ComponentsFrom(p, i) == [p[s..e]] + ComponentsFrom(p, e)
  {
  }

  /** The inner loop that walks past a run of '/' (the scan of `normalize_path`). */
  method SkipSlashRun(path: seq<u8>, ghost p: seq<u8>, start: nat) returns (ptr: nat)
    requires 0 in path && p == CString(path) && start <= |p|
    ensures ptr == SkipSlashes(p, start)
  {
    ptr := start;
    while path[ptr] != 0 && path[ptr] == SLASH
      invariant start <= ptr <= |p| && SkipSlashes(p, start) == SkipSlashes(p, ptr)
      decreases |p| - ptr
    {
      ptr := ptr + 1;
    }
  }

  /** The inner loop of `should_normalize` over a run of '/': it gives up at the second '/'. */
  method SkipSlashRunOnce(path: seq<u8>, ghost p: seq<u8>, start: nat) returns (ptr: nat, repeated: bool)
    requires 0 in path && p == CString(path) && start <= |p|
    requires (start == 0 || p[start - 1] != SLASH) && NoDoubleSlashBefore(p, start)
    ensures repeated ==> HasDoubleSlash(p)
    ensures !repeated ==> ptr == SkipSlashes(p, start) && NoDoubleSlashBefore(p, ptr)
  {
    ptr := start;
    var firstSlash := true;
    while path[ptr] != 0 && path[ptr] == SLASH
      invariant start <= ptr <= |p| && SkipSlashes(p, start) == SkipSlashes(p, ptr)
      invariant firstSlash <==> ptr == start
      invariant !firstSlash ==> ptr == start + 1 && p[start] == SLASH
      decreases |p| - ptr
    {
      ptr := ptr + 1;
      if !firstSlash {
        assert p[start] == SLASH && p[start + 1] == SLASH;
        return ptr, true;
      }
      firstSlash := false;
    }
    return ptr, false;
  }

  /** The inner loop that finds where a component ends. */
  method FindPartEnd(path: seq<u8>, ghost p: seq<u8>, ptr: nat) returns (partEnd: nat)
    requires 0 in path && p == CString(path) && ptr <= |p|
    ensures partEnd == PartEnd(p, ptr)
  {
    partEnd := ptr;
    while path[partEnd] != 0 && path[partEnd] != SLASH
      invariant ptr <= partEnd <= |p| && PartEnd(p, ptr) == PartEnd(p, partEnd)
      decreases |p| - partEnd
    {
      partEnd := partEnd + 1;
    }
  }

  /** A component of one or two bytes compared with "." and "..", as the two `strncmp_workaround` calls do. */
  method DotKind(path: seq<u8>, ghost p: seq<u8>, ptr: nat, partEnd: nat) returns (dotDot: bool, dot: bool)
    requires 0 in path && p == CString(path) && ptr <= partEnd <= |p|
    ensures dotDot <==> p[ptr..partEnd] == [DOT, DOT]
    ensures dot <==> p[ptr..partEnd] == [DOT]
  {
    dotDot := partEnd - ptr == 2 && path[ptr] == DOT && path[ptr + 1] == DOT;
    dot := partEnd - ptr == 1 && path[ptr] == DOT;
    var c := p[ptr..partEnd];
    if |c| == 2 {
      assert c == [path[ptr], path[ptr + 1]];
    } else if |c| == 1 {
      assert c == [path[ptr]];
    }
  }

  /** What `should_normalize` knows after scanning `p[..ptr]`, whose components are `seen`. */
  predicate ScanInv(p: seq<u8>, seen: seq<seq<u8>>, ptr: nat)
  {
    ptr <= |p| && (ptr == 0 || p[ptr - 1] != SLASH) &&
    Components(p) == seen + ComponentsFrom(p, ptr) &&
    !HasDotPart(seen) && NoDoubleSlashBefore(p, ptr)
  }

  /** Scanning a component that is neither "." nor "..", after a single '/'. */
  lemma ScanAdvance(p: seq<u8>, seen: seq<seq<u8>>, start: nat, s: nat, e: nat)
    requires ScanInv(p, seen, start) && s == SkipSlashes(p, start) && NoDoubleSlashBefore(p, s)
    requires e == PartEnd(p, s) && e != s && !IsDotPart(p[s..e])
    ensures ScanInv(p, seen + [p[s..e]], e)
  {
    ComponentsUnfold(p, start, s, e);
    NoDoubleSlashInPart(p, s, e);
    HasDotPartSnoc(seen, p[s..e]);
  }

  /** Finding a "." or ".." component settles the answer. */
  lemma ScanFound(p: seq<u8>, seen: seq<seq<u8>>, start: nat, s: nat, e: nat)
    requires ScanInv(p, seen, start) && s == SkipSlashes(p, start)
    requires e == PartEnd(p, s) && e != s && IsDotPart(p[s..e])
    ensures NeedsNormalizing(p)
  {
    ComponentsUnfold(p, start, s, e);
    assert Components(p)[|seen|] == p[s..e];
  }

  /** Reaching the end of the path without finding anything. */
  lemma ScanDone(p: seq<u8>, seen: seq<seq<u8>>, start: nat, s: nat)
    requires ScanInv(p, seen, start) && s == SkipSlashes(p, start) && NoDoubleSlashBefore(p, s)
    requires PartEnd(p, s) == s
    ensures !NeedsNormalizing(p)
  {
    ComponentsUnfold(p, start, s, s);
    assert seen + [] == seen;
  }

  /**
   * `should_normalize`: true exactly when the path repeats a '/' or has a
   * "." or ".." component. It stops at the first repeated '/' of a run, and
   * otherwise at the first such component.
   */
  method ShouldNormalize(path: seq<u8>) returns (r: bool)
    requires 0 in path
    ensures r == NeedsNormalizing(CString(path))
  {
    ghost var p := CString(path);
    ghost var seen: seq<seq<u8>> := [];
    var ptr := 0;
    while path[ptr] != 0
      invariant ScanInv(p, seen, ptr)
      decreases |p| - ptr
    {
      ghost var start := ptr;
      var repeated;
      ptr, repeated := SkipSlashRunOnce(path, p, ptr);
      if repeated {
        return true;
      }
      var partEnd := FindPartEnd(path, p, ptr);
      if partEnd - ptr == 0 {
        ScanDone(p, seen, start, ptr);
        return false;
      }
      var dotDot, dot := DotKind(path, p, ptr, partEnd);
      if dotDot || dot {
        ScanFound(p, seen, start, ptr, partEnd);
        return true;
      }
      ScanAdvance(p, seen, start, ptr, partEnd);
      seen := seen + [p[ptr..partEnd]];
      ptr := partEnd;
    }
    ScanDone(p, seen, ptr, ptr);
    return false;
  }

  /** One more component has a "." or ".." part when the old ones did or it is one. */
  lemma HasDotPartSnoc(cs: seq<seq<u8>>, c: seq<u8>)
    ensures HasDotPart(cs + [c]) <==> HasDotPart(cs) || IsDotPart(c)
  {
    if HasDotPart(cs) {
      var k :| 0 <= k < |cs| && IsDotPart(cs[k]);
      assert (cs + [c])[k] == cs[k];
    }
    if IsDotPart(c) {
      assert (cs + [c])[|cs|] == c;
    }
    if HasDotPart(cs + [c]) {
      var k :| 0 <= k < |cs| + 1 && IsDotPart((cs + [c])[k]);
      if k < |cs| {
        assert (cs + [c])[k] == cs[k];
      }
    }
  }

  /** Walking over a component adds no repeated '/'. */
  lemma NoDoubleSlashInPart(p: seq<u8>, s: nat, e: nat)
    requires s < e <= |p| && NoDoubleSlashBefore(p, s) && e == PartEnd(p, s)
    ensures NoDoubleSlashBefore(p, e) && p[e - 1] != SLASH
  {
  }
  /** `struct Pair { char *start; char *end; }`: a component as two indices into the path. */
  datatype Pair = Pair(start: nat, end: nat)

  /** The pairs point at the texts `texts` of `p`. */
  predicate PartsOf(p: seq<u8>, parts: seq<Pair>, texts: seq<seq<u8>>)
  {
    |parts| == |texts| &&
    forall k :: 0 <= k < |parts| ==> parts[k].start <= parts[k].end <= |p| && p[parts[k].start..parts[k].end] == texts[k]
  }

  /** Scanning one more component `c`. */
  lemma ScanStep(p: seq<u8>, seen: seq<seq<u8>>, start: nat, s: nat, e: nat)
    requires start <= |p| && Components(p) == seen + ComponentsFrom(p, start)
    requires s == SkipSlashes(p, start) && e == PartEnd(p, s) && e != s
    ensures Components(p) == (seen + [p[s..e]]) + ComponentsFrom(p, e)
    ensures Kept(seen + [p[s..e]]) == Step(Kept(seen), p[s..e])
    ensures HasDotPart(seen + [p[s..e]]) == (HasDotPart(seen) || IsDotPart(p[s..e]))
  {
    ComponentsUnfold(p, start, s, e);
    HasDotPartSnoc(seen, p[s..e]);
    assert (seen + [p[s..e]])[..|seen|] == seen;
  }

  /**
   * The scan loop of `normalize_path`: the pairs it keeps in its vector are
   * the kept components, and it notes whether any component was "." or "..".
   */
  method ScanParts(src: array<u8>, ghost p: seq<u8>) returns (parts: seq<Pair>, needs: bool, ghost texts: seq<seq<u8>>)
    requires 0 in src[..] && p == CString(src[..])
    ensures PartsOf(p, parts, texts) && texts == Kept(Components(p))
    ensures needs == HasDotPart(Components(p))
  {
    ghost var seen: seq<seq<u8>> := [];
    parts, needs, texts := [], false, [];
    var ptr := 0;
    while src[ptr] != 0
      invariant ptr <= |p| && Components(p) == seen + ComponentsFrom(p, ptr)
      invariant PartsOf(p, parts, texts) && texts == Kept(seen) && needs == HasDotPart(seen)
      decreases |p| - ptr
    {
      ghost var start := ptr;
      ptr := SkipSlashRun(src[..], p, ptr);
      var partEnd := FindPartEnd(src[..], p, ptr);
      if partEnd - ptr == 0 {
        ComponentsUnfold(p, start, ptr, partEnd);
        assert seen + [] == seen;
        break;
      }
      ScanStep(p, seen, start, ptr, partEnd);
      var dotDot, dot := DotKind(src[..], p, ptr, partEnd);
      if dotDot {
        if |parts| > 0 {
          parts, texts := parts[..|parts| - 1], texts[..|texts| - 1];
        }
        needs := true;
      } else if dot {
        needs := true;
      } else {
        parts, texts := parts + [Pair(ptr, partEnd)], texts + [p[ptr..partEnd]];
      }
      seen := seen + [p[ptr..partEnd]];
      ptr := partEnd;
    }
    if src[ptr] == 0 {
      ComponentsUnfold(p, ptr, SkipSlashes(p, ptr), PartEnd(p, SkipSlashes(p, ptr)));
      assert seen + [] == seen;
    }
  }

  /** Joined parts end in '/'. */
  lemma {:induction false} JoinedEndsInSlash(ts: seq<seq<u8>>)
    requires ts != []
    ensures |Joined(ts)| > 0 && Joined(ts)[|Joined(ts)| - 1] == SLASH
  {
    if ts[1..] != [] {
      JoinedEndsInSlash(ts[1..]);
    }
  }

  /** No NUL among the joined parts. */
  lemma {:induction false} JoinedNoNul(ts: seq<seq<u8>>)
    requires forall k :: 0 <= k < |ts| ==> WellFormed(ts[k])
    ensures 0 !in Joined(ts)
  {
    if ts != [] {
      JoinedNoNul(ts[1..]);
    }
  }

  /** `Joined` of a prefix grows by one part and its '/'. */
  lemma JoinedPrefixStep(ts: seq<seq<u8>>, k: nat)
    requires k < |ts|
    ensures Joined(ts[..k + 1]) == Joined(ts[..k]) + ts[k] + [SLASH]
    ensures |Joined(ts[k..])| == |ts[k]| + 1 + |Joined(ts[k + 1..])|
  {
    assert ts[..k + 1] == ts[..k] + [ts[k]];
    JoinedSnoc(ts[..k], ts[k]);
    assert ts[k..][1..] == ts[k + 1..];
  }

  /** One turn of the copy loop: `memmove_workaround` of the part, then a '/'. */
  method AppendPart(dest: array<u8>, src: array<u8>, i: nat, part: Pair, ghost text: seq<u8>,
                    ghost before: seq<u8>, ghost w: seq<u8>) returns (next: nat)
    requires dest != src && part.start <= part.end <= src.Length && src[part.start..part.end] == text
    requires Strings.Written(before, dest[..], w) && i == |w| && i + |text| < dest.Length
    modifies dest
    ensures next == i + |text| + 1 && Strings.Written(before, dest[..], w + text + [SLASH])
  {
    var partLen := part.end - part.start;
    ghost var mid := dest[..];
    Memmove(dest, i, src, part.start, partLen);
    Strings.WrittenMove(before, mid, w, dest[..], text);
    Strings.PutByte(dest, before, w + text, i + partLen, SLASH);
    next := i + partLen + 1;
  }

  /**
   * The copy loop of `normalize_path`: after the leading '/', each part and a
   * '/' are written in turn.
   */
  method WriteParts(dest: array<u8>, src: array<u8>, parts: seq<Pair>, ghost texts: seq<seq<u8>>,
                    ghost p: seq<u8>, ghost before: seq<u8>) returns (i: nat)
    requires dest != src && 0 in src[..] && p == CString(src[..]) && PartsOf(p, parts, texts)
    requires 1 + |Joined(texts)| < dest.Length && Strings.Written(before, dest[..], [SLASH])
    modifies dest
    ensures i == 1 + |Joined(texts)| && Strings.Written(before, dest[..], [SLASH] + Joined(texts))
  {
    i := 1;
    var k := 0;
    assert texts[..0] == [] && texts[0..] == texts;
    while k < |parts|
      invariant k <= |parts| && i == 1 + |Joined(texts[..k])|
      invariant i + |Joined(texts[k..])| == 1 + |Joined(texts)|
      invariant Strings.Written(before, dest[..], [SLASH] + Joined(texts[..k]))
    {
      JoinedPrefixStep(texts, k);
      assert src[parts[k].start..parts[k].end] == p[parts[k].start..parts[k].end];
      i := AppendPart(dest, src, i, parts[k], texts[k], before, [SLASH] + Joined(texts[..k]));
      assert [SLASH] + Joined(texts[..k]) + texts[k] + [SLASH] == [SLASH] + Joined(texts[..k + 1]);
      k := k + 1;
    }
    assert texts[..k] == texts;
  }

  /** The kept parts, with the leading '/', leave room for the NUL within the path's own length. */
  lemma KeptFits(p: seq<u8>)
    requires |p| > 0 && p[0] == SLASH && HasDotPart(Components(p))
    ensures 1 + |Joined(Kept(Components(p)))| < |p|
  {
    ComponentsSize(p, 0);
    KeptShrinks(Components(p));
  }

  /**
   * `normalize_path`. Without a "." or ".." component it returns false and
   * writes nothing, even when `should_normalize` asked for it because of a
   * repeated '/'. Otherwise it writes `Normalized(path, dirs)` at the start of
   * `dest`; the `ASSERT(i <= path_len)` before the NUL always holds.
   */
  method NormalizePath(dest: array<u8>, src: array<u8>, dirs: set<seq<u8>>) returns (r: bool)
    requires dest != src && 0 in src[..] && src[0] == SLASH
    requires dest.Length >= MaxNormalizedPathLen(src[..])
    modifies dest
    ensures r == HasDotPart(Components(CString(src[..])))
    ensures !r ==> dest[..] == old(dest[..])
    ensures r ==> Strings.Written(old(dest[..]), dest[..], Normalized(CString(src[..]), dirs))
  {
    ghost var p := CString(src[..]);
    ghost var before := dest[..];
    var parts, needs, texts := ScanParts(src, p);
    var pathLen := Strlen(src[..]);
    if !needs {
      return false;
    }
    Strings.PutByte(dest, before, [], 0, SLASH);
    if |parts| == 0 {
      return true;
    }
    KeptFits(p);
    ComponentsWellFormed(p, 0);
    KeptWellFormed(Components(p));
    JoinedNoNul(texts);
    JoinedEndsInSlash(texts);
    var i := WriteParts(dest, src, parts, texts, p, before);
    assert i <= pathLen;
    FinishPath(dest, i, dirs, before, [SLASH] + Joined(texts));
    return true;
  }

  /** Overwriting the last byte written. */
  lemma WrittenReplaceLast(before: seq<u8>, mid: seq<u8>, w: seq<u8>, after: seq<u8>, c: u8)
    requires Strings.Written(before, mid, w) && |w| > 0 && after == mid[|w| - 1 := c]
    ensures Strings.Written(before, after, w[..|w| - 1] + [c])
  {
    assert after[..|w|] == mid[..|w| - 1] + [c];
    assert mid[..|w| - 1] == w[..|w| - 1];
  }

  /**
   * The end of `normalize_path`: the trailing '/' becomes a NUL, and comes
   * back, followed by a NUL, when `fs_stat` reports the path as a directory.
   */
  method FinishPath(dest: array<u8>, i: nat, dirs: set<seq<u8>>, ghost before: seq<u8>, ghost full: seq<u8>)
    requires |full| == i > 0 && full[i - 1] == SLASH && 0 !in full && i < dest.Length
    requires Strings.Written(before, dest[..], full)
    modifies dest
    ensures Strings.Written(before, dest[..],
      if full[..i - 1] in dirs then full + [0] else full[..i - 1] + [0])
  {
    ghost var path := full[..i - 1];
    assert full == path + [SLASH];
    ghost var mid := dest[..];
    dest[i - 1] := 0;
    WrittenReplaceLast(before, mid, full, dest[..], 0);
    Strings.WrittenCString(before, dest[..], path);
    var isDir := CString(dest[..]) in dirs;
    if isDir {
      mid := dest[..];
      dest[i - 1] := SLASH;
      WrittenReplaceLast(before, mid, path + [0], dest[..], SLASH);
      Strings.PutByte(dest, before, full, i, 0);
    }
  }
  // Normalising twice changes nothing: the components of the normalised path
  // are the kept parts, none of them "." or "..", and it repeats no '/'.

  lemma {:induction false} SkipShift(a: seq<u8>, b: seq<u8>, i: nat)
    requires i <= |b|
    ensures SkipSlashes(a + b, |a| + i) == |a| + SkipSlashes(b, i)
    decreases |b| - i
  {
    if i < |b| {
      assert (a + b)[|a| + i] == b[i];
      if b[i] == SLASH {
        SkipShift(a, b, i + 1);
      }
    }
  }

  lemma {:induction false} PartEndShift(a: seq<u8>, b: seq<u8>, i: nat)
    requires i <= |b|
    ensures PartEnd(a + b, |a| + i) == |a| + PartEnd(b, i)
    decreases |b| - i
  {
    if i < |b| {
      assert (a + b)[|a| + i] == b[i];
      if b[i] != SLASH {
        PartEndShift(a, b, i + 1);
      }
    }
  }

  lemma SliceShift(a: seq<u8>, b: seq<u8>, s: nat, e: nat)
    requires s <= e <= |b|
    ensures (a + b)[|a| + s..|a| + e] == b[s..e]
  {
    assert (a + b)[|a|..] == b;
  }

  /** Components found past a prefix `a` are those of what follows it. */
  lemma {:induction false} ComponentsShift(a: seq<u8>, b: seq<u8>, i: nat)
    requires i <= |b|
    ensures ComponentsFrom(a + b, |a| + i) == ComponentsFrom(b, i)
    decreases |b| - i
  {
    var s := SkipSlashes(b, i);
    var e := PartEnd(b, s);
    SkipShift(a, b, i);
    PartEndShift(a, b, s);
    var q := a + b;
    ComponentsUnfold(q, |a| + i, |a| + s, |a| + e);
    ComponentsUnfold(b, i, s, e);
    if e != s {
      ComponentsShift(a, b, e);
      SliceShift(a, b, s, e);
      assert ComponentsFrom(q, |a| + i) == [b[s..e]] + ComponentsFrom(b, e);
    }
  }

  lemma {:induction false} SkipAppend(q: seq<u8>, x: seq<u8>, i: nat)
    requires i <= |q|
    ensures SkipSlashes(q, i) < |q| ==> SkipSlashes(q + x, i) == SkipSlashes(q, i)
    ensures SkipSlashes(q, i) == |q| ==> SkipSlashes(q + x, i) == |q| + SkipSlashes(x, 0)
    decreases |q| - i
  {
    if i < |q| {
      assert (q + x)[i] == q[i];
      if q[i] == SLASH {
        SkipAppend(q, x, i + 1);
      }
    } else {
      SkipShift(q, x, 0);
    }
  }

  lemma {:induction false} PartEndAppend(q: seq<u8>, x: seq<u8>, i: nat)
    requires i <= |q|
    ensures PartEnd(q, i) < |q| ==> PartEnd(q + x, i) == PartEnd(q, i)
    ensures PartEnd(q, i) == |q| ==> PartEnd(q + x, i) == |q| + PartEnd(x, 0)
    decreases |q| - i
  {
    if i < |q| {
      assert (q + x)[i] == q[i];
      if q[i] != SLASH {
        PartEndAppend(q, x, i + 1);
      }
    } else {
      PartEndShift(q, x, 0);
    }
  }

  /** A trailing '/' adds no component. */
  lemma {:induction false} TrailingSlash(q: seq<u8>, i: nat)
    requires i <= |q|
    ensures ComponentsFrom(q + [SLASH], i) == ComponentsFrom(q, i)
    decreases |q| - i
  {
    var x: seq<u8> := [SLASH];
    var s := SkipSlashes(q, i);
    SkipAppend(q, x, i);
    if s < |q| {
      var e := PartEnd(q, s);
      PartEndAppend(q, x, s);
      assert PartEnd(x, 0) == 0;
      if e != s {
        TrailingSlash(q, e);
        assert (q + x)[s..e] == q[s..e];
      }
    } else {
      assert SkipSlashes(x, 0) == 1;
    }
  }

  /** The components of `"/" + Joined(ts)` are the parts `ts`. */
  lemma {:induction false} JoinedComponents(ts: seq<seq<u8>>)
    requires forall k :: 0 <= k < |ts| ==> WellFormed(ts[k])
    ensures Components([SLASH] + Joined(ts)) == ts
  {
    if ts == [] {
      assert SkipSlashes([SLASH], 0) == 1;
    } else {
      var a := [SLASH] + ts[0];
      var b := [SLASH] + Joined(ts[1..]);
      assert [SLASH] + Joined(ts) == a + b;
      assert SkipSlashes(a + b, 0) == 1 by {
        assert (a + b)[1] == ts[0][0];
      }
      assert PartEnd(a, 1) == |a| by {
        PartEndRun(a, 1);
      }
      PartEndAppend(a, b, 1);
      assert PartEnd(b, 0) == 0;
      ComponentsShift(a, b, 0);
      assert (a + b)[1..|a|] == ts[0];
      JoinedComponents(ts[1..]);
    }
  }

  /** A run without '/' reaches the end. */
  lemma {:induction false} PartEndRun(a: seq<u8>, i: nat)
    requires i <= |a| && forall k :: i <= k < |a| ==> a[k] != SLASH
    ensures PartEnd(a, i) == |a|
    decreases |a| - i
  {
    if i < |a| {
      PartEndRun(a, i + 1);
    }
  }
  /** `"/" + Joined(ts)` never repeats a '/'. */
  lemma {:induction false} JoinedNoDoubleSlash(ts: seq<seq<u8>>)
    requires forall k :: 0 <= k < |ts| ==> WellFormed(ts[k])
    ensures !HasDoubleSlash([SLASH] + Joined(ts))
  {
    if ts != [] {
      var a := [SLASH] + ts[0];
      var b := [SLASH] + Joined(ts[1..]);
      var q := a + b;
      assert [SLASH] + Joined(ts) == q;
      JoinedNoDoubleSlash(ts[1..]);
      forall k | 0 <= k < |q| - 1
        ensures !(q[k] == SLASH && q[k + 1] == SLASH)
      {
        if k + 1 < |a| {
          assert q[k + 1] == ts[0][k];
        } else if k + 1 == |a| {
          assert q[k] == ts[0][|ts[0]| - 1];
        } else {
          assert q[k] == b[k - |a|] && q[k + 1] == b[k + 1 - |a|];
        }
      }
    }
  }

  /**
   * Normalising is idempotent: when some part is kept, the normalised path is
   * a C string whose components are exactly the kept parts, and it needs no
   * further normalising.
   */
  lemma NormalizedIsNormal(src: seq<u8>, dirs: set<seq<u8>>)
    requires 0 in src && Kept(Components(CString(src))) != []
    ensures 0 in Normalized(CString(src), dirs)
    ensures Components(CString(Normalized(CString(src), dirs))) == Kept(Components(CString(src)))
    ensures !NeedsNormalizing(CString(Normalized(CString(src), dirs)))
  {
    var p := CString(src);
    var ts := Kept(Components(p));
    ComponentsWellFormed(p, 0);
    KeptWellFormed(Components(p));
    JoinedEndsInSlash(ts);
    JoinedNoNul(ts);
    JoinedComponents(ts);
    JoinedNoDoubleSlash(ts);
    var full := [SLASH] + Joined(ts);
    var path := full[..|full| - 1];
    assert full == path + [SLASH];
    var w := Normalized(p, dirs);
    assert !HasDotPart(ts);
    if path in dirs {
      Strings.CStringOf(w, full);
    } else {
      Strings.CStringOf(w, path);
      TrailingSlash(path, 0);
      assert !HasDoubleSlash(path) by {
        forall k | 0 <= k < |path| - 1
          ensures !(path[k] == SLASH && path[k + 1] == SLASH)
        {
          assert path[k] == full[k] && path[k + 1] == full[k + 1];
        }
      }
    }
  }
  /**
   * The choice `kmalloc_and_normalize_path` makes once the path is resolved
   * into `pathBuf` and `buf` has been allocated, as written: whenever
   * `should_normalize` says yes, `buf` replaces the resolved path, whether or
   * not `normalize_path` wrote anything into it.
   */
  method ChooseNormalizedAsWritten(pathBuf: array<u8>, buf: array<u8>, dirs: set<seq<u8>>) returns (result: array<u8>)
    requires buf != pathBuf && 0 in pathBuf[..] && pathBuf[0] == SLASH
    requires buf.Length >= MaxNormalizedPathLen(pathBuf[..])
    modifies buf
    ensures result == if NeedsNormalizing(CString(pathBuf[..])) then buf else pathBuf
    ensures HasDotPart(Components(CString(pathBuf[..]))) ==>
      Strings.Written(old(buf[..]), buf[..], Normalized(CString(pathBuf[..]), dirs))
    ensures !HasDotPart(Components(CString(pathBuf[..]))) ==> buf[..] == old(buf[..])
  {
    result := pathBuf;
    var should := ShouldNormalize(pathBuf[..]);
    if should {
      var _ := NormalizePath(buf, pathBuf, dirs);
      result := buf;
    }
  }

  /**
   * `"//a"` repeats a '/' but has no "." or ".." component: the as-written
   * choice hands on `buf` although `normalize_path` left it untouched.
   */
  lemma RepeatedSlashFinding()
    ensures NeedsNormalizing([SLASH, SLASH, 0x61])
    ensures !HasDotPart(Components([SLASH, SLASH, 0x61]))
  {
    var p: seq<u8> := [SLASH, SLASH, 0x61];
    assert p[0] == SLASH && p[1] == SLASH && p[2] != SLASH && |p| == 3;
    assert SkipSlashes(p, 2) == 2 && SkipSlashes(p, 1) == 2 && SkipSlashes(p, 0) == 2;
    assert PartEnd(p, 3) == 3 && PartEnd(p, 2) == 3;
    assert SkipSlashes(p, 3) == 3;
    ComponentsUnfold(p, 0, 2, 3);
    ComponentsUnfold(p, 3, 3, 3);
    assert p[2..3] == [0x61];
    assert Components(p) == [[0x61]] + [];
    assert !IsDotPart(Components(p)[0]);
  }

  /**
   * The same choice as it is evidently meant: the normalised copy is used
   * only when `normalize_path` reports that it wrote one, so the path handed
   * on is always either the resolved path or what was written.
   */
  method ChooseNormalized(pathBuf: array<u8>, buf: array<u8>, dirs: set<seq<u8>>) returns (result: array<u8>)
    requires buf != pathBuf && 0 in pathBuf[..] && pathBuf[0] == SLASH
    requires buf.Length >= MaxNormalizedPathLen(pathBuf[..])
    modifies buf
    ensures result == buf <==> HasDotPart(Components(CString(pathBuf[..])))
    ensures result == buf ==> Strings.Written(old(buf[..]), buf[..], Normalized(CString(pathBuf[..]), dirs))
    ensures result == pathBuf || result == buf
    ensures result == pathBuf ==> buf[..] == old(buf[..])
  {
    result := pathBuf;
    var should := ShouldNormalize(pathBuf[..]);
    if should {
      var wrote := NormalizePath(buf, pathBuf, dirs);
      if wrote {
        result := buf;
      }
    } else {
      assert !HasDotPart(Components(CString(pathBuf[..])));
    }
  }
}
