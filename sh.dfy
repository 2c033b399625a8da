/**
 * The user-space shell (userspace/sh.cpp): the command-line tokenizer and
 * dispatch of `enter_cmdline`, and the line editor that `main` drives from
 * key events.
 *
 * The tokenizer splits the line at every space outside double quotes.  A
 * backslash keeps the next byte from opening or closing a quote, and inside
 * an argument an unescaped double quote is dropped while a backslash is
 * dropped and the byte after it kept.  The arguments are packed into one
 * buffer as consecutive NUL-terminated strings, with `argv` pointing at each
 * and a null pointer after the last.
 */
module Shell {
  import opened Types
  import opened CStrings
  import opened KeyEvents
  import Strings

  const SPACE: u8 := 0x20
  const QUOTE: u8 := 0x22
  const BACKSLASH: u8 := 0x5C
  const SLASH: u8 := 0x2F

  /*
   * The tokenizer's state at each position of the line, as functions of the
   * bytes before it.
   */

  /** Byte `i` follows an unescaped backslash: `is_escape` as the loop reaches `i`. */
  predicate EscapedAt(line: seq<u8>, i: nat)
    requires i <= |line|
  {
    i > 0 && line[i - 1] == BACKSLASH && !EscapedAt(line, i - 1)
  }

  /** The first `n` bytes leave a double quote open: an odd number of unescaped quotes. */
  predicate InQuoteAfter(line: seq<u8>, n: nat)
    requires n <= |line|
  {
    n > 0 && (InQuoteAfter(line, n - 1) != (line[n - 1] == QUOTE && !EscapedAt(line, n - 1)))
  }

  /** A space outside quotes ends an argument, whether escaped or not. */
  predicate SplitsAt(line: seq<u8>, i: nat)
    requires i < |line|
  {
    line[i] == SPACE && !InQuoteAfter(line, i)
  }

  /** Where the argument being read at `n` began: one past the last split before `n`. */
  function SegmentStart(line: seq<u8>, n: nat): (s: nat)
    requires n <= |line|
    ensures s <= n
  {
    if n == 0 then 0 else if SplitsAt(line, n - 1) then n else SegmentStart(line, n - 1)
  }

  /**
   * `add_argv`'s copy of one argument: an unescaped backslash or double quote
   * is dropped, and the byte after a backslash is kept whatever it is.
   */
  function Unescape(src: seq<u8>, escape: bool): (r: seq<u8>)
    ensures |r| <= |src|
  {
    if |src| == 0 then []
    else if !escape && src[0] == BACKSLASH then Unescape(src[1..], true)
    else if !escape && src[0] == QUOTE then Unescape(src[1..], false)
    else [src[0]] + Unescape(src[1..], false)
  }

  /** The arguments ended by the splits before `n`: each non-empty stretch between two splits, unescaped. */
  function ArgsBefore(line: seq<u8>, n: nat): seq<seq<u8>>
    requires n <= |line|
  {
    if n == 0 then []
    else
      var s := SegmentStart(line, n - 1);
      if SplitsAt(line, n - 1) && s < n - 1 then ArgsBefore(line, n - 1) + [Unescape(line[s..n - 1], false)]
      else ArgsBefore(line, n - 1)
  }

  /** The arguments of a command line, or `None` when it leaves a quote open. */
  function Tokens(line: seq<u8>): Option<seq<seq<u8>>>
  {
    if InQuoteAfter(line, |line|) then None
    else
      var s := SegmentStart(line, |line|);
      Some(if s < |line| then ArgsBefore(line, |line|) + [Unescape(line[s..], false)] else ArgsBefore(line, |line|))
  }

  /*
   * The packed argument buffer.
   */

  /** `argv_buf` after the arguments `args`: each one followed by a NUL. */
  function Packed(args: seq<seq<u8>>): seq<u8>
  {
    if |args| == 0 then [] else Packed(args[..|args| - 1]) + args[|args| - 1] + [0]
  }

  /** An `argv` entry: a pointer into `argv_buf`, or the null pointer that ends the array. */
  datatype Ptr = Null | At(offset: nat)

  /** `buf` starts with the packed `args`, and `argv` points at each of them. */
  predicate ArgvHolds(buf: seq<u8>, argv: seq<Ptr>, args: seq<seq<u8>>)
  {
    && |Packed(args)| <= |buf| && buf[..|Packed(args)|] == Packed(args)
    && |args| <= |argv| && forall k :: 0 <= k < |args| ==> argv[k] == At(|Packed(args[..k])|)
  }

  /** Writing `argv` past the arguments keeps them in place. */
  lemma ArgvHoldsPastEnd(buf: seq<u8>, argv: seq<Ptr>, args: seq<seq<u8>>, k: nat, p: Ptr)
    requires ArgvHolds(buf, argv, args) && |args| <= k < |argv|
    ensures ArgvHolds(buf, argv[k := p], args)
  {
  }

  lemma PackedAppend(args: seq<seq<u8>>, a: seq<u8>)
    ensures Packed(args + [a]) == Packed(args) + a + [0]
  {
    assert (args + [a])[..|args|] == args;
  }

  /**
   * Argument `k` sits in the packed buffer at `argv[k]`'s offset, followed by
   * its NUL, and the buffer holds nothing else: its length is the arguments'
   * lengths plus one NUL each.
   */
  lemma {:induction false} PackedArgument(args: seq<seq<u8>>, k: nat)
    requires k < |args|
    ensures var off := |Packed(args[..k])|;
      && off + |args[k]| < |Packed(args)|
      && Packed(args)[off..off + |args[k]|] == args[k]
      && Packed(args)[off + |args[k]|] == 0
  {
    var n := |args| - 1;
    var init := args[..n];
    assert args == init + [args[n]];
    PackedAppend(init, args[n]);
    if k < n {
      assert args[..k] == init[..k];
      PackedArgument(init, k);
      PackedPrefix(init, k);
    } else {
      assert args[..k] == init;
    }
  }

  lemma {:induction false} PackedPrefix(args: seq<seq<u8>>, k: nat)
    requires k <= |args|
    ensures |Packed(args[..k])| <= |Packed(args)|
    ensures Packed(args)[..|Packed(args[..k])|] == Packed(args[..k])
  {
    if k < |args| {
      var n := |args| - 1;
      assert args[..n][..k] == args[..k];
      PackedPrefix(args[..n], k);
      PackedAppend(args[..n], args[n]);
      assert args[..n] + [args[n]] == args;
    } else {
      assert args[..k] == args;
    }
  }

  /*
   * `enter_cmdline`'s tokenizer.
   */

  lemma UnescapeStep(src: seq<u8>, j: nat, escape: bool)
    requires j < |src|
    ensures Unescape(src[j..], escape) ==
      if !escape && src[j] == BACKSLASH then Unescape(src[j + 1..], true)
      else if !escape && src[j] == QUOTE then Unescape(src[j + 1..], false)
      else [src[j]] + Unescape(src[j + 1..], false)
  {
    assert src[j..][1..] == src[j + 1..];
  }

  /** One step of `add_argv`'s copy loop keeps the bytes written so far a prefix of the unescaped argument. */
  lemma UnescapeAdvance(src: seq<u8>, j: nat, escape: bool, out: seq<u8>)
    requires j < |src| && out + Unescape(src[j..], escape) == Unescape(src, false)
    ensures var keep := escape || (src[j] != BACKSLASH && src[j] != QUOTE);
      (if keep then out + [src[j]] else out) + Unescape(src[j + 1..], !escape && src[j] == BACKSLASH)
        == Unescape(src, false)
  {
    UnescapeStep(src, j, escape);
    if escape || (src[j] != BACKSLASH && src[j] != QUOTE) {
      assert out + [src[j]] + Unescape(src[j + 1..], false) == out + ([src[j]] + Unescape(src[j + 1..], false));
    }
  }

  /** One pass of `add_argv`'s copy loop, over the byte `c` at position `j` of the argument. */
  method CopyByte(c: u8, dest: array<u8>, at: nat, copied: nat, escape: bool,
                  ghost src: seq<u8>, ghost j: nat, ghost out: seq<u8>)
    returns (copied': nat, escape': bool, ghost out': seq<u8>)
    requires j < |src| && c == src[j] && copied == |out| <= j && at + |src| <= dest.Length
    requires forall k :: 0 <= k < copied ==> dest[at + k] == out[k]
    requires out + Unescape(src[j..], escape) == Unescape(src, false)
    modifies dest
    ensures copied' == |out'| <= j + 1
    ensures forall k :: 0 <= k < at ==> dest[k] == old(dest[k])
    ensures forall k :: 0 <= k < copied' ==> dest[at + k] == out'[k]
    ensures out' + Unescape(src[j + 1..], escape') == Unescape(src, false)
  {
    UnescapeAdvance(src, j, escape, out);
    copied', escape', out' := copied, escape, out;
    if !escape && c == BACKSLASH {
      escape' := true;
    } else if !escape && c == QUOTE {
    } else {
      dest[at + copied] := c;
      out' := out + [c];
      copied' := copied + 1;
      escape' := false;
    }
  }

  lemma CopiedInPlace(d: seq<u8>, before: seq<u8>, at: nat, out: seq<u8>)
    requires |d| == |before| && at + |out| <= |d|
    requires forall k :: 0 <= k < at ==> d[k] == before[k]
    requires forall k :: 0 <= k < |out| ==> d[at + k] == out[k]
    ensures d[at..at + |out|] == out && d[..at] == before[..at]
  {
  }

  /** `add_argv`'s copy loop: writes the stretch `src`, unescaped, at `dest[at..]`. */
  method CopyUnescaped(src: seq<u8>, dest: array<u8>, at: nat) returns (copied: nat)
    requires at + |src| <= dest.Length
    modifies dest
    ensures copied == |Unescape(src, false)| && at + copied <= dest.Length
    ensures dest[at..at + copied] == Unescape(src, false)
    ensures dest[..at] == old(dest[..at])
  {
    ghost var out: seq<u8> := [];
    var j: nat := 0;
    var escape := false;
    copied := 0;
    while j < |src|
      invariant j <= |src| && copied == |out| <= j
      invariant forall k :: 0 <= k < at ==> dest[k] == old(dest[k])
      invariant forall k :: 0 <= k < copied ==> dest[at + k] == out[k]
      invariant out + Unescape(src[j..], escape) == Unescape(src, false)
    {
      copied, escape, out := CopyByte(src[j], dest, at, copied, escape, src, j, out);
      j := j + 1;
    }
    assert src[j..] == [];
    CopiedInPlace(dest[..], old(dest[..]), at, out);
  }

  /** `add_argv`: packs the stretch `line[start..end]`, unescaped, when it is not empty. */
  method AddArgv(line: array<u8>, start: nat, end: nat, argvBuf: array<u8>, argv: array<Ptr>,
                 ghost args: seq<seq<u8>>, bufI: nat, argI: nat)
    returns (newBufI: nat, newArgI: nat)
    requires start <= end <= line.Length && line != argvBuf
    requires ArgvHolds(argvBuf[..], argv[..], args) && bufI == |Packed(args)| && argI == |args|
    requires start < end ==> bufI + (end - start) < argvBuf.Length && argI < argv.Length
    modifies argvBuf, argv
    ensures var added := if start < end then args + [Unescape(line[start..end], false)] else args;
      ArgvHolds(argvBuf[..], argv[..], added) && newBufI == |Packed(added)| && newArgI == |added|
  {
    newBufI, newArgI := bufI, argI;
    if start < end {
      ghost var u := Unescape(line[start..end], false);
      var destJ := CopyUnescaped(line[start..end], argvBuf, bufI);
      argvBuf[bufI + destJ] := 0;
      argv[argI] := At(bufI);
      newBufI, newArgI := bufI + destJ + 1, argI + 1;
      PackedAppend(args, u);
      assert argvBuf[..newBufI] == argvBuf[..bufI] + argvBuf[bufI..bufI + destJ] + [0];
      ghost var added := args + [u];
      forall k | 0 <= k < |added|
        ensures argv[k] == At(|Packed(added[..k])|)
      {
        if k < |args| {
          assert added[..k] == args[..k];
        } else {
          assert added[..k] == args;
        }
      }
    }
  }

  /**
   * The tokenizer's state after the first `i` bytes of `line`: the quote and
   * escape flags, the start of the argument being read, and the arguments
   * packed so far, none of which has outgrown the bytes it came from.
   */
  ghost predicate Scanned(line: seq<u8>, i: nat, inQuote: bool, isEscape: bool, cmdStart: nat,
                          buf: seq<u8>, argv: seq<Ptr>, bufI: nat, argc: nat)
  {
    && i <= |line|
    && inQuote == InQuoteAfter(line, i) && isEscape == EscapedAt(line, i)
    && cmdStart == SegmentStart(line, i)
    && ArgvHolds(buf, argv, ArgsBefore(line, i))
    && bufI == |Packed(ArgsBefore(line, i))| && argc == |ArgsBefore(line, i)|
    && bufI <= cmdStart && argc <= cmdStart
  }

  /** How the tokenizer's state at `i + 1` follows from its state at `i`. */
  lemma ScanStep(line: seq<u8>, i: nat)
    requires i < |line|
    ensures EscapedAt(line, i + 1) == (line[i] == BACKSLASH && !EscapedAt(line, i))
    ensures InQuoteAfter(line, i + 1) == (InQuoteAfter(line, i) != (line[i] == QUOTE && !EscapedAt(line, i)))
    ensures SegmentStart(line, i + 1) == if SplitsAt(line, i) then i + 1 else SegmentStart(line, i)
    ensures ArgsBefore(line, i + 1) ==
      if SplitsAt(line, i) && SegmentStart(line, i) < i
      then ArgsBefore(line, i) + [Unescape(line[SegmentStart(line, i)..i], false)]
      else ArgsBefore(line, i)
  {
  }

  /** A split at byte `i`: `add_argv` packs the argument that ends there. */
  method SplitArgument(cmdline: array<u8>, len: nat, i: nat, argvBuf: array<u8>, argv: array<Ptr>,
                       inQuote: bool, isEscape: bool, cmdStart: nat, bufI: nat, argc: nat)
    returns (cmdStart': nat, bufI': nat, argc': nat)
    requires len <= cmdline.Length && i < len && cmdline != argvBuf
    requires argvBuf.Length == len + 1 && argv.Length == len + 1
    requires Scanned(cmdline[..len], i, inQuote, isEscape, cmdStart, argvBuf[..], argv[..], bufI, argc)
    requires SplitsAt(cmdline[..len], i)
    modifies argvBuf, argv
    ensures Scanned(cmdline[..len], i + 1, false, false, cmdStart', argvBuf[..], argv[..], bufI', argc')
  {
    ghost var line := cmdline[..len];
    ScanStep(line, i);
    ghost var args := ArgsBefore(line, i);
    assert line[cmdStart..i] == cmdline[cmdStart..i];
    bufI', argc' := AddArgv(cmdline, cmdStart, i, argvBuf, argv, args, bufI, argc);
    cmdStart' := i + 1;
  }

  /** One pass of the tokenizer's loop, over byte `i`. */
  method ScanByte(cmdline: array<u8>, len: nat, i: nat, argvBuf: array<u8>, argv: array<Ptr>,
                  inQuote: bool, isEscape: bool, cmdStart: nat, bufI: nat, argc: nat)
    returns (inQuote': bool, isEscape': bool, cmdStart': nat, bufI': nat, argc': nat)
    requires len <= cmdline.Length && i < len && cmdline != argvBuf
    requires argvBuf.Length == len + 1 && argv.Length == len + 1
    requires Scanned(cmdline[..len], i, inQuote, isEscape, cmdStart, argvBuf[..], argv[..], bufI, argc)
    modifies argvBuf, argv
    ensures Scanned(cmdline[..len], i + 1, inQuote', isEscape', cmdStart', argvBuf[..], argv[..], bufI', argc')
  {
    ghost var line := cmdline[..len];
    ScanStep(line, i);
    inQuote', isEscape', cmdStart', bufI', argc' := inQuote, isEscape, cmdStart, bufI, argc;
    var c := cmdline[i];
    assert c == line[i];
    if !isEscape && c == BACKSLASH {
      isEscape' := true;
    } else {
      if !isEscape && c == QUOTE {
        inQuote' := !inQuote;
      }
      if !inQuote' && c == SPACE {
        cmdStart', bufI', argc' := SplitArgument(cmdline, len, i, argvBuf, argv, inQuote, isEscape, cmdStart, bufI, argc);
        inQuote' := false;
      }
      isEscape' := false;
    }
  }

  /**
   * The tokenizer of `enter_cmdline`: splits `cmdline[..len]` into packed
   * arguments, reporting an unclosed quote.  Without one, the arguments are
   * `Tokens` of the line and `argv` ends with a null pointer.
   */
  method Tokenize(cmdline: array<u8>, len: nat) returns (argvBuf: array<u8>, argv: array<Ptr>, argc: nat, inQuote: bool)
    requires len <= cmdline.Length
    ensures fresh(argvBuf) && fresh(argv)
    ensures inQuote <==> Tokens(cmdline[..len]).None?
    ensures !inQuote ==>
      && argc == |Tokens(cmdline[..len]).value| && argc < argv.Length && argv[argc] == Null
      && ArgvHolds(argvBuf[..], argv[..], Tokens(cmdline[..len]).value)
  {
    argvBuf := new u8[len + 1];
    argv := new Ptr[len + 1];
    var cmdStart: nat, bufI: nat := 0, 0;
    var isEscape := false;
    argc, inQuote := 0, false;
    var i: nat := 0;
    while i < len
      invariant i <= len
      invariant Scanned(cmdline[..len], i, inQuote, isEscape, cmdStart, argvBuf[..], argv[..], bufI, argc)
    {
      inQuote, isEscape, cmdStart, bufI, argc := ScanByte(cmdline, len, i, argvBuf, argv, inQuote, isEscape, cmdStart, bufI, argc);
      i := i + 1;
    }
    ghost var line := cmdline[..len];
    ghost var args := ArgsBefore(line, len);
    if !inQuote {
      assert line[cmdStart..] == cmdline[cmdStart..len];
      bufI, argc := AddArgv(cmdline, cmdStart, len, argvBuf, argv, args, bufI, argc);
      args := Tokens(line).value;
    }
    ArgvHoldsPastEnd(argvBuf[..], argv[..], args, argc, Null);
    argv[argc] := Null;
  }

  /*
   * What the tokenizer computes.
   */

  /** A line with neither double quotes nor backslashes. */
  predicate PlainLine(line: seq<u8>)
  {
    forall i :: 0 <= i < |line| ==> line[i] != QUOTE && line[i] != BACKSLASH
  }

  /**
   * The textbook split at spaces, byte by byte: the words finished so far and
   * the word being read.
   */
  function Split(line: seq<u8>): (seq<seq<u8>>, seq<u8>)
  {
    if |line| == 0 then ([], [])
    else
      var (done, cur) := Split(line[..|line| - 1]);
      var c := line[|line| - 1];
      if c != SPACE then (done, cur + [c])
      else if cur == [] then (done, [])
      else (done + [cur], [])
  }

  /** The space-separated words of a line. */
  function Words(line: seq<u8>): seq<seq<u8>>
  {
    var (done, cur) := Split(line);
    if cur == [] then done else done + [cur]
  }

  /** Every word is a non-empty run of non-space bytes. */
  lemma {:induction false} SplitShape(line: seq<u8>)
    ensures SPACE !in Split(line).1
    ensures forall w :: w in Split(line).0 ==> |w| > 0 && SPACE !in w
  {
    if |line| > 0 {
      SplitShape(line[..|line| - 1]);
    }
  }

  lemma WordsShape(line: seq<u8>)
    ensures forall w :: w in Words(line) ==> |w| > 0 && SPACE !in w
  {
    SplitShape(line);
  }

  lemma PlainSlice(line: seq<u8>, a: nat, b: nat)
    requires PlainLine(line) && a <= b <= |line|
    ensures PlainLine(line[a..b])
  {
    forall i | 0 <= i < b - a ensures line[a..b][i] != QUOTE && line[a..b][i] != BACKSLASH {
      assert line[a..b][i] == line[a + i];
    }
  }

  lemma {:induction false} PlainUnescape(src: seq<u8>)
    requires PlainLine(src)
    ensures Unescape(src, false) == src
  {
    if |src| > 0 {
      PlainSlice(src, 1, |src|);
      assert src[1..|src|] == src[1..];
      PlainUnescape(src[1..]);
    }
  }

  /** On a plain line the tokenizer's state after `n` bytes is the textbook split of those bytes. */
  lemma {:induction false} PlainScan(line: seq<u8>, n: nat)
    requires PlainLine(line) && n <= |line|
    ensures !EscapedAt(line, n) && !InQuoteAfter(line, n)
    ensures ArgsBefore(line, n) == Split(line[..n]).0
    ensures line[SegmentStart(line, n)..n] == Split(line[..n]).1
  {
    if n > 0 {
      PlainScan(line, n - 1);
      ScanStep(line, n - 1);
      var c := line[n - 1];
      var s := SegmentStart(line, n - 1);
      assert line[..n][..n - 1] == line[..n - 1];
      var (done, cur) := Split(line[..n - 1]);
      assert Split(line[..n]) ==
        if c != SPACE then (done, cur + [c]) else if cur == [] then (done, []) else (done + [cur], []);
      assert ArgsBefore(line, n - 1) == done && line[s..n - 1] == cur;
      if c == SPACE {
        assert SplitsAt(line, n - 1) && SegmentStart(line, n) == n;
        if s < n - 1 {
          PlainSlice(line, s, n - 1);
          PlainUnescape(line[s..n - 1]);
          assert ArgsBefore(line, n) == done + [cur];
        } else {
          assert cur == [] && ArgsBefore(line, n) == done;
        }
      } else {
        assert !SplitsAt(line, n - 1) && SegmentStart(line, n) == s && ArgsBefore(line, n) == done;
        assert line[s..n] == cur + [c];
      }
    }
  }

  /**
   * Without quotes or backslashes a line never leaves a quote open, and its
   * arguments are its space-separated words: non-empty, with no space in them.
   */
  lemma PlainTokens(line: seq<u8>)
    requires PlainLine(line)
    ensures Tokens(line) == Some(Words(line))
    ensures forall w :: w in Tokens(line).value ==> |w| > 0 && SPACE !in w
  {
    PlainScan(line, |line|);
    assert line[..|line|] == line;
    var s := SegmentStart(line, |line|);
    PlainSlice(line, s, |line|);
    assert line[s..|line|] == line[s..];
    PlainUnescape(line[s..]);
    WordsShape(line);
  }

  /** A backslash before a space does not keep the space from splitting: `a\ b` is two arguments. */
  lemma EscapedSpaceSplits()
    ensures Tokens([0x61, BACKSLASH, SPACE, 0x62]) == Some([[0x61], [0x62]])
  {
    var line: seq<u8> := [0x61, BACKSLASH, SPACE, 0x62];
    ScanStep(line, 0);
    ScanStep(line, 1);
    ScanStep(line, 2);
    ScanStep(line, 3);
    assert EscapedAt(line, 2) && !InQuoteAfter(line, 3) && SplitsAt(line, 2);
    assert line[0..2] == [0x61, BACKSLASH] && line[3..] == [0x62];
    assert Unescape([BACKSLASH], false) == [];
    assert Unescape([0x61, BACKSLASH], false) == [0x61];
    assert Unescape([0x62], false) == [0x62];
    assert SegmentStart(line, 2) == 0 && SegmentStart(line, 3) == 3 && SegmentStart(line, 4) == 3;
    assert ArgsBefore(line, 3) == [[0x61]] && ArgsBefore(line, 4) == [[0x61]];
    assert !InQuoteAfter(line, 4);
    assert Unescape(line[3..], false) == [0x62];
    assert [[0x61]] + [[0x62 as u8]] == [[0x61], [0x62]];
  }

  /** A quoted space does not split: `"a b"` is one argument, without its quotes. */
  lemma QuotedSpaceJoins()
    ensures Tokens([QUOTE, 0x61, SPACE, 0x62, QUOTE]) == Some([[0x61, SPACE, 0x62]])
  {
    var line: seq<u8> := [QUOTE, 0x61, SPACE, 0x62, QUOTE];
    ScanStep(line, 0);
    ScanStep(line, 1);
    ScanStep(line, 2);
    ScanStep(line, 3);
    ScanStep(line, 4);
    assert InQuoteAfter(line, 3) && !SplitsAt(line, 2) && !InQuoteAfter(line, 5);
    assert line[0..] == line;
    assert Unescape([QUOTE], false) == [];
    assert Unescape([0x62, QUOTE], false) == [0x62];
    assert Unescape([SPACE, 0x62, QUOTE], false) == [SPACE, 0x62];
    assert Unescape([0x61, SPACE, 0x62, QUOTE], false) == [0x61, SPACE, 0x62];
    assert Unescape([QUOTE, 0x61, SPACE, 0x62, QUOTE], false) == [0x61, SPACE, 0x62];
    assert SegmentStart(line, 5) == 0 && ArgsBefore(line, 5) == [];
    var none: seq<seq<u8>> := [];
    assert none + [[0x61, SPACE, 0x62]] == [[0x61, SPACE, 0x62]];
  }

  /** An escaped double quote is kept and opens no quote: `\"` is the argument `"`. */
  lemma EscapedQuoteKept()
    ensures Tokens([BACKSLASH, QUOTE]) == Some([[QUOTE]])
  {
    var line: seq<u8> := [BACKSLASH, QUOTE];
    ScanStep(line, 0);
    ScanStep(line, 1);
    assert EscapedAt(line, 1) && !InQuoteAfter(line, 2);
    assert line[0..] == line;
    assert Unescape([QUOTE], true) == [QUOTE];
    assert Unescape([BACKSLASH, QUOTE], false) == [QUOTE];
    assert SegmentStart(line, 2) == 0 && ArgsBefore(line, 2) == [];
    var none: seq<seq<u8>> := [];
    assert none + [[QUOTE]] == [[QUOTE]];
  }

  /** `""` is one empty argument. */
  lemma EmptyQuotesGiveEmptyArgument()
    ensures Tokens([QUOTE, QUOTE]) == Some([[]])
  {
    var line: seq<u8> := [QUOTE, QUOTE];
    ScanStep(line, 0);
    ScanStep(line, 1);
    assert InQuoteAfter(line, 1) && !InQuoteAfter(line, 2);
    assert line[0..] == line;
    assert Unescape([QUOTE], false) == [];
    assert Unescape([QUOTE, QUOTE], false) == [];
    assert SegmentStart(line, 2) == 0 && ArgsBefore(line, 2) == [];
    var none: seq<seq<u8>> := [];
    assert none + [[]] == [[]];
  }

  /** `"a` leaves its quote open. */
  lemma OpenQuoteRejected()
    ensures Tokens([QUOTE, 0x61]) == None
  {
    var line: seq<u8> := [QUOTE, 0x61];
    ScanStep(line, 0);
    ScanStep(line, 1);
    assert InQuoteAfter(line, 1) && InQuoteAfter(line, 2);
  }

  /*
   * `enter_cmdline`'s dispatch.
   */

  /** `/userspace/`, where a command named without a slash is looked up. */
  const BIN_LOOKUP_PATH: seq<u8> := [0x2F, 0x75, 0x73, 0x65, 0x72, 0x73, 0x70, 0x61, 0x63, 0x65, 0x2F]
  const CD: seq<u8> := [0x63, 0x64]
  const ECHO: seq<u8> := [0x65, 0x63, 0x68, 0x6F]
  const HELP: seq<u8> := [0x68, 0x65, 0x6C, 0x70]

  /** What a command line makes the shell do. */
  datatype Command =
    | NoCommand                 // no arguments: nothing but the newline
    | UnclosedQuote             // the "unclosed quote" error
    | Exec(path: seq<u8>)       // run `path` with `argv + 1` as its arguments
    | ChangeDir(path: seq<u8>)  // `cd`: set the working directory
    | CdUsage                   // `cd` without exactly one argument
    | Echo(text: seq<u8>)       // `echo`: the text written to the terminal
    | EchoUsage                 // `echo` without arguments
    | Help                      // `help`: the help message
    | HelpUsage                 // `help` with arguments

  /** An argument as the programs reading `argv` see it: up to its first NUL. */
  function ArgString(a: seq<u8>): (r: seq<u8>)
    ensures 0 !in a ==> r == a
  {
    assert (a + [0])[|a|] == 0;
    var r := CString(a + [0]);
    if 0 !in a then
      assert (a + [0])[..|a|] == a;
      NulOfAppended(a);
      r
    else r
  }

  lemma NulOfAppended(a: seq<u8>)
    requires 0 !in a
    ensures 0 in a + [0] && NulIndex(a + [0]) == |a|
  {
    var t := a + [0];
    assert t[|a|] == 0;
  }

  /** `echo`'s output: each argument followed by a space. */
  function EchoText(args: seq<seq<u8>>): seq<u8>
  {
    if |args| == 0 then [] else EchoText(args[..|args| - 1]) + ArgString(args[|args| - 1]) + [SPACE]
  }

  /**
   * The command a tokenized line names.  A name with a slash is a path to
   * run; `cd`, `echo` and `help` are built in; any other name is run from
   * `/userspace/`.
   */
  function Dispatch(tokens: Option<seq<seq<u8>>>): Command
  {
    match tokens
    case None => UnclosedQuote
    case Some(args) =>
      if |args| == 0 then NoCommand
      else
        var name := ArgString(args[0]);
        if SLASH in name then Exec(name)
        else if name == CD then (if |args| != 2 then CdUsage else ChangeDir(ArgString(args[1])))
        else if name == ECHO then (if |args| < 2 then EchoUsage else Echo(EchoText(args[1..])))
        else if name == HELP then (if |args| > 1 then HelpUsage else Help)
        else Exec(BIN_LOOKUP_PATH + name)
  }

  /** A C string is decided by the bytes up to its NUL: a longer buffer holding them reads the same. */
  lemma CStringPrefix(s: seq<u8>, t: seq<u8>)
    requires 0 in t && |t| <= |s| && s[..|t|] == t
    ensures 0 in s && CString(s) == CString(t)
  {
    var n := NulIndex(t);
    assert s[n] == t[n];
    assert NulIndex(s) == n;
    assert s[..n] == t[..n];
  }

  /** `strmatch`: two C strings match when they have the same length and the same bytes. */
  method Strmatch(s1: seq<u8>, s2: seq<u8>) returns (b: bool)
    requires 0 in s1 && 0 in s2
    ensures b <==> CString(s1) == CString(s2)
  {
    var n1 := Strlen(s1);
    var n2 := Strlen(s2);
    if n1 != n2 {
      return false;
    }
    var r := StrNCmp(s1, s2, n1);
    if CString(s1) == CString(s2) {
      StrNCmpEqual(s1, s2, n1);
    }
    b := r == 0;
  }

  /** `argv[k]` points at a C string in `argv_buf` that reads as argument `k`. */
  lemma ArgvCString(buf: seq<u8>, argv: seq<Ptr>, args: seq<seq<u8>>, k: nat)
    requires ArgvHolds(buf, argv, args) && k < |args|
    ensures argv[k].At? && argv[k].offset < |buf| && 0 in buf[argv[k].offset..]
    ensures CString(buf[argv[k].offset..]) == ArgString(args[k])
  {
    PackedArgument(args, k);
    var off := argv[k].offset;
    var a := args[k];
    var p := Packed(args);
    assert off + |a| + 1 <= |p| <= |buf|;
    assert buf[off..off + |a| + 1] == buf[..|p|][off..off + |a| + 1];
    assert buf[off..][..|a| + 1] == buf[off..off + |a| + 1];
    assert p[off..off + |a| + 1] == a + [0];
    CStringPrefix(buf[off..], a + [0]);
  }

  /** The C string `argv[k]` points at, and where it starts in `argv_buf`. */
  method ArgAt(buf: array<u8>, argv: array<Ptr>, k: nat, ghost args: seq<seq<u8>>) returns (off: nat, s: seq<u8>)
    requires ArgvHolds(buf[..], argv[..], args) && k < |args|
    ensures off < buf.Length && 0 in buf[off..]
    ensures s == CString(buf[off..]) == ArgString(args[k])
  {
    ArgvCString(buf[..], argv[..], args, k);
    off := argv[k].offset;
    assert buf[off..] == buf[..][off..];
    var n := Strlen(buf[off..]);
    s := buf[off..off + n];
  }

  /** `cmd`'s bytes followed by a NUL read back as `cmd`. */
  lemma LiteralCString(cmd: seq<u8>)
    requires 0 !in cmd
    ensures CString(cmd + [0]) == cmd
  {
    NulOfAppended(cmd);
    assert (cmd + [0])[..|cmd|] == cmd;
  }

  /** `echo`'s loop: writes each argument after the name, each followed by a space. */
  method EchoArguments(buf: array<u8>, argv: array<Ptr>, argc: nat, ghost args: seq<seq<u8>>) returns (text: seq<u8>)
    requires ArgvHolds(buf[..], argv[..], args) && argc == |args| >= 1
    ensures text == EchoText(args[1..])
  {
    text := [];
    var i := 1;
    while i < argc
      invariant 1 <= i <= argc && text == EchoText(args[1..i])
    {
      var _, word := ArgAt(buf, argv, i, args);
      assert args[1..i + 1][..i - 1] == args[1..i];
      text := text + word + [SPACE];
      i := i + 1;
    }
    assert args[1..i] == args[1..];
  }

  /** The path a command without a slash runs: `/userspace/` followed by its name, built in a fresh buffer. */
  method LookupPath(argvBuf: array<u8>, off: nat, ghost name: seq<u8>) returns (path: seq<u8>)
    requires off < argvBuf.Length && 0 in argvBuf[off..] && name == CString(argvBuf[off..])
    ensures path == BIN_LOOKUP_PATH + name
  {
    var lookup := new u8[|BIN_LOOKUP_PATH|](i requires 0 <= i < |BIN_LOOKUP_PATH| => BIN_LOOKUP_PATH[i]);
    assert lookup[..] == BIN_LOOKUP_PATH;
    var pathLen := |BIN_LOOKUP_PATH|;
    var arg0Len := Strlen(argvBuf[off..]);
    assert argvBuf[off..off + arg0Len] == name;
    var len := pathLen + arg0Len;
    var buf := new u8[len + 1];
    Memmove(buf, 0, lookup, 0, pathLen);
    Memmove(buf, pathLen, argvBuf, off, arg0Len);
    buf[len] := 0;
    assert buf[..len] == buf[..pathLen] + buf[pathLen..len];
    path := buf[..len];
  }

  /**
   * `enter_cmdline`: tokenizes `cmdline[..len]` and decides what to run.
   * Whenever the line tokenizes, `argv` holds its arguments, ending in a
   * null pointer, so `argv + 1` is what an executed program receives.
   */
  method EnterCmdline(cmdline: array<u8>, len: nat)
    returns (cmd: Command, argvBuf: array<u8>, argv: array<Ptr>, argc: nat)
    requires len <= cmdline.Length
    ensures cmd == Dispatch(Tokens(cmdline[..len]))
    ensures Tokens(cmdline[..len]).Some? ==>
      && argc == |Tokens(cmdline[..len]).value| && argc < argv.Length && argv[argc] == Null
      && ArgvHolds(argvBuf[..], argv[..], Tokens(cmdline[..len]).value)
  {
    var inQuote;
    argvBuf, argv, argc, inQuote := Tokenize(cmdline, len);
    if inQuote {
      cmd := UnclosedQuote;
      return;
    }
    ghost var args := Tokens(cmdline[..len]).value;
    if argc == 0 {
      cmd := NoCommand;
      return;
    }
    var off, name := ArgAt(argvBuf, argv, 0, args);
    var hasSlash := Strings.Contains(argvBuf[off..], SLASH);
    LiteralCString(CD);
    LiteralCString(ECHO);
    LiteralCString(HELP);
    var isCd := Strmatch(argvBuf[off..], CD + [0]);
    var isEcho := Strmatch(argvBuf[off..], ECHO + [0]);
    var isHelp := Strmatch(argvBuf[off..], HELP + [0]);
    if hasSlash {
      cmd := Exec(name);
    } else if isCd {
      if argc != 2 {
        cmd := CdUsage;
      } else {
        var _, path := ArgAt(argvBuf, argv, 1, args);
        cmd := ChangeDir(path);
      }
    } else if isEcho {
      if argc < 2 {
        cmd := EchoUsage;
      } else {
        var text := EchoArguments(argvBuf, argv, argc, args);
        cmd := Echo(text);
      }
    } else if isHelp {
      cmd := if argc > 1 then HelpUsage else Help;
    } else {
      var path := LookupPath(argvBuf, off, name);
      cmd := Exec(path);
    }
  }

  /*
   * What dispatch does with a command line.
   */

  /** Appending bytes other than spaces extends the word being read. */
  lemma {:induction false} SplitAppendWord(x: seq<u8>, w: seq<u8>)
    requires SPACE !in w
    ensures Split(x + w) == (Split(x).0, Split(x).1 + w)
  {
    if |w| > 0 {
      var w' := w[..|w| - 1];
      assert (x + w)[..|x + w| - 1] == x + w';
      assert (x + w)[|x + w| - 1] == w[|w| - 1];
      SplitAppendWord(x, w');
      assert Split(x).1 + w' + [w[|w| - 1]] == Split(x).1 + w;
    } else {
      assert x + w == x && Split(x).1 + w == Split(x).1;
    }
  }

  /** `w1 w2`, two words without spaces, splits into those two words. */
  lemma TwoWords(w1: seq<u8>, w2: seq<u8>)
    requires |w1| > 0 && |w2| > 0 && SPACE !in w1 && SPACE !in w2
    ensures Words(w1 + [SPACE] + w2) == [w1, w2]
  {
    var none: seq<u8> := [];
    SplitAppendWord(none, w1);
    assert none + w1 == w1;
    assert Split(w1) == ([], w1);
    var x := w1 + [SPACE];
    assert x[..|x| - 1] == w1 && x[|x| - 1] == SPACE;
    var noWords: seq<seq<u8>> := [];
    assert noWords + [w1] == [w1];
    assert Split(x) == ([w1], []);
    SplitAppendWord(x, w2);
    assert x + w2 == w1 + [SPACE] + w2 && none + w2 == w2;
    assert [w1] + [w2] == [w1, w2];
  }

  /** A plain line made of a built-in name, a space and one word. */
  lemma CommandLineTokens(name: seq<u8>, w: seq<u8>)
    requires |name| > 0 && PlainLine(name) && SPACE !in name
    requires |w| > 0 && PlainLine(w) && SPACE !in w
    ensures Tokens(name + [SPACE] + w) == Some([name, w])
  {
    var line := name + [SPACE] + w;
    forall i | 0 <= i < |line| ensures line[i] != QUOTE && line[i] != BACKSLASH {
      if i < |name| {
        assert line[i] == name[i];
      } else if i > |name| {
        assert line[i] == w[i - |name| - 1];
      }
    }
    PlainTokens(line);
    TwoWords(name, w);
  }

  /** `cd DIR` changes to `DIR`. */
  lemma CdChangesDirectory(dir: seq<u8>)
    requires |dir| > 0 && PlainLine(dir) && SPACE !in dir && 0 !in dir
    ensures Dispatch(Tokens(CD + [SPACE] + dir)) == ChangeDir(dir)
  {
    CommandLineTokens(CD, dir);
  }

  /** `echo WORD` writes the word followed by a space. */
  lemma EchoWritesWord(word: seq<u8>)
    requires |word| > 0 && PlainLine(word) && SPACE !in word && 0 !in word
    ensures Dispatch(Tokens(ECHO + [SPACE] + word)) == Echo(word + [SPACE])
  {
    CommandLineTokens(ECHO, word);
    var words := [ECHO, word][1..];
    assert words == [word];
    assert words[..0] == [];
    assert EchoText(words) == [] + ArgString(word) + [SPACE];
    assert 0 !in ECHO && SLASH !in ECHO && ECHO != CD;
  }

  /** Every program the shell runs is named by a path: it holds a slash. */
  lemma ExecPathsHoldSlash(tokens: Option<seq<seq<u8>>>)
    ensures Dispatch(tokens).Exec? ==> SLASH in Dispatch(tokens).path
  {
    if Dispatch(tokens).Exec? {
      var path := Dispatch(tokens).path;
      assert tokens.Some? && |tokens.value| > 0;
      var name := ArgString(tokens.value[0]);
      if SLASH !in name {
        assert path == BIN_LOOKUP_PATH + name && path[0] == SLASH;
      }
    }
  }

  /**
   * A name that is neither built in nor holds a slash runs the program that
   * its full path under `/userspace/` names, with the same arguments.
   */
  lemma LookupMatchesFullPath(name: seq<u8>, rest: seq<seq<u8>>)
    requires 0 !in name && SLASH !in name && name != CD && name != ECHO && name != HELP
    ensures Dispatch(Some([name] + rest)) == Dispatch(Some([BIN_LOOKUP_PATH + name] + rest))
    ensures Dispatch(Some([name] + rest)) == Exec(BIN_LOOKUP_PATH + name)
  {
    var full := BIN_LOOKUP_PATH + name;
    assert full[0] == SLASH;
    assert 0 !in full by {
      forall i | 0 <= i < |full| ensures full[i] != 0 {
        if i >= |BIN_LOOKUP_PATH| {
          assert full[i] == name[i - |BIN_LOOKUP_PATH|];
        }
      }
    }
    assert ([name] + rest)[0] == name;
    assert ([full] + rest)[0] == full;
    assert ArgString(full) == full && SLASH in full;
  }

  /*
   * The line editor of `main`.
   */

  /** The prompt `> ` at the head of the command line. */
  const PROMPT: seq<u8> := [0x3E, SPACE]
  const PROMPT_LEN: nat := 2

  /** The byte a `char` is stored as: its low eight bits, so a character below
    * 0x100 is stored as its own code. */
  function ToByte(c: char): (b: u8)
    ensures c as int < 0x100 ==> b as int == c as int
  {
    (c as int % 0x100) as u8
  }

  /**
   * The line after typing `b` at position `pos`: the bytes from `pos` move
   * one place right, and the line is cut to `cap` bytes, so the last byte of
   * a full line is lost.
   */
  function Inserted(line: seq<u8>, pos: nat, b: u8, cap: nat): (r: seq<u8>)
    requires pos <= |line| <= cap && pos < cap
    ensures |r| == if |line| < cap then |line| + 1 else cap
  {
    (line[..pos] + [b] + line[pos..])[..Math.Min(|line| + 1, cap)]
  }

  /** The line after deleting the byte at `pos`. */
  function Removed(line: seq<u8>, pos: nat): (r: seq<u8>)
    requires pos < |line|
    ensures |r| == |line| - 1
  {
    line[..pos] + line[pos + 1..]
  }

  /** What a key makes the shell do besides editing the line. */
  datatype EditorAction =
    | NoAction
    | Scroll(lines: int)  // page up scrolls by 1, page down by -1
    | Run(cmd: Command)   // enter: the command line was run

  /**
   * `cmd_line`: `maxLen` bytes of prompt and command, plus one more.  The
   * command occupies `[cmdStart, end)`, `cursor` is where typing goes, and
   * the bytes from `end` to `maxLen` are NUL.
   */
  class LineEditor {
    const maxLen: nat
    const cmdLine: array<u8>
    var cmdStart: nat
    var end: nat
    var cursor: nat

    ghost predicate Valid()
      reads this, cmdLine
    {
      && cmdLine.Length == maxLen + 1
      && cmdStart == PROMPT_LEN <= cursor <= end <= maxLen
      && cmdLine[..PROMPT_LEN] == PROMPT
      && forall k :: end <= k < maxLen ==> cmdLine[k] == 0
    }

    /** The command typed so far. */
    function Line(): seq<u8>
      reads this, cmdLine
      requires Valid()
    {
      cmdLine[cmdStart..end]
    }

    /** The command and the cursor's place in it. */
    function State(): (st: EditorState)
      reads this, cmdLine
      requires Valid()
      ensures st.pos <= |st.line| <= maxLen - PROMPT_LEN
    {
      EditorState(Line(), cursor - cmdStart)
    }

    /** The line starts empty, after the prompt. */
    constructor (maxLen: nat)
      requires maxLen >= PROMPT_LEN
      ensures this.maxLen == maxLen && Valid() && fresh(cmdLine)
      ensures Line() == [] && cursor == cmdStart
    {
      this.maxLen := maxLen;
      cmdLine := new u8[maxLen + 1];
      new;
      Memset(cmdLine, 0, 0, maxLen);
      Reset();
    }

    /** `reset_cmd_line`: the prompt, then an empty line with the cursor after the prompt. */
    method Reset()
      requires cmdLine.Length == maxLen + 1 && maxLen >= PROMPT_LEN
      modifies this`cmdStart, this`end, this`cursor, cmdLine
      ensures Valid() && Line() == [] && cursor == cmdStart
    {
      cmdStart := PROMPT_LEN;
      end := cmdStart;
      cursor := cmdStart;
      var prompt := new u8[PROMPT_LEN](i requires 0 <= i < PROMPT_LEN => PROMPT[i]);
      Memmove(cmdLine, 0, prompt, 0, PROMPT_LEN);
      assert cmdLine[..PROMPT_LEN] == prompt[..] == PROMPT;
      Memset(cmdLine, PROMPT_LEN, 0, maxLen - PROMPT_LEN);
      assert cmdLine[..PROMPT_LEN] == PROMPT;
    }

    /** Left arrow: the cursor moves back, but not into the prompt. */
    method MoveLeft()
      requires Valid()
      modifies this`cursor
      ensures Valid() && Line() == old(Line())
      ensures cursor == if old(cursor) > cmdStart then old(cursor) - 1 else old(cursor)
    {
      if cursor > cmdStart {
        cursor := cursor - 1;
      }
    }

    /** Right arrow: the cursor moves forward, but not past the line's end. */
    method MoveRight()
      requires Valid()
      modifies this`cursor
      ensures Valid() && Line() == old(Line())
      ensures cursor == if old(cursor) < end then old(cursor) + 1 else old(cursor)
    {
      if cursor < end {
        cursor := cursor + 1;
      }
    }

    /** Backspace: deletes the byte before the cursor, if the cursor is past the prompt. */
    method Backspace()
      requires Valid()
      modifies this`end, this`cursor, cmdLine
      ensures Valid()
      ensures old(cursor) > cmdStart ==>
        Line() == Removed(old(Line()), old(cursor) - 1 - cmdStart) && cursor == old(cursor) - 1
      ensures old(cursor) == cmdStart ==> Line() == old(Line()) && cursor == old(cursor)
    {
      if cursor > cmdStart {
        ghost var before := cmdLine[..];
        cursor := cursor - 1;
        end := end - 1;
        var len := maxLen - cursor - 1;
        Memmove(cmdLine, cursor, cmdLine, cursor + 1, len);
        cmdLine[maxLen - 1] := 0;
        RemoveShift(before, cmdLine[..], cmdStart, cursor, end + 1, maxLen);
      }
    }

    /** A key with a character: its byte `b` goes in at the cursor, and the cursor moves past it. */
    method Insert(b: u8)
      requires Valid() && cursor < maxLen
      modifies this`end, this`cursor, cmdLine
      ensures Valid()
      ensures Line() == Inserted(old(Line()), old(cursor) - cmdStart, b, maxLen - cmdStart)
      ensures cursor == old(cursor) + 1
    {
      ghost var before := cmdLine[..];
      ghost var line := Line();
      var len := maxLen - cursor - 1;
      Memmove(cmdLine, cursor + 1, cmdLine, cursor, len);
      cmdLine[cursor] := b;
      InsertShift(before, cmdLine[..], cmdStart, cursor, end, maxLen, b);
      ghost var pos := cursor - cmdStart;
      end := Math.Min(end + 1, maxLen);
      cursor := Math.Min(cursor + 1, maxLen);
      assert cmdLine[..PROMPT_LEN] == cmdLine[..][..cmdStart] == before[..cmdStart] == PROMPT;
      assert cmdLine[cmdStart..end] == cmdLine[..][cmdStart..end] == Inserted(line, pos, b, maxLen - cmdStart);
    }
  }

  /** The command line handed to `enter_cmdline`: the bytes from `cmdStart` to `end`. */
  method CommandText(ed: LineEditor) returns (line: array<u8>)
    requires ed.Valid()
    ensures fresh(line) && line[..] == ed.Line()
  {
    var buf, start, stop := ed.cmdLine, ed.cmdStart, ed.end;
    line := new u8[stop - start](i requires 0 <= i < stop - start && start + i < buf.Length reads buf => buf[start + i]);
  }

  /** The editor as the user sees it: the command typed so far, and the cursor's place in it. */
  datatype EditorState = EditorState(line: seq<u8>, pos: nat)

  /** What a key event means to the editor. */
  datatype EditorKey = Ignored | PageUp | PageDown | Left | Right | Back | Enter | Typed(b: u8)

  /**
   * `main`'s switch: only presses act, the six editing keys are matched
   * first, and any other key that has a character types it.
   */
  function ClassifyKey(e: KeyEvent): (k: EditorKey)
    ensures k.Typed? ==> IsAsciiEvent(e) && k.b == ToByte(KeyeventToAscii(e))
    ensures k.Typed? ==> k.b as int == KeyeventToAscii(e) as int
  {
    if !e.pressed then Ignored
    else if e.key == KEY_PAGE_UP then PageUp
    else if e.key == KEY_PAGE_DOWN then PageDown
    else if e.key == KEY_LEFT then Left
    else if e.key == KEY_RIGHT then Right
    else if e.key == KEY_BACKSPACE then Back
    else if e.key == KEY_ENTER then Enter
    else if IsAsciiEvent(e) then AsciiEventIsSevenBit(e); Typed(ToByte(KeyeventToAscii(e)))
    else Ignored
  }

  /**
   * What one key does to the editor, for a command of at most `cap` bytes:
   * page up and down scroll, the arrows move the cursor within the command,
   * backspace deletes the byte before the cursor, enter runs the command and
   * starts an empty one, and a character is typed at the cursor while there
   * is room.
   */
  function KeyStep(st: EditorState, k: EditorKey, cap: nat): (r: (EditorState, EditorAction))
    requires st.pos <= |st.line| <= cap
    ensures r.0.pos <= |r.0.line| <= cap
  {
    match k
    case Ignored => (st, NoAction)
    case PageUp => (st, Scroll(1))
    case PageDown => (st, Scroll(-1))
    case Left => (if st.pos > 0 then st.(pos := st.pos - 1) else st, NoAction)
    case Right => (if st.pos < |st.line| then st.(pos := st.pos + 1) else st, NoAction)
    case Back => (if st.pos > 0 then EditorState(Removed(st.line, st.pos - 1), st.pos - 1) else st, NoAction)
    case Enter => (EditorState([], 0), Run(Dispatch(Tokens(st.line))))
    case Typed(b) => (if st.pos < cap then EditorState(Inserted(st.line, st.pos, b, cap), st.pos + 1) else st, NoAction)
  }

  /** The arrows and backspace. */
  method EditKey(ed: LineEditor, k: EditorKey)
    requires ed.Valid() && (k == Left || k == Right || k == Back)
    modifies ed`end, ed`cursor, ed.cmdLine
    ensures ed.Valid()
    ensures (ed.State(), NoAction) == KeyStep(old(ed.State()), k, ed.maxLen - PROMPT_LEN)
  {
    if k == Left {
      ed.MoveLeft();
    } else if k == Right {
      ed.MoveRight();
    } else {
      ed.Backspace();
    }
  }

  /** Enter: the command runs, and an empty one is started. */
  method RunLine(ed: LineEditor) returns (cmd: Command)
    requires ed.Valid()
    modifies ed`end, ed`cursor, ed`cmdStart, ed.cmdLine
    ensures ed.Valid() && ed.State() == EditorState([], 0)
    ensures cmd == Dispatch(Tokens(old(ed.Line())))
  {
    var line := CommandText(ed);
    var argvBuf, argv, argc;
    cmd, argvBuf, argv, argc := EnterCmdline(line, line.Length);
    assert line[..line.Length] == line[..];
    ed.Reset();
  }

  /** The editor's response to one classified key. */
  method ApplyKey(ed: LineEditor, k: EditorKey) returns (action: EditorAction)
    requires ed.Valid()
    modifies ed`end, ed`cursor, ed`cmdStart, ed.cmdLine
    ensures ed.Valid()
    ensures (ed.State(), action) == KeyStep(old(ed.State()), k, ed.maxLen - PROMPT_LEN)
  {
    action := NoAction;
    match k {
      case Ignored =>
      case PageUp => action := Scroll(1);
      case PageDown => action := Scroll(-1);
      case Enter =>
        var cmd := RunLine(ed);
        action := Run(cmd);
      case Typed(b) =>
        if ed.cursor < ed.maxLen {
          ed.Insert(b);
        }
      case _ => EditKey(ed, k);
    }
  }

  /** One key event of `main`'s loop. */
  method HandleKey(ed: LineEditor, e: KeyEvent) returns (action: EditorAction)
    requires ed.Valid()
    modifies ed`end, ed`cursor, ed`cmdStart, ed.cmdLine
    ensures ed.Valid()
    ensures (ed.State(), action) == KeyStep(old(ed.State()), ClassifyKey(e), ed.maxLen - PROMPT_LEN)
  {
    action := ApplyKey(ed, ClassifyKey(e));
  }

  /** Backspace right after typing a byte into a line that was not full gives the line back. */
  lemma TypeThenBackspace(line: seq<u8>, pos: nat, b: u8, cap: nat)
    requires pos <= |line| < cap
    ensures |Inserted(line, pos, b, cap)| == |line| + 1 && Inserted(line, pos, b, cap)[pos] == b
    ensures Removed(Inserted(line, pos, b, cap), pos) == line
  {
    var full := line[..pos] + [b] + line[pos..];
    assert full[..|line| + 1] == full;
    assert full[..pos] == line[..pos] && full[pos + 1..] == line[pos..];
    assert line[..pos] + line[pos..] == line;
  }

  /** At the key level: a typed byte followed by backspace leaves the editor as it was. */
  lemma TypedThenBackRestores(st: EditorState, b: u8, cap: nat)
    requires st.pos <= |st.line| < cap
    ensures KeyStep(st, Typed(b), cap).0.pos == st.pos + 1
    ensures KeyStep(KeyStep(st, Typed(b), cap).0, Back, cap) == (st, NoAction)
  {
    TypeThenBackspace(st.line, st.pos, b, cap);
  }

  /** Left then right returns the cursor to where it was when it could move left. */
  lemma LeftThenRightRestores(st: EditorState, cap: nat)
    requires 0 < st.pos <= |st.line| <= cap
    ensures KeyStep(KeyStep(st, Left, cap).0, Right, cap) == (st, NoAction)
  {
  }

  /** Typing at the end of a line that is not full appends the byte. */
  lemma TypingAtEndAppends(line: seq<u8>, b: u8, cap: nat)
    requires |line| < cap
    ensures Inserted(line, |line|, b, cap) == line + [b]
  {
    assert line[..|line|] == line && line[|line|..] == [];
    assert (line + [b])[..|line| + 1] == line + [b];
  }

  /** Typing into a full line keeps its length: the line's last byte is lost. */
  lemma TypingIntoFullLine(line: seq<u8>, pos: nat, b: u8)
    requires pos < |line|
    ensures Inserted(line, pos, b, |line|) == line[..pos] + [b] + line[pos..|line| - 1]
  {
    var full := line[..pos] + [b] + line[pos..];
    assert full[..|line|] == line[..pos] + [b] + line[pos..|line| - 1];
  }

  /** The array after backspace's shift holds the line without the deleted byte, and NULs after it. */
  lemma RemoveShift(a: seq<u8>, a2: seq<u8>, start: nat, cursor: nat, end: nat, maxLen: nat)
    requires |a| == |a2| == maxLen + 1 && start <= cursor < end <= maxLen
    requires a2[..cursor] == a[..cursor] && a2[cursor..maxLen - 1] == a[cursor + 1..maxLen]
    requires a2[maxLen - 1] == 0 && a2[maxLen] == a[maxLen]
    requires forall k :: end <= k < maxLen ==> a[k] == 0
    ensures a2[start..end - 1] == Removed(a[start..end], cursor - start)
    ensures a2[..start] == a[..start]
    ensures forall k :: end - 1 <= k < maxLen ==> a2[k] == 0
  {
    var r := Removed(a[start..end], cursor - start);
    forall i | 0 <= i < end - 1 - start ensures a2[start + i] == r[i] {
      if start + i < cursor {
        assert a2[start + i] == a2[..cursor][start + i];
      } else {
        assert a2[start + i] == a2[cursor..maxLen - 1][start + i - cursor];
      }
    }
    forall k | end - 1 <= k < maxLen ensures a2[k] == 0 {
      if k < maxLen - 1 {
        assert a2[k] == a2[cursor..maxLen - 1][k - cursor];
      }
    }
    assert a2[..start] == a2[..cursor][..start];
  }

  /** The array after typing's shift holds the inserted line, and NULs after it. */
  lemma InsertShift(a: seq<u8>, a2: seq<u8>, start: nat, cursor: nat, end: nat, maxLen: nat, b: u8)
    requires |a| == |a2| == maxLen + 1 && start <= cursor <= end <= maxLen && cursor < maxLen
    requires a2[..cursor] == a[..cursor] && a2[cursor] == b && a2[cursor + 1..maxLen] == a[cursor..maxLen - 1]
    requires forall k :: end <= k < maxLen ==> a[k] == 0
    ensures a2[start..Math.Min(end + 1, maxLen)] == Inserted(a[start..end], cursor - start, b, maxLen - start)
    ensures a2[..start] == a[..start]
    ensures forall k :: Math.Min(end + 1, maxLen) <= k < maxLen ==> a2[k] == 0
  {
    var e2 := Math.Min(end + 1, maxLen);
    var line := a[start..end];
    var pos := cursor - start;
    var full := line[..pos] + [b] + line[pos..];
    var ins := Inserted(line, pos, b, maxLen - start);
    assert ins == full[..e2 - start];
    forall i | 0 <= i < e2 - start ensures a2[start + i] == ins[i] {
      if i < pos {
        assert full[i] == line[i] == a[start + i];
        assert a2[start + i] == a2[..cursor][start + i];
      } else if i > pos {
        assert full[i] == line[i - 1] == a[start + i - 1];
        assert a2[start + i] == a2[cursor + 1..maxLen][start + i - cursor - 1];
      } else {
        assert full[i] == b;
      }
    }
    forall k | e2 <= k < maxLen ensures a2[k] == 0 {
      assert a2[k] == a2[cursor + 1..maxLen][k - cursor - 1];
    }
    assert a2[..start] == a2[..cursor][..start];
  }
}
