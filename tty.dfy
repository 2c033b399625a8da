/**
 * The kernel terminal (`kernel/tty.cpp`): a scrollback ring of character
 * cells, a scroll position, and a one-line command line with a cursor.
 *
 * Drawing the scrollback to the VGA text buffer is not part of this model.
 */
module Ttys {
  import opened Types
  import opened Math
  import opened CStrings
  import opened CircularBuffers

  const VGA_WIDTH: u32 := 80
  const VGA_HEIGHT: u32 := 25
  const VGA_CELLS: u32 := VGA_WIDTH * VGA_HEIGHT
  /** Five screens of scrollback. */
  const SCROLLBACK_BUFFER_SIZE: u32 := VGA_CELLS * 5
  /** The command line is one screen row. */
  const CMD_LEN: u32 := VGA_WIDTH
  /** `scroll_up` moves at most five screens at a time. */
  const MAX_SCROLL_STEP: u32 := VGA_HEIGHT * 5

  const SPACE: u8 := 0x20
  const NEWLINE: u8 := 0x0A

  /** A (signed) `char` stored in a `u16` cell: bytes from 0x80 fill the high byte with ones. */
  function Cell(c: u8): (w: u16)
    ensures w % 0x100 == c as int
    ensures w < 0x100 <==> c < 0x80
  {
    Signed(c) % U16_MOD
  }

  function Cells(s: seq<u8>): seq<u16>
  {
    seq(|s|, i requires 0 <= i < |s| => Cell(s[i]))
  }

  lemma CellsSnoc(s: seq<u8>, i: nat)
    requires i < |s|
    ensures Cells(s[..i + 1]) == Cells(s[..i]) + [Cell(s[i])]
  {
    assert s[..i + 1] == s[..i] + [s[i]];
  }

  /** Pushing the next byte of `s` onto the newest `m` cells of `c + s[..i]`. */
  lemma PushStep(c: seq<u16>, s: seq<u8>, i: nat, m: nat)
    requires i < |s|
    ensures Newest(Newest(c + Cells(s[..i]), m) + [Cell(s[i])], m) == Newest(c + Cells(s[..i + 1]), m)
  {
    NewestAppend(c + Cells(s[..i]), Cell(s[i]), m);
    CellsSnoc(s, i);
    assert (c + Cells(s[..i])) + [Cell(s[i])] == c + Cells(s[..i + 1]);
  }

  /** Pushing a newline after the newest `m` cells of `c + line`. */
  lemma NewlineStep(c: seq<u16>, line: seq<u8>, m: nat)
    ensures Newest(Newest(c + Cells(line), m) + [Cell(NEWLINE)], m) == Newest(c + Cells(line + [NEWLINE]), m)
  {
    PushStep(c, line + [NEWLINE], |line|, m);
    assert (line + [NEWLINE])[..|line|] == line && (line + [NEWLINE])[..|line| + 1] == line + [NEWLINE];
  }

  /** How many bytes `write_str(s, len)` takes: up to `len`, stopping at the first NUL. */
  function WriteCount(s: seq<u8>, len: int): (k: nat)
    requires len <= |s| || 0 in s
    ensures k <= |s| && k <= Max(len, 0)
    ensures forall j :: 0 <= j < k ==> s[j] != 0
    ensures k < len ==> k < |s| && s[k] == 0
    decreases |s|
  {
    if len <= 0 || s[0] == 0 then 0
    else
      assert 0 in s ==> 0 in s[1..];
      WriteCount(s[1..], len - 1) + 1
  }

  /** `scroll_up`: at most `MAX_SCROLL_STEP` lines further back, in 32-bit arithmetic. */
  function ScrolledUp(scroll: u32, amount: u32): (r: u32)
    ensures scroll + Min(amount, MAX_SCROLL_STEP as int) < U32_MOD ==> r == scroll + Min(amount, MAX_SCROLL_STEP as int)
  {
    (scroll + Min(amount, MAX_SCROLL_STEP as int)) % U32_MOD
  }

  /** `scroll_down`: towards the bottom, stopping there rather than wrapping below 0. */
  function ScrolledDown(scroll: u32, amount: u32): (r: u32)
    ensures r <= scroll
    ensures amount >= scroll ==> r == 0
    ensures amount < scroll ==> r == scroll - amount
  {
    scroll - Min(scroll, amount)
  }

  /** Scrolling up by at most five screens and back down by the same amount returns to where it was. */
  lemma ScrollUpThenDown(scroll: u32, amount: u32)
    requires amount <= MAX_SCROLL_STEP && scroll + amount < U32_MOD
    ensures ScrolledDown(ScrolledUp(scroll, amount), amount) == scroll
  {
  }

  class Tty {
    const charBuffer: CircularBuffer<u16>
    const cmdline: array<u8>
    var scrollAmount: u32
    var cmdCursor: u32

    ghost predicate Valid()
      reads this, charBuffer
    {
      && charBuffer.Valid() && charBuffer.size == SCROLLBACK_BUFFER_SIZE && cmdline.Length == CMD_LEN as int
      && cmdline as object != charBuffer.arr
    }

    /** The scrollback, oldest cell first. */
    ghost function Scrollback(): seq<u16>
      reads this, charBuffer, charBuffer.arr
      requires Valid()
    {
      charBuffer.Contents()
    }

    /** The zero-initialised global terminal: no scrollback, a NUL-filled command line. */
    constructor ()
      ensures Valid() && Scrollback() == [] && scrollAmount == 0 && cmdCursor == 0
      ensures forall i :: 0 <= i < cmdline.Length ==> cmdline[i] == 0
      ensures fresh(charBuffer) && fresh(charBuffer.arr) && fresh(cmdline)
    {
      charBuffer := new CircularBuffer(SCROLLBACK_BUFFER_SIZE);
      cmdline := new u8[CMD_LEN](_ => 0);
      scrollAmount, cmdCursor := 0, 0;
    }

    /**
     * `write_str`: pushes the first `WriteCount(s, len)` bytes of `s` in
     * order, so the scrollback keeps its newest `Size - 1` cells.
     */
    method WriteStr(s: seq<u8>, len: int)
      requires Valid() && (len <= |s| || 0 in s)
      modifies charBuffer, charBuffer.arr
      ensures Valid()
      ensures Scrollback() == Newest(old(Scrollback()) + Cells(s[..WriteCount(s, len)]), SCROLLBACK_BUFFER_SIZE as nat - 1)
    {
      ghost var m := SCROLLBACK_BUFFER_SIZE as nat - 1;
      ghost var k := WriteCount(s, len);
      assert s[..0] == [] && old(Scrollback()) + [] == old(Scrollback());
      var i := 0;
      while i < len && s[i] != 0
        invariant 0 <= i <= k && Valid()
        invariant Scrollback() == Newest(old(Scrollback()) + Cells(s[..i]), m)
      {
        charBuffer.PushEnd(Cell(s[i]));
        PushStep(old(Scrollback()), s, i, m);
        i := i + 1;
      }
      assert i == k;
    }

    /**
     * `set_cmdline`: the first `min(CMD_LEN, strlen(s))` bytes of `s`, then
     * spaces to the end of the line.
     */
    method SetCmdline(s: array<u8>)
      requires Valid() && 0 in s[..]
      modifies cmdline
      ensures var n := Min(CMD_LEN as int, NulIndex(old(s[..])));
        cmdline[..n] == old(s[..n]) && forall i :: n <= i < CMD_LEN as int ==> cmdline[i] == SPACE
    {
      var l := Strlen(s[..]);
      var len := Min(CMD_LEN as int, l);
      Memmove(cmdline, 0, s, 0, len);
      Memset(cmdline, len, SPACE as int, CMD_LEN as int - len);
    }

    /** `flush_cmdline`: pushes the whole command line, then a newline. */
    method FlushCmdline()
      requires Valid()
      modifies charBuffer, charBuffer.arr
      ensures Valid()
      ensures Scrollback() == Newest(old(Scrollback()) + Cells(cmdline[..] + [NEWLINE]), SCROLLBACK_BUFFER_SIZE as nat - 1)
    {
      ghost var m := SCROLLBACK_BUFFER_SIZE as nat - 1;
      ghost var line := cmdline[..];
      assert line[..0] == [] && old(Scrollback()) + [] == old(Scrollback());
      var i: u32 := 0;
      while i < CMD_LEN
        invariant i <= CMD_LEN && Valid() && cmdline[..] == line
        invariant Scrollback() == Newest(old(Scrollback()) + Cells(line[..i]), m)
      {
        charBuffer.PushEnd(Cell(cmdline[i]));
        PushStep(old(Scrollback()), line, i as nat, m);
        i := i + 1;
      }
      assert line[..i] == line;
      charBuffer.PushEnd(Cell(NEWLINE));
      NewlineStep(old(Scrollback()), line, m);
    }

    /** `set_cursor`: the cursor never goes past the end of the command line. */
    method SetCursor(i: u32)
      modifies this
      ensures cmdCursor == Min(CMD_LEN as int, i as int) && cmdCursor <= CMD_LEN
      ensures scrollAmount == old(scrollAmount)
    {
      cmdCursor := Min(CMD_LEN as int, i as int);
    }

    /** `scroll_up`. */
    method ScrollUp(amount: u32)
      modifies this
      ensures scrollAmount == ScrolledUp(old(scrollAmount), amount) && cmdCursor == old(cmdCursor)
    {
      var a := Min(amount as int, MAX_SCROLL_STEP as int);
      scrollAmount := (scrollAmount + a) % U32_MOD;
    }

    /** `scroll_down`. */
    method ScrollDown(amount: u32)
      modifies this
      ensures scrollAmount == ScrolledDown(old(scrollAmount), amount) && cmdCursor == old(cmdCursor)
    {
      var a := Min(scrollAmount as int, amount as int);
      scrollAmount := scrollAmount - a;
    }
  }
}
