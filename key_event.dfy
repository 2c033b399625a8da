/**
 * Key events as the PS/2 driver reports them to user processes, and the
 * queries a process makes of them (include/key_event.h, include/key_event.cpp).
 *
 * A key event names a key code, says whether the key went down or up, and
 * carries the modifier word that was in force: one bit per held modifier key
 * (shift, ctrl, alt, win, left and right) and one bit per lock that is on.
 * `KeyeventToAscii` maps the printable keys to characters of the US layout,
 * upper-casing letters on shift xor caps lock and the other keys on shift.
 */
module KeyEvents {
  import opened Types
  import opened Bits
  import opened Math

  /** The key codes of the `KeyCode` enumeration, `KEY_COUNT` included. */
  type KeyCode = k: nat | k <= 94

  // The modifier keys come first so that a held modifier's key code is its flag's bit.
  const KEY_LEFT_SHIFT: KeyCode := 0
  const KEY_RIGHT_SHIFT: KeyCode := 1
  const KEY_LEFT_CTRL: KeyCode := 2
  const KEY_RIGHT_CTRL: KeyCode := 3
  const KEY_LEFT_ALT: KeyCode := 4
  const KEY_RIGHT_ALT: KeyCode := 5
  const KEY_LEFT_WIN: KeyCode := 6
  const KEY_RIGHT_WIN: KeyCode := 7
  const KEY_HOLD_MODIFIERS_END: KeyCode := 8
  const KEY_CAPSLOCK: KeyCode := 9
  const KEY_SCROLLLOCK: KeyCode := 10
  const KEY_NUMLOCK: KeyCode := 11
  const KEY_LOCK_MODIFIERS_END: KeyCode := 12
  const KEY_INVALID: KeyCode := 13
  const KEY_KEYPAD: KeyCode := 14
  const KEY_MULTIMEDIA: KeyCode := 15
  const KEY_ACPI: KeyCode := 16
  const KEY_UP: KeyCode := 17
  const KEY_DOWN: KeyCode := 18
  const KEY_LEFT: KeyCode := 19
  const KEY_RIGHT: KeyCode := 20
  const KEY_BACKSPACE: KeyCode := 21
  const KEY_F1: KeyCode := 22
  const KEY_F2: KeyCode := 23
  const KEY_F3: KeyCode := 24
  const KEY_F4: KeyCode := 25
  const KEY_F5: KeyCode := 26
  const KEY_F6: KeyCode := 27
  const KEY_F7: KeyCode := 28
  const KEY_F8: KeyCode := 29
  const KEY_F9: KeyCode := 30
  const KEY_F10: KeyCode := 31
  const KEY_F11: KeyCode := 32
  const KEY_F12: KeyCode := 33
  const KEY_ESCAPE: KeyCode := 34
  const KEY_END: KeyCode := 35
  const KEY_HOME: KeyCode := 36
  const KEY_INSERT: KeyCode := 37
  const KEY_DELETE: KeyCode := 38
  const KEY_PAGE_DOWN: KeyCode := 39
  const KEY_PAGE_UP: KeyCode := 40
  const KEY_ASCII_START: KeyCode := 41
  const KEY_A: KeyCode := 42
  const KEY_B: KeyCode := 43
  const KEY_C: KeyCode := 44
  const KEY_D: KeyCode := 45
  const KEY_E: KeyCode := 46
  const KEY_F: KeyCode := 47
  const KEY_G: KeyCode := 48
  const KEY_H: KeyCode := 49
  const KEY_I: KeyCode := 50
  const KEY_J: KeyCode := 51
  const KEY_K: KeyCode := 52
  const KEY_L: KeyCode := 53
  const KEY_M: KeyCode := 54
  const KEY_N: KeyCode := 55
  const KEY_O: KeyCode := 56
  const KEY_P: KeyCode := 57
  const KEY_Q: KeyCode := 58
  const KEY_R: KeyCode := 59
  const KEY_S: KeyCode := 60
  const KEY_T: KeyCode := 61
  const KEY_U: KeyCode := 62
  const KEY_V: KeyCode := 63
  const KEY_W: KeyCode := 64
  const KEY_X: KeyCode := 65
  const KEY_Y: KeyCode := 66
  const KEY_Z: KeyCode := 67
  const KEY_ALPHABETICAL_END: KeyCode := 68
  const KEY_0: KeyCode := 69
  const KEY_1: KeyCode := 70
  const KEY_2: KeyCode := 71
  const KEY_3: KeyCode := 72
  const KEY_4: KeyCode := 73
  const KEY_5: KeyCode := 74
  const KEY_6: KeyCode := 75
  const KEY_7: KeyCode := 76
  const KEY_8: KeyCode := 77
  const KEY_9: KeyCode := 78
  const KEY_MINUS: KeyCode := 79
  const KEY_EQUAL: KeyCode := 80
  const KEY_TILDE: KeyCode := 81
  const KEY_TAB: KeyCode := 82
  const KEY_ENTER: KeyCode := 83
  const KEY_LEFT_SQUARE_BRACKET: KeyCode := 84
  const KEY_RIGHT_SQUARE_BRACKET: KeyCode := 85
  const KEY_SEMICOLON: KeyCode := 86
  const KEY_APOSTROPHE: KeyCode := 87
  const KEY_DOT: KeyCode := 88
  const KEY_COMMA: KeyCode := 89
  const KEY_SLASH: KeyCode := 90
  const KEY_BACKSLASH: KeyCode := 91
  const KEY_SPACE: KeyCode := 92
  const KEY_ASCII_END: KeyCode := 93
  const KEY_COUNT: KeyCode := 94

  /** The `KeyboardModifiers` flags, a 16-bit word. */
  const LEFT_SHIFT_HELD: u16 := 0x1
  const RIGHT_SHIFT_HELD: u16 := 0x2
  const LEFT_CTRL_HELD: u16 := 0x4
  const RIGHT_CTRL_HELD: u16 := 0x8
  const LEFT_ALT_HELD: u16 := 0x10
  const RIGHT_ALT_HELD: u16 := 0x20
  const LEFT_WIN_HELD: u16 := 0x40
  const RIGHT_WIN_HELD: u16 := 0x80
  const CAPSLOCK_HELD: u16 := 0x100
  const SCROLLLOCK_HELD: u16 := 0x200
  const NUMLOCK_HELD: u16 := 0x400

  /** The characters of the digit keys `0` .. `9` with shift. */
  const SHIFTED_DIGITS: string := ")!@#$%^&*("

  /** The characters of the keys `KEY_MINUS` .. `KEY_SPACE`, without and with shift. */
  const UNSHIFTED_SYMBOLS: string := "-=`\t\n[];'.,/\\ "
  const SHIFTED_SYMBOLS: string := "_+~\t\n{}:\"><?| "

  /** `keycode_to_ascii[row][key]`: row 0 holds each key's character without
    * shift, row 1 with shift.  The keys up to `KEY_ASCII_START` and the two
    * markers `KEY_ALPHABETICAL_END` and `KEY_ASCII_END` hold NUL; the letters
    * run through the alphabet, the digit keys through `0` .. `9` (unshifted)
    * and the top-row symbols (shifted). */
  function KeycodeToAscii(row: nat, key: KeyCode): char
    requires row < 2 && key < KEY_COUNT
  {
    if key <= KEY_ASCII_START || key == KEY_ALPHABETICAL_END || key == KEY_ASCII_END then '\0'
    else if key < KEY_ALPHABETICAL_END then ((if row == 0 then 'a' else 'A') as int + key - KEY_A) as char
    else if key <= KEY_9 then
      (if row == 0 then ('0' as int + key - KEY_0) as char else SHIFTED_DIGITS[key - KEY_0])
    else (if row == 0 then UNSHIFTED_SYMBOLS else SHIFTED_SYMBOLS)[key - KEY_MINUS]
  }

  datatype KeyEvent = KeyEvent(key: KeyCode, pressed: bool, modifiers: u16)

  predicate IsShiftPressed(e: KeyEvent)
  {
    And(e.modifiers, Or(LEFT_SHIFT_HELD, RIGHT_SHIFT_HELD, 16), 16) != 0
  }

  predicate IsCtrlPressed(e: KeyEvent)
  {
    And(e.modifiers, Or(LEFT_CTRL_HELD, RIGHT_CTRL_HELD, 16), 16) != 0
  }

  predicate IsAltPressed(e: KeyEvent)
  {
    And(e.modifiers, Or(LEFT_ALT_HELD, RIGHT_ALT_HELD, 16), 16) != 0
  }

  predicate IsWinPressed(e: KeyEvent)
  {
    And(e.modifiers, Or(LEFT_WIN_HELD, RIGHT_WIN_HELD, 16), 16) != 0
  }

  predicate IsNumlockOn(e: KeyEvent)
  {
    And(e.modifiers, NUMLOCK_HELD, 16) != 0
  }

  predicate IsCapslockOn(e: KeyEvent)
  {
    And(e.modifiers, CAPSLOCK_HELD, 16) != 0
  }

  predicate IsScrolllockOn(e: KeyEvent)
  {
    And(e.modifiers, SCROLLLOCK_HELD, 16) != 0
  }

  predicate ShouldBeUppercase(e: KeyEvent)
  {
    var caps := IsCapslockOn(e);
    var shift := IsShiftPressed(e);
    (!caps && shift) || (caps && !shift)
  }

  /** A key press whose key lies strictly between the two ASCII markers. */
  predicate IsAsciiEvent(e: KeyEvent)
  {
    e.pressed && KEY_ASCII_START < e.key < KEY_ASCII_END
  }

  /** Each modifier flag is the bit numbered by its key: `1 << key` for the held
    * modifiers and `1 << (key - 1)` for the locks. */
  lemma ModifierFlagsMatchKeys()
    ensures LEFT_SHIFT_HELD as nat == Pow2(KEY_LEFT_SHIFT) && RIGHT_SHIFT_HELD as nat == Pow2(KEY_RIGHT_SHIFT)
    ensures LEFT_CTRL_HELD as nat == Pow2(KEY_LEFT_CTRL) && RIGHT_CTRL_HELD as nat == Pow2(KEY_RIGHT_CTRL)
    ensures LEFT_ALT_HELD as nat == Pow2(KEY_LEFT_ALT) && RIGHT_ALT_HELD as nat == Pow2(KEY_RIGHT_ALT)
    ensures LEFT_WIN_HELD as nat == Pow2(KEY_LEFT_WIN) && RIGHT_WIN_HELD as nat == Pow2(KEY_RIGHT_WIN)
    ensures CAPSLOCK_HELD as nat == Pow2(KEY_CAPSLOCK - 1)
    ensures SCROLLLOCK_HELD as nat == Pow2(KEY_SCROLLLOCK - 1)
    ensures NUMLOCK_HELD as nat == Pow2(KEY_NUMLOCK - 1)
  {
    Pow2Small();
    Pow2Add(4, 1);
    Pow2Add(4, 2);
    Pow2Add(8, 2);
  }

  /** The pair queries read two bits of the modifier word: each holds when
    * either key of its pair is held. */
  lemma HeldModifierQueries(e: KeyEvent)
    ensures IsShiftPressed(e) <==> Bit(e.modifiers, KEY_LEFT_SHIFT) == 1 || Bit(e.modifiers, KEY_RIGHT_SHIFT) == 1
    ensures IsCtrlPressed(e) <==> Bit(e.modifiers, KEY_LEFT_CTRL) == 1 || Bit(e.modifiers, KEY_RIGHT_CTRL) == 1
    ensures IsAltPressed(e) <==> Bit(e.modifiers, KEY_LEFT_ALT) == 1 || Bit(e.modifiers, KEY_RIGHT_ALT) == 1
    ensures IsWinPressed(e) <==> Bit(e.modifiers, KEY_LEFT_WIN) == 1 || Bit(e.modifiers, KEY_RIGHT_WIN) == 1
  {
    ModifierFlagsMatchKeys();
    var m := e.modifiers as nat;
    MaskTwoBits(m, 0, 1, 16);
    MaskTwoBits(m, 2, 3, 16);
    MaskTwoBits(m, 4, 5, 16);
    MaskTwoBits(m, 6, 7, 16);
  }

  /** A lock query reads the lock's bit, and a letter is upper case when
    * exactly one of shift and caps lock is in force. */
  lemma LockModifierQueries(e: KeyEvent)
    ensures IsCapslockOn(e) <==> Bit(e.modifiers, KEY_CAPSLOCK - 1) == 1
    ensures IsScrolllockOn(e) <==> Bit(e.modifiers, KEY_SCROLLLOCK - 1) == 1
    ensures IsNumlockOn(e) <==> Bit(e.modifiers, KEY_NUMLOCK - 1) == 1
    ensures ShouldBeUppercase(e) <==> (Bit(e.modifiers, KEY_CAPSLOCK - 1) == 1) != IsShiftPressed(e)
  {
    ModifierFlagsMatchKeys();
    var m := e.modifiers as nat;
    AndPow2(m, 8, 16);
    AndPow2(m, 9, 16);
    AndPow2(m, 10, 16);
  }

  /** `keyevent_to_ascii`: letters take the row chosen by caps lock xor shift,
    * every other key the row chosen by shift alone.  Keys past the table are
    * not given a value here. */
  function KeyeventToAscii(e: KeyEvent): (r: char)
    requires e.key < KEY_COUNT
    ensures e.key < KEY_ALPHABETICAL_END ==>
      r == KeycodeToAscii(if ShouldBeUppercase(e) then 1 else 0, e.key)
    ensures e.key >= KEY_ALPHABETICAL_END ==>
      r == KeycodeToAscii(if IsShiftPressed(e) then 1 else 0, e.key)
  {
    var caps: u8 := if IsCapslockOn(e) then 1 else 0;
    var shift: u8 := if IsShiftPressed(e) then 1 else 0;
    if e.key < KEY_ALPHABETICAL_END then
      XorSmall(caps, shift);
      KeycodeToAscii(XorBits(caps, shift, 8), e.key)
    else
      KeycodeToAscii(shift, e.key)
  }

  /** `caps ^ shift` on two flags that are each 0 or 1. */
  lemma XorSmall(a: nat, b: nat)
    requires a < 2 && b < 2
    ensures XorBits(a, b, 8) == if a != b then 1 else 0
  {
    assert a / 2 == 0 && b / 2 == 0 && a % 2 == a && b % 2 == b;
    XorZero(7);
  }

  /** No key before `KEY_ASCII_START` or on a marker has a character, in either
    * row, and every key between the markers has one. */
  lemma AsciiRows(row: nat, k: KeyCode)
    requires row < 2 && k < KEY_COUNT
    ensures KeycodeToAscii(row, k) != '\0' <==> KEY_ASCII_START < k < KEY_ASCII_END && k != KEY_ALPHABETICAL_END
  {
    if KEY_9 < k < KEY_ASCII_END {
      var i := k - KEY_MINUS;
      assert forall j :: 0 <= j < |UNSHIFTED_SYMBOLS| ==> UNSHIFTED_SYMBOLS[j] != '\0';
      assert forall j :: 0 <= j < |SHIFTED_SYMBOLS| ==> SHIFTED_SYMBOLS[j] != '\0';
    } else if KEY_ALPHABETICAL_END < k <= KEY_9 {
      assert forall j :: 0 <= j < |SHIFTED_DIGITS| ==> SHIFTED_DIGITS[j] != '\0';
    }
  }

  /** Letter keys give the letter of their position in the alphabet, upper case
    * exactly when shift xor caps lock is in force. */
  lemma AsciiOfLetters(e: KeyEvent)
    requires KEY_A <= e.key <= KEY_Z
    ensures KeyeventToAscii(e) == ((if ShouldBeUppercase(e) then 'A' else 'a') as int + e.key - KEY_A) as char
  {
  }

  /** Digit keys give their digit without shift and the symbol above it with
    * shift; caps lock plays no part. */
  lemma AsciiOfDigits(e: KeyEvent)
    requires KEY_0 <= e.key <= KEY_9
    ensures !IsShiftPressed(e) ==> KeyeventToAscii(e) == ('0' as int + e.key - KEY_0) as char
    ensures IsShiftPressed(e) ==> KeyeventToAscii(e) == SHIFTED_DIGITS[e.key - KEY_0]
  {
  }

  /** Caps lock changes only letters: two events that differ only in the caps
    * lock bit agree on every key past the letters. */
  lemma CapslockOnlyAffectsLetters(e: KeyEvent, f: KeyEvent)
    requires e.key == f.key && KEY_ALPHABETICAL_END <= e.key < KEY_COUNT
    requires e.modifiers as nat == XorBits(f.modifiers, CAPSLOCK_HELD, 16)
    ensures KeyeventToAscii(e) == KeyeventToAscii(f)
  {
    HeldModifierQueries(e);
    HeldModifierQueries(f);
    LockModifierQueries(e);
    LockModifierQueries(f);
    ModifierFlagsMatchKeys();
    XorBit(f.modifiers, CAPSLOCK_HELD, 16, 0);
    XorBit(f.modifiers, CAPSLOCK_HELD, 16, 1);
    Pow2Bit(8, 0);
    Pow2Bit(8, 1);
  }

  /** Every table entry is a 7-bit ASCII character. */
  lemma AsciiIsSevenBit(row: nat, k: KeyCode)
    requires row < 2 && k < KEY_COUNT
    ensures KeycodeToAscii(row, k) as int < 0x80
  {
    if KEY_9 < k < KEY_ASCII_END {
      assert forall j :: 0 <= j < |UNSHIFTED_SYMBOLS| ==> UNSHIFTED_SYMBOLS[j] as int < 0x80;
      assert forall j :: 0 <= j < |SHIFTED_SYMBOLS| ==> SHIFTED_SYMBOLS[j] as int < 0x80;
    } else if KEY_ALPHABETICAL_END < k <= KEY_9 {
      assert forall j :: 0 <= j < |SHIFTED_DIGITS| ==> SHIFTED_DIGITS[j] as int < 0x80;
    }
  }

  /** Every character `keyevent_to_ascii` yields is 7-bit ASCII, so it fits a
    * byte unchanged. */
  lemma AsciiEventIsSevenBit(e: KeyEvent)
    requires e.key < KEY_COUNT
    ensures KeyeventToAscii(e) as int < 0x80
  {
    AsciiIsSevenBit(if (e.key < KEY_ALPHABETICAL_END && ShouldBeUppercase(e)) || (e.key >= KEY_ALPHABETICAL_END && IsShiftPressed(e)) then 1 else 0, e.key);
  }

  /** An ASCII event yields a character, except on the marker that ends the
    * letters; any other event's key yields NUL. */
  lemma AsciiEventHasCharacter(e: KeyEvent)
    requires e.key < KEY_COUNT
    ensures KeyeventToAscii(e) != '\0' <==> KEY_ASCII_START < e.key < KEY_ASCII_END && e.key != KEY_ALPHABETICAL_END
    ensures IsAsciiEvent(e) && e.key != KEY_ALPHABETICAL_END ==> KeyeventToAscii(e) != '\0'
  {
    AsciiRows(if (e.key < KEY_ALPHABETICAL_END && ShouldBeUppercase(e)) || (e.key >= KEY_ALPHABETICAL_END && IsShiftPressed(e)) then 1 else 0, e.key);
  }
}
