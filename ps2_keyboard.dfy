/**
 * The PS/2 keyboard driver's scan code decoder (kernel/ps2_keyboard.cpp).
 *
 * The keyboard sends scan code set 2: a key's make code when it goes down,
 * `0xF0` followed by the same code when it comes up, and keys of the
 * extended set carry a `0xE0` prefix in front of both.  The decoder keeps the
 * prefix seen so far and the modifier word, and turns every complete code
 * into one `KeyEvent` stamped with the modifiers in force before it.
 */
module Ps2Keyboard {
  import opened Types
  import opened Bits
  import opened KeyEvents

  datatype PrefixState = NoPrefix | PrefixF0 | PrefixE0 | PrefixE0F0

  /** `scancode_to_key_no_prefix` as written: the key of each make code sent
    * without a prefix; the bytes not listed hold `KEY_INVALID`.  Entry `0x83`,
    * the make code of F7, holds `KEY_7`. */
  function ScancodeToKeyNoPrefixAsWritten(scancode: u8): KeyCode
  {
    match scancode
    case 0x01 => KEY_F9
    case 0x03 => KEY_F5
    case 0x04 => KEY_F3
    case 0x05 => KEY_F1
    case 0x06 => KEY_F2
    case 0x07 => KEY_F12
    case 0x09 => KEY_F10
    case 0x0A => KEY_F8
    case 0x0B => KEY_F6
    case 0x0C => KEY_F4
    case 0x0D => KEY_TAB
    case 0x0E => KEY_TILDE
    case 0x11 => KEY_LEFT_ALT
    case 0x12 => KEY_LEFT_SHIFT
    case 0x14 => KEY_LEFT_CTRL
    case 0x15 => KEY_Q
    case 0x16 => KEY_1
    case 0x1A => KEY_Z
    case 0x1B => KEY_S
    case 0x1C => KEY_A
    case 0x1D => KEY_W
    case 0x1E => KEY_2
    case 0x21 => KEY_C
    case 0x22 => KEY_X
    case 0x23 => KEY_D
    case 0x24 => KEY_E
    case 0x25 => KEY_4
    case 0x26 => KEY_3
    case 0x29 => KEY_SPACE
    case 0x2A => KEY_V
    case 0x2B => KEY_F
    case 0x2C => KEY_T
    case 0x2D => KEY_R
    case 0x2E => KEY_5
    case 0x31 => KEY_N
    case 0x32 => KEY_B
    case 0x33 => KEY_H
    case 0x34 => KEY_G
    case 0x35 => KEY_Y
    case 0x36 => KEY_6
    case 0x3A => KEY_M
    case 0x3B => KEY_J
    case 0x3C => KEY_U
    case 0x3D => KEY_7
    case 0x3E => KEY_8
    case 0x41 => KEY_COMMA
    case 0x42 => KEY_K
    case 0x43 => KEY_I
    case 0x44 => KEY_O
    case 0x45 => KEY_0
    case 0x46 => KEY_9
    case 0x49 => KEY_DOT
    case 0x4A => KEY_SLASH
    case 0x4B => KEY_L
    case 0x4C => KEY_SEMICOLON
    case 0x4D => KEY_P
    case 0x4E => KEY_MINUS
    case 0x52 => KEY_APOSTROPHE
    case 0x54 => KEY_LEFT_SQUARE_BRACKET
    case 0x55 => KEY_EQUAL
    case 0x58 => KEY_CAPSLOCK
    case 0x59 => KEY_RIGHT_SHIFT
    case 0x5A => KEY_ENTER
    case 0x5B => KEY_RIGHT_SQUARE_BRACKET
    case 0x5D => KEY_BACKSLASH
    case 0x66 => KEY_BACKSPACE
    case 0x69 => KEY_KEYPAD
    case 0x6B => KEY_KEYPAD
    case 0x6C => KEY_KEYPAD
    case 0x70 => KEY_KEYPAD
    case 0x71 => KEY_KEYPAD
    case 0x72 => KEY_KEYPAD
    case 0x73 => KEY_KEYPAD
    case 0x74 => KEY_KEYPAD
    case 0x75 => KEY_KEYPAD
    case 0x76 => KEY_ESCAPE
    case 0x77 => KEY_NUMLOCK
    case 0x78 => KEY_F11
    case 0x79 => KEY_KEYPAD
    case 0x7A => KEY_KEYPAD
    case 0x7B => KEY_KEYPAD
    case 0x7C => KEY_KEYPAD
    case 0x7D => KEY_KEYPAD
    case 0x7E => KEY_SCROLLLOCK
    case 0x83 => KEY_7
    case _ => KEY_INVALID
  }

  /** The no-prefix table with F7's make code decoding to `KEY_F7`. */
  function ScancodeToKeyNoPrefix(scancode: u8): KeyCode
  {
    if scancode == 0x83 then KEY_F7 else ScancodeToKeyNoPrefixAsWritten(scancode)
  }

  /** `scancode_to_key_0xe0_prefix`: the key of each make code sent after an
    * `0xE0` prefix; the bytes not listed hold `KEY_INVALID`. */
  function ScancodeToKeyE0Prefix(scancode: u8): KeyCode
  {
    match scancode
    case 0x10 => KEY_MULTIMEDIA
    case 0x11 => KEY_RIGHT_ALT
    case 0x14 => KEY_RIGHT_CTRL
    case 0x15 => KEY_MULTIMEDIA
    case 0x18 => KEY_MULTIMEDIA
    case 0x1F => KEY_LEFT_WIN
    case 0x20 => KEY_MULTIMEDIA
    case 0x21 => KEY_MULTIMEDIA
    case 0x23 => KEY_MULTIMEDIA
    case 0x27 => KEY_RIGHT_WIN
    case 0x28 => KEY_MULTIMEDIA
    case 0x2B => KEY_MULTIMEDIA
    case 0x2F => KEY_MULTIMEDIA
    case 0x30 => KEY_MULTIMEDIA
    case 0x32 => KEY_MULTIMEDIA
    case 0x34 => KEY_MULTIMEDIA
    case 0x37 => KEY_ACPI
    case 0x38 => KEY_MULTIMEDIA
    case 0x3A => KEY_MULTIMEDIA
    case 0x3B => KEY_MULTIMEDIA
    case 0x3F => KEY_ACPI
    case 0x40 => KEY_MULTIMEDIA
    case 0x48 => KEY_MULTIMEDIA
    case 0x4A => KEY_KEYPAD
    case 0x4D => KEY_MULTIMEDIA
    case 0x50 => KEY_MULTIMEDIA
    case 0x5A => KEY_KEYPAD
    case 0x5E => KEY_ACPI
    case 0x69 => KEY_END
    case 0x6B => KEY_LEFT
    case 0x6C => KEY_HOME
    case 0x70 => KEY_INSERT
    case 0x71 => KEY_DELETE
    case 0x72 => KEY_DOWN
    case 0x74 => KEY_RIGHT
    case 0x75 => KEY_UP
    case 0x7A => KEY_PAGE_DOWN
    case 0x7D => KEY_PAGE_UP
    case _ => KEY_INVALID
  }

  datatype ProcessScancodeResult = ProcessScancodeResult(hasEvent: bool, event: KeyEvent)

  /** `{false, {}}`: no event, and a zeroed event beside it. */
  const NO_EVENT := ProcessScancodeResult(false, KeyEvent(0, false, 0))

  /** The modifier word after `key` goes down or up: a held modifier sets or
    * clears bit `key`, a lock toggles bit `key - 1` when pressed, and every
    * other key leaves the word alone. */
  function UpdateModifiers(mods: u16, key: KeyCode, pressed: bool): (r: u16)
    ensures key >= KEY_LOCK_MODIFIERS_END || (KEY_HOLD_MODIFIERS_END <= key && !pressed) ==> r == mods
  {
    Pow2Small();
    Pow2Mid();
    if key < KEY_HOLD_MODIFIERS_END then
      Pow2Le(key, 7);
      if pressed then Or(mods, Pow2(key), 16) else And(mods, Not(Pow2(key), 16), 16)
    else if key < KEY_LOCK_MODIFIERS_END then
      if pressed then XorBits(mods, Pow2(key - 1), 16) else mods
    else
      mods
  }

  /** The outcome of one byte: the kernel halts on an `ASSERT`, otherwise the
    * decoder moves to a new prefix and modifier word and reports a result. */
  datatype Decoded = Halted | Decoded(prefix: PrefixState, modifiers: u16, result: ProcessScancodeResult)

  /** What `process_scancode` does with one byte, as a function of the state
    * before it. */
  function Decode(prefix: PrefixState, mods: u16, scancode: u8): Decoded
  {
    if scancode == 0xE0 then
      if prefix == NoPrefix then Decoded(PrefixE0, mods, NO_EVENT) else Halted
    else if scancode == 0xF0 then
      match prefix
      case NoPrefix => Decoded(PrefixF0, mods, NO_EVENT)
      case PrefixE0 => Decoded(PrefixE0F0, mods, NO_EVENT)
      case _ => Halted
    else
      var pressed := prefix == NoPrefix || prefix == PrefixE0;
      var key := if prefix == NoPrefix || prefix == PrefixF0 then ScancodeToKeyNoPrefix(scancode)
                 else ScancodeToKeyE0Prefix(scancode);
      Decoded(NoPrefix, UpdateModifiers(mods, key, pressed), ProcessScancodeResult(true, KeyEvent(key, pressed, mods)))
  }

  /** The decoder's globals `prefix_state` and `g_active_modifiers`. */
  class ScancodeDecoder {
    var prefixState: PrefixState
    var activeModifiers: u16

    constructor()
      ensures prefixState == NoPrefix && activeModifiers == 0
    {
      prefixState := NoPrefix;
      activeModifiers := 0;
    }

    /** The modifier update at the end of `process_scancode`. */
    method UpdateActiveModifiers(key: KeyCode, pressed: bool)
      modifies this
      ensures activeModifiers == UpdateModifiers(old(activeModifiers), key, pressed)
      ensures prefixState == old(prefixState)
    {
      Pow2Small();
      Pow2Mid();
      if key < KEY_HOLD_MODIFIERS_END {
        Pow2Le(key, 7);
        var bit := Pow2(key);
        if pressed {
          activeModifiers := Or(activeModifiers, bit, 16);
        } else {
          activeModifiers := And(activeModifiers, Not(bit, 16), 16);
        }
      } else if key < KEY_LOCK_MODIFIERS_END {
        var bit := Pow2(key - 1);
        if pressed {
          activeModifiers := XorBits(activeModifiers, bit, 16);
        }
      }
    }

    /** `process_scancode`: consumes one byte from the keyboard.  `halted` is
      * the kernel stopping on a prefix byte in a state that does not allow it. */
    method ProcessScancode(scancode: u8) returns (halted: bool, r: ProcessScancodeResult)
      modifies this
      ensures halted ==> Decode(old(prefixState), old(activeModifiers), scancode).Halted?
      ensures halted ==> prefixState == old(prefixState) && activeModifiers == old(activeModifiers)
      ensures !halted ==> Decode(old(prefixState), old(activeModifiers), scancode) == Decoded(prefixState, activeModifiers, r)
    {
      halted := false;
      r := NO_EVENT;
      if scancode == 0xE0 {
        if prefixState != NoPrefix {
          halted := true;
          return;
        }
        prefixState := PrefixE0;
      } else if scancode == 0xF0 {
        if prefixState == NoPrefix {
          prefixState := PrefixF0;
        } else if prefixState == PrefixE0 {
          prefixState := PrefixE0F0;
        } else {
          halted := true;
        }
      } else {
        var key: KeyCode := KEY_INVALID;
        var pressed := false;
        if prefixState == NoPrefix || prefixState == PrefixF0 {
          pressed := prefixState == NoPrefix;
          key := ScancodeToKeyNoPrefix(scancode);
        } else if prefixState == PrefixE0 || prefixState == PrefixE0F0 {
          pressed := prefixState == PrefixE0;
          key := ScancodeToKeyE0Prefix(scancode);
        }
        var event := KeyEvent(key, pressed, activeModifiers);
        UpdateActiveModifiers(key, pressed);
        prefixState := NoPrefix;
        r := ProcessScancodeResult(true, event);
      }
    }
  }

  /** `0xE0` is accepted only with no prefix pending and `0xF0` only with no
    * prefix or a lone `0xE0` pending; an accepted prefix byte reports no event
    * and leaves the modifiers alone. */
  lemma PrefixBytes(prefix: PrefixState, mods: u16)
    ensures Decode(prefix, mods, 0xE0).Decoded? <==> prefix == NoPrefix
    ensures Decode(prefix, mods, 0xF0).Decoded? <==> prefix == NoPrefix || prefix == PrefixE0
    ensures Decode(prefix, mods, 0xE0).Decoded? ==> Decode(prefix, mods, 0xE0).prefix == PrefixE0
    ensures prefix == NoPrefix ==> Decode(prefix, mods, 0xF0) == Decoded(PrefixF0, mods, NO_EVENT)
    ensures prefix == PrefixE0 ==> Decode(prefix, mods, 0xF0) == Decoded(PrefixE0F0, mods, NO_EVENT)
    ensures forall b: u8 :: b in {0xE0, 0xF0} && Decode(prefix, mods, b).Decoded? ==>
      Decode(prefix, mods, b).modifiers == mods && !Decode(prefix, mods, b).result.hasEvent
  {
  }

  /** Every other byte ends a code: it reports exactly one event, pressed unless
    * an `0xF0` came before it, looked up in the table its `0xE0` prefix (or
    * the lack of one) selects, stamped with the modifiers before the byte; and
    * the decoder is back to no prefix. */
  lemma KeyByteEmitsEvent(prefix: PrefixState, mods: u16, scancode: u8)
    requires scancode != 0xE0 && scancode != 0xF0
    ensures var d := Decode(prefix, mods, scancode);
      && d.Decoded? && d.prefix == NoPrefix && d.result.hasEvent
      && d.result.event.modifiers == mods
      && (d.result.event.pressed <==> prefix == NoPrefix || prefix == PrefixE0)
      && d.result.event.key == (if prefix == NoPrefix || prefix == PrefixF0 then ScancodeToKeyNoPrefix(scancode)
                                 else ScancodeToKeyE0Prefix(scancode))
      && d.modifiers == UpdateModifiers(mods, d.result.event.key, d.result.event.pressed)
  {
  }

  /** A held modifier sets its bit `key` when pressed and clears it when
    * released; no other bit changes. */
  lemma HoldModifierBits(mods: u16, key: KeyCode, pressed: bool, j: nat)
    requires key < KEY_HOLD_MODIFIERS_END && j < 16
    ensures Bit(UpdateModifiers(mods, key, pressed), j) == if j == key then (if pressed then 1 else 0) else Bit(mods, j)
  {
    if pressed {
      OrPow2Bit(mods, key, 16, j);
    } else {
      AndNotPow2Bit(mods, key, 16, j);
    }
  }

  /** A lock flips its bit `key - 1` when pressed; no other bit changes. */
  lemma LockModifierBits(mods: u16, key: KeyCode, j: nat)
    requires KEY_CAPSLOCK <= key < KEY_LOCK_MODIFIERS_END && j < 16
    ensures Bit(UpdateModifiers(mods, key, true), j) == if j == key - 1 then 1 - Bit(mods, j) else Bit(mods, j)
  {
    XorBit(mods, Pow2(key - 1), 16, j);
    Pow2Bit(key - 1, j);
  }

  /** Pressing a lock twice puts the modifier word back. */
  lemma LockPressedTwice(mods: u16, key: KeyCode)
    requires KEY_CAPSLOCK <= key < KEY_LOCK_MODIFIERS_END
    ensures UpdateModifiers(UpdateModifiers(mods, key, true), key, true) == mods
  {
    var once := UpdateModifiers(mods, key, true);
    forall j | 0 <= j < 16
      ensures Bit(UpdateModifiers(once, key, true), j) == Bit(mods, j)
    {
      LockModifierBits(mods, key, j);
      LockModifierBits(once, key, j);
    }
    Pow2Mid();
    BitsEqual(UpdateModifiers(once, key, true), mods, 16);
  }

  /** Pressing and releasing a held modifier that was not held puts the
    * modifier word back. */
  lemma HoldPressedAndReleased(mods: u16, key: KeyCode)
    requires key < KEY_HOLD_MODIFIERS_END && Bit(mods, key) == 0
    ensures UpdateModifiers(UpdateModifiers(mods, key, true), key, false) == mods
  {
    var down := UpdateModifiers(mods, key, true);
    forall j | 0 <= j < 16
      ensures Bit(UpdateModifiers(down, key, false), j) == Bit(mods, j)
    {
      HoldModifierBits(mods, key, true, j);
      HoldModifierBits(down, key, false, j);
    }
    Pow2Mid();
    BitsEqual(UpdateModifiers(down, key, false), mods, 16);
  }

  /** The decoder's state after a run of bytes, with the events they reported. */
  datatype Stream = Stream(prefix: PrefixState, modifiers: u16, events: seq<KeyEvent>)

  /** The bytes fed one at a time to `process_scancode`; `None` when the kernel halts. */
  function DecodeBytes(prefix: PrefixState, mods: u16, bytes: seq<u8>): Option<Stream>
    decreases |bytes|
  {
    if |bytes| == 0 then Some(Stream(prefix, mods, []))
    else
      match Decode(prefix, mods, bytes[0])
      case Halted => None
      case Decoded(p, m, r) =>
        match DecodeBytes(p, m, bytes[1..])
        case None => None
        case Some(rest) => Some(Stream(rest.prefix, rest.modifiers, (if r.hasEvent then [r.event] else []) + rest.events))
  }

  /** A key byte fed alone reports its one event. */
  lemma DecodeKeyByte(prefix: PrefixState, mods: u16, scancode: u8)
    requires scancode != 0xE0 && scancode != 0xF0
    ensures var d := Decode(prefix, mods, scancode);
      d.Decoded? && DecodeBytes(prefix, mods, [scancode]) == Some(Stream(NoPrefix, d.modifiers, [d.result.event]))
  {
    KeyByteEmitsEvent(prefix, mods, scancode);
    var d := Decode(prefix, mods, scancode);
    assert [scancode][0] == scancode && [scancode][1..] == [];
    assert DecodeBytes(NoPrefix, d.modifiers, []) == Some(Stream(NoPrefix, d.modifiers, []));
    assert [d.result.event] + [] == [d.result.event];
  }

  /** An accepted prefix byte only moves the decoder to its next prefix. */
  lemma DecodePrefixByte(prefix: PrefixState, mods: u16, b: u8, rest: seq<u8>)
    requires b == 0xE0 || b == 0xF0
    requires Decode(prefix, mods, b).Decoded?
    ensures DecodeBytes(prefix, mods, [b] + rest) == DecodeBytes(Decode(prefix, mods, b).prefix, mods, rest)
  {
    PrefixBytes(prefix, mods);
    var d := Decode(prefix, mods, b);
    assert ([b] + rest)[0] == b && ([b] + rest)[1..] == rest;
    match DecodeBytes(d.prefix, mods, rest)
    case None =>
    case Some(after) =>
      assert [] + after.events == after.events;
  }

  /** Each of the four codes of scan code set 2 for a key, fed with no prefix
    * pending, reports exactly one event, leaves no prefix pending, and updates
    * the modifiers by it: make, `0xF0` break, `0xE0` make and `0xE0 0xF0`
    * break, the latter two decoded through the extended table. */
  lemma CompleteCodes(mods: u16, scancode: u8)
    requires scancode != 0xE0 && scancode != 0xF0
    ensures var k, e := ScancodeToKeyNoPrefix(scancode), ScancodeToKeyE0Prefix(scancode);
      && DecodeBytes(NoPrefix, mods, [scancode])
         == Some(Stream(NoPrefix, UpdateModifiers(mods, k, true), [KeyEvent(k, true, mods)]))
      && DecodeBytes(NoPrefix, mods, [0xF0, scancode])
         == Some(Stream(NoPrefix, UpdateModifiers(mods, k, false), [KeyEvent(k, false, mods)]))
      && DecodeBytes(NoPrefix, mods, [0xE0, scancode])
         == Some(Stream(NoPrefix, UpdateModifiers(mods, e, true), [KeyEvent(e, true, mods)]))
      && DecodeBytes(NoPrefix, mods, [0xE0, 0xF0, scancode])
         == Some(Stream(NoPrefix, UpdateModifiers(mods, e, false), [KeyEvent(e, false, mods)]))
  {
    PrefixBytes(NoPrefix, mods);
    PrefixBytes(PrefixE0, mods);
    DecodeKeyByte(NoPrefix, mods, scancode);
    DecodeKeyByte(PrefixF0, mods, scancode);
    DecodeKeyByte(PrefixE0, mods, scancode);
    DecodeKeyByte(PrefixE0F0, mods, scancode);
    KeyByteEmitsEvent(NoPrefix, mods, scancode);
    KeyByteEmitsEvent(PrefixF0, mods, scancode);
    KeyByteEmitsEvent(PrefixE0, mods, scancode);
    KeyByteEmitsEvent(PrefixE0F0, mods, scancode);
    DecodePrefixByte(NoPrefix, mods, 0xF0, [scancode]);
    assert [0xF0, scancode] == [0xF0] + [scancode];
    DecodePrefixByte(NoPrefix, mods, 0xE0, [scancode]);
    assert [0xE0, scancode] == [0xE0] + [scancode];
    DecodePrefixByte(PrefixE0, mods, 0xF0, [scancode]);
    DecodePrefixByte(NoPrefix, mods, 0xE0, [0xF0, scancode]);
    assert [0xE0, 0xF0, scancode] == [0xE0] + [0xF0, scancode];
  }

  /** Left shift (`0x12`) then A (`0x1C`) from a fresh decoder: the A event
    * carries the left-shift flag and reads as `'A'`. */
  lemma ShiftedLetter()
    ensures var s := DecodeBytes(NoPrefix, 0, [0x12, 0x1C]);
      && s.Some? && |s.value.events| == 2
      && s.value.events[1] == KeyEvent(KEY_A, true, LEFT_SHIFT_HELD)
      && KeyeventToAscii(s.value.events[1]) == 'A'
  {
    var shiftDown := KeyEvent(KEY_LEFT_SHIFT, true, 0);
    var a := KeyEvent(KEY_A, true, LEFT_SHIFT_HELD);
    Pow2Mid();
    OrPow2Value(0, 0, 16);
    KeyByteEmitsEvent(NoPrefix, 0, 0x12);
    assert Decode(NoPrefix, 0, 0x12) == Decoded(NoPrefix, LEFT_SHIFT_HELD, ProcessScancodeResult(true, shiftDown));
    DecodeKeyByte(NoPrefix, LEFT_SHIFT_HELD, 0x1C);
    KeyByteEmitsEvent(NoPrefix, LEFT_SHIFT_HELD, 0x1C);
    assert [0x12, 0x1C][0] == 0x12 && [0x12, 0x1C][1..] == [0x1C];
    assert DecodeBytes(NoPrefix, LEFT_SHIFT_HELD, [0x1C]) == Some(Stream(NoPrefix, LEFT_SHIFT_HELD, [a]));
    assert DecodeBytes(NoPrefix, 0, [0x12, 0x1C]) == Some(Stream(NoPrefix, LEFT_SHIFT_HELD, [shiftDown] + [a]));
    ShiftAIsUppercase();
  }

  lemma ShiftAIsUppercase()
    ensures KeyeventToAscii(KeyEvent(KEY_A, true, LEFT_SHIFT_HELD)) == 'A'
  {
    var a := KeyEvent(KEY_A, true, LEFT_SHIFT_HELD);
    Pow2Small();
    assert Bit(1, 0) == 1 by {
      assert Pow2(0) == 1;
    }
    assert Bit(1, 8) == 0 by {
      assert 1 / Pow2(8) == 0;
    }
    HeldModifierQueries(a);
    LockModifierQueries(a);
    AsciiOfLetters(a);
  }

  /** Both tables decode every byte to a key or to `KEY_INVALID`, never to one
    * of the enumeration's range markers. */
  lemma TablesHoldKeys(scancode: u8)
    ensures var k := ScancodeToKeyNoPrefix(scancode);
      k !in {KEY_HOLD_MODIFIERS_END, KEY_LOCK_MODIFIERS_END, KEY_ASCII_START, KEY_ALPHABETICAL_END, KEY_ASCII_END, KEY_COUNT}
    ensures var k := ScancodeToKeyE0Prefix(scancode);
      k !in {KEY_HOLD_MODIFIERS_END, KEY_LOCK_MODIFIERS_END, KEY_ASCII_START, KEY_ALPHABETICAL_END, KEY_ASCII_END, KEY_COUNT}
  {
  }

  /** The make codes of F1 .. F12 in scan code set 2. */
  const FUNCTION_KEY_MAKE_CODES: seq<u8> := [0x05, 0x06, 0x04, 0x0C, 0x03, 0x0B, 0x83, 0x0A, 0x01, 0x09, 0x78, 0x07]

  /** The no-prefix table as written decodes F7's make code to `KEY_7`, which
    * the 7 key (`0x3D`) also decodes to, and no byte to `KEY_F7`. */
  lemma F7DecodesAsSeven()
    ensures ScancodeToKeyNoPrefixAsWritten(FUNCTION_KEY_MAKE_CODES[6]) == KEY_7
    ensures ScancodeToKeyNoPrefixAsWritten(0x3D) == KEY_7
    ensures forall s: u8 :: ScancodeToKeyNoPrefixAsWritten(s) != KEY_F7
  {
  }

  /** With F7's entry corrected, every function key's make code decodes to
    * that function key, and the 7 key is the only byte decoding to `KEY_7`. */
  lemma FunctionKeysDecode()
    ensures forall i :: 0 <= i < |FUNCTION_KEY_MAKE_CODES| ==> ScancodeToKeyNoPrefix(FUNCTION_KEY_MAKE_CODES[i]) == KEY_F1 + i
    ensures forall s: u8 :: ScancodeToKeyNoPrefix(s) == KEY_7 ==> s == 0x3D
  {
  }
}
