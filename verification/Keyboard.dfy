/** keyboard.c: what a scan code means under the modifier keys, and the line a sequence of keys spells. */
module Keyboard {
  import opened Common
  import opened Screen

  /** The entries of lower_table, caps_table and lock_table for one scan code. */
  datatype Legend = Legend(lower: char, caps: char, lock: char)

  function Legends(code: int): Legend {
    match code
    case 0x02 => Legend('1', '!', '1') case 0x03 => Legend('2', '@', '2')
    case 0x04 => Legend('3', '#', '3') case 0x05 => Legend('4', '$', '4')
    case 0x06 => Legend('5', '%', '5') case 0x07 => Legend('6', '^', '6')
    case 0x08 => Legend('7', '&', '7') case 0x09 => Legend('8', '*', '8')
    case 0x0A => Legend('9', '(', '9') case 0x0B => Legend('0', ')', '0')
    case 0x0C => Legend('-', '_', '-') case 0x0D => Legend('=', '+', '=')
    case 0x0E => Legend(BACKSPACE, BACKSPACE, BACKSPACE) case 0x0F => Legend(' ', ' ', ' ')
    case 0x10 => Legend('q', 'Q', 'Q') case 0x11 => Legend('w', 'W', 'W')
    case 0x12 => Legend('e', 'E', 'E') case 0x13 => Legend('r', 'R', 'R')
    case 0x14 => Legend('t', 'T', 'T') case 0x15 => Legend('y', 'Y', 'Y')
    case 0x16 => Legend('u', 'U', 'U') case 0x17 => Legend('i', 'I', 'I')
    case 0x18 => Legend('o', 'O', 'O') case 0x19 => Legend('p', 'P', 'P')
    case 0x1A => Legend('[', '{', '[') case 0x1B => Legend(']', '}', ']')
    case 0x1C => Legend('\n', '\n', '\n') case 0x1E => Legend('a', 'A', 'A')
    case 0x1F => Legend('s', 'S', 'S') case 0x20 => Legend('d', 'D', 'D')
    case 0x21 => Legend('f', 'F', 'F') case 0x22 => Legend('g', 'G', 'G')
    case 0x23 => Legend('h', 'H', 'H') case 0x24 => Legend('j', 'J', 'J')
    case 0x25 => Legend('k', 'K', 'K') case 0x26 => Legend('l', 'L', 'L')
    case 0x27 => Legend(';', ':', ';') case 0x28 => Legend('\'', '\"', '\'')
    case 0x29 => Legend('`', '~', '`') case 0x2B => Legend('\\', '|', '\\')
    case 0x2C => Legend('z', 'Z', 'Z') case 0x2D => Legend('x', 'X', 'X')
    case 0x2E => Legend('c', 'C', 'C') case 0x2F => Legend('v', 'V', 'V')
    case 0x30 => Legend('b', 'B', 'B') case 0x31 => Legend('n', 'N', 'N')
    case 0x32 => Legend('m', 'M', 'M') case 0x33 => Legend(',', '<', ',')
    case 0x34 => Legend('.', '>', '.') case 0x35 => Legend('/', '?', '/')
    case 0x39 => Legend(' ', ' ', ' ')
    case _ => Legend('\0', '\0', '\0')
  }

  const SCAN_BACKSPACE := 0x0E
  const SCAN_ENTER := 0x1C
  const SCAN_CTRL := 0x1D
  const SCAN_L := 0x26

  datatype Modifiers = Modifiers(shift: bool, caps: bool, ctrl: bool, alt: bool)

  predicate IsText(c: char) {
    c != '\0' && c != BACKSPACE && !IsNewline(c)
  }

  type Text = c: char | IsText(c) witness 'a'

  datatype Key = Char(c: Text) | Backspace | Enter | ClearScreen | Select(tid: Tid) | NoKey

  /** Shift reads caps_table whatever Caps Lock says. */
  function Lookup(m: Modifiers, code: int): char {
    if m.shift then Legends(code).caps else if m.caps then Legends(code).lock else Legends(code).lower
  }

  /** The tables hold only text, apart from unused codes and the two editing keys. */
  lemma TablesHoldText(m: Modifiers, code: int)
    requires code != SCAN_BACKSPACE && code != SCAN_ENTER
    ensures Lookup(m, code) == '\0' || IsText(Lookup(m, code))
  {}

  /** Caps Lock without Shift capitalises exactly the keys that type a letter. */
  lemma CapsLockShiftsLetters(code: int)
    ensures var Legend(lower, caps, lock) := Legends(code);
      if 'a' <= lower <= 'z' then lock == caps && caps as int == lower as int - 32 else lock == lower
  {}

  /** What one scan code does to the modifiers and which key, if any, it presses. */
  function Decode(m: Modifiers, code: int): (Modifiers, Key) {
    if code == SCAN_CTRL then (m.(ctrl := true), NoKey)
    else if m.ctrl && code == SCAN_L then (m, ClearScreen)
    else if code == 0x9D then (m.(ctrl := false), NoKey)
    else if code == 0x2A || code == 0x36 then (m.(shift := true), NoKey)
    else if code == 0xAA || code == 0xB6 then (m.(shift := false), NoKey)
    else if code == 0x38 then (m.(alt := true), NoKey)
    else if code == 0xB8 then (m.(alt := false), NoKey)
    else if 0x3B <= code <= 0x3D then (m, if m.alt then Select(code - 0x3B) else NoKey)
    else if code == 0x3A then (m.(caps := !m.caps), NoKey)
    else if code == SCAN_BACKSPACE then (m, Backspace)
    else if code == SCAN_ENTER then (m, Enter)
    else if 2 <= code < 0x3A && Lookup(m, code) != '\0' then
      TablesHoldText(m, code); (m, Char(Lookup(m, code)))
    else (m, NoKey)
  }

  // ----- What the keys type -----

  /** The key with this scan code types `c` and leaves the modifiers alone; Ctrl-L is no text. */
  predicate Types(m: Modifiers, code: int, c: char) {
    && Decode(m, code).0 == m
    && if m.ctrl && code == 0x26 then Decode(m, code).1.ClearScreen?
       else Decode(m, code).1.Char? && Decode(m, code).1.c == c
  }

  /** The keys from `first` on type the characters of `text`. */
  ghost predicate RowTypes(m: Modifiers, first: int, text: string) {
    forall i :: 0 <= i < |text| ==> Types(m, first + i, text[i])
  }

  /** Shift reads the same whatever Caps Lock says; Caps Lock alone leaves digits as they are. */
  lemma DigitRow(m: Modifiers)
    ensures RowTypes(m, 0x02, if m.shift then "!@#$%^&*()_+" else "1234567890-=")
  {}

  /** Caps Lock alone makes letters capitals and leaves the other keys as they are. */
  lemma TopRow(m: Modifiers)
    ensures RowTypes(m, 0x10, if m.shift then "QWERTYUIOP{}" else if m.caps then "QWERTYUIOP[]" else "qwertyuiop[]")
  {}

  lemma HomeRow(m: Modifiers)
    ensures RowTypes(m, 0x1E, if m.shift then "ASDFGHJKL:\"~" else if m.caps then "ASDFGHJKL;'`" else "asdfghjkl;'`")
  {}

  lemma BottomRow(m: Modifiers)
    ensures RowTypes(m, 0x2B, if m.shift then "|ZXCVBNM<>?" else if m.caps then "\\ZXCVBNM,./" else "\\zxcvbnm,./")
  {}

  /** The two keys that type a blank and the two that edit; all others but the rows and F1 to F3 are silent. */
  lemma OtherKeys(m: Modifiers, code: int)
    ensures Types(m, 0x0F, ' ') && Types(m, 0x39, ' ')
    ensures Decode(m, 0x0E) == (m, Backspace) && Decode(m, 0x1C) == (m, Enter)
    ensures code < 0x02 || code in {0x1D, 0x2A} || 0x36 <= code < 0x39 || code == 0x3A || code > 0x3D ==>
      Decode(m, code).1.NoKey?
  {}

  /** F1 to F3 select a terminal while Alt is down. */
  lemma FunctionKeys(m: Modifiers, t: Tid)
    ensures Decode(m, 0x3B + t) == (m, if m.alt then Select(t) else NoKey)
  {
    hide Legends;
  }

  function DecodeAll(m: Modifiers, codes: seq<int>): seq<Key>
    decreases |codes|
  {
    if codes == [] then [] else
      var (m', key) := Decode(m, codes[0]);
      [key] + DecodeAll(m', codes[1..])
  }

  function HoldsAfter(m: Modifiers, codes: seq<int>): Modifiers
    decreases |codes|
  {
    if codes == [] then m else HoldsAfter(Decode(m, codes[0]).0, codes[1..])
  }

  /** Whether a key is down after `codes`: its latest press or release decides. */
  function Down(codes: seq<int>, press: set<int>, release: set<int>, before: bool): bool
    decreases |codes|
  {
    if codes == [] then before
    else
      var last := codes[|codes| - 1];
      if last in press then true else if last in release then false
      else Down(codes[..|codes| - 1], press, release, before)
  }

  function Count(codes: seq<int>, code: int): nat
    decreases |codes|
  {
    if codes == [] then 0
    else Count(codes[..|codes| - 1], code) + if codes[|codes| - 1] == code then 1 else 0
  }

  lemma {:induction false} HoldsAfterLast(m: Modifiers, codes: seq<int>)
    requires codes != []
    ensures HoldsAfter(m, codes) == Decode(HoldsAfter(m, codes[..|codes| - 1]), codes[|codes| - 1]).0
    decreases |codes|
  {
    if |codes| > 1 {
      HoldsAfterLast(Decode(m, codes[0]).0, codes[1..]);
      assert codes[1..][..|codes| - 2] == codes[..|codes| - 1][1..];
    } else {
      assert codes[1..] == [] && codes[..0] == [];
    }
  }

  lemma DecodeMoves(m: Modifiers, code: int)
    ensures Decode(m, code).0 == Modifiers(
      if code in {0x2A, 0x36} then true else if code in {0xAA, 0xB6} then false else m.shift,
      m.caps != (code == 0x3A),
      if code in {SCAN_CTRL} then true else if code in {0x9D} then false else m.ctrl,
      if code in {0x38} then true else if code in {0xB8} then false else m.alt)
  {
    hide Legends;
  }

  /** Shift, Ctrl and Alt are down when their latest event was a press; Caps Lock toggles. */
  lemma {:induction false} ModifiersFollowTheKeys(m: Modifiers, codes: seq<int>)
    ensures HoldsAfter(m, codes).shift == Down(codes, {0x2A, 0x36}, {0xAA, 0xB6}, m.shift)
    ensures HoldsAfter(m, codes).ctrl == Down(codes, {SCAN_CTRL}, {0x9D}, m.ctrl)
    ensures HoldsAfter(m, codes).alt == Down(codes, {0x38}, {0xB8}, m.alt)
    ensures HoldsAfter(m, codes).caps == (m.caps != (Count(codes, 0x3A) % 2 == 1))
    decreases |codes|
  {
    hide Decode;
    if codes != [] {
      HoldsAfterLast(m, codes);
      DecodeMoves(HoldsAfter(m, codes[..|codes| - 1]), codes[|codes| - 1]);
      ModifiersFollowTheKeys(m, codes[..|codes| - 1]);
    }
  }

  /** The longest line the buffer takes, not counting the newline. */
  const LINE_LIMIT := 127

  function Edit(line: string, key: Key): (r: string)
    requires |line| <= LINE_LIMIT
    ensures |r| <= LINE_LIMIT
  {
    match key
    case Char(c) => if |line| < LINE_LIMIT then line + [c] else line
    case Backspace => if line == [] then [] else line[..|line| - 1]
    case _ => line
  }

  /** The line that a sequence of keys makes of `line`; from an empty one, the line they spell. */
  function Spell(keys: seq<Key>, line: string := []): (r: string)
    requires |line| <= LINE_LIMIT
    ensures |r| <= LINE_LIMIT
    decreases |keys|
  {
    if keys == [] then line else Edit(Spell(keys[..|keys| - 1], line), keys[|keys| - 1])
  }

  /** A line takes 127 characters, and then no more. */
  lemma {:induction false} LineTakes127(text: seq<Text>)
    ensures Spell(seq(|text|, i requires 0 <= i < |text| => Char(text[i]))) ==
      if |text| <= 127 then text else text[..127]
    decreases |text|
  {
    if text != [] {
      var keys := seq(|text|, i requires 0 <= i < |text| => Char(text[i]));
      var init := text[..|text| - 1];
      LineTakes127(init);
      assert keys[..|keys| - 1] == seq(|init|, i requires 0 <= i < |init| => Char(init[i]));
    }
  }
}
