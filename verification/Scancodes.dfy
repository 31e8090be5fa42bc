/** The scancode decoder of dev_kbd.c: modifier flags and the four character tables. */
module Scancodes {
  import opened Bytes

  const CTRL_DOWN: Byte := 0x1D
  const CTRL_UP: Byte := 0x9D
  const ALT_DOWN: Byte := 0x38
  const ALT_UP: Byte := 0xB8
  const CAPS_DOWN: Byte := 0x3A
  const F1: Byte := 0x3B
  const F3: Byte := 0x3D
  const KBD_TABLE_SIZE := 128

  datatype Mods = Mods(shift: bool, caps: bool, ctrl: bool, alt: bool)

  const NO_MODS := Mods(false, false, false, false)

  predicate IsShiftDown(sc: Byte) { sc == 0x2A || sc == 0x36 }

  predicate IsShiftUp(sc: Byte) { sc == 0xAA || sc == 0xB6 }

  predicate IsAltDown(sc: Byte) { sc == 0x38 }

  predicate IsAltUp(sc: Byte) { sc == 0xB8 }

  /** The flag updates at the head of scancode_decoder. */
  function Press(m: Mods, sc: Byte): Mods {
    Mods(if IsShiftDown(sc) then true else if IsShiftUp(sc) then false else m.shift,
         if sc == CAPS_DOWN then !m.caps else m.caps,
         if sc == CTRL_DOWN then true else if sc == CTRL_UP then false else m.ctrl,
         if sc == ALT_DOWN then true else if sc == ALT_UP then false else m.alt)
  }

  /** One line of the four tables: lower_char_table, upper_char_table,
      lowshift_char_table, upshift_char_table. */
  datatype Row = Row(lower: Byte, upper: Byte, lowshift: Byte, upshift: Byte)

  function Table(sc: Byte): Row {
    if sc == 1 then Row(27, 27, 27, 27)  // escape
    else if sc == 2 then Row(49, 49, 33, 33)  // 1
    else if sc == 3 then Row(50, 50, 64, 64)  // 2
    else if sc == 4 then Row(51, 51, 35, 35)  // 3
    else if sc == 5 then Row(52, 52, 36, 36)  // 4
    else if sc == 6 then Row(53, 53, 37, 37)  // 5
    else if sc == 7 then Row(54, 54, 94, 94)  // 6
    else if sc == 8 then Row(55, 55, 38, 38)  // 7
    else if sc == 9 then Row(56, 56, 42, 42)  // 8
    else if sc == 10 then Row(57, 57, 40, 40)  // 9
    else if sc == 11 then Row(48, 48, 41, 41)  // 0
    else if sc == 12 then Row(45, 45, 95, 95)  // -
    else if sc == 13 then Row(61, 61, 43, 43)  // =
    else if sc == 14 then Row(8, 8, 8, 8)  // backspace
    else if sc == 15 then Row(9, 9, 9, 9)  // tab
    else if sc == 16 then Row(113, 81, 113, 81)  // q
    else if sc == 17 then Row(119, 87, 119, 87)  // w
    else if sc == 18 then Row(101, 69, 101, 69)  // e
    else if sc == 19 then Row(114, 82, 114, 82)  // r
    else if sc == 20 then Row(116, 84, 116, 84)  // t
    else if sc == 21 then Row(121, 89, 121, 89)  // y
    else if sc == 22 then Row(117, 85, 117, 85)  // u
    else if sc == 23 then Row(105, 73, 105, 73)  // i
    else if sc == 24 then Row(111, 79, 111, 79)  // o
    else if sc == 25 then Row(112, 80, 112, 80)  // p
    else if sc == 26 then Row(91, 91, 123, 123)  // [
    else if sc == 27 then Row(93, 93, 125, 125)  // ]
    else if sc == 28 then Row(10, 10, 10, 10)  // enter
    else if sc == 30 then Row(97, 65, 97, 65)  // a
    else if sc == 31 then Row(115, 83, 115, 83)  // s
    else if sc == 32 then Row(100, 68, 100, 68)  // d
    else if sc == 33 then Row(102, 70, 102, 70)  // f
    else if sc == 34 then Row(103, 71, 103, 71)  // g
    else if sc == 35 then Row(104, 72, 104, 72)  // h
    else if sc == 36 then Row(106, 74, 106, 74)  // j
    else if sc == 37 then Row(107, 75, 107, 75)  // k
    else if sc == 38 then Row(108, 76, 108, 76)  // l
    else if sc == 39 then Row(59, 59, 58, 58)  // ;
    else if sc == 40 then Row(39, 39, 34, 34)  // '
    else if sc == 41 then Row(96, 96, 126, 126)  // `
    else if sc == 43 then Row(92, 92, 124, 124)  // \
    else if sc == 44 then Row(122, 90, 122, 90)  // z
    else if sc == 45 then Row(120, 88, 120, 88)  // x
    else if sc == 46 then Row(99, 67, 99, 67)  // c
    else if sc == 47 then Row(118, 86, 118, 86)  // v
    else if sc == 48 then Row(98, 66, 98, 66)  // b
    else if sc == 49 then Row(110, 78, 110, 78)  // n
    else if sc == 50 then Row(109, 77, 109, 77)  // m
    else if sc == 51 then Row(44, 44, 60, 60)  // ,
    else if sc == 52 then Row(46, 46, 62, 62)  // .
    else if sc == 53 then Row(47, 47, 63, 63)  // /
    else if sc == 55 then Row(42, 42, 42, 42)  // *
    else if sc == 57 then Row(32, 32, 32, 32)  // space
    else if 62 <= sc <= 73 then Row(1, 1, 1, 1)  // not supported
    else if sc == 74 then Row(45, 45, 45, 45)  // -
    else if 75 <= sc <= 77 then Row(1, 1, 1, 1)  // not supported
    else if sc == 78 then Row(43, 43, 43, 43)  // +
    else if 79 <= sc <= 89 then Row(1, 1, 1, 1)  // not supported
    else Row(0, 0, 0, 0)
  }

  function Decode(m: Mods, sc: Byte): Byte {
    if sc < KBD_TABLE_SIZE then
      if !m.shift && !m.caps then Table(sc).lower
      else if m.shift && !m.caps then Table(sc).upshift
      else if !m.shift && m.caps then Table(sc).upper
      else Table(sc).lowshift
    else NUL
  }

  // ----- what the flags and the tables mean -----

  predicate IsLower(c: Byte) { 97 <= c <= 122 }

  predicate IsUpper(c: Byte) { 65 <= c <= 90 }

  predicate IsLetter(c: Byte) { IsLower(c) || IsUpper(c) }

  /** A row of a letter, or of a key with the same characters with and without caps lock. */
  predicate GoodRow(r: Row) {
    && (if IsLower(r.lower) then r.lower == r.lowshift && r.upper == r.upshift == r.lower - 32
        else r.lower == r.upper && r.lowshift == r.upshift && !IsLetter(r.lower) && !IsLetter(r.upshift))
    && r.lower != RETURN && r.upper != RETURN && r.upshift != RETURN
  }

  /** Row by row, in four ranges. */
  lemma TableRows(sc: Byte)
    ensures GoodRow(Table(sc))
  {
    if sc < 16 {
    } else if sc < 30 {
    } else if sc < 44 {
    } else {
    }
  }

  /** The rows of the keyboard from scancodes 2 and 16 on, plain and shifted. */
  lemma UpperRows(sc: Byte)
    ensures 2 <= sc <= 13 ==> Types(sc, "1234567890-="[sc - 2], "!@#$%^&*()_+"[sc - 2])
    ensures 16 <= sc <= 27 ==> Types(sc, "qwertyuiop[]"[sc - 16], "QWERTYUIOP{}"[sc - 16])
  {
  }

  /** The rows from 30 and 44 on, and the keys outside the rows. */
  lemma LowerRows(sc: Byte)
    ensures 30 <= sc <= 41 ==> Types(sc, "asdfghjkl;'`"[sc - 30], "ASDFGHJKL:\"~"[sc - 30])
    ensures 44 <= sc <= 53 ==> Types(sc, "zxcvbnm,./"[sc - 44], "ZXCVBNM<>?"[sc - 44])
    ensures Types(43, '\\', '|') && Types(57, ' ', ' ')
    ensures Types(14, '\U{0008}', '\U{0008}') && Types(15, '\t', '\t') && Types(28, '\n', '\n')
  {
  }

  predicate Types(sc: Byte, plain: char, shifted: char) {
    Decode(NO_MODS, sc) == plain as int && Decode(NO_MODS.(shift := true), sc) == shifted as int
  }

  /** A letter key gives its letter in upper case exactly when one of shift and caps lock
      is on; every other key depends on shift alone; and no key gives a carriage return. */
  lemma DecodeCase(m: Mods, sc: Byte)
    ensures IsLower(Table(sc).lower) && sc < KBD_TABLE_SIZE ==>
      Decode(m, sc) == if m.shift != m.caps then Table(sc).lower - 32 else Table(sc).lower
    ensures !IsLower(Table(sc).lower) ==>
      Decode(m, sc) == Decode(m.(caps := false), sc) && !IsLower(Decode(m, sc)) && !IsUpper(Decode(m, sc))
    ensures Decode(m, sc) != RETURN
  {
    hide Table;
    TableRows(sc);
  }

  function PressAll(m: Mods, scs: seq<Byte>): Mods {
    if scs == [] then m else Press(PressAll(m, scs[..|scs| - 1]), scs[|scs| - 1])
  }

  function Count(scs: seq<Byte>, sc: Byte): nat {
    if scs == [] then 0 else Count(scs[..|scs| - 1], sc) + if scs[|scs| - 1] == sc then 1 else 0
  }

  /** The last event about a key was its press. */
  ghost predicate Held(scs: seq<Byte>, down: Byte -> bool, up: Byte -> bool) {
    exists i :: 0 <= i < |scs| && down(scs[i]) && forall j :: i < j < |scs| ==> !up(scs[j])
  }

  /** From boot, caps lock is the parity of its presses and each of the other flags says
      whether the key's last event was a press. */
  lemma {:induction false} FlagsFromBoot(scs: seq<Byte>)
    ensures var m := PressAll(NO_MODS, scs);
      && m.caps == (Count(scs, CAPS_DOWN) % 2 == 1)
      && m.shift == Held(scs, IsShiftDown, IsShiftUp)
      && m.ctrl == Held(scs, sc => sc == CTRL_DOWN, sc => sc == CTRL_UP)
      && m.alt == Held(scs, IsAltDown, IsAltUp)
  {
    if scs != [] {
      FlagsFromBoot(scs[..|scs| - 1]);
      HeldStep(scs, IsShiftDown, IsShiftUp);
      HeldStep(scs, sc => sc == CTRL_DOWN, sc => sc == CTRL_UP);
      HeldStep(scs, IsAltDown, IsAltUp);
    }
  }

  lemma HeldStep(scs: seq<Byte>, down: Byte -> bool, up: Byte -> bool)
    requires scs != [] && !(down(scs[|scs| - 1]) && up(scs[|scs| - 1]))
    ensures Held(scs, down, up) ==
      if down(scs[|scs| - 1]) then true else !up(scs[|scs| - 1]) && Held(scs[..|scs| - 1], down, up)
  {
    var n := |scs| - 1;
    var init := scs[..n];
    if down(scs[n]) {
      assert Held(scs, down, up);
    } else if Held(scs, down, up) {
      var i :| 0 <= i < |scs| && down(scs[i]) && forall j :: i < j < |scs| ==> !up(scs[j]);
      assert i < n && down(init[i]) && forall j :: i < j < n ==> !up(init[j]);
    }
    if !up(scs[n]) && Held(init, down, up) {
      var i :| 0 <= i < n && down(init[i]) && forall j :: i < j < n ==> !up(init[j]);
      assert down(scs[i]) && forall j :: i < j < |scs| ==> !up(scs[j]);
    }
  }
}
