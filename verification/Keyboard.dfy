/** Scan codes of the PS/2 keyboard and the characters they stand for. */
module Keyboard {
  import opened Words

  const BACKSPACE: char := '\U{8}'
  const LEFT_SHIFT: byte := 0x2A
  const RIGHT_SHIFT: byte := 0x36
  const RELEASED: byte := 0x80   // set in the code of a key that was let go

  /** Characters by scan code, 0 for keys without one; every code past the end has none either. */
  const PLAIN: string := Table("1234567890-=", "qwertyuiop[]", "asdfghjkl;'`", "\\zxcvbnm,./")
  const SHIFTED: string := Table("!@#$%^&*()_+", "QWERTYUIOP{}", "ASDFGHJKL:\"~", "|ZXCVBNM<>?")

  /** The four rows of keys, and those with the same character in both tables. */
  function Table(numbers: string, upper: string, home: string, lower: string): string {
    "\0\U{1B}" + numbers + "\U{8}\t" + upper + "\n\0" + home + "\0" + lower + "\0*\0 \0"
  }

  predicate IsShift(key: nat) { key == LEFT_SHIFT || key == RIGHT_SHIFT }

  function CharOf(table: string, key: nat): char {
    if key < |table| then table[key] else '\0'
  }

  /** The shift flag after a scan code. */
  function ShiftAfter(shift: bool, sc: byte): bool {
    if sc >= RELEASED then shift && !IsShift(sc - RELEASED) else shift || IsShift(sc)
  }

  /** The character of a scan code: only a key press has one. */
  function CharFor(shift: bool, sc: byte): char {
    if sc >= RELEASED || IsShift(sc) then '\0' else CharOf(if shift then SHIFTED else PLAIN, sc)
  }

  class Translator {
    var shift: bool

    constructor ()
      ensures !shift
    {
      shift := false;
    }

    /** translate_scancode */
    method Translate(sc: byte) returns (c: char)
      modifies this
      ensures shift == ShiftAfter(old(shift), sc) && c == CharFor(old(shift), sc)
    {
      if sc >= RELEASED {
        var code := sc - RELEASED;
        if code == LEFT_SHIFT || code == RIGHT_SHIFT { shift := false; }
        return '\0';
      }
      if sc == LEFT_SHIFT || sc == RIGHT_SHIFT {
        shift := true;
        return '\0';
      }
      if shift {
        return CharOf(SHIFTED, sc);
      } else {
        return CharOf(PLAIN, sc);
      }
    }
  }

  // ----- The keys

  /** The rows of keys stand left to right from scan codes 2, 16, 30 and 43; six more keys have a character,
      and no other code has one. */
  function KeyChar(numbers: string, upper: string, home: string, lower: string, sc: nat): char
    requires |numbers| == |upper| == |home| == 12 && |lower| == 11
  {
    if 2 <= sc < 14 then numbers[sc - 2] else if 16 <= sc < 28 then upper[sc - 16]
    else if 30 <= sc < 42 then home[sc - 30] else if 43 <= sc < 54 then lower[sc - 43]
    else match sc
      case 1 => '\U{1B}' case 14 => BACKSPACE case 15 => '\t' case 28 => '\n' case 55 => '*' case 57 => ' '
      case _ => '\0'
  }

  lemma TableAt(numbers: string, upper: string, home: string, lower: string, sc: nat)
    requires |numbers| == |upper| == |home| == 12 && |lower| == 11
    ensures CharOf(Table(numbers, upper, home, lower), sc) == KeyChar(numbers, upper, home, lower, sc)
  {
  }

  /** Every scan code has the character of its key, in capitals and signs exactly under the shift flag. */
  lemma KeysExact(shift: bool, sc: byte)
    ensures CharFor(shift, sc) ==
            if shift then KeyChar("!@#$%^&*()_+", "QWERTYUIOP{}", "ASDFGHJKL:\"~", "|ZXCVBNM<>?", sc)
            else KeyChar("1234567890-=", "qwertyuiop[]", "asdfghjkl;'`", "\\zxcvbnm,./", sc)
  {
    if shift {
      TableAt("!@#$%^&*()_+", "QWERTYUIOP{}", "ASDFGHJKL:\"~", "|ZXCVBNM<>?", sc);
    } else {
      TableAt("1234567890-=", "qwertyuiop[]", "asdfghjkl;'`", "\\zxcvbnm,./", sc);
    }
  }

  // ----- Streams of scan codes

  function ShiftAfterAll(shift: bool, scs: seq<byte>): bool
    decreases |scs|
  {
    if scs == [] then shift else ShiftAfterAll(ShiftAfter(shift, scs[0]), scs[1..])
  }

  predicate ShiftKey(sc: byte) { IsShift(sc) || (sc >= RELEASED && IsShift(sc - RELEASED)) }

  /** The flag tells whether the last event of either shift key was a press, so letting one shift key go
      ends shifting although the other is still held. */
  lemma {:induction false} LastShiftDecides(shift: bool, scs: seq<byte>, k: nat)
    requires k < |scs| && ShiftKey(scs[k]) && forall j :: k < j < |scs| ==> !ShiftKey(scs[j])
    ensures ShiftAfterAll(shift, scs) <==> scs[k] < RELEASED
    decreases |scs|
  {
    var next, rest := ShiftAfter(shift, scs[0]), scs[1..];
    if k > 0 {
      assert rest[k - 1] == scs[k];
      LastShiftDecides(next, rest, k - 1);
    } else {
      assert forall j :: 0 <= j < |rest| ==> rest[j] == scs[j + 1] && !ShiftKey(rest[j]);
      NoShiftKeeps(next, rest);
    }
  }

  lemma {:induction false} NoShiftKeeps(shift: bool, scs: seq<byte>)
    requires forall sc <- scs :: !ShiftKey(sc)
    ensures ShiftAfterAll(shift, scs) == shift
    decreases |scs|
  {
    if scs != [] {
      assert scs[0] in scs;
      NoShiftKeeps(shift, scs[1..]);
    }
  }
}
