/** Numbers as text: decimal and hexadecimal digits, the value of a text, and the clamped value that
    atoi promises. */
module Numerals {
  const INT_MAX: int := 0x7FFF_FFFF
  const INT_MIN: int := -0x8000_0000

  predicate IsInt(v: int) { INT_MIN <= v <= INT_MAX }

  // ----- Decimal

  predicate IsDigit(c: char) { '0' <= c <= '9' }

  function DigitChar(d: nat): (c: char)
    requires d < 10
    ensures IsDigit(c) && c as int - '0' as int == d
  {
    '0' + d as char
  }

  function DigitOf(c: char): (d: nat)
    requires IsDigit(c)
    ensures d < 10
  {
    c as int - '0' as int
  }

  /** The digits of a positive number; none for 0. */
  function Digits(n: nat): string {
    if n == 0 then "" else Digits(n / 10) + [DigitChar(n % 10)]
  }

  /** The number that a text of digits denotes. */
  function ValueOf(s: string): nat
    requires forall c <- s :: IsDigit(c)
  {
    if s == "" then 0 else ValueOf(s[..|s| - 1]) * 10 + DigitOf(s[|s| - 1])
  }

  lemma {:induction false} DigitsValue(n: nat)
    ensures (forall c <- Digits(n) :: IsDigit(c)) && ValueOf(Digits(n)) == n
    ensures n > 0 ==> Digits(n) != "" && Digits(n)[0] != '0'
  {
    if n > 0 {
      DigitsValue(n / 10);
      assert Digits(n)[..|Digits(n)| - 1] == Digits(n / 10);
    }
  }

  lemma {:induction false} DigitsLength(n: nat, k: nat)
    requires n < Power(10, k)
    ensures |Digits(n)| <= k
    decreases k
  {
    if n > 0 { DigitsLength(n / 10, k - 1); }
  }

  function Power(b: nat, k: nat): nat {
    if k == 0 then 1 else b * Power(b, k - 1)
  }

  /** Every digit counts ten times as much as the one behind it. */
  lemma {:induction false} ValuePlaces(a: string, b: string)
    requires (forall c <- a :: IsDigit(c)) && (forall c <- b :: IsDigit(c))
    ensures forall c <- a + b :: IsDigit(c)
    ensures ValueOf(a + b) == ValueOf(a) * Power(10, |b|) + ValueOf(b)
    decreases |b|
  {
    if b == "" {
      assert a + b == a;
    } else {
      var init := b[..|b| - 1];
      ValuePlaces(a, init);
      assert (a + b)[..|a + b| - 1] == a + init;
      ShiftOne(ValueOf(a), 10, Power(10, |init|), ValueOf(init));
    }
  }

  lemma ShiftOne(v: nat, base: nat, power: nat, low: nat)
    ensures v * (base * power) + low * base == (v * power + low) * base
  {
  }

  lemma DigitAlone(c: char)
    requires IsDigit(c)
    ensures ValueOf([c]) == c as int - '0' as int
  {
    assert [c][..0] == "";
  }

  /** More digits never make the number smaller. */
  lemma {:induction false} ValueMonotone(s: string, k: nat)
    requires (forall c <- s :: IsDigit(c)) && k <= |s|
    ensures ValueOf(s[..k]) <= ValueOf(s)
  {
    if k < |s| {
      assert s[..|s| - 1][..k] == s[..k];
      ValueMonotone(s[..|s| - 1], k);
    } else {
      assert s[..k] == s;
    }
  }

  // ----- What atoi reads

  function SpaceCount(s: string): (n: nat)
    ensures n <= |s| && forall k :: 0 <= k < n ==> s[k] == ' '
    ensures n < |s| ==> s[n] != ' '
  {
    if s == "" || s[0] != ' ' then 0 else SpaceCount(s[1..]) + 1
  }

  function DigitCount(s: string): (n: nat)
    ensures n <= |s| && forall k :: 0 <= k < n ==> IsDigit(s[k])
    ensures n < |s| ==> !IsDigit(s[n])
  {
    if s == "" || !IsDigit(s[0]) then 0 else DigitCount(s[1..]) + 1
  }

  lemma DigitCountIs(s: string, n: nat)
    requires n <= |s| && (forall k :: 0 <= k < n ==> IsDigit(s[k])) && (n < |s| ==> !IsDigit(s[n]))
    ensures DigitCount(s) == n
  {
  }

  lemma SpaceCountIs(s: string, n: nat)
    requires n <= |s| && (forall k :: 0 <= k < n ==> s[k] == ' ') && (n < |s| ==> s[n] != ' ')
    ensures SpaceCount(s) == n
  {
  }

  /** Leading spaces, one optional sign, then digits up to the first other character. */
  function Denoted(s: string): int {
    Signed(s[SpaceCount(s)..])
  }

  function Signed(t: string): int {
    var negative := t != "" && t[0] == '-';
    var v := LeadingValue(if t != "" && (t[0] == '-' || t[0] == '+') then t[1..] else t);
    if negative then 0 - v else v
  }

  function LeadingValue(u: string): nat {
    ValueOf(u[..DigitCount(u)])
  }

  function Spaces(n: nat): string {
    if n == 0 then "" else " " + Spaces(n - 1)
  }

  lemma {:induction false} SpacesCounted(n: nat, t: string)
    requires t == "" || t[0] != ' '
    ensures |Spaces(n)| == n && SpaceCount(Spaces(n) + t) == n
  {
    var s := Spaces(n) + t;
    if n == 0 {
      assert s == t;
    } else {
      SpacesCounted(n - 1, t);
      assert s[1..] == Spaces(n - 1) + t;
    }
  }

  /** Any number of spaces, at most one sign, digits, and what is no digit: the digits' value, negative
      exactly behind a minus. Without digits it is 0. */
  lemma DenotedExact(spaces: nat, sign: string, digits: string, rest: string)
    requires (forall c <- digits :: IsDigit(c)) && (sign == "" || sign == "-" || sign == "+")
    requires rest == "" || !IsDigit(rest[0])
    requires sign == "" && digits == "" && rest != "" ==> rest[0] != ' ' && rest[0] != '-' && rest[0] != '+'
    ensures Denoted(Spaces(spaces) + (sign + (digits + rest))) ==
            if sign == "-" then 0 - ValueOf(digits) else ValueOf(digits)
    ensures digits == "" ==> ValueOf(digits) == 0
  {
    var t := sign + (digits + rest);
    SignedExact(sign, digits, rest);
    assert t != "" ==> t[0] == (if sign != "" then sign[0] else if digits != "" then digits[0] else rest[0]);
    SpacesCounted(spaces, t);
    DropSpaces(Spaces(spaces), t);
  }

  lemma DropSpaces(a: string, t: string)
    ensures (a + t)[|a|..] == t
  {
  }

  lemma SignedExact(sign: string, digits: string, rest: string)
    requires (forall c <- digits :: IsDigit(c)) && (sign == "" || sign == "-" || sign == "+")
    requires rest == "" || !IsDigit(rest[0])
    requires sign == "" && digits == "" && rest != "" ==> rest[0] != '-' && rest[0] != '+'
    ensures Signed(sign + (digits + rest)) == if sign == "-" then 0 - ValueOf(digits) else ValueOf(digits)
  {
    var u := digits + rest;
    DigitsCounted(digits, rest);
    assert digits != "" ==> u[0] == digits[0] && digits[0] in digits;
    SignSplit(sign, u);
  }

  lemma SignSplit(sign: string, u: string)
    requires sign == "" || sign == "-" || sign == "+"
    requires sign == "" && u != "" ==> u[0] != '-' && u[0] != '+'
    ensures Signed(sign + u) == if sign == "-" then 0 - LeadingValue(u) else LeadingValue(u)
  {
    if sign == "" {
      assert sign + u == u;
    } else {
      assert (sign + u)[1..] == u;
    }
  }

  lemma DigitsCounted(digits: string, rest: string)
    requires (forall c <- digits :: IsDigit(c)) && (rest == "" || !IsDigit(rest[0]))
    ensures DigitCount(digits + rest) == |digits| && (digits + rest)[..|digits|] == digits
  {
    forall k | 0 <= k < |digits|
      ensures IsDigit((digits + rest)[k])
    {
      assert digits[k] in digits;
    }
    DigitCountIs(digits + rest, |digits|);
  }

  function Clamp(v: int): int {
    if v > INT_MAX then INT_MAX else if v < INT_MIN then INT_MIN else v
  }

  /** The clamped value is an int, and no other int is as near. */
  lemma ClampNearest(v: int, w: int)
    requires IsInt(w) && w != Clamp(v)
    ensures IsInt(Clamp(v))
    ensures (if Clamp(v) < v then v - Clamp(v) else Clamp(v) - v) < if w < v then v - w else w - v
  {
  }

  // ----- int_to_str

  /** The text that int_to_str leaves: for INT_MIN the negation overflows back to INT_MIN, no digit is
      produced, and only the sign remains. */
  function IntText(v: int): string {
    if v == 0 then "0"
    else if v == INT_MIN then "-"
    else if v < 0 then "-" + Digits(-v)
    else Digits(v)
  }

  /** atoi gives back every int that int_to_str printed, except INT_MIN. int_to_str stores no terminator:
      what stands behind its text must not start with a digit, which a terminator or any other character
      that the caller puts there sees to. */
  lemma AtoiInvertsIntText(v: int, rest: string)
    requires IsInt(v) && (rest == "" || !IsDigit(rest[0]))
    ensures Clamp(Denoted(IntText(v) + rest)) == v <==> v != INT_MIN
  {
    if v == 0 {
      DenotedPlain("0", rest);
      DigitAlone('0');
    } else if v == INT_MIN {
      DenotedNegative("", rest);
    } else if v < 0 {
      DigitsValue(-v);
      DenotedNegative(Digits(-v), rest);
    } else {
      DigitsValue(v);
      DenotedPlain(Digits(v), rest);
    }
  }

  lemma DenotedPlain(digits: string, rest: string)
    requires digits != "" && (forall c <- digits :: IsDigit(c)) && (rest == "" || !IsDigit(rest[0]))
    ensures Denoted(digits + rest) == ValueOf(digits)
  {
    DenotedExact(0, "", digits, rest);
    assert Spaces(0) + ("" + (digits + rest)) == digits + rest;
  }

  lemma DenotedNegative(digits: string, rest: string)
    requires (forall c <- digits :: IsDigit(c)) && (rest == "" || !IsDigit(rest[0]))
    ensures Denoted("-" + digits + rest) == 0 - ValueOf(digits)
    ensures digits == "" ==> ValueOf(digits) == 0
  {
    DenotedExact(0, "-", digits, rest);
    InOneRow("-", digits, rest);
  }

  lemma InOneRow(a: string, b: string, c: string)
    ensures Spaces(0) + (a + (b + c)) == a + b + c
  {
  }

  // ----- Hexadecimal

  function HexChar(d: nat): char
    requires d < 16
  {
    if d < 10 then '0' + d as char else 'a' + (d - 10) as char
  }

  predicate IsHexDigit(c: char) { IsDigit(c) || 'a' <= c <= 'f' }

  function HexOf(c: char): (d: nat)
    requires IsHexDigit(c)
    ensures d < 16
  {
    if IsDigit(c) then c as int - '0' as int else c as int - 'a' as int + 10
  }

  /** The number that a text of hexadecimal digits denotes. */
  function HexValueOf(s: string): nat
    requires forall c <- s :: IsHexDigit(c)
  {
    if s == "" then 0 else HexValueOf(s[..|s| - 1]) * 16 + HexOf(s[|s| - 1])
  }

  /** Every hexadecimal digit counts sixteen times as much as the one behind it. */
  lemma {:induction false} HexValuePlaces(a: string, b: string)
    requires (forall c <- a :: IsHexDigit(c)) && (forall c <- b :: IsHexDigit(c))
    ensures forall c <- a + b :: IsHexDigit(c)
    ensures HexValueOf(a + b) == HexValueOf(a) * Power(16, |b|) + HexValueOf(b)
    decreases |b|
  {
    if b == "" {
      assert a + b == a;
    } else {
      var init := b[..|b| - 1];
      HexValuePlaces(a, init);
      assert (a + b)[..|a + b| - 1] == a + init;
      ShiftOne(HexValueOf(a), 16, Power(16, |init|), HexValueOf(init));
    }
  }

  /** The sixteen digits in order. */
  lemma HexDigitAlone(c: char)
    requires IsHexDigit(c)
    ensures HexValueOf([c]) < 16 && "0123456789abcdef"[HexValueOf([c])] == c
  {
    assert [c][..0] == "";
  }

  function HexDigits(n: nat): string {
    if n == 0 then "" else HexDigits(n / 16) + [HexChar(n % 16)]
  }

  lemma {:induction false} HexDigitsLength(n: nat, k: nat)
    requires n < Power(16, k)
    ensures |HexDigits(n)| <= k
    decreases k
  {
    if n > 0 { HexDigitsLength(n / 16, k - 1); }
  }

  lemma {:induction false} HexDigitsValue(n: nat)
    ensures (forall c <- HexDigits(n) :: IsHexDigit(c)) && HexValueOf(HexDigits(n)) == n
    ensures n > 0 ==> HexDigits(n) != "" && HexDigits(n)[0] != '0'
  {
    if n > 0 {
      HexDigitsValue(n / 16);
      assert HexOf(HexChar(n % 16)) == n % 16;
      assert HexDigits(n)[..|HexDigits(n)| - 1] == HexDigits(n / 16);
    }
  }

  function Zeros(n: int): string {
    if n <= 0 then "" else Zeros(n - 1) + "0"
  }

  lemma {:induction false} ZerosFront(n: int)
    requires n > 0
    ensures Zeros(n) == "0" + Zeros(n - 1)
  {
    if n > 1 { ZerosFront(n - 1); }
  }

  lemma {:induction false} ZerosLength(n: int)
    ensures |Zeros(n)| == if n < 0 then 0 else n
  {
    if n > 0 { ZerosLength(n - 1); }
  }

  function Padded(digits: string, width: int): string {
    Zeros(width - |digits|) + digits
  }

  /** write_hex prints a lone zero only for width 0; otherwise a zero value has no digits of its own. */
  function WriteHexText(v: nat, width: int): string {
    if v == 0 && width == 0 then "0" else Padded(HexDigits(v), width)
  }

  /** hex64_to_str gives a zero value one digit. */
  function Hex64Text(v: nat, width: int): string {
    Padded(if v == 0 then "0" else HexDigits(v), width)
  }

  /** Leading zeros add nothing. */
  lemma {:induction false} PaddedValue(zeros: int, digits: string)
    requires forall c <- digits :: IsHexDigit(c)
    ensures forall c <- Zeros(zeros) + digits :: IsHexDigit(c)
    ensures HexValueOf(Zeros(zeros) + digits) == HexValueOf(digits)
    decreases |digits|, if zeros < 0 then 0 else zeros
  {
    var s := Zeros(zeros) + digits;
    if digits != "" {
      var init := digits[..|digits| - 1];
      PaddedValue(zeros, init);
      assert s[..|s| - 1] == Zeros(zeros) + init;
    } else if zeros > 0 {
      PaddedValue(zeros - 1, "");
      assert s[..|s| - 1] == Zeros(zeros - 1) + "";
    }
  }

  /** What hex64_to_str prints denotes the value, in exactly `width` characters or, when that is too few,
      in as many as the value has digits, at least one. */
  lemma Hex64TextExact(v: nat, width: int)
    ensures (forall c <- Hex64Text(v, width) :: IsHexDigit(c)) && HexValueOf(Hex64Text(v, width)) == v
    ensures var own := if v == 0 then 1 else |HexDigits(v)|;
            own > 0 && |Hex64Text(v, width)| == if width > own then width else own
  {
    var digits := if v == 0 then "0" else HexDigits(v);
    OwnDigits(v);
    PaddedExact(digits, width);
  }

  lemma PaddedExact(digits: string, width: int)
    requires forall c <- digits :: IsHexDigit(c)
    ensures (forall c <- Padded(digits, width) :: IsHexDigit(c))
    ensures HexValueOf(Padded(digits, width)) == HexValueOf(digits)
    ensures |Padded(digits, width)| == if width > |digits| then width else |digits|
  {
    PaddedValue(width - |digits|, digits);
    ZerosLength(width - |digits|);
  }

  lemma OwnDigits(v: nat)
    ensures var digits := if v == 0 then "0" else HexDigits(v);
            digits != "" && (forall c <- digits :: IsHexDigit(c)) && HexValueOf(digits) == v
  {
    if v == 0 {
      assert "0"[..0] == "";
    } else {
      HexDigitsValue(v);
    }
  }

  /** The two hexadecimal printers agree exactly when the width is not negative or the value not zero. */
  lemma HexPrintersAgree(v: nat, width: int)
    ensures WriteHexText(v, width) == Hex64Text(v, width) <==> width >= 0 || v != 0
  {
    if v == 0 && width > 0 { assert Zeros(width) == Zeros(width - 1) + "0"; }
  }
}
