/** The number parsing and printing loops of the kernel's string library. */
module Text {
  import opened Numerals

  const WORD64: nat := 0x1_0000_0000_0000_0000

  /** str[i], with the terminator after the last character. */
  function CharAt(s: string, i: nat): char {
    if i < |s| then s[i] else '\0'
  }

  /** atoi: the clamped value of the number at the start of the string. */
  method Atoi(s: string) returns (value: int)
    ensures value == Clamp(Denoted(s))
  {
    var i := 0;
    while CharAt(s, i) == ' '
      invariant i <= |s| && forall k :: 0 <= k < i ==> s[k] == ' '
      decreases |s| - i
    {
      i := i + 1;
    }
    SpaceCountIs(s, i);
    var sign := 1;
    if CharAt(s, i) == '-' {
      sign := -1;
      i := i + 1;
    } else if CharAt(s, i) == '+' {
      i := i + 1;
    }
    value := ReadDigits(s[i..], sign);
  }

  /** The accumulation loop, with its overflow test before every step. */
  method ReadDigits(s: string, sign: int) returns (value: int)
    requires sign == 1 || sign == -1
    ensures forall c <- s[..DigitCount(s)] :: IsDigit(c)
    ensures value == Clamp(sign * ValueOf(s[..DigitCount(s)]))
  {
    var result, i := 0, 0;
    ghost var n := DigitCount(s);
    while IsDigit(CharAt(s, i))
      invariant i <= n && 0 <= result <= INT_MAX && result == ValueOf(s[..i])
      decreases |s| - i
    {
      assert i < n;
      var d := DigitOf(s[i]);
      NextDigit(s, i);
      if result > (INT_MAX - d) / 10 {
        TooLarge(s, i + 1, n);
        return if sign == 1 then INT_MAX else INT_MIN;
      }
      result := result * 10 + d;
      i := i + 1;
    }
    assert i == n;
    value := sign * result;
  }

  lemma NextDigit(s: string, i: nat)
    requires i < DigitCount(s)
    ensures (forall c <- s[..i] :: IsDigit(c)) && (forall c <- s[..i + 1] :: IsDigit(c))
    ensures ValueOf(s[..i + 1]) == ValueOf(s[..i]) * 10 + DigitOf(s[i])
  {
    assert s[..i + 1][..i] == s[..i];
  }

  /** Once a prefix of the digits is too large, so are all of them. */
  lemma TooLarge(s: string, i: nat, n: nat)
    requires i <= n == DigitCount(s)
    requires ValueOf(s[..i]) > INT_MAX
    ensures ValueOf(s[..n]) > INT_MAX
  {
    assert s[..n][..i] == s[..i];
    ValueMonotone(s[..n], i);
  }

  /** Negation of a 32-bit int: INT_MIN is its own negative. */
  function Negate(v: int): int {
    if v == INT_MIN then INT_MIN else -v
  }

  /** int_to_str: digits go to a small buffer from the last to the first, then come out reversed. */
  method IntToStr(value: int, out: array<char>) returns (j: nat)
    requires IsInt(value) && out.Length >= 11
    modifies out
    ensures j <= out.Length && out[..j] == IntText(value)
  {
    if value == 0 {
      out[0] := '0';
      return 1;
    }
    var buf := new char[16];
    var neg := value < 0;
    var i := DigitsToBuffer(if neg then Negate(value) else value, buf);
    if neg {
      Append(buf, i, '-');
      i := i + 1;
    }
    j := PutBackwards(buf, i, out, 0);
  }

  /** The digit loop of int_to_str; it does nothing for INT_MIN, which is still negative here. */
  method DigitsToBuffer(v0: int, buf: array<char>) returns (i: nat)
    requires IsInt(v0) && buf.Length == 16
    modifies buf
    ensures i <= 10 && Backwards(buf[..i]) == if v0 > 0 then Digits(v0) else ""
  {
    i := 0;
    if v0 <= 0 { return; }
    ghost var digits := Digits(v0);
    DigitsLength(v0, 10);
    var v := v0;
    while v > 0
      invariant v >= 0 && i <= 10 && digits == Digits(v) + Backwards(buf[..i])
      decreases v
    {
      Append(buf, i, DigitChar(v % 10));
      v := v / 10;
      i := i + 1;
    }
  }

  /** The reversal loop. */
  method PutBackwards(buf: array<char>, count: nat, out: array<char>, start: nat) returns (j: nat)
    requires count <= buf.Length && start + count <= out.Length && buf != out
    modifies out
    ensures j == start + count && out[..j] == old(out[..start]) + Backwards(buf[..count])
  {
    var i := count;
    j := start;
    assert buf[..count] == buf[..i];
    while i > 0
      invariant i <= count && j == start + count - i
      invariant out[..j] + Backwards(buf[..i]) == old(out[..start]) + Backwards(buf[..count])
    {
      BackwardsSnoc(buf[..i - 1], buf[i - 1]);
      assert buf[..i] == buf[..i - 1] + [buf[i - 1]];
      i := i - 1;
      ghost var before := out[..j];
      out[j] := buf[i];
      j := j + 1;
      assert out[..j] == before + [buf[i]];
    }
  }

  /** buf[i] = c, seen from the end of the buffer. */
  method Append(buf: array<char>, i: nat, c: char)
    requires i < buf.Length
    modifies buf
    ensures Backwards(buf[..i + 1]) == [c] + old(Backwards(buf[..i]))
    ensures buf[..i] == old(buf[..i])
  {
    BackwardsSnoc(buf[..i], c);
    buf[i] := c;
    assert buf[..i + 1] == old(buf[..i]) + [c];
  }

  function Backwards(s: string): (r: string)
    ensures |r| == |s|
  {
    if s == "" then "" else Backwards(s[1..]) + [s[0]]
  }

  lemma {:induction false} BackwardsSnoc(s: string, c: char)
    ensures Backwards(s + [c]) == [c] + Backwards(s)
  {
    if s != "" {
      assert (s + [c])[1..] == s[1..] + [c];
      BackwardsSnoc(s[1..], c);
    } else {
      assert (s + [c])[1..] == "" && s + [c] == [c];
    }
  }

  // ----- Hexadecimal

  lemma HexDigitsFit(v: nat)
    requires v < WORD64
    ensures |HexDigits(v)| <= 16
  {
    assert Power(16, 2) == 0x100;
    assert Power(16, 4) == 0x1_0000;
    assert Power(16, 6) == 0x100_0000;
    assert Power(16, 8) == 0x1_0000_0000;
    assert Power(16, 10) == 0x100_0000_0000;
    assert Power(16, 12) == 0x1_0000_0000_0000;
    assert Power(16, 14) == 0x100_0000_0000_0000;
    assert Power(16, 16) == WORD64;
    HexDigitsLength(v, 16);
  }

  /** The digit loop that both printers share. */
  method HexToBuffer(v0: nat, buf: array<char>) returns (pos: nat)
    requires v0 < WORD64 && buf.Length == 32
    modifies buf
    ensures pos <= 16 && pos == |HexDigits(v0)| && Backwards(buf[..pos]) == HexDigits(v0)
  {
    HexDigitsFit(v0);
    var v := v0;
    pos := 0;
    while v > 0
      invariant pos <= 16 && HexDigits(v0) == HexDigits(v) + Backwards(buf[..pos])
    {
      var digit := v % 16;
      Append(buf, pos, HexChar(digit));
      pos := pos + 1;
      v := v / 16;
    }
  }

  /** write_hex: pads straight into the output, then reverses the digits behind the padding. */
  method WriteHex(v: nat, width: int, out: array<char>, start: nat) returns (end: nat)
    requires v < WORD64 && start + |WriteHexText(v, width)| <= out.Length
    modifies out
    ensures end == start + |WriteHexText(v, width)| && out[..end] == old(out[..start]) + WriteHexText(v, width)
  {
    if v == 0 && width == 0 {
      out[start] := '0';
      return start + 1;
    }
    var buf := new char[32];
    var pos := HexToBuffer(v, buf);
    PrefixThenPad(old(out[..start]), HexDigits(v), width);
    end := PadZeros(out, start, pos, width);
    end := PutBackwards(buf, pos, out, end);
  }

  lemma PrefixThenPad(before: string, digits: string, width: int)
    ensures (before + Zeros(width - |digits|)) + digits == before + Padded(digits, width)
    ensures |Padded(digits, width)| == |Zeros(width - |digits|)| + |digits|
  {
  }

  /** The padding loop of write_hex. */
  method PadZeros(out: array<char>, start: nat, pos: nat, width: int) returns (end: nat)
    requires start + |Zeros(width - pos)| <= out.Length
    modifies out
    ensures end == start + |Zeros(width - pos)| && out[..end] == old(out[..start]) + Zeros(width - pos)
  {
    var left := width;
    end := start;
    while pos < left
      invariant left <= width && (left >= pos || left == width)
      invariant end == start + |Zeros(width - left)| && out[..start] == old(out[..start])
      invariant end <= out.Length && out[..end] == old(out[..start]) + Zeros(width - left)
      decreases left - pos
    {
      ZerosLength(width - left);
      ZerosLength(width - pos);
      out[end] := '0';
      end := end + 1;
      left := left - 1;
    }
  }

  /** hex64_to_str: pads in the buffer, then reverses everything. */
  method Hex64ToStr(v: nat, out: array<char>, width: int) returns (j: nat)
    requires v < WORD64 && width <= 32 && |Hex64Text(v, width)| <= out.Length
    modifies out
    ensures j == |Hex64Text(v, width)| && out[..j] == Hex64Text(v, width)
  {
    var buf := new char[32];
    var i := 0;
    if v == 0 {
      buf[0] := '0';
      i := 1;
    } else {
      i := HexToBuffer(v, buf);
    }
    i := PadBuffer(buf, i, width, if v == 0 then "0" else HexDigits(v));
    j := PutBackwards(buf, i, out, 0);
  }

  /** The padding loop of hex64_to_str. */
  method PadBuffer(buf: array<char>, count: nat, width: int, ghost digits: string) returns (i: nat)
    requires buf.Length == 32 && count <= 32 && width <= 32
    requires count == |digits| && Backwards(buf[..count]) == digits
    modifies buf
    ensures i <= 32 && Backwards(buf[..i]) == Padded(digits, width)
  {
    i := count;
    while i < width
      invariant count <= i <= 32 && (i <= width || i == count)
      invariant Backwards(buf[..i]) == Zeros(i - count) + digits
    {
      OneMoreZero(i - count, digits);
      Append(buf, i, '0');
      i := i + 1;
    }
  }

  lemma OneMoreZero(n: nat, digits: string)
    ensures Zeros(n + 1) + digits == ['0'] + (Zeros(n) + digits)
  {
    ZerosFront(n + 1);
  }

  // ----- Comparison

  /** strcmp over C strings of 8-bit characters: zero exactly for equal strings, else the sign of the
      first difference. */
  method Strcmp(s: string, t: string) returns (r: int)
    requires '\0' !in s && '\0' !in t
    requires (forall c <- s :: c as int < 256) && (forall c <- t :: c as int < 256)
    ensures r == 0 <==> s == t
    ensures r < 0 <==> Precedes(s, t)
  {
    var i := 0;
    while CharAt(s, i) != '\0' && CharAt(s, i) == CharAt(t, i)
      invariant i <= |s| && i <= |t| && s[..i] == t[..i]
      decreases |s| - i
    {
      assert CharAt(s, i) in s && CharAt(t, i) == s[i];
      i := i + 1;
    }
    r := CharAt(s, i) as int - CharAt(t, i) as int;
    FirstDifference(s, t, i);
  }

  /** Lexicographic order by character codes. */
  predicate Precedes(s: string, t: string) {
    if t == "" then false
    else if s == "" then true
    else s[0] < t[0] || (s[0] == t[0] && Precedes(s[1..], t[1..]))
  }

  /** The order in words: after a common beginning, s ends first or has the smaller character. */
  lemma {:induction false} PrecedesExact(s: string, t: string)
    ensures Precedes(s, t) <==> exists k :: FirstSmaller(s, t, k)
  {
    if s != "" && t != "" && s[0] == t[0] {
      PrecedesExact(s[1..], t[1..]);
      assert s == [s[0]] + s[1..] && t == [t[0]] + t[1..];
      if k :| FirstSmaller(s[1..], t[1..], k) { assert FirstSmaller(s, t, k + 1); }
      if k :| FirstSmaller(s, t, k) {
        assert k > 0 && s[1..][..k - 1] == s[..k][1..] == t[..k][1..] == t[1..][..k - 1];
        assert FirstSmaller(s[1..], t[1..], k - 1);
      }
    } else if Precedes(s, t) {
      assert FirstSmaller(s, t, 0);
    } else {
      forall k
        ensures !FirstSmaller(s, t, k)
      {
        FirstsAgree(s, t, k);
      }
    }
  }

  lemma FirstsAgree(s: string, t: string, k: int)
    ensures 0 < k <= |s| && k <= |t| && s[..k] == t[..k] ==> s[0] == t[0]
  {
    if 0 < k <= |s| && k <= |t| { assert s[..k][0] == s[0] && t[..k][0] == t[0]; }
  }

  predicate FirstSmaller(s: string, t: string, k: int) {
    && 0 <= k <= |s| && k < |t| && s[..k] == t[..k]
    && (k == |s| || s[k] < t[k])
  }

  lemma {:induction false} FirstDifference(s: string, t: string, i: nat)
    requires i <= |s| && i <= |t| && s[..i] == t[..i]
    requires '\0' !in s && '\0' !in t
    requires CharAt(s, i) == '\0' || CharAt(s, i) != CharAt(t, i)
    ensures s == t <==> CharAt(s, i) == CharAt(t, i)
    ensures Precedes(s, t) <==> CharAt(s, i) < CharAt(t, i)
    decreases i
  {
    if i == 0 {
      if s != "" { assert s[0] in s; }
      if t != "" { assert t[0] in t; }
    } else {
      assert s[0] == s[..i][0] == t[0];
      assert s[1..][..i - 1] == s[..i][1..] == t[1..][..i - 1];
      FirstDifference(s[1..], t[1..], i - 1);
      assert s == [s[0]] + s[1..] && t == [t[0]] + t[1..];
    }
  }
}
