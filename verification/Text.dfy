/** The spelling of strings and integers in a canonical document.

    A Go string is a string of bytes; here it is a `string` whose characters are
    those bytes, so a character above 255 never occurs in valid UTF-8. */
module Text {
  import opened Wrappers

  // -- UTF-8 (RFC 3629, section 4) ------------------------------------------

  predicate InRange(s: string, i: nat, lo: int, hi: int) {
    i < |s| && lo <= s[i] as int <= hi
  }

  /** Length of the well-formed rune at the head of `s`, 0 when there is none. */
  function RuneLength(s: string): nat {
    if InRange(s, 0, 0x00, 0x7F) then 1
    else if InRange(s, 0, 0xC2, 0xDF) && InRange(s, 1, 0x80, 0xBF) then 2
    else if InRange(s, 0, 0xE0, 0xEF) && InRange(s, 2, 0x80, 0xBF)
            && InRange(s, 1, if s[0] as int == 0xE0 then 0xA0 else 0x80, if s[0] as int == 0xED then 0x9F else 0xBF) then 3
    else if InRange(s, 0, 0xF0, 0xF4) && InRange(s, 2, 0x80, 0xBF) && InRange(s, 3, 0x80, 0xBF)
            && InRange(s, 1, if s[0] as int == 0xF0 then 0x90 else 0x80, if s[0] as int == 0xF4 then 0x8F else 0xBF) then 4
    else 0
  }

  predicate ValidUtf8(s: string)
    decreases |s|
  {
    s == "" || (0 < RuneLength(s) <= |s| && ValidUtf8(s[RuneLength(s)..]))
  }

  lemma HeadRune(a: string, b: string)
    requires RuneLength(a) > 0
    ensures RuneLength(a + b) == RuneLength(a) <= |a|
  {
    assert (a + b)[0] == a[0];
    assert |a| > 1 ==> (a + b)[1] == a[1];
    assert |a| > 2 ==> (a + b)[2] == a[2];
    assert |a| > 3 ==> (a + b)[3] == a[3];
  }

  lemma {:induction false} ValidUtf8Concat(a: string, b: string)
    requires ValidUtf8(a) && ValidUtf8(b)
    ensures ValidUtf8(a + b)
    decreases |a|
  {
    if a == "" {
      assert a + b == b;
    } else {
      var k := RuneLength(a);
      HeadRune(a, b);
      assert (a + b)[k..] == a[k..] + b;
      ValidUtf8Concat(a[k..], b);
    }
  }

  ghost predicate Ascii(s: string) {
    forall i :: 0 <= i < |s| ==> s[i] as int < 0x80
  }

  lemma {:induction false} AsciiIsUtf8(s: string)
    requires Ascii(s)
    ensures ValidUtf8(s)
    decreases |s|
  {
    if s == "" {
    } else {
      AsciiIsUtf8(s[1..]);
    }
  }

  /** Nothing below 0x20: in particular no newline. */
  ghost predicate Printable(s: string) {
    forall i :: 0 <= i < |s| ==> ' ' <= s[i]
  }

  lemma Assoc(a: string, b: string, c: string)
    ensures a + (b + c) == a + b + c
  {
  }

  // -- white space ----------------------------------------------------------

  predicate StartsWith(s: string, part: string) {
    part <= s
  }

  /** Length of the white-space rune at the head of `s`, 0 when there is none:
      the runes `unicode.IsSpace` accepts, in their UTF-8 spelling. */
  function SpaceLength(s: string): (n: nat)
    ensures n <= |s|
  {
    if s == "" then 0
    else if s[0] == ' ' || '\t' <= s[0] <= '\r' then 1
    else if StartsWith(s, "\U{C2}\U{85}") || StartsWith(s, "\U{C2}\U{A0}") then 2
    else if StartsWith(s, "\U{E1}\U{9A}\U{80}") || StartsWith(s, "\U{E3}\U{80}\U{80}")
         || StartsWith(s, "\U{E2}\U{81}\U{9F}") then 3
    else if StartsWith(s, "\U{E2}\U{80}") && |s| > 2
         && (0x80 <= s[2] as int <= 0x8A || s[2] as int == 0xA8 || s[2] as int == 0xA9 || s[2] as int == 0xAF) then 3
    else 0
  }

  /** Nothing is left once white space is trimmed. */
  predicate Blank(s: string)
    decreases |s|
  {
    s == "" || (SpaceLength(s) > 0 && Blank(s[SpaceLength(s)..]))
  }

  // -- string literals (RFC 8259, section 7) --------------------------------

  const HEX_DIGITS := "0123456789abcdef"

  function HexDigit(n: nat): char
    requires n < 16
  {
    HEX_DIGITS[n]
  }

  function EscapeByte(c: char): string {
    if c == '\"' then "\\\""
    else if c == '\\' then "\\\\"
    else if c == '\U{08}' then "\\b"
    else if c == '\U{0C}' then "\\f"
    else if c == '\n' then "\\n"
    else if c == '\r' then "\\r"
    else if c == '\t' then "\\t"
    else if c < ' ' then "\\u00" + [HexDigit(c as int / 16), HexDigit(c as int % 16)]
    else [c]
  }

  function Escape(s: string): string {
    if s == "" then "" else EscapeByte(s[0]) + Escape(s[1..])
  }

  function Quote(s: string): string {
    "\"" + Escape(s) + "\""
  }

  function HexValue(c: char): Option<nat> {
    if '0' <= c <= '9' then Some(c as int - '0' as int)
    else if 'a' <= c <= 'f' then Some(c as int - 'a' as int + 10)
    else if 'A' <= c <= 'F' then Some(c as int - 'A' as int + 10)
    else None
  }

  /** The code unit spelt by `\uXXXX` at the head of `s`. */
  function CodeUnit(s: string): (r: Option<nat>)
    ensures r.Some? ==> |s| >= 6 && r.value < 0x1_0000
  {
    if |s| < 6 || s[0] != '\\' || s[1] != 'u' then None
    else
      match (HexValue(s[2]), HexValue(s[3]), HexValue(s[4]), HexValue(s[5]))
      case (Some(a), Some(b), Some(c), Some(d)) =>
        if a < 16 && b < 16 && c < 16 && d < 16 then Some(((a * 16 + b) * 16 + c) * 16 + d) else None
      case _ => None
  }

  function Byte(n: nat): char
    requires n < 256
  {
    n as char
  }

  function EncodeRune(cp: nat): string
    requires cp < 0x11_0000
  {
    if cp < 0x80 then [Byte(cp)]
    else if cp < 0x800 then [Byte(0xC0 + cp / 64), Byte(0x80 + cp % 64)]
    else if cp < 0x1_0000 then [Byte(0xE0 + cp / 4096), Byte(0x80 + cp / 64 % 64), Byte(0x80 + cp % 64)]
    else [Byte(0xF0 + cp / 262144), Byte(0x80 + cp / 4096 % 64), Byte(0x80 + cp / 64 % 64), Byte(0x80 + cp % 64)]
  }

  const REPLACEMENT := 0xFFFD

  /** The rune at an escape `\uXXXX` and the bytes of input it takes: a surrogate
      pair is one rune, a lone surrogate reads as U+FFFD. */
  function EscapedRune(s: string): (r: Option<(nat, nat)>)
    ensures r.Some? ==> r.value.0 < 0x11_0000 && 0 < r.value.1 <= |s|
  {
    match CodeUnit(s)
    case None => None
    case Some(u) =>
      if u < 0xD800 || 0xE000 <= u then Some((u, 6))
      else
        match CodeUnit(s[6..])
        case Some(w) =>
          if u < 0xDC00 && 0xDC00 <= w < 0xE000 then Some((0x1_0000 + (u - 0xD800) * 0x400 + (w - 0xDC00), 12))
          else Some((REPLACEMENT, 6))
        case None => Some((REPLACEMENT, 6))
  }

  function SimpleEscape(c: char): Option<char> {
    if c == '\"' || c == '\\' || c == '/' then Some(c)
    else if c == 'b' then Some('\U{08}')
    else if c == 'f' then Some('\U{0C}')
    else if c == 'n' then Some('\n')
    else if c == 'r' then Some('\r')
    else if c == 't' then Some('\t')
    else None
  }

  function Prepend(head: string, r: Option<(string, string)>): Option<(string, string)> {
    match r
    case None => None
    case Some((s, rest)) => Some((head + s, rest))
  }

  /** Reads the rest of a string literal, up to and past its closing quote. */
  function Unescape(s: string): (r: Option<(string, string)>)
    ensures r.Some? ==> |r.value.1| < |s|
    decreases |s|
  {
    if s == "" || (s[0] < ' ') then None
    else if s[0] == '\"' then Some(("", s[1..]))
    else if s[0] != '\\' then Prepend([s[0]], Unescape(s[1..]))
    else if |s| < 2 then None
    else if s[1] == 'u' then
      match EscapedRune(s)
      case None => None
      case Some((cp, n)) => Prepend(EncodeRune(cp), Unescape(s[n..]))
    else
      match SimpleEscape(s[1])
      case None => None
      case Some(c) => Prepend([c], Unescape(s[2..]))
  }

  lemma UnescapeControl(c: char, rest: string)
    requires c < ' ' && |EscapeByte(c)| == 6
    ensures Unescape(EscapeByte(c) + rest) == Prepend([c], Unescape(rest))
  {
    var s := EscapeByte(c) + rest;
    var hi, lo := c as int / 16, c as int % 16;
    assert s[0] == '\\' && s[1] == 'u' && s[2] == '0' && s[3] == '0';
    assert s[4] == HexDigit(hi) && s[5] == HexDigit(lo) && s[6..] == rest;
    HexDigitRoundTrip(hi);
    HexDigitRoundTrip(lo);
    assert CodeUnit(s) == Some(c as int);
    assert EscapedRune(s) == Some((c as int, 6));
    assert EncodeRune(c as int) == [c];
  }

  lemma HexDigitRoundTrip(n: nat)
    requires n < 16
    ensures HexValue(HexDigit(n)) == Some(n)
  {
  }

  /** One escaped byte reads back as that byte. */
  lemma UnescapeByte(c: char, rest: string)
    requires c as int < 256
    ensures Unescape(EscapeByte(c) + rest) == Prepend([c], Unescape(rest))
  {
    var e := EscapeByte(c);
    var s := e + rest;
    assert s[|e|..] == rest;
    if c < ' ' && |e| == 6 {
      UnescapeControl(c, rest);
    } else if |e| == 2 {
      assert s[0] == '\\' && s[1] == e[1] && SimpleEscape(e[1]) == Some(c);
    } else {
      assert e == [c] && s[0] == c;
    }
  }

  /** The escaped text of `s`, then `rest`. */
  function PutEscaped(s: string, rest: string): string {
    if s == "" then rest else EscapeByte(s[0]) + PutEscaped(s[1..], rest)
  }

  lemma {:induction false} PutEscapedIsEscape(s: string, rest: string)
    ensures PutEscaped(s, rest) == Escape(s) + rest
  {
    if s == "" {
    } else {
      PutEscapedIsEscape(s[1..], rest);
    }
  }

  lemma {:induction false} UnescapeEscape(s: string, rest: string)
    requires ValidBytes(s)
    ensures Unescape(PutEscaped(s, ['\"'] + rest)) == Some((s, rest))
  {
    if s == "" {
      assert (['\"'] + rest)[1..] == rest;
    } else {
      UnescapeEscape(s[1..], rest);
      UnescapeByte(s[0], PutEscaped(s[1..], ['\"'] + rest));
      assert [s[0]] + s[1..] == s;
    }
  }

  ghost predicate ValidBytes(s: string) {
    forall i :: 0 <= i < |s| ==> s[i] as int < 256
  }

  lemma {:induction false} Utf8IsBytes(s: string)
    requires ValidUtf8(s)
    ensures ValidBytes(s)
    decreases |s|
  {
    if s == "" {
    } else {
      var k := RuneLength(s);
      Utf8IsBytes(s[k..]);
      forall i | 0 <= i < |s| ensures s[i] as int < 256 {
        if i >= k { assert s[i] == s[k..][i - k]; }
      }
    }
  }

  lemma {:induction false} EscapePrintable(s: string)
    ensures Printable(Escape(s))
  {
    if s == "" {
    } else {
      EscapePrintable(s[1..]);
      assert Printable(EscapeByte(s[0]));
    }
  }

  lemma {:induction false} EscapeConcat(a: string, b: string)
    ensures Escape(a + b) == Escape(a) + Escape(b)
  {
    if a == "" {
      assert a + b == b;
    } else {
      assert (a + b)[1..] == a[1..] + b;
      EscapeConcat(a[1..], b);
    }
  }

  /** Bytes of a multi-byte rune are never escaped. */
  lemma {:induction false} EscapeHigh(s: string)
    requires forall i :: 0 <= i < |s| ==> s[i] as int >= 0x80
    ensures Escape(s) == s
  {
    if s == "" {
    } else {
      EscapeHigh(s[1..]);
    }
  }

  lemma EscapeByteAscii(c: char)
    requires c as int < 0x80
    ensures Ascii(EscapeByte(c))
  {
    assert forall n: nat {:trigger HexDigit(n)} | n < 16 :: HexDigit(n) as int < 0x80;
  }

  lemma LoneRuneUtf8(s: string)
    requires s != "" && RuneLength(s) == |s|
    ensures ValidUtf8(s)
    ensures if |s| == 1 then s[0] as int < 0x80 else forall i :: 0 <= i < |s| ==> s[i] as int >= 0x80
  {
    assert s[|s|..] == "";
  }

  /** Escaping one rune leaves it well-formed. */
  lemma EscapeRuneUtf8(s: string)
    requires s != "" && RuneLength(s) == |s|
    ensures ValidUtf8(Escape(s))
  {
    LoneRuneUtf8(s);
    if |s| == 1 {
      EscapeByteAscii(s[0]);
      assert s[1..] == "";
      assert Escape(s[1..]) == "";
      assert Escape(s) == EscapeByte(s[0]) + "" == EscapeByte(s[0]);
      AsciiIsUtf8(EscapeByte(s[0]));
    } else {
      EscapeHigh(s);
    }
  }

  lemma {:induction false} EscapeUtf8(s: string)
    requires ValidUtf8(s)
    ensures ValidUtf8(Escape(s))
    decreases |s|
  {
    if s == "" {
    } else {
      var k := RuneLength(s);
      var head, tail := s[..k], s[k..];
      assert s == head + tail;
      assert RuneLength(head) == k;
      EscapeConcat(head, tail);
      EscapeRuneUtf8(head);
      EscapeUtf8(tail);
      ValidUtf8Concat(Escape(head), Escape(tail));
    }
  }

  // -- integers -------------------------------------------------------------

  predicate IsDigit(c: char) {
    '0' <= c <= '9'
  }

  function Digit(n: nat): char
    requires n < 10
  {
    HEX_DIGITS[n]
  }

  function Digits(n: nat): (s: string)
    ensures s != "" && forall i :: 0 <= i < |s| ==> IsDigit(s[i])
  {
    if n < 10 then [Digit(n)] else Digits(n / 10) + [Digit(n % 10)]
  }

  function Decimal(n: int): string {
    if n < 0 then "-" + Digits(-n) else Digits(n)
  }

  /** How many digits `s` begins with. */
  function DigitRun(s: string): (n: nat)
    ensures n <= |s| && forall i :: 0 <= i < n ==> IsDigit(s[i])
    ensures n < |s| ==> !IsDigit(s[n])
  {
    if s == "" || !IsDigit(s[0]) then 0 else 1 + DigitRun(s[1..])
  }

  function DigitsValue(s: string): nat
    requires forall i :: 0 <= i < |s| ==> IsDigit(s[i])
  {
    if s == "" then 0
    else
      assert IsDigit(s[|s| - 1]);
      10 * DigitsValue(s[..|s| - 1]) + (s[|s| - 1] as int - '0' as int)
  }

  lemma {:induction false} DigitsRoundTrip(n: nat)
    ensures DigitsValue(Digits(n)) == n
    ensures n != 0 ==> Digits(n)[0] != '0'
    ensures n == 0 ==> Digits(n) == "0"
  {
    var s := Digits(n);
    if n < 10 {
      assert s[..|s| - 1] == "";
    } else {
      DigitsRoundTrip(n / 10);
      assert s[..|s| - 1] == Digits(n / 10);
    }
  }

  lemma DigitsInjective(m: nat, n: nat)
    requires Digits(m) == Digits(n)
    ensures m == n
  {
    DigitsRoundTrip(m);
    DigitsRoundTrip(n);
  }

  lemma {:induction false} DigitRunOf(s: string, rest: string)
    requires forall i :: 0 <= i < |s| ==> IsDigit(s[i])
    requires rest == "" || !IsDigit(rest[0])
    ensures DigitRun(s + rest) == |s|
  {
    if s == "" {
      assert s + rest == rest;
    } else {
      assert (s + rest)[1..] == s[1..] + rest;
      DigitRunOf(s[1..], rest);
    }
  }
}
