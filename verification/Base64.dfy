/** Base64 as RFC 4648, section 4, defines it and Go's decoder reads it. */
module Base64 {
  import opened Wrappers
  import opened Wire

  function Symbol(n: nat): char
    requires n < 64
  {
    if n < 26 then ('A' as int + n) as char
    else if n < 52 then ('a' as int + (n - 26)) as char
    else if n < 62 then ('0' as int + (n - 52)) as char
    else if n == 62 then '+' else '/'
  }

  function Value(c: char): (v: Option<nat>)
    ensures v.Some? ==> v.value < 64
  {
    if 'A' <= c <= 'Z' then Some(c as int - 'A' as int)
    else if 'a' <= c <= 'z' then Some(c as int - 'a' as int + 26)
    else if '0' <= c <= '9' then Some(c as int - '0' as int + 52)
    else if c == '+' then Some(62)
    else if c == '/' then Some(63)
    else None
  }

  lemma SymbolValue(n: nat)
    requires n < 64
    ensures Value(Symbol(n)) == Some(n)
    ensures Symbol(n) != '=' && Symbol(n) != ' ' && Symbol(n) != '\n' && Symbol(n) != '\r'
  {
  }

  function Quad(a: byte, b: byte, c: byte): string {
    [Symbol(a as nat / 4), Symbol(a as nat % 4 * 16 + b as nat / 16), Symbol(b as nat % 16 * 4 + c as nat / 64),
     Symbol(c as nat % 64)]
  }

  function Encode(b: bytes): string {
    if b == [] then ""
    else if |b| == 1 then [Symbol(b[0] / 4), Symbol(b[0] % 4 * 16), '=', '=']
    else if |b| == 2 then [Symbol(b[0] / 4), Symbol(b[0] % 4 * 16 + b[1] / 16), Symbol(b[1] % 16 * 4), '=']
    else Quad(b[0], b[1], b[2]) + Encode(b[3..])
  }

  function First(x: nat, y: nat): byte
    requires x < 64 && y < 64
  {
    x * 4 + y / 16
  }

  function Second(y: nat, z: nat): byte
    requires y < 64 && z < 64
  {
    y % 16 * 16 + z / 4
  }

  function Third(z: nat, w: nat): byte
    requires z < 64 && w < 64
  {
    z % 4 * 64 + w
  }

  /** Groups of four, the last one padded; left-over bits under the padding are
      ignored. */
  function DecodeGroups(s: string): Option<bytes> {
    if s == "" then Some([])
    else if |s| < 4 then None
    else
      match (Value(s[0]), Value(s[1]))
      case (Some(x), Some(y)) =>
        if s[2] == '=' && s[3] == '=' then if |s| == 4 then Some([First(x, y)]) else None
        else
          (match (Value(s[2]), Value(s[3]))
           case (Some(z), Some(w)) =>
             (match DecodeGroups(s[4..])
              case None => None
              case Some(rest) => Some([First(x, y), Second(y, z), Third(z, w)] + rest))
           case (Some(z), None) =>
             if s[3] == '=' && |s| == 4 then Some([First(x, y), Second(y, z)]) else None
           case _ => None)
      case _ => None
  }

  /** Go's decoder skips line breaks. */
  function WithoutBreaks(s: string): string {
    if s == "" then ""
    else if s[0] == '\n' || s[0] == '\r' then WithoutBreaks(s[1..])
    else [s[0]] + WithoutBreaks(s[1..])
  }

  function Decode(s: string): Option<bytes> {
    DecodeGroups(WithoutBreaks(s))
  }

  /** No space and no line break: a token within a line. */
  ghost predicate Token(s: string) {
    forall i :: 0 <= i < |s| ==> s[i] != ' ' && s[i] != '\n' && s[i] != '\r'
  }

  lemma {:induction false} TokenHasNoBreaks(s: string)
    requires Token(s)
    ensures WithoutBreaks(s) == s
  {
    if s == "" {
    } else {
      TokenHasNoBreaks(s[1..]);
    }
  }

  lemma {:induction false} EncodeIsToken(b: bytes)
    ensures Token(Encode(b))
    decreases |b|
  {
    forall n: nat {:trigger Symbol(n)} | n < 64
      ensures Symbol(n) != ' ' && Symbol(n) != '\n' && Symbol(n) != '\r'
    {
      SymbolValue(n);
    }
    if |b| <= 2 {
    } else {
      EncodeIsToken(b[3..]);
    }
  }

  lemma PackedBytes(a: byte, b: byte, c: byte)
    ensures First(a as nat / 4, a as nat % 4 * 16 + b as nat / 16) == a
    ensures Second(a as nat % 4 * 16 + b as nat / 16, b as nat % 16 * 4 + c as nat / 64) == b
    ensures Third(b as nat % 16 * 4 + c as nat / 64, c as nat % 64) == c
  {
  }

  lemma DecodeGroup(a: byte, b: byte, c: byte, rest: string)
    requires DecodeGroups(rest).Some?
    ensures DecodeGroups(Quad(a, b, c) + rest) == Some([a, b, c] + DecodeGroups(rest).value)
  {
    var s := Quad(a, b, c) + rest;
    assert s[0] == Quad(a, b, c)[0] && s[1] == Quad(a, b, c)[1] && s[2] == Quad(a, b, c)[2] && s[3] == Quad(a, b, c)[3];
    assert s[4..] == rest;
    SymbolValue(a as nat / 4);
    SymbolValue(a as nat % 4 * 16 + b as nat / 16);
    SymbolValue(b as nat % 16 * 4 + c as nat / 64);
    SymbolValue(c as nat % 64);
    PackedBytes(a, b, c);
  }

  lemma DecodeOne(a: byte)
    ensures DecodeGroups([Symbol(a as nat / 4), Symbol(a as nat % 4 * 16), '=', '=']) == Some([a])
  {
    SymbolValue(a as nat / 4);
    SymbolValue(a as nat % 4 * 16);
    PackedBytes(a, 0, 0);
  }

  lemma DecodeTwo(a: byte, b: byte)
    ensures DecodeGroups([Symbol(a as nat / 4), Symbol(a as nat % 4 * 16 + b as nat / 16), Symbol(b as nat % 16 * 4), '='])
         == Some([a, b])
  {
    SymbolValue(a as nat / 4);
    SymbolValue(a as nat % 4 * 16 + b as nat / 16);
    SymbolValue(b as nat % 16 * 4);
    PackedBytes(a, b, 0);
  }

  lemma DecodeShort(b: bytes)
    requires |b| < 3
    ensures DecodeGroups(Encode(b)) == Some(b)
  {
    if |b| == 1 {
      DecodeOne(b[0]);
      assert b == [b[0]];
    } else if |b| == 2 {
      DecodeTwo(b[0], b[1]);
      assert b == [b[0], b[1]];
    }
  }

  lemma ThreeAndTheRest(b: bytes)
    requires |b| >= 3
    ensures b == [b[0], b[1], b[2]] + b[3..]
  {
  }

  lemma {:induction false} DecodeOfEncode(b: bytes)
    ensures DecodeGroups(Encode(b)) == Some(b)
    decreases |b|
  {
    if |b| < 3 {
      DecodeShort(b);
    } else {
      DecodeOfEncode(b[3..]);
      DecodeGroup(b[0], b[1], b[2], Encode(b[3..]));
      ThreeAndTheRest(b);
    }
  }

  /** Base64 loses nothing. */
  lemma Base64RoundTrip(b: bytes)
    ensures Decode(Encode(b)) == Some(b) && Token(Encode(b))
  {
    EncodeIsToken(b);
    TokenHasNoBreaks(Encode(b));
    DecodeOfEncode(b);
  }
}
