/** Digests as text: the lowercase hex every document in this system spells. */
module Digest {
  import opened Wire
  import opened Text

  function HexByte(b: byte): string {
    [HexDigit(b / 16), HexDigit(b % 16)]
  }

  function Hex(b: bytes): (s: string)
    ensures |s| == 2 * |b|
  {
    if b == [] then "" else HexByte(b[0]) + Hex(b[1..])
  }

  predicate IsHex(c: char) {
    '0' <= c <= '9' || 'a' <= c <= 'f'
  }

  predicate ValidDigest(s: string) {
    |s| == 64 && forall i :: 0 <= i < |s| ==> IsHex(s[i])
  }

  lemma {:induction false} HexIsHex(b: bytes)
    ensures forall i :: 0 <= i < |Hex(b)| ==> IsHex(Hex(b)[i])
  {
    if b == [] {
    } else {
      HexIsHex(b[1..]);
      assert forall n: nat {:trigger HexDigit(n)} :: n < 16 ==> IsHex(HexDigit(n));
    }
  }

  /** A hash of 32 bytes is always a valid digest. */
  lemma HexOfDigest(b: bytes)
    requires |b| == 32
    ensures ValidDigest(Hex(b))
  {
    HexIsHex(b);
  }

  lemma HexIsUtf8(b: bytes)
    ensures ValidUtf8(Hex(b))
  {
    HexIsHex(b);
    AsciiIsUtf8(Hex(b));
  }

  lemma {:induction false} HexInjective(a: bytes, b: bytes)
    requires Hex(a) == Hex(b)
    ensures a == b
  {
    assert |a| == |b|;
    if a == [] {
    } else {
      var s, t := Hex(a), Hex(b);
      assert s[..2] == HexByte(a[0]) && t[..2] == HexByte(b[0]);
      HexDigitRoundTrip(a[0] / 16);
      HexDigitRoundTrip(a[0] % 16);
      HexDigitRoundTrip(b[0] / 16);
      HexDigitRoundTrip(b[0] % 16);
      assert s[0] == HexDigit(a[0] / 16) && s[1] == HexDigit(a[0] % 16);
      assert t[0] == HexDigit(b[0] / 16) && t[1] == HexDigit(b[0] % 16);
      assert a[0] == b[0];
      assert s[2..] == Hex(a[1..]) && t[2..] == Hex(b[1..]);
      HexInjective(a[1..], b[1..]);
      assert a == [a[0]] + a[1..] && b == [b[0]] + b[1..];
    }
  }

  const ZEROS := "0000000000000000"

  /** Four times sixteen zeros have the shape of a digest. */
  lemma ZeroDigest()
    ensures ValidDigest(ZEROS + ZEROS + ZEROS + ZEROS) && Ascii(ZEROS + ZEROS + ZEROS + ZEROS)
  {
    assert forall i :: 0 <= i < 16 ==> ZEROS[i] == '0';
  }
}
