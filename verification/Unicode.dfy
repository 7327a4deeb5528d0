/** UTF-8 and white space by code points: which byte strings are text, and which begin
    with a space, without the byte tables. */
module Unicode {
  import opened Text

  /** A Unicode scalar value: any code point that is not half of a surrogate pair. */
  predicate Scalar(cp: int) {
    0 <= cp < 0xD800 || 0xE000 <= cp < 0x11_0000
  }

  /** The bytes of a scalar value (RFC 3629, section 3). */
  function Utf8(cp: int): (s: string)
    requires Scalar(cp)
    ensures s != ""
  {
    if cp < 0x80 then [Byte(cp)]
    else if cp < 0x800 then [Byte(0xC0 + cp / 64), Byte(0x80 + cp % 64)]
    else if cp < 0x1_0000 then [Byte(0xE0 + cp / 4096), Byte(0x80 + cp / 64 % 64), Byte(0x80 + cp % 64)]
    else [Byte(0xF0 + cp / 262144), Byte(0x80 + cp / 4096 % 64), Byte(0x80 + cp / 64 % 64), Byte(0x80 + cp % 64)]
  }

  /** The code point that two, three or four bytes carry, six bits to each after the
      first. */
  function Point(s: string): int
    requires 1 <= |s| <= 4
  {
    if |s| == 1 then s[0] as int
    else if |s| == 2 then (s[0] as int - 0xC0) * 64 + (s[1] as int - 0x80)
    else if |s| == 3 then (s[0] as int - 0xE0) * 4096 + (s[1] as int - 0x80) * 64 + (s[2] as int - 0x80)
    else (s[0] as int - 0xF0) * 262144 + (s[1] as int - 0x80) * 4096 + (s[2] as int - 0x80) * 64 + (s[3] as int - 0x80)
  }

  lemma RuneOfScalar(cp: int, rest: string)
    requires Scalar(cp)
    ensures RuneLength(Utf8(cp) + rest) == |Utf8(cp)|
  {
    var s := Utf8(cp);
    assert RuneLength(s) == |s|;
    HeadRune(s, rest);
  }

  lemma TwoBytes(a: int, b: int)
    requires 0 <= b < 64
    ensures (a * 64 + b) / 64 == a && (a * 64 + b) % 64 == b
  {
  }

  lemma ThreeBytes(a: int, b: int, c: int)
    requires 0 <= b < 64 && 0 <= c < 64
    ensures var n := a * 4096 + b * 64 + c; n / 4096 == a && n / 64 % 64 == b && n % 64 == c
  {
    TwoBytes(a * 64 + b, c);
  }

  lemma FourBytes(a: int, b: int, c: int, d: int)
    requires 0 <= b < 64 && 0 <= c < 64 && 0 <= d < 64
    ensures var n := a * 262144 + b * 4096 + c * 64 + d;
      n / 262144 == a && n / 4096 % 64 == b && n / 64 % 64 == c && n % 64 == d
  {
    TwoBytes(a * 4096 + b * 64 + c, d);
    ThreeBytes(a, b, c);
  }

  lemma TwoByteScalar(r: string)
    requires |r| == 2 && 0xC2 <= r[0] as int <= 0xDF && 0x80 <= r[1] as int <= 0xBF
    ensures Scalar(Point(r)) && Utf8(Point(r)) == r
  {
    TwoBytes(r[0] as int - 0xC0, r[1] as int - 0x80);
  }

  lemma ThreeByteScalar(r: string)
    requires |r| == 3 && 0xE0 <= r[0] as int <= 0xEF && 0x80 <= r[1] as int <= 0xBF && 0x80 <= r[2] as int <= 0xBF
    requires (r[0] as int == 0xE0 ==> r[1] as int >= 0xA0) && (r[0] as int == 0xED ==> r[1] as int <= 0x9F)
    ensures Scalar(Point(r)) && Utf8(Point(r)) == r
  {
    ThreeBytes(r[0] as int - 0xE0, r[1] as int - 0x80, r[2] as int - 0x80);
  }

  lemma FourByteScalar(r: string)
    requires |r| == 4 && 0xF0 <= r[0] as int <= 0xF4
    requires 0x80 <= r[1] as int <= 0xBF && 0x80 <= r[2] as int <= 0xBF && 0x80 <= r[3] as int <= 0xBF
    requires (r[0] as int == 0xF0 ==> r[1] as int >= 0x90) && (r[0] as int == 0xF4 ==> r[1] as int <= 0x8F)
    ensures Scalar(Point(r)) && Utf8(Point(r)) == r
  {
    FourBytes(r[0] as int - 0xF0, r[1] as int - 0x80, r[2] as int - 0x80, r[3] as int - 0x80);
  }

  /** The first rune of a text is a scalar value's bytes. */
  lemma ScalarOfRune(s: string)
    requires RuneLength(s) > 0
    ensures 1 <= RuneLength(s) <= |s| && RuneLength(s) <= 4
    ensures Scalar(Point(s[..RuneLength(s)])) && Utf8(Point(s[..RuneLength(s)])) == s[..RuneLength(s)]
  {
    var r := s[..RuneLength(s)];
    if |r| == 2 {
      TwoByteScalar(r);
    } else if |r| == 3 {
      ThreeByteScalar(r);
    } else if |r| == 4 {
      FourByteScalar(r);
    }
  }

  /** What the bytes of one scalar value look like. */
  predicate OneRune(u: string) {
    || (|u| == 1 && u[0] as int < 0x80)
    || (|u| == 2 && 0xC2 <= u[0] as int <= 0xDF && 0x80 <= u[1] as int <= 0xBF)
    || (|u| == 3 && 0xE0 <= u[0] as int <= 0xEF && 0x80 <= u[1] as int <= 0xBF && 0x80 <= u[2] as int <= 0xBF)
    || (|u| == 4 && 0xF0 <= u[0] as int && 0x80 <= u[1] as int <= 0xBF && 0x80 <= u[2] as int <= 0xBF && 0x80 <= u[3] as int <= 0xBF)
  }

  lemma ScalarIsOneRune(cp: int)
    requires Scalar(cp)
    ensures OneRune(Utf8(cp))
  {
  }

  ghost predicate Scalars(cps: seq<int>) {
    forall i :: 0 <= i < |cps| ==> Scalar(cps[i])
  }

  function Encode(cps: seq<int>): string
    requires forall i :: 0 <= i < |cps| ==> Scalar(cps[i])
  {
    if cps == [] then "" else Utf8(cps[0]) + Encode(cps[1..])
  }

  ghost predicate Encodes(cps: seq<int>, s: string) {
    Scalars(cps) && Encode(cps) == s
  }

  lemma EncodesCons(cp: int, cps: seq<int>, head: string, tail: string)
    requires Scalar(cp) && Utf8(cp) == head && Encodes(cps, tail)
    ensures Encodes([cp] + cps, head + tail)
  {
    assert ([cp] + cps)[1..] == cps;
  }

  lemma {:induction false} PointsOfText(s: string) returns (cps: seq<int>)
    requires ValidUtf8(s)
    ensures Encodes(cps, s)
    decreases |s|
  {
    if s == "" {
      cps := [];
    } else {
      var k := RuneLength(s);
      ScalarOfRune(s);
      var rest := PointsOfText(s[k..]);
      assert s == s[..k] + s[k..];
      EncodesCons(Point(s[..k]), rest, s[..k], s[k..]);
      cps := [Point(s[..k])] + rest;
    }
  }

  lemma {:induction false} EncodedIsText(cps: seq<int>)
    requires forall i :: 0 <= i < |cps| ==> Scalar(cps[i])
    ensures ValidUtf8(Encode(cps))
  {
    if cps == [] {
    } else {
      EncodedIsText(cps[1..]);
      RuneOfScalar(cps[0], Encode(cps[1..]));
      var s := Encode(cps);
      assert s[RuneLength(s)..] == Encode(cps[1..]);
    }
  }

  /** Bytes are text exactly when they are the bytes of some scalar values, one after
      another. */
  lemma TextExactly(s: string)
    ensures ValidUtf8(s) <==> exists cps: seq<int> :: Encodes(cps, s)
  {
    if ValidUtf8(s) {
      var cps := PointsOfText(s);
    }
    forall cps: seq<int> | Encodes(cps, s) ensures ValidUtf8(s) {
      EncodedIsText(cps);
    }
  }

  /** Tab to carriage return, space, next line, no-break space, and the spaces and
      separators of general punctuation and elsewhere. */
  predicate SpacePoint(cp: int) {
    || 0x09 <= cp <= 0x0D || cp == 0x20 || cp == 0x85 || cp == 0xA0 || cp == 0x1680
    || 0x2000 <= cp <= 0x200A || cp == 0x2028 || cp == 0x2029 || cp == 0x202F || cp == 0x205F || cp == 0x3000
  }

  lemma SpaceBegins(cp: int, rest: string)
    requires Scalar(cp)
    ensures SpaceLength(Utf8(cp) + rest) == if SpacePoint(cp) then |Utf8(cp)| else 0
  {
    var u := Utf8(cp);
    var s := u + rest;
    assert s[0] == u[0] && (|u| > 1 ==> s[1] == u[1]) && (|u| > 2 ==> s[2] == u[2]);
  }

  /** A text begins with white space exactly when its first rune is a space, and the
      space is then that rune. */
  lemma SpaceExactly(s: string) returns (cp: int)
    requires ValidUtf8(s) && s != ""
    ensures Scalar(cp) && Utf8(cp) <= s && SpaceLength(s) == if SpacePoint(cp) then |Utf8(cp)| else 0
  {
    var k := RuneLength(s);
    ScalarOfRune(s);
    cp := Point(s[..k]);
    SpaceBeginsAt(cp, s[..k], s[k..]);
    assert s == s[..k] + s[k..];
  }

  lemma SpaceBeginsAt(cp: int, head: string, rest: string)
    requires Scalar(cp) && Utf8(cp) == head
    ensures SpaceLength(head + rest) == if SpacePoint(cp) then |head| else 0
  {
    SpaceBegins(cp, rest);
  }

  /** Text is blank exactly when every scalar value in it is a space. */
  lemma {:induction false} BlankExactly(cps: seq<int>, s: string)
    requires Encodes(cps, s)
    ensures Blank(s) <==> forall i :: 0 <= i < |cps| ==> SpacePoint(cps[i])
  {
    if cps == [] {
    } else {
      var rest := Encode(cps[1..]);
      SpaceBegins(cps[0], rest);
      BlankExactly(cps[1..], rest);
      assert s[|Utf8(cps[0])|..] == rest;
      assert forall i :: 0 <= i < |cps[1..]| ==> cps[1..][i] == cps[i + 1];
    }
  }

  lemma {:induction false} EncodeSnoc(cps: seq<int>)
    requires Scalars(cps) && cps != []
    ensures Encode(cps) == Encode(cps[..|cps| - 1]) + Utf8(cps[|cps| - 1])
  {
    if |cps| == 1 {
      assert cps[1..] == [] && cps[..0] == [];
    } else {
      var init := cps[..|cps| - 1];
      EncodeSnoc(cps[1..]);
      assert cps[1..][..|cps| - 2] == init[1..] && init[0] == cps[0];
      Assoc(Utf8(cps[0]), Encode(init[1..]), Utf8(cps[|cps| - 1]));
    }
  }
}
