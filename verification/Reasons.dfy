/** The reason a record must give, by code points. */
module Reasons {
  import opened Text
  import opened Unicode
  import opened Adjudications

  function Content(cps: seq<int>): nat {
    if cps == [] then 0 else (if SpacePoint(cps[0]) then 0 else 1) + Content(cps[1..])
  }

  lemma {:induction false} ContentExactly(cps: seq<int>, s: string)
    requires Encodes(cps, s)
    ensures ContentRunes(s) == Content(cps)
  {
    if cps == [] {
    } else {
      var rest := Encode(cps[1..]);
      SpaceBegins(cps[0], rest);
      RuneOfScalar(cps[0], rest);
      ContentExactly(cps[1..], rest);
      assert s[|Utf8(cps[0])|..] == rest;
    }
  }

  lemma EndsInOne(s: string, c: char)
    requires |s| >= 1 && s[|s| - 1] == c && c as int < 0x80
    ensures TrailingSpace(s) == SpaceLength([c])
  {
    assert s[|s| - 1..] == [c];
  }

  lemma EndsInTwo(s: string, a: char, b: char)
    requires |s| >= 2 && s[|s| - 2] == a && s[|s| - 1] == b && 0xC2 <= a as int <= 0xDF && 0x80 <= b as int <= 0xBF
    ensures TrailingSpace(s) == SpaceLength([a, b])
  {
    assert s[|s| - 1..] == [b] && s[|s| - 2..] == [a, b];
  }

  lemma EndsInThree(s: string, a: char, b: char, c: char)
    requires |s| >= 3 && s[|s| - 3] == a && s[|s| - 2] == b && s[|s| - 1] == c
    requires 0xE0 <= a as int <= 0xEF && 0x80 <= b as int <= 0xBF && 0x80 <= c as int <= 0xBF
    ensures TrailingSpace(s) == SpaceLength([a, b, c])
  {
    assert s[|s| - 1..] == [c] && s[|s| - 2..] == [b, c] && s[|s| - 3..] == [a, b, c];
  }

  lemma EndsInFour(s: string, a: char, b: char, c: char, d: char)
    requires |s| >= 4 && s[|s| - 4] == a && s[|s| - 3] == b && s[|s| - 2] == c && s[|s| - 1] == d
    requires 0xF0 <= a as int && 0x80 <= b as int <= 0xBF && 0x80 <= c as int <= 0xBF && 0x80 <= d as int <= 0xBF
    ensures TrailingSpace(s) == SpaceLength([a, b, c, d]) == 0
  {
    assert s[|s| - 1..] == [d] && s[|s| - 2..] == [c, d] && s[|s| - 3..] == [b, c, d];
  }

  /** Where a text ends in one rune, the space it ends in is that rune or there is none. */
  lemma EndsInRune(head: string, u: string)
    requires OneRune(u)
    ensures TrailingSpace(head + u) == SpaceLength(u)
  {
    var s := head + u;
    assert forall i :: 0 <= i < |u| ==> s[|s| - |u| + i] == u[i];
    if |u| == 1 {
      assert u == [u[0]];
      EndsInOne(s, u[0]);
    } else if |u| == 2 {
      assert u == [u[0], u[1]];
      EndsInTwo(s, u[0], u[1]);
    } else if |u| == 3 {
      assert u == [u[0], u[1], u[2]];
      EndsInThree(s, u[0], u[1], u[2]);
    } else {
      assert u == [u[0], u[1], u[2], u[3]];
      EndsInFour(s, u[0], u[1], u[2], u[3]);
    }
  }

  /** A text ends in white space exactly when its last scalar value is a space. */
  lemma TrailingExactly(head: string, cp: int)
    requires Scalar(cp)
    ensures TrailingSpace(head + Utf8(cp)) > 0 <==> SpacePoint(cp)
  {
    ScalarIsOneRune(cp);
    EndsInRune(head, Utf8(cp));
    SpaceBegins(cp, "");
    assert Utf8(cp) + "" == Utf8(cp);
  }

  /** A reason is given exactly when it neither begins nor ends in white space and holds
      twelve to two thousand scalar values that are not. */
  lemma ReasonExactly(cps: seq<int>, s: string)
    requires Encodes(cps, s)
    ensures ValidReason(s) <==>
      cps != [] && !SpacePoint(cps[0]) && !SpacePoint(cps[|cps| - 1]) && 12 <= Content(cps) <= 2000
  {
    ContentExactly(cps, s);
    if cps == [] {
    } else {
      SpaceBegins(cps[0], Encode(cps[1..]));
      EncodeSnoc(cps);
      TrailingExactly(Encode(cps[..|cps| - 1]), cps[|cps| - 1]);
    }
  }
}
