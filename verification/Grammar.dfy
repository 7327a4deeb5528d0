/** Which texts the reader takes, and as what: the grammar of RFC 8259 with numbers that
    are whole and fit, keys that do not repeat, and nesting that is bounded, said without
    the reader. */
module Grammar {
  import opened Wrappers
  import opened Text
  import opened Canon
  import Spelling
  import Unicode

  // -- white space ----------------------------------------------------------

  predicate Gap(c: char) {
    c as int == 0x20 || c as int == 0x09 || c as int == 0x0A || c as int == 0x0D
  }

  /** `t` is `s` but for white space before it. */
  predicate Spaced(s: string, t: string) {
    s == t || (s != "" && Gap(s[0]) && Spaced(s[1..], t))
  }

  lemma {:induction false} SkipsExactly(s: string, t: string)
    ensures Spaced(s, SkipSpace(s)) && (SkipSpace(s) != "" ==> !Gap(SkipSpace(s)[0]))
    ensures Spaced(s, t) && (t == "" || !Gap(t[0])) ==> SkipSpace(s) == t
  {
    if s == "" || !Gap(s[0]) {
    } else {
      SkipsExactly(s[1..], t);
    }
  }

  /** The mark `c`, perhaps after white space, and then `rest`. */
  predicate Marked(s: string, c: char, rest: string) {
    Spaced(s, [c] + rest)
  }

  lemma PastExactly(c: char, s: string, rest: string)
    requires !Gap(c)
    ensures ParsePast(c, s) == Some(rest) <==> Marked(s, c, rest)
  {
    var t := SkipSpace(s);
    SkipsExactly(s, [c] + rest);
    assert ([c] + rest)[1..] == rest;
    if t != "" && t[0] == c {
      assert t == [c] + t[1..];
    }
  }

  // -- numbers --------------------------------------------------------------

  /** What cannot follow a whole number, lest it be another. */
  predicate Ends(rest: string) {
    rest == "" || !('0' <= rest[0] <= '9' || rest[0] == '.' || rest[0] == 'e' || rest[0] == 'E')
  }

  ghost predicate Magnitude(t: string, m: int, rest: string, d: string) {
    t == d + rest && Spelling.Numeral(d, m) && Ends(rest)
  }

  ghost predicate Unsigned(t: string, m: int, rest: string) {
    exists d :: Magnitude(t, m, rest, d)
  }

  /** Digits with no zero before another, and perhaps a minus before them. */
  ghost predicate Number(t: string, n: int, rest: string) {
    Unsigned(t, n, rest) || (t != "" && t[0] == '-' && Unsigned(t[1..], -n, rest))
  }

  lemma TakenMagnitude(t: string, negative: bool)
    ensures var k := DigitRun(t);
      match ParseMagnitude(t, negative)
      case Err(_) => k == 0 || (k > 1 && t[0] == '0') || !Ends(t[k..])
                     || !(-0x8000_0000_0000_0000 <= (if negative then -(DigitsValue(t[..k]) as int) else DigitsValue(t[..k])) < 0x1_0000_0000_0000_0000)
      case Ok((v, rest)) =>
        && v.Int? && rest == t[k..] && (v.n as int) == (if negative then -(DigitsValue(t[..k]) as int) else DigitsValue(t[..k]))
        && k > 0 && (k > 1 ==> t[0] != '0') && Ends(rest)
  {
  }

  lemma MagnitudeExactly(t: string, negative: bool, n: Integer, rest: string)
    ensures ParseMagnitude(t, negative) == Ok((Int(n), rest)) <==> Unsigned(t, if negative then -(n as int) else n as int, rest)
  {
    var k := DigitRun(t);
    var m := if negative then -(n as int) else n as int;
    TakenMagnitude(t, negative);
    Spelling.WorthIsValue(t[..k]);
    assert t == t[..k] + t[k..];
    if ParseMagnitude(t, negative) == Ok((Int(n), rest)) {
      assert Magnitude(t, m, rest, t[..k]);
    }
    forall d | Magnitude(t, m, rest, d) ensures ParseMagnitude(t, negative) == Ok((Int(n), rest)) {
      DigitRunOf(d, rest);
      assert t[..k] == d && t[k..] == rest;
    }
  }

  lemma NumberExactly(t: string, n: Integer, rest: string)
    ensures ParseNumber(t) == Ok((Int(n), rest)) <==> Number(t, n, rest)
  {
    MagnitudeExactly(t, false, n, rest);
    if t != "" && t[0] == '-' {
      MagnitudeExactly(t[1..], true, n, rest);
      forall d ensures !Magnitude(t, n, rest, d) {
        assert t == d + rest && d != "" ==> d[0] == '-';
      }
    }
  }

  // -- strings --------------------------------------------------------------

  predicate HexDigitOf(c: char, n: nat) {
    n < 16 && (c == Spelling.LowHex(n) || (n >= 10 && c as int == 'A' as int + (n - 10)))
  }

  ghost predicate FourHex(s: string, a: nat, b: nat, c: nat, d: nat) {
    |s| >= 6 && s[0] == '\\' && s[1] == 'u' && HexDigitOf(s[2], a) && HexDigitOf(s[3], b) && HexDigitOf(s[4], c) && HexDigitOf(s[5], d)
  }

  /** `s` begins with a backslash, a `u` and the four hex digits of a code unit. */
  ghost predicate Unit(s: string, u: int) {
    exists a: nat, b: nat, c: nat, d: nat :: FourHex(s, a, b, c, d) && u == a * 4096 + b * 256 + c * 16 + d
  }

  lemma HexExactly(c: char, n: nat)
    ensures HexValue(c) == Some(n) <==> HexDigitOf(c, n)
  {
  }

  lemma UnitExactly(s: string, u: nat)
    ensures CodeUnit(s) == Some(u) <==> Unit(s, u)
  {
    forall c: char, n: nat ensures HexValue(c) == Some(n) <==> HexDigitOf(c, n) {
      HexExactly(c, n);
    }
    if CodeUnit(s) == Some(u) {
      assert FourHex(s, HexValue(s[2]).value, HexValue(s[3]).value, HexValue(s[4]).value, HexValue(s[5]).value);
    }
  }

  /** What a backslash and a letter stand for. */
  predicate Letter(c: char, b: char) {
    || ((c == '\"' || c == '\\' || c == '/') && b == c)
    || (c == 'b' && b as int == 0x08) || (c == 'f' && b as int == 0x0C) || (c == 'n' && b as int == 0x0A)
    || (c == 'r' && b as int == 0x0D) || (c == 't' && b as int == 0x09)
  }

  predicate High(u: int) {
    0xD800 <= u < 0xDC00
  }

  predicate Low(u: int) {
    0xDC00 <= u < 0xE000
  }

  ghost predicate LowUnit(s: string) {
    exists u: int :: Unit(s, u) && Low(u)
  }

  /** A character as it is: none below a space, no quote and no backslash. */
  predicate Plain(s: string, b: string, w: string) {
    s != "" && s[0] as int >= 0x20 && s[0] != '\"' && s[0] != '\\' && b == [s[0]] && w == s[1..]
  }

  predicate Escaped(s: string, b: string, w: string) {
    |s| >= 2 && s[0] == '\\' && |b| == 1 && Letter(s[1], b[0]) && w == s[2..]
  }

  /** A code unit by its number: alone, as half of a pair with the next, or as half of
      nothing, which reads as the replacement character. */
  ghost predicate Numbered(s: string, u: int, b: string, w: string) {
    && |s| >= 6 && Unit(s, u)
    && if !High(u) && !Low(u) then 0 <= u < 0x1_0000 && b == Unicode.Utf8(u) && w == s[6..]
       else if High(u) && LowUnit(s[6..]) then
         |s| >= 12 && w == s[12..]
         && exists l: int :: Unit(s[6..], l) && Low(l) && b == Unicode.Utf8(0x1_0000 + (u - 0xD800) * 0x400 + (l - 0xDC00))
       else b == Unicode.Utf8(0xFFFD) && w == s[6..]
  }

  /** One piece of a string's text: it stands for `b`, and `w` follows. */
  ghost predicate Piece(s: string, b: string, w: string) {
    |w| < |s| && (Plain(s, b, w) || Escaped(s, b, w) || exists u: int :: Numbered(s, u, b, w))
  }

  /** The text of a string up to and past its closing quote. */
  ghost predicate Literal(s: string, x: string, rest: string)
    decreases |s|
  {
    || (s == ['\"'] + rest && x == "")
    || exists b, w, y :: Piece(s, b, w) && x == b + y && Literal(w, y, rest)
  }

  lemma UnitIsOne(s: string, u: int)
    requires Unit(s, u)
    ensures |s| >= 6 && s[0] == '\\' && s[1] == 'u' && 0 <= u < 0x1_0000 && CodeUnit(s) == Some(u)
  {
    var a: nat, b: nat, c: nat, d: nat :| FourHex(s, a, b, c, d) && u == a * 4096 + b * 256 + c * 16 + d;
    UnitExactly(s, u);
  }

  lemma LowUnitExactly(s: string)
    ensures LowUnit(s) <==> CodeUnit(s).Some? && Low(CodeUnit(s).value)
  {
    if CodeUnit(s).Some? {
      UnitExactly(s, CodeUnit(s).value);
    }
    forall u: int | Unit(s, u) && Low(u) ensures CodeUnit(s) == Some(u) {
      UnitIsOne(s, u);
    }
  }

  lemma RuneIsUtf8(cp: nat)
    requires Unicode.Scalar(cp)
    ensures EncodeRune(cp) == Unicode.Utf8(cp)
  {
  }

  lemma NumberedExactly(s: string, b: string, w: string)
    ensures (exists u: int :: Numbered(s, u, b, w)) <==>
      EscapedRune(s).Some? && b == EncodeRune(EscapedRune(s).value.0) && w == s[EscapedRune(s).value.1..]
  {
    if CodeUnit(s).Some? {
      var u := CodeUnit(s).value;
      UnitExactly(s, u);
      UnitsPiece(s, u, b, w);
    }
    forall u: int | Numbered(s, u, b, w) ensures CodeUnit(s) == Some(u) {
      UnitIsOne(s, u);
    }
  }

  lemma UnitsPiece(s: string, u: nat, b: string, w: string)
    requires Unit(s, u) && CodeUnit(s) == Some(u)
    ensures Numbered(s, u, b, w) <==> b == EncodeRune(EscapedRune(s).value.0) && w == s[EscapedRune(s).value.1..]
  {
    LowUnitExactly(s[6..]);
    RuneIsUtf8(0xFFFD);
    if !High(u) && !Low(u) {
      RuneIsUtf8(u);
    } else if High(u) && LowUnit(s[6..]) {
      var l := CodeUnit(s[6..]).value;
      UnitExactly(s[6..], l);
      RuneIsUtf8(0x1_0000 + (u - 0xD800) * 0x400 + (l - 0xDC00));
      forall k: int | Unit(s[6..], k) ensures k == l {
        UnitIsOne(s[6..], k);
      }
    }
  }

  lemma PieceReads(s: string, b: string, w: string)
    requires Piece(s, b, w)
    ensures Unescape(s) == Prepend(b, Unescape(w)) && s[0] != '\"'
  {
    NumberedExactly(s, b, w);
    if Escaped(s, b, w) {
      assert SimpleEscape(s[1]) == Some(b[0]) && b == [b[0]];
    }
  }

  lemma PieceTaken(s: string) returns (b: string, w: string)
    requires Unescape(s).Some? && s[0] != '\"'
    ensures Piece(s, b, w)
  {
    if s[0] != '\\' {
      b, w := [s[0]], s[1..];
    } else if s[1] == 'u' {
      var (cp, n) := EscapedRune(s).value;
      b, w := EncodeRune(cp), s[n..];
      NumberedExactly(s, b, w);
    } else {
      b, w := [SimpleEscape(s[1]).value], s[2..];
      assert Escaped(s, b, w);
    }
  }

  /** What the reader takes for the rest of a string is its text, and it takes every
      text. */
  lemma {:induction false} LiteralExactly(s: string, x: string, rest: string)
    ensures Unescape(s) == Some((x, rest)) <==> Literal(s, x, rest)
    decreases |s|
  {
    if s != "" && s[0] == '\"' {
      assert s == ['\"'] + s[1..];
      forall b, w ensures !Piece(s, b, w) {
        if Piece(s, b, w) {
          PieceReads(s, b, w);
        }
      }
    } else {
      if Unescape(s) == Some((x, rest)) {
        var b, w := PieceTaken(s);
        PieceReads(s, b, w);
        LiteralExactly(w, Unescape(w).value.0, rest);
      }
      forall b, w, y | Piece(s, b, w) && x == b + y && Literal(w, y, rest) ensures Unescape(s) == Some((x, rest)) {
        PieceReads(s, b, w);
        LiteralExactly(w, y, rest);
      }
    }
  }

  // -- documents ------------------------------------------------------------

  ghost predicate NoKeyTwice(ms: seq<Member>) {
    forall i, j :: 0 <= i < j < |ms| ==> ms[i].key != ms[j].key
  }

  /** Something was taken. */
  predicate Shorter(rest: string, s: string) {
    |rest| < |s|
  }

  /** `s` is a text of `v`, perhaps after white space, and then `rest`. */
  ghost predicate Reads(s: string, v: Value, rest: string)
    decreases v, 1
  {
    exists t :: Spaced(s, t) && t != "" && !Gap(t[0]) && Bare(t, v, rest)
  }

  ghost predicate Bare(t: string, v: Value, rest: string)
    requires t != ""
    decreases v, 0
  {
    match v
    case Null => t == ['n', 'u', 'l', 'l'] + rest
    case Bool(b) => t == (if b then ['t', 'r', 'u', 'e'] else ['f', 'a', 'l', 's', 'e']) + rest
    case Int(n) => Number(t, n, rest)
    case Str(x) => t[0] == '\"' && Literal(t[1..], x, rest)
    case List(es) => t[0] == '[' && if es == [] then Marked(t[1..], ']', rest) else ReadsElems(t[1..], es, rest)
    case Object(ms) =>
      t[0] == '{' && if ms == [] then Marked(t[1..], '}', rest) else NoKeyTwice(ms) && ReadsMembers(t[1..], ms, rest)
    case Refused(_) => false
  }

  /** Elements with a comma between each two, and a closing bracket. */
  ghost predicate ReadsElems(s: string, es: seq<Value>, rest: string)
    requires es != []
    decreases es, 1
  {
    exists w :: Shorter(w, s) && Reads(s, es[0], w) && AfterElem(w, es, rest)
  }

  ghost predicate AfterElem(w: string, es: seq<Value>, rest: string)
    requires es != []
    decreases es, 0
  {
    if |es| == 1 then Marked(w, ']', rest) else exists u :: Marked(w, ',', u) && ReadsElems(u, es[1..], rest)
  }

  /** A string, a colon, and then `x`. */
  ghost predicate Keyed(s: string, key: string, x: string) {
    exists k, c :: Marked(s, '\"', k) && Literal(k, key, c) && Marked(c, ':', x)
  }

  /** Members with a comma between each two, and a closing brace. */
  ghost predicate ReadsMembers(s: string, ms: seq<Member>, rest: string)
    requires ms != []
    decreases ms, 1
  {
    exists x, w :: Shorter(w, x) && Keyed(s, ms[0].key, x) && Reads(x, ms[0].val, w) && AfterMember(w, ms, rest)
  }

  ghost predicate AfterMember(w: string, ms: seq<Member>, rest: string)
    requires ms != []
    decreases ms, 0
  {
    if |ms| == 1 then Marked(w, '}', rest) else exists u :: Marked(w, ',', u) && ReadsMembers(u, ms[1..], rest)
  }

  lemma ReadsSkips(s: string, v: Value, rest: string)
    ensures Reads(s, v, rest) <==> SkipSpace(s) != "" && Bare(SkipSpace(s), v, rest)
  {
    SkipsExactly(s, "");
    forall t | Spaced(s, t) && t != "" && !Gap(t[0]) ensures t == SkipSpace(s) {
      SkipsExactly(s, t);
    }
  }

  lemma NumberHead(t: string, n: int, rest: string)
    requires Number(t, n, rest)
    ensures t != "" && (t[0] == '-' || '0' <= t[0] <= '9')
  {
    if Unsigned(t, n, rest) {
      var d :| Magnitude(t, n, rest, d);
      assert t[0] == d[0];
    }
  }

  lemma ScalarExactly(t: string, v: Value, rest: string)
    requires t != "" && !v.List? && !v.Object?
    ensures t[0] != '[' && t[0] != '{' ==> (ParseScalar(t) == Ok((v, rest)) <==> Bare(t, v, rest))
    ensures Bare(t, v, rest) ==> t[0] != '[' && t[0] != '{' && t[0] != ']' && t[0] != '}'
  {
    match v
    case Null => WordTaken(t, ['n', 'u', 'l', 'l'], rest);
    case Bool(b) => WordTaken(t, if b then ['t', 'r', 'u', 'e'] else ['f', 'a', 'l', 's', 'e'], rest);
    case Int(n) =>
      NumberExactly(t, n, rest);
      if Number(t, n, rest) {
        NumberHead(t, n, rest);
      }
    case Str(x) => LiteralExactly(t[1..], x, rest);
    case Refused(_) =>
  }

  lemma WordTaken(t: string, word: string, rest: string)
    ensures t == word + rest <==> word <= t && t[|word|..] == rest
  {
  }

  lemma ReadsHead(s: string, v: Value, rest: string)
    requires Reads(s, v, rest)
    ensures SkipSpace(s) != "" && SkipSpace(s)[0] != ']' && SkipSpace(s)[0] != '}'
  {
    ReadsSkips(s, v, rest);
    if !v.List? && !v.Object? {
      ScalarExactly(SkipSpace(s), v, rest);
    }
  }

  /** The reader takes a document, at some depth, exactly when it is one and its nesting
      stays within the limit; and what it leaves is what follows. */
  lemma {:induction false} ReadsExactly(s: string, depth: nat, v: Value, rest: string)
    ensures ParseValue(s, depth) == Ok((v, rest)) <==> Reads(s, v, rest) && depth + Nesting(v) <= MAX_DEPTH
    decreases v, 4
  {
    ReadsSkips(s, v, rest);
    var t := SkipSpace(s);
    if t != "" && depth <= MAX_DEPTH {
      if v.List? {
        if t[0] == '[' {
          ListExactly(t[1..], depth, v.elems, rest);
        }
      } else if v.Object? {
        if t[0] == '{' {
          ObjectExactly(t[1..], depth, v.members, rest);
        }
      } else {
        ScalarExactly(t, v, rest);
      }
    }
  }

  lemma SkipsTwice(s: string)
    ensures SkipSpace(SkipSpace(s)) == SkipSpace(s)
  {
    SkipsExactly(s, "");
    SkipsExactly(SkipSpace(s), SkipSpace(s));
  }

  lemma {:induction false} ListExactly(s: string, depth: nat, es: seq<Value>, rest: string)
    requires depth <= MAX_DEPTH
    ensures ParseList(s, depth) == Ok((List(es), rest)) <==>
      (if es == [] then Marked(s, ']', rest) else ReadsElems(s, es, rest)) && depth + NestingElems(es) <= MAX_DEPTH
    decreases es, 2
  {
    var u := SkipSpace(s);
    PastExactly(']', s, rest);
    SkipsTwice(s);
    if es == [] {
      if u == "" || u[0] != ']' {
        NeverNone(u, depth, rest);
      }
    } else {
      ElemsExactly(u, depth, es, rest);
      ElemsSkip(s, es, rest);
      if ReadsElems(u, es, rest) {
        var w :| Reads(u, es[0], w);
        ReadsHead(u, es[0], w);
      }
    }
  }

  /** One or more means one or more. */
  lemma NeverNone(s: string, depth: nat, rest: string)
    ensures ParseElems(s, depth) != Ok(([], rest))
    ensures forall seen :: ParseMembers(s, depth, seen) != Ok(([], rest))
  {
  }

  /** What was read first stands first. */
  lemma FirstStands(v: Value, w: string, depth: nat, m: Member, seen: set<string>)
    ensures ParseMoreElems(v, w, depth).Ok? ==> ParseMoreElems(v, w, depth).value.0 != [] && ParseMoreElems(v, w, depth).value.0[0] == v
    ensures ParseMoreMembers(m, w, depth, seen).Ok? ==>
      ParseMoreMembers(m, w, depth, seen).value.0 != [] && ParseMoreMembers(m, w, depth, seen).value.0[0] == m
  {
  }

  lemma ConsIs<T>(x: T, tail: seq<T>, s: seq<T>)
    requires s != []
    ensures [x] + tail == s <==> x == s[0] && tail == s[1..]
  {
    assert ([x] + tail)[1..] == tail;
  }

  lemma SpacedShortens(s: string, t: string)
    requires Spaced(s, t)
    ensures |t| <= |s|
  {
  }

  lemma {:induction false} ElemsShorten(s: string, es: seq<Value>, rest: string)
    requires es != [] && ReadsElems(s, es, rest)
    ensures |rest| < |s|
    decreases es
  {
    var w :| Shorter(w, s) && Reads(s, es[0], w) && AfterElem(w, es, rest);
    if |es| == 1 {
      SpacedShortens(w, [']'] + rest);
    } else {
      var u :| Marked(w, ',', u) && ReadsElems(u, es[1..], rest);
      SpacedShortens(w, [','] + u);
      ElemsShorten(u, es[1..], rest);
    }
  }

  lemma {:induction false} MembersShorten(s: string, ms: seq<Member>, rest: string)
    requires ms != [] && ReadsMembers(s, ms, rest)
    ensures |rest| < |s|
    decreases ms
  {
    var x, w :| Shorter(w, x) && Keyed(s, ms[0].key, x) && Reads(x, ms[0].val, w) && AfterMember(w, ms, rest);
    KeyExactly(s, ms[0].key, x);
    if |ms| == 1 {
      SpacedShortens(w, ['}'] + rest);
    } else {
      var u :| Marked(w, ',', u) && ReadsMembers(u, ms[1..], rest);
      SpacedShortens(w, [','] + u);
      MembersShorten(u, ms[1..], rest);
    }
  }

  lemma ReadsShortens(s: string, v: Value, rest: string)
    requires Reads(s, v, rest)
    ensures |rest| < |SkipSpace(s)|
  {
    ReadsSkips(s, v, rest);
    var t := SkipSpace(s);
    match v
    case List(es) =>
      if es == [] {
        SpacedShortens(t[1..], [']'] + rest);
      } else {
        ElemsShorten(t[1..], es, rest);
      }
    case Object(ms) =>
      if ms == [] {
        SpacedShortens(t[1..], ['}'] + rest);
      } else {
        MembersShorten(t[1..], ms, rest);
      }
    case _ => ScalarExactly(t, v, rest);
  }

  lemma ElemsSkip(s: string, es: seq<Value>, rest: string)
    requires es != []
    ensures ReadsElems(SkipSpace(s), es, rest) <==> ReadsElems(s, es, rest)
  {
    SkipsTwice(s);
    forall w ensures Reads(s, es[0], w) <==> Reads(SkipSpace(s), es[0], w) {
      ReadsSkips(s, es[0], w);
      ReadsSkips(SkipSpace(s), es[0], w);
    }
    forall w | Reads(s, es[0], w) ensures Shorter(w, SkipSpace(s)) && Shorter(w, s) {
      ReadsShortens(s, es[0], w);
    }
  }

  lemma {:induction false} ElemsExactly(s: string, depth: nat, es: seq<Value>, rest: string)
    requires es != []
    ensures ParseElems(s, depth) == Ok((es, rest)) <==> ReadsElems(s, es, rest) && depth + NestingElems(es) <= MAX_DEPTH
    decreases es, 1
  {
    if ParseElems(s, depth) == Ok((es, rest)) {
      var (v, w) := ParseValue(s, depth + 1).value;
      FirstStands(v, w, depth, Member("", v), {});
      ReadsExactly(s, depth + 1, es[0], w);
      MoreElemsExactly(w, depth, es, rest);
    }
    if ReadsElems(s, es, rest) && depth + NestingElems(es) <= MAX_DEPTH {
      var w :| Shorter(w, s) && Reads(s, es[0], w) && AfterElem(w, es, rest);
      ReadsExactly(s, depth + 1, es[0], w);
      MoreElemsExactly(w, depth, es, rest);
    }
  }

  lemma {:induction false} MoreElemsExactly(w: string, depth: nat, es: seq<Value>, rest: string)
    requires es != []
    ensures ParseMoreElems(es[0], w, depth) == Ok((es, rest)) <==>
      AfterElem(w, es, rest) && (|es| > 1 ==> depth + NestingElems(es[1..]) <= MAX_DEPTH)
    decreases es, 0
  {
    PastExactly(']', w, rest);
    if |es| == 1 {
      assert es == [es[0]];
      if ParsePast(',', w).Some? {
        NeverNone(ParsePast(',', w).value, depth, rest);
      }
    } else {
      if ParsePast(',', w).Some? {
        var u := ParsePast(',', w).value;
        PastExactly(',', w, u);
        ElemsExactly(u, depth, es[1..], rest);
        if ParseElems(u, depth).Ok? {
          ConsIs(es[0], ParseElems(u, depth).value.0, es);
        }
      }
      if AfterElem(w, es, rest) {
        var u :| Marked(w, ',', u) && ReadsElems(u, es[1..], rest);
        PastExactly(',', w, u);
      }
    }
  }

  lemma {:induction false} ObjectExactly(s: string, depth: nat, ms: seq<Member>, rest: string)
    requires depth <= MAX_DEPTH
    ensures ParseObject(s, depth) == Ok((Object(ms), rest)) <==>
      && (if ms == [] then Marked(s, '}', rest) else NoKeyTwice(ms) && ReadsMembers(s, ms, rest))
      && depth + NestingMembers(ms) <= MAX_DEPTH
    decreases ms, 3
  {
    var u := SkipSpace(s);
    PastExactly('}', s, rest);
    SkipsTwice(s);
    if ms == [] {
      if u == "" || u[0] != '}' {
        NeverNone(u, depth, rest);
      }
    } else {
      MembersExactly(u, depth, {}, ms, rest);
      MembersSkip(s, ms, rest);
      if ReadsMembers(u, ms, rest) {
        var x :| Keyed(u, ms[0].key, x);
        KeyHead(u, ms[0].key, x);
      }
    }
  }

  lemma KeyHead(s: string, key: string, x: string)
    requires Keyed(s, key, x)
    ensures SkipSpace(s) != "" && SkipSpace(s)[0] == '\"'
  {
    var k, c :| Marked(s, '\"', k) && Literal(k, key, c) && Marked(c, ':', x);
    PastExactly('\"', s, k);
  }

  lemma KeyExactly(s: string, key: string, x: string)
    ensures Keyed(s, key, x) <==>
      ParseKey(s).Some? && ParseKey(s).value.0 == key && ParsePast(':', ParseKey(s).value.1) == Some(x)
  {
    forall k ensures ParsePast('\"', s) == Some(k) <==> Marked(s, '\"', k) {
      PastExactly('\"', s, k);
    }
    forall k, c ensures Unescape(k) == Some((key, c)) <==> Literal(k, key, c) {
      LiteralExactly(k, key, c);
    }
    forall c ensures ParsePast(':', c) == Some(x) <==> Marked(c, ':', x) {
      PastExactly(':', c, x);
    }
  }

  lemma MembersSkip(s: string, ms: seq<Member>, rest: string)
    requires ms != []
    ensures ReadsMembers(SkipSpace(s), ms, rest) <==> ReadsMembers(s, ms, rest)
  {
    SkipsTwice(s);
    forall x ensures Keyed(s, ms[0].key, x) <==> Keyed(SkipSpace(s), ms[0].key, x) {
      KeyExactly(s, ms[0].key, x);
      KeyExactly(SkipSpace(s), ms[0].key, x);
    }
  }

  ghost predicate NewKeys(ms: seq<Member>, seen: set<string>) {
    NoKeyTwice(ms) && forall i :: 0 <= i < |ms| ==> ms[i].key !in seen
  }

  lemma NewKeysTail(ms: seq<Member>, seen: set<string>)
    requires ms != []
    ensures NewKeys(ms, seen) <==> ms[0].key !in seen && NewKeys(ms[1..], seen + {ms[0].key})
  {
    var m, tail := ms[0], ms[1..];
    if m.key !in seen && NewKeys(tail, seen + {m.key}) {
      forall i, j | 0 <= i < j < |ms| ensures ms[i].key != ms[j].key {
        assert ms[j] == tail[j - 1];
        if i > 0 {
          assert ms[i] == tail[i - 1];
        }
      }
    }
  }

  lemma {:induction false} MembersExactly(s: string, depth: nat, seen: set<string>, ms: seq<Member>, rest: string)
    requires ms != []
    ensures ParseMembers(s, depth, seen) == Ok((ms, rest)) <==>
      NewKeys(ms, seen) && ReadsMembers(s, ms, rest) && depth + NestingMembers(ms) <= MAX_DEPTH
    decreases ms, 2
  {
    if ParseMembers(s, depth, seen) == Ok((ms, rest)) {
      MembersTaken(s, depth, seen, ms, rest);
    }
    if NewKeys(ms, seen) && ReadsMembers(s, ms, rest) && depth + NestingMembers(ms) <= MAX_DEPTH {
      var x, w :| Shorter(w, x) && Keyed(s, ms[0].key, x) && Reads(x, ms[0].val, w) && AfterMember(w, ms, rest);
      MembersGiven(s, depth, seen, ms, rest, x, w);
    }
  }

  lemma {:induction false} MembersTaken(s: string, depth: nat, seen: set<string>, ms: seq<Member>, rest: string)
    requires ms != [] && ParseMembers(s, depth, seen) == Ok((ms, rest))
    ensures NewKeys(ms, seen) && ReadsMembers(s, ms, rest) && depth + NestingMembers(ms) <= MAX_DEPTH
    decreases ms, 1
  {
    var (key, c) := ParseKey(s).value;
    var x := ParsePast(':', c).value;
    var (v, w) := ParseValue(x, depth + 1).value;
    FirstStands(v, w, depth, Member(key, v), seen);
    assert Shorter(w, x);
    KeyExactly(s, ms[0].key, x);
    ReadsExactly(x, depth + 1, ms[0].val, w);
    MoreMembersExactly(w, depth, seen, ms, rest);
    OneOrMore(ms, seen);
  }

  lemma {:induction false} MembersGiven(s: string, depth: nat, seen: set<string>, ms: seq<Member>, rest: string, x: string, w: string)
    requires ms != [] && NewKeys(ms, seen) && depth + NestingMembers(ms) <= MAX_DEPTH
    requires Keyed(s, ms[0].key, x) && Reads(x, ms[0].val, w) && AfterMember(w, ms, rest)
    ensures ParseMembers(s, depth, seen) == Ok((ms, rest))
    decreases ms, 1
  {
    ReadsExactly(x, depth + 1, ms[0].val, w);
    OneOrMore(ms, seen);
    MemberStep(s, depth, seen, ms[0], x, w);
    MoreMembersExactly(w, depth, seen, ms, rest);
  }

  lemma MemberStep(s: string, depth: nat, seen: set<string>, m: Member, x: string, w: string)
    requires Keyed(s, m.key, x) && m.key !in seen && ParseValue(x, depth + 1) == Ok((m.val, w))
    ensures ParseMembers(s, depth, seen) == ParseMoreMembers(m, w, depth, seen)
  {
    KeyExactly(s, m.key, x);
  }

  lemma OneOrMore(ms: seq<Member>, seen: set<string>)
    requires ms != []
    ensures NewKeys(ms, seen) <==> ms[0].key !in seen && (|ms| > 1 ==> NewKeys(ms[1..], seen + {ms[0].key}))
  {
    NewKeysTail(ms, seen);
  }

  lemma {:induction false} MoreMembersExactly(w: string, depth: nat, seen: set<string>, ms: seq<Member>, rest: string)
    requires ms != []
    ensures ParseMoreMembers(ms[0], w, depth, seen) == Ok((ms, rest)) <==>
      && AfterMember(w, ms, rest)
      && (|ms| > 1 ==> NewKeys(ms[1..], seen + {ms[0].key}) && depth + NestingMembers(ms[1..]) <= MAX_DEPTH)
    decreases ms, 0
  {
    PastExactly('}', w, rest);
    if |ms| == 1 {
      assert ms == [ms[0]];
      if ParsePast(',', w).Some? {
        NeverNone(ParsePast(',', w).value, depth, rest);
      }
    } else {
      if ParsePast(',', w).Some? {
        var u := ParsePast(',', w).value;
        PastExactly(',', w, u);
        MembersExactly(u, depth, seen + {ms[0].key}, ms[1..], rest);
        if ParseMembers(u, depth, seen + {ms[0].key}).Ok? {
          ConsIs(ms[0], ParseMembers(u, depth, seen + {ms[0].key}).value.0, ms);
        }
      }
      if AfterMember(w, ms, rest) {
        var u :| Marked(w, ',', u) && ReadsMembers(u, ms[1..], rest);
        PastExactly(',', w, u);
      }
    }
  }

  /** `raw` is a text of `v`, with nothing but white space around it. */
  ghost predicate Document(raw: string, v: Value) {
    exists rest :: Reads(raw, v, rest) && Spaced(rest, "")
  }

  /** A text is read as a document exactly when it is one, nested at most 64 deep. */
  lemma ParseExactly(raw: string, v: Value)
    ensures Parse(raw) == Ok(v) <==> Document(raw, v) && Nesting(v) <= 64
  {
    if Parse(raw) == Ok(v) {
      var rest := ParseValue(raw, 0).value.1;
      ReadsExactly(raw, 0, v, rest);
      SkipsExactly(rest, "");
    }
    forall rest | Reads(raw, v, rest) && Spaced(rest, "") && Nesting(v) <= 64 ensures Parse(raw) == Ok(v) {
      ReadsExactly(raw, 0, v, rest);
      SkipsExactly(rest, "");
    }
  }

  /** The replacement character is somewhere in it. */
  predicate Replaced(s: string) {
    exists i :: 0 <= i < |s| - 2 && s[i] as int == 0xEF && s[i + 1] as int == 0xBF && s[i + 2] as int == 0xBD
  }

  lemma ReplacedExactly(s: string)
    ensures Replaced(s) <==> Mentions(s, REPLACEMENT_BYTES)
  {
    if i :| 0 <= i < |s| - 2 && s[i] as int == 0xEF && s[i + 1] as int == 0xBF && s[i + 2] as int == 0xBD {
      assert s[i..][..3] == REPLACEMENT_BYTES;
      assert REPLACEMENT_BYTES <= s[i..];
    }
    if i :| 0 <= i <= |s| && REPLACEMENT_BYTES <= s[i..] {
      assert s[i] == s[i..][0] && s[i + 1] == s[i..][1] && s[i + 2] == s[i..][2];
    }
  }

  /** What canonical form a text has: the one the document it is a text of is written in,
      where it can be, unless that brings in a replacement character. */
  lemma CanonicalExactly(raw: string, out: string)
    ensures Canonical(raw) == Ok(out) <==>
      && ValidUtf8(raw) && (exists v :: Document(raw, v) && Marshal(v, Decoded) == Ok(out))
      && (Replaced(out) ==> Replaced(raw))
  {
    ReplacedExactly(out);
    ReplacedExactly(raw);
    if Parse(raw).Ok? {
      ParseExactly(raw, Parse(raw).value);
    }
    forall v | Document(raw, v) && Marshal(v, Decoded) == Ok(out) ensures Parse(raw) == Ok(v) {
      MarshalAdmits(v, Decoded);
      NestingNormal(v);
      ParseExactly(raw, v);
    }
  }
}
