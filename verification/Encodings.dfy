/** Bytes as text, text as lines, and the chain's own file, each spelled out. */
module Encodings {
  import opened Wrappers
  import opened Wire
  import opened Text
  import opened ChainEntry
  import Base64
  import ChainFile
  import Digest
  import Findings
  import Lines
  import Spelling
  import Unicode

  // -- hex ------------------------------------------------------------------

  /** Two lower-case hex digits a byte, the high one first. */
  lemma {:induction false} HexExactly(b: bytes, i: nat)
    requires i < |b|
    ensures |Digest.Hex(b)| == 2 * |b|
    ensures Digest.Hex(b)[2 * i] == Spelling.LowHex(b[i] / 16) && Digest.Hex(b)[2 * i + 1] == Spelling.LowHex(b[i] % 16)
  {
    HexDigitExactly(b[i] / 16);
    HexDigitExactly(b[i] % 16);
    if i == 0 {
    } else {
      HexExactly(b[1..], i - 1);
    }
  }

  lemma HexDigitExactly(n: nat)
    requires n < 16
    ensures HexDigit(n) == Spelling.LowHex(n)
  {
  }

  // -- base64 (RFC 4648, section 4) -----------------------------------------

  const LETTERS := "ABCDEFGHIJKLMNOPQRSTUVWXYZ"

  /** The sixty-four characters: capitals, small letters, digits, plus and slash. */
  function Radix(n: nat): char
    requires n < 64
  {
    if n < 26 then LETTERS[n]
    else if n < 52 then (LETTERS[n - 26] as int + 32) as char
    else if n < 62 then (n - 52 + 48) as char
    else if n == 62 then '+'
    else '/'
  }

  /** Three bytes are one number of twenty-four bits, written six bits at a time; one or
      two left at the end are filled up with zeros, and what would be nothing but
      filling is padding. */
  function Radix64(b: bytes): string
    decreases |b|
  {
    if b == [] then "" else Group(b) + (if |b| > 3 then Radix64(b[3..]) else "")
  }

  /** The first three bytes as one number, those that are not there as zeros. */
  function Number(b: bytes): nat
    requires b != []
  {
    b[0] as nat * 65536 + (if |b| > 1 then b[1] as nat * 256 else 0) + (if |b| > 2 then b[2] as nat else 0)
  }

  function Group(b: bytes): string
    requires b != []
  {
    var n := Number(b);
    [Radix(n / 262144 % 64), Radix(n / 4096 % 64), if |b| > 1 then Radix(n / 64 % 64) else '=', if |b| > 2 then Radix(n % 64) else '=']
  }

  lemma RadixExactly(n: nat)
    requires n < 64
    ensures Base64.Symbol(n) == Radix(n)
  {
  }

  lemma Sextets(a: byte, b: byte, c: byte)
    ensures var n := a * 65536 + b * 256 + c;
      n / 262144 % 64 == a / 4 && n / 4096 % 64 == a % 4 * 16 + b / 16 && n / 64 % 64 == b % 16 * 4 + c / 64 && n % 64 == c % 64
  {
    var w, x, y, z := a / 4, a % 4 * 16 + b / 16, b % 16 * 4 + c / 64, c % 64;
    assert a * 65536 + b * 256 + c == w * 262144 + x * 4096 + y * 64 + z;
    Unicode.FourBytes(w, x, y, z);
  }

  /** The four characters of three bytes. */
  lemma RadixSextets(a: byte, b: byte, c: byte, n: nat)
    requires n == a as nat * 65536 + b as nat * 256 + c as nat
    ensures Radix(n / 262144 % 64) == Base64.Symbol(a as nat / 4) && Radix(n / 4096 % 64) == Base64.Symbol(a as nat % 4 * 16 + b as nat / 16)
    ensures Radix(n / 64 % 64) == Base64.Symbol(b as nat % 16 * 4 + c as nat / 64) && Radix(n % 64) == Base64.Symbol(c as nat % 64)
  {
    Sextets(a, b, c);
    RadixExactly(a as nat / 4);
    RadixExactly(a as nat % 4 * 16 + b as nat / 16);
    RadixExactly(b as nat % 16 * 4 + c as nat / 64);
    RadixExactly(c as nat % 64);
  }

  lemma GroupOfOne(b: bytes)
    requires |b| == 1
    ensures Group(b) == Base64.Encode(b)
  {
    RadixSextets(b[0], 0, 0, Number(b));
  }

  lemma GroupOfTwo(b: bytes)
    requires |b| == 2
    ensures Group(b) == Base64.Encode(b)
  {
    RadixSextets(b[0], b[1], 0, Number(b));
  }

  lemma GroupOfThree(b: bytes)
    requires |b| >= 3
    ensures Group(b) == Base64.Quad(b[0], b[1], b[2])
  {
    RadixSextets(b[0], b[1], b[2], Number(b));
  }

  lemma {:induction false} Base64Exactly(b: bytes)
    ensures Base64.Encode(b) == Radix64(b)
    decreases |b|
  {
    if b == [] {
    } else {
      if |b| > 3 {
        GroupOfThree(b);
        Base64Exactly(b[3..]);
      } else if |b| == 3 {
        GroupOfThree(b);
        assert b[3..] == [] && Base64.Encode([]) == "";
      } else if |b| == 2 {
        GroupOfTwo(b);
      } else {
        GroupOfOne(b);
      }
    }
  }

  // -- lines ----------------------------------------------------------------

  lemma {:induction false} SplitsAtBreaks(s: string)
    ensures forall i :: 0 <= i < |Lines.Split(s)| ==> Lines.OneLine(Lines.Split(s)[i])
  {
    if s == "" {
    } else {
      SplitsAtBreaks(s[1..]);
    }
  }

  /** Between lines there is a line break, and nothing after the last. */
  function Breaks(lines: seq<string>): string {
    if lines == [] then "" else if |lines| == 1 then lines[0] else lines[0] + ("\n" + Breaks(lines[1..]))
  }

  lemma {:induction false} BreaksIsJoin(lines: seq<string>)
    requires lines != []
    ensures Breaks(lines) == Lines.Join(lines)
  {
    if |lines| == 1 {
    } else {
      BreaksIsJoin(lines[1..]);
      Assoc(lines[0], "\n", Breaks(lines[1..]));
    }
  }

  ghost predicate Unbroken(lines: seq<string>) {
    forall i :: 0 <= i < |lines| ==> Lines.OneLine(lines[i])
  }

  /** The lines of a text are the unbroken pieces that, with a break between each two and
      perhaps one at the end, are the text; a text that is nothing, or one break, has
      none. */
  lemma LinesExactly(s: string, lines: seq<string>)
    ensures Lines.SplitLines(s) == lines <==>
      && Unbroken(lines) && lines != [""]
      && Breaks(lines) == if s != "" && s[|s| - 1] == '\n' then s[..|s| - 1] else s
  {
    var body := Lines.TrimBreak(s);
    if body == "" {
      if lines != [] && Unbroken(lines) && Breaks(lines) == "" {
        BreaksIsJoin(lines);
        Lines.SplitOfJoin(lines);
      }
    } else {
      Lines.JoinOfSplit(body);
      SplitsAtBreaks(body);
      BreaksIsJoin(Lines.Split(body));
      if lines != [] && Unbroken(lines) && Breaks(lines) == body {
        BreaksIsJoin(lines);
        Lines.SplitOfJoin(lines);
      }
    }
  }

  // -- the chain's file -----------------------------------------------------

  /** The line of a record: its signed bytes, a space, and its signature in base64. */
  function RecordLine(r: Record): string {
    r.raw + (" " + Radix64(r.sig))
  }

  /** A chain's file is a heading and the line of each record, each ended by a break. */
  lemma {:induction false} FileExactly(rs: seq<Record>)
    ensures rs == [] ==> ChainFile.Encode(rs) == "aurvet-chain-v1\n"
    ensures rs != [] ==>
      ChainFile.Encode(rs) == ChainFile.Encode(rs[..|rs| - 1]) + (RecordLine(rs[|rs| - 1]) + "\n")
  {
    if rs == [] {
      Assoc(ChainFile.FILE_HEADER, "\n", "");
    } else {
      var last := rs[|rs| - 1];
      assert rs[..|rs|] == rs;
      ChainFile.EncodeSnoc(rs, |rs| - 1);
      Base64Exactly(last.sig);
      Assoc(last.raw, " ", Radix64(last.sig));
    }
  }

  ghost predicate Holds(t: Trust, line: string, r: Record, raw: string, token: string) {
    && line == raw + (" " + token) && ' ' !in token
    && Base64.Decode(token) == Some(r.sig) && ParseRecord(t, raw, r.sig) == Ok(r)
  }

  /** A line holds a record: what comes before its last space are the signed bytes, and
      what comes after is the signature. */
  ghost predicate LineHolds(t: Trust, line: string, r: Record) {
    exists raw, token :: Holds(t, line, r, raw, token)
  }

  lemma {:induction false} LastSpaceExactly(head: string, token: string)
    requires ' ' !in token
    ensures ChainFile.LastSpace(head + (" " + token)) == Some(|head|)
    decreases |token|
  {
    var s := head + (" " + token);
    if token == "" {
      assert s[|s| - 1] == ' ';
    } else {
      var init := token[..|token| - 1];
      assert s[|s| - 1] == token[|token| - 1] && token[|token| - 1] in token;
      assert s[..|s| - 1] == head + (" " + init);
      assert forall c :: c in init ==> c in token;
      LastSpaceExactly(head, init);
    }
  }

  lemma {:induction false} LastSpaceIsLast(s: string)
    ensures match ChainFile.LastSpace(s)
      case None => ' ' !in s
      case Some(k) => s[k] == ' ' && ' ' !in s[k + 1..]
    decreases |s|
  {
    if s == "" {
    } else if s[|s| - 1] == ' ' {
    } else {
      var init := s[..|s| - 1];
      LastSpaceIsLast(init);
      assert s == init + [s[|s| - 1]];
      var k := ChainFile.LastSpace(init);
      if k.Some? {
        assert s[k.value + 1..] == init[k.value + 1..] + [s[|s| - 1]];
      }
    }
  }

  lemma LineReads(t: Trust, line: string)
    ensures ChainFile.LastSpace(line).None? || Base64.Decode(line[ChainFile.LastSpace(line).value + 1..]).None?
            ==> ChainFile.ParseLine(t, line).Err?
    ensures match ChainFile.LastSpace(line)
      case None => true
      case Some(k) =>
        match Base64.Decode(line[k + 1..])
        case None => true
        case Some(sig) => ChainFile.ParseLine(t, line) == ParseRecord(t, line[..k], sig)
  {
  }

  lemma CutAt(line: string, k: nat)
    requires k < |line| && line[k] == ' '
    ensures line == line[..k] + (" " + line[k + 1..])
  {
  }

  lemma RecordKeepsSignature(t: Trust, raw: string, sig: bytes, r: Record)
    requires ParseRecord(t, raw, sig) == Ok(r)
    ensures r.sig == sig
  {
    ParseRecordExact(t, raw, sig, r);
  }

  lemma LineIsHeld(t: Trust, line: string, r: Record)
    requires ChainFile.ParseLine(t, line) == Ok(r)
    ensures LineHolds(t, line, r)
  {
    LineReads(t, line);
    LastSpaceIsLast(line);
    var k := ChainFile.LastSpace(line).value;
    RecordKeepsSignature(t, line[..k], Base64.Decode(line[k + 1..]).value, r);
    CutAt(line, k);
    assert Holds(t, line, r, line[..k], line[k + 1..]);
  }

  lemma HeldIsLine(t: Trust, line: string, r: Record, raw: string, token: string)
    requires Holds(t, line, r, raw, token)
    ensures ChainFile.ParseLine(t, line) == Ok(r)
  {
    LineReads(t, line);
    LastSpaceExactly(raw, token);
    assert line[..|raw|] == raw && line[|raw| + 1..] == token;
  }

  lemma LineExactly(t: Trust, line: string, r: Record)
    ensures ChainFile.ParseLine(t, line) == Ok(r) <==> LineHolds(t, line, r)
  {
    if ChainFile.ParseLine(t, line) == Ok(r) {
      LineIsHeld(t, line, r);
    }
    forall raw, token | Holds(t, line, r, raw, token) ensures ChainFile.ParseLine(t, line) == Ok(r) {
      HeldIsLine(t, line, r, raw, token);
    }
  }

  lemma {:induction false} ReadAllExactly(read: string -> Result<Record, Error>, lines: seq<string>, rs: seq<Record>)
    ensures ChainFile.ReadAll(read, lines) == Ok(rs) <==>
      |rs| == |lines| && forall i :: 0 <= i < |lines| ==> read(lines[i]) == Ok(rs[i])
  {
    if lines == [] {
    } else if rs == [] {
    } else {
      ReadAllExactly(read, lines[1..], rs[1..]);
      assert rs == [rs[0]] + rs[1..];
      assert forall i :: 0 < i < |lines| ==> lines[i] == lines[1..][i - 1];
      assert forall i :: 0 < i < |rs| ==> rs[i] == rs[1..][i - 1];
    }
  }

  ghost predicate FileHolds(t: Trust, lines: seq<string>, rs: seq<Record>) {
    && |lines| == |rs| + 1 && Unbroken(lines) && lines[0] == "aurvet-chain-v1"
    && forall i :: 0 <= i < |rs| ==> LineHolds(t, lines[i + 1], rs[i])
  }

  /** The lines of a text, but for a break at its end, hold some records. */
  ghost predicate TextHolds(t: Trust, text: string, rs: seq<Record>) {
    exists lines: seq<string> :: FileHolds(t, lines, rs)
      && Breaks(lines) == if text != "" && text[|text| - 1] == '\n' then text[..|text| - 1] else text
  }

  /** A file reads as some records exactly when its lines are the heading and one line
      holding each, in order. */
  lemma FileReadsExactly(t: Trust, text: string, rs: seq<Record>)
    ensures ChainFile.Parse(t, text) == Ok(rs) <==> TextHolds(t, text, rs)
  {
    var body := Lines.TrimBreak(text);
    var lines := Lines.Split(body);
    Lines.JoinOfSplit(body);
    SplitsAtBreaks(body);
    BreaksIsJoin(lines);
    LinesHold(t, lines, rs);
    forall other: seq<string> | FileHolds(t, other, rs) && Breaks(other) == body ensures other == lines {
      BreaksIsJoin(other);
      Lines.SplitOfJoin(other);
    }
  }

  lemma LinesHold(t: Trust, lines: seq<string>, rs: seq<Record>)
    requires lines != [] && Unbroken(lines)
    ensures (lines[0] == ChainFile.FILE_HEADER && ChainFile.ReadAll(ChainFile.LineReader(t), lines[1..]) == Ok(rs))
            <==> FileHolds(t, lines, rs)
  {
    ReadAllExactly(ChainFile.LineReader(t), lines[1..], rs);
    if |lines| == |rs| + 1 {
      forall i | 0 <= i < |rs| ensures ChainFile.LineReader(t)(lines[1..][i]) == Ok(rs[i]) <==> LineHolds(t, lines[i + 1], rs[i]) {
        LineExactly(t, lines[i + 1], rs[i]);
      }
    }
  }

  // -- fingerprints ---------------------------------------------------------

  /** A fingerprint's pre-image: each of the four fields after its own length and a
      colon; and the fingerprint: the first sixteen bytes of its hash, in hex. */
  lemma FingerprintExactly(sha256: Findings.Hash, ruleId: string, kind: string, subject: string, scope: string)
    returns (a: string, b: string, c: string, d: string)
    ensures Spelling.Numeral(a, |ruleId|) && Spelling.Numeral(b, |kind|) && Spelling.Numeral(c, |subject|) && Spelling.Numeral(d, |scope|)
    ensures var image := a + (":" + (ruleId + (b + (":" + (kind + (c + (":" + (subject + (d + (":" + (scope + "")))))))))));
      |sha256(image)| >= 16 ==> Findings.FingerprintOf(sha256, ruleId, kind, subject, scope) == Digest.Hex(sha256(image)[..16])
  {
    a, b, c, d := Digits(|ruleId|), Digits(|kind|), Digits(|subject|), Digits(|scope|);
    Spelling.DigitsAreANumeral(|ruleId|);
    Spelling.DigitsAreANumeral(|kind|);
    Spelling.DigitsAreANumeral(|subject|);
    Spelling.DigitsAreANumeral(|scope|);
    EncodedSpells(ruleId, kind, subject, scope);
  }

  lemma EncodedSpells(ruleId: string, kind: string, subject: string, scope: string)
    ensures Findings.Encoded([ruleId, kind, subject, scope])
         == Digits(|ruleId|) + (":" + (ruleId + (Digits(|kind|) + (":" + (kind + (Digits(|subject|) + (":" + (subject
            + (Digits(|scope|) + (":" + (scope + "")))))))))))
  {
    assert ":" == [':'];
    assert [scope][1..] == [] && [subject, scope][1..] == [scope];
    assert [kind, subject, scope][1..] == [subject, scope] && [ruleId, kind, subject, scope][1..] == [kind, subject, scope];
    assert Findings.Encoded([scope]) == Digits(|scope|) + (":" + (scope + ""));
    assert Findings.Encoded([subject, scope]) == Digits(|subject|) + (":" + (subject + Findings.Encoded([scope])));
    assert Findings.Encoded([kind, subject, scope]) == Digits(|kind|) + (":" + (kind + Findings.Encoded([subject, scope])));
  }
}
