/** Findings, what they are identified by, and how bad the worst of them is. */
module Findings {
  import opened Wrappers
  import opened Wire
  import opened Text
  import opened Digest

  datatype Severity = Info | Suspicious | Critical

  function Rank(s: Severity): nat {
    match s case Info => 0 case Suspicious => 1 case Critical => 2
  }

  /** One detection. Its wording is left out; its evidence is what a pin binds. */
  datatype Finding = Finding(ruleId: string, subjectKind: string, subject: string, severity: Severity, evidence: seq<string>)

  /** A check that could not run. */
  datatype Gap = Gap(ruleId: string, subject: string)

  method MaxSeverity(findings: seq<Finding>) returns (max: Severity)
    ensures forall f :: f in findings ==> Rank(f.severity) <= Rank(max)
    ensures max == Info || exists f :: f in findings && f.severity == max
    ensures max == Critical <==> exists f :: f in findings && f.severity == Critical
    ensures max == Info <==> forall f :: f in findings ==> f.severity == Info
  {
    max := Info;
    for i := 0 to |findings|
      invariant forall f :: f in findings[..i] ==> Rank(f.severity) <= Rank(max)
      invariant max == Info || exists f :: f in findings[..i] && f.severity == max
    {
      assert findings[..i + 1] == findings[..i] + [findings[i]];
      assert findings[i] in findings[..i + 1];
      if Rank(findings[i].severity) > Rank(max) {
        max := findings[i].severity;
      } else {
        assert forall f :: f in findings[..i] ==> f in findings[..i + 1];
      }
    }
    assert findings[..|findings|] == findings;
  }

  // -- the fingerprint ------------------------------------------------------

  /** A field and what follows it: its length in decimal, a colon, its bytes. */
  function PutField(field: string, rest: string): string {
    Digits(|field|) + ([':'] + (field + rest))
  }

  function Encoded(fields: seq<string>): string {
    if fields == [] then "" else PutField(fields[0], Encoded(fields[1..]))
  }

  /** No byte can move across a field boundary. */
  lemma PutFieldInjective(a: string, s: string, b: string, t: string)
    requires PutField(a, s) == PutField(b, t)
    ensures a == b && s == t
  {
    var m, n := Digits(|a|), Digits(|b|);
    DigitRunOf(m, [':'] + (a + s));
    DigitRunOf(n, [':'] + (b + t));
    assert m == PutField(a, s)[..|m|] && n == PutField(b, t)[..|n|];
    DigitsInjective(|a|, |b|);
    assert [':'] + (a + s) == PutField(a, s)[|m|..] && [':'] + (b + t) == PutField(b, t)[|n|..];
    assert a + s == ([':'] + (a + s))[1..] && b + t == ([':'] + (b + t))[1..];
    assert a == (a + s)[..|a|] && s == (a + s)[|a|..];
    assert b == (b + t)[..|b|] && t == (b + t)[|b|..];
  }

  /** Different lists of fields, of whatever lengths, have different encodings. */
  lemma {:induction false} EncodedInjective(fs: seq<string>, gs: seq<string>)
    requires Encoded(fs) == Encoded(gs)
    ensures fs == gs
  {
    if fs == [] || gs == [] {
    } else {
      PutFieldInjective(fs[0], Encoded(fs[1..]), gs[0], Encoded(gs[1..]));
      EncodedInjective(fs[1..], gs[1..]);
      assert fs == [fs[0]] + fs[1..] && gs == [gs[0]] + gs[1..];
    }
  }

  type Hash = string -> bytes

  function Truncated(h: bytes): bytes {
    if |h| >= 16 then h[..16] else h
  }

  function FingerprintOf(sha256: Hash, ruleId: string, kind: string, subject: string, scope: string): string {
    Hex(Truncated(sha256(Encoded([ruleId, kind, subject, scope]))))
  }

  lemma FieldWritten(b: string, field: string, rest: string)
    ensures ((b + Digits(|field|) + ":") + field) + rest == b + PutField(field, rest)
  {
    var d, tail := Digits(|field|), field + rest;
    Assoc(b + d + ":", field, rest);
    Assoc(b + d, [':'], tail);
    Assoc(b, d, [':'] + tail);
  }

  method Fingerprint(sha256: Hash, ruleId: string, kind: string, subject: string, scope: string) returns (r: string)
    ensures r == FingerprintOf(sha256, ruleId, kind, subject, scope)
  {
    var fields, b := [ruleId, kind, subject, scope], "";
    assert b + Encoded(fields) == Encoded(fields);
    for i := 0 to |fields|
      invariant b + Encoded(fields[i..]) == Encoded(fields)
    {
      FieldWritten(b, fields[i], Encoded(fields[i + 1..]));
      assert fields[i..][1..] == fields[i + 1..];
      b := b + Digits(|fields[i]|) + ":";
      b := b + fields[i];
    }
    assert b + "" == b;
    r := Hex(Truncated(sha256(b)));
  }

  /** Two inputs that differ and whose hashes begin alike. */
  ghost predicate PrefixCollision(sha256: Hash, x: string, y: string) {
    x != y && Truncated(sha256(x)) == Truncated(sha256(y))
  }

  /** One fingerprint is one rule, subject and scope, or a collision is at hand. */
  lemma FingerprintIdentifies(sha256: Hash, a: (string, string, string, string), b: (string, string, string, string))
    requires FingerprintOf(sha256, a.0, a.1, a.2, a.3) == FingerprintOf(sha256, b.0, b.1, b.2, b.3)
    ensures a == b || PrefixCollision(sha256, Encoded([a.0, a.1, a.2, a.3]), Encoded([b.0, b.1, b.2, b.3]))
  {
    var fs, gs := [a.0, a.1, a.2, a.3], [b.0, b.1, b.2, b.3];
    HexInjective(Truncated(sha256(Encoded(fs))), Truncated(sha256(Encoded(gs))));
    if Encoded(fs) == Encoded(gs) {
      EncodedInjective(fs, gs);
      assert fs[0] == gs[0] && fs[1] == gs[1] && fs[2] == gs[2] && fs[3] == gs[3];
    }
  }
}
