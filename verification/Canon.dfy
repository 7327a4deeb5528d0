/** Canonical JSON: the printer whose bytes are signed, the reader that admits
    them again, and the laws that make one document have one spelling. */
module Canon {
  import opened Wrappers
  import opened Text
  import Order

  const MAX_DEPTH := 64

  datatype Error = NonInteger | NotUtf8 | UnsupportedType | DuplicateKey | NotCanonical

  /** What an int64 or a uint64 can hold. */
  type Integer = n: int | -0x8000_0000_0000_0000 <= n < 0x1_0000_0000_0000_0000

  /** A value offered to the encoder. An object is a map or a struct with its
      members in the order they happen to come; `Refused` is a Go value that has
      no canonical spelling, a float for one. */
  datatype Value =
    | Null
    | Bool(b: bool)
    | Int(n: Integer)
    | Str(s: string)
    | List(elems: seq<Value>)
    | Object(members: seq<Member>)
    | Refused(why: Error)

  datatype Member = Member(key: string, val: Value)

  predicate KeyLeq(a: Member, b: Member) {
    Order.Leq(a.key, b.key)
  }

  // -- printing -------------------------------------------------------------

  /** The value with every object's members in key order. */
  function Normal(v: Value): Value
    decreases v, 0
  {
    match v
    case List(es) => List(NormalElems(es))
    case Object(ms) => Object(Order.Sort(KeyLeq, NormalMembers(ms)))
    case _ => v
  }

  function NormalElems(es: seq<Value>): (r: seq<Value>)
    decreases es, 0
  {
    if es == [] then [] else [Normal(es[0])] + NormalElems(es[1..])
  }

  function NormalMembers(ms: seq<Member>): (r: seq<Member>)
    decreases ms, 0
  {
    if ms == [] then [] else [Member(ms[0].key, Normal(ms[0].val))] + NormalMembers(ms[1..])
  }

  function Print(v: Value): string
    decreases v, 0
  {
    match v
    case Null => "null"
    case Bool(b) => if b then "true" else "false"
    case Int(n) => Decimal(n)
    case Str(s) => Quote(s)
    case List(es) => "[" + PrintElems(es) + "]"
    case Object(ms) => "{" + PrintMembers(ms) + "}"
    case Refused(_) => ""
  }

  function PrintElems(es: seq<Value>): string
    decreases es, 0
  {
    if es == [] then ""
    else Print(es[0]) + (if |es| > 1 then "," + PrintElems(es[1..]) else "")
  }

  function PrintMembers(ms: seq<Member>): string
    decreases ms, 0
  {
    if ms == [] then ""
    else Quote(ms[0].key) + ":" + Print(ms[0].val) + (if |ms| > 1 then "," + PrintMembers(ms[1..]) else "")
  }

  function Max(a: nat, b: nat): nat {
    if a < b then b else a
  }

  /** Levels of nesting below the top: 0 for a scalar or an empty container. */
  function Nesting(v: Value): nat
    decreases v, 0
  {
    match v
    case List(es) => NestingElems(es)
    case Object(ms) => NestingMembers(ms)
    case _ => 0
  }

  function NestingElems(es: seq<Value>): nat
    decreases es, 0
  {
    if es == [] then 0 else Max(1 + Nesting(es[0]), NestingElems(es[1..]))
  }

  function NestingMembers(ms: seq<Member>): nat
    decreases ms, 0
  {
    if ms == [] then 0 else Max(1 + Nesting(ms[0].val), NestingMembers(ms[1..]))
  }

  /** How the elements of a container reach the encoder: statically typed, or
      each behind the interface a decoded tree stores them in. */
  datatype Shape = Typed | Decoded

  /** Encoder depth spent on `levels` of nesting: an interface is a level too. */
  function Cost(shape: Shape, levels: nat): nat {
    match shape
    case Typed => levels
    case Decoded => 2 * levels
  }

  /** The first thing the encoder refuses, going through the printed order. */
  function Fault(v: Value, depth: nat, shape: Shape): Option<Error>
    decreases v, 0
  {
    if depth > MAX_DEPTH then Some(NotCanonical)
    else
      match v
      case Refused(e) => Some(e)
      case Str(s) => if ValidUtf8(s) then None else Some(NotUtf8)
      case List(es) => FaultElems(es, depth, shape)
      case Object(ms) => FaultMembers(ms, None, depth, shape)
      case _ => None
  }

  function FaultElems(es: seq<Value>, depth: nat, shape: Shape): Option<Error>
    decreases es, 0
  {
    if es == [] then None
    else
      match Fault(es[0], depth + Cost(shape, 1), shape)
      case Some(e) => Some(e)
      case None => FaultElems(es[1..], depth, shape)
  }

  function FaultMembers(ms: seq<Member>, previous: Option<string>, depth: nat, shape: Shape): Option<Error>
    decreases ms, 0
  {
    if ms == [] then None
    else if previous == Some(ms[0].key) then Some(DuplicateKey)
    else if !ValidUtf8(ms[0].key) then Some(NotUtf8)
    else
      match Fault(ms[0].val, depth + Cost(shape, 1), shape)
      case Some(e) => Some(e)
      case None => FaultMembers(ms[1..], Some(ms[0].key), depth, shape)
  }

  function Marshal(v: Value, shape: Shape): Result<string, Error> {
    match Fault(Normal(v), 0, shape)
    case Some(e) => Err(e)
    case None => Ok(Print(Normal(v)))
  }

  // -- reading --------------------------------------------------------------

  predicate IsSpace(c: char) {
    c == ' ' || c == '\t' || c == '\n' || c == '\r'
  }

  function SkipSpace(s: string): (r: string)
    ensures |r| <= |s|
  {
    if s != "" && IsSpace(s[0]) then SkipSpace(s[1..]) else s
  }

  /** Only an exact 64-bit integer is a number here: "1.0" and "1e3" are not. */
  function ParseNumber(s: string): (r: Result<(Value, string), Error>)
    ensures r.Ok? ==> |r.value.1| < |s|
  {
    if s != "" && s[0] == '-' then ParseMagnitude(s[1..], true) else ParseMagnitude(s, false)
  }

  function ParseMagnitude(t: string, negative: bool): (r: Result<(Value, string), Error>)
    ensures r.Ok? ==> |r.value.1| < |t|
  {
    var k := DigitRun(t);
    if k == 0 || (k > 1 && t[0] == '0') then Err(NotCanonical)
    else if k < |t| && (t[k] == '.' || t[k] == 'e' || t[k] == 'E') then Err(NonInteger)
    else
      var n: int := if negative then -(DigitsValue(t[..k]) as int) else DigitsValue(t[..k]) as int;
      if -0x8000_0000_0000_0000 <= n < 0x1_0000_0000_0000_0000 then Ok((Int(n), t[k..])) else Err(NonInteger)
  }

  function ParseScalar(t: string): (r: Result<(Value, string), Error>)
    requires t != ""
    ensures r.Ok? ==> |r.value.1| < |t|
  {
    if t[0] == '\"' then
      match Unescape(t[1..])
      case None => Err(NotCanonical)
      case Some((str, rest)) => Ok((Str(str), rest))
    else if "null" <= t then Ok((Null, t[4..]))
    else if "true" <= t then Ok((Bool(true), t[4..]))
    else if "false" <= t then Ok((Bool(false), t[5..]))
    else ParseNumber(t)
  }

  function ParseValue(s: string, depth: nat): (r: Result<(Value, string), Error>)
    ensures r.Ok? ==> |r.value.1| < |s|
    decreases |s|, 0
  {
    if depth > MAX_DEPTH then Err(NotCanonical)
    else
      var t := SkipSpace(s);
      if t == "" then Err(NotCanonical)
      else if t[0] == '{' then ParseObject(t[1..], depth)
      else if t[0] == '[' then ParseList(t[1..], depth)
      else ParseScalar(t)
  }

  /** What follows the mark `c`, if that is the next thing that is not space. */
  function ParsePast(c: char, s: string): (r: Option<string>)
    ensures r.Some? ==> |r.value| < |s|
  {
    var t := SkipSpace(s);
    if t != "" && t[0] == c then Some(t[1..]) else None
  }

  function ParseKey(s: string): (r: Option<(string, string)>)
    ensures r.Some? ==> |r.value.1| < |s|
  {
    match ParsePast('\"', s)
    case None => None
    case Some(t) => Unescape(t)
  }

  function ParseObject(s: string, depth: nat): (r: Result<(Value, string), Error>)
    ensures r.Ok? ==> |r.value.1| < |s|
    decreases |s|, 2
  {
    var u := SkipSpace(s);
    if u != "" && u[0] == '}' then Ok((Object([]), u[1..]))
    else
      match ParseMembers(u, depth, {})
      case Err(e) => Err(e)
      case Ok((ms, rest)) => Ok((Object(ms), rest))
  }

  function ParseList(s: string, depth: nat): (r: Result<(Value, string), Error>)
    ensures r.Ok? ==> |r.value.1| < |s|
    decreases |s|, 2
  {
    var u := SkipSpace(s);
    if u != "" && u[0] == ']' then Ok((List([]), u[1..]))
    else
      match ParseElems(u, depth)
      case Err(e) => Err(e)
      case Ok((es, rest)) => Ok((List(es), rest))
  }

  /** One or more elements up to and past the closing bracket. */
  function ParseElems(s: string, depth: nat): (r: Result<(seq<Value>, string), Error>)
    ensures r.Ok? ==> |r.value.1| < |s|
    decreases |s|, 1
  {
    match ParseValue(s, depth + 1)
    case Err(e) => Err(e)
    case Ok((v, rest)) => ParseMoreElems(v, rest, depth)
  }

  function ParseMoreElems(v: Value, s: string, depth: nat): (r: Result<(seq<Value>, string), Error>)
    ensures r.Ok? ==> |r.value.1| < |s|
    decreases |s|, 2
  {
    match (ParsePast(']', s), ParsePast(',', s))
    case (Some(end), _) => Ok(([v], end))
    case (None, None) => Err(NotCanonical)
    case (None, Some(next)) =>
      match ParseElems(next, depth)
      case Err(e) => Err(e)
      case Ok((es, rest)) => Ok(([v] + es, rest))
  }

  /** One or more members up to and past the closing brace; `seen` are the keys
      already taken in this object. */
  function ParseMembers(s: string, depth: nat, seen: set<string>): (r: Result<(seq<Member>, string), Error>)
    ensures r.Ok? ==> |r.value.1| < |s|
    decreases |s|, 1
  {
    match ParseKey(s)
    case None => Err(NotCanonical)
    case Some((key, rest)) =>
      if key in seen then Err(DuplicateKey)
      else
        match ParsePast(':', rest)
        case None => Err(NotCanonical)
        case Some(text) =>
          match ParseValue(text, depth + 1)
          case Err(e) => Err(e)
          case Ok((v, rest')) => ParseMoreMembers(Member(key, v), rest', depth, seen)
  }

  function ParseMoreMembers(m: Member, s: string, depth: nat, seen: set<string>): (r: Result<(seq<Member>, string), Error>)
    ensures r.Ok? ==> |r.value.1| < |s|
    decreases |s|, 2
  {
    match (ParsePast('}', s), ParsePast(',', s))
    case (Some(end), _) => Ok(([m], end))
    case (None, None) => Err(NotCanonical)
    case (None, Some(next)) =>
      match ParseMembers(next, depth, seen + {m.key})
      case Err(e) => Err(e)
      case Ok((ms, rest)) => Ok(([m] + ms, rest))
  }

  /** One document and nothing after it. */
  function Parse(raw: string): Result<Value, Error> {
    match ParseValue(raw, 0)
    case Err(e) => Err(e)
    case Ok((v, rest)) => if SkipSpace(rest) == "" then Ok(v) else Err(NotCanonical)
  }

  const REPLACEMENT_BYTES := "\U{EF}\U{BF}\U{BD}"

  predicate Mentions(s: string, part: string) {
    exists i :: 0 <= i <= |s| && part <= s[i..]
  }

  function Canonical(raw: string): Result<string, Error> {
    if !ValidUtf8(raw) then Err(NotUtf8)
    else
      match Parse(raw)
      case Err(e) => Err(e)
      case Ok(v) =>
        match Marshal(v, Decoded)
        case Err(e) => Err(e)
        case Ok(out) =>
          if Mentions(out, REPLACEMENT_BYTES) && !Mentions(raw, REPLACEMENT_BYTES) then Err(NotCanonical)
          else Ok(out)
  }

  // -- what the encoder admits ----------------------------------------------

  ghost predicate StrictKeys(ms: seq<Member>) {
    forall i, j :: 0 <= i < j < |ms| ==> Order.Less(ms[i].key, ms[j].key)
  }

  /** A document as it is printed: strings are UTF-8 and keys strictly ascend. */
  ghost predicate WellFormed(v: Value)
    decreases v, 0
  {
    match v
    case Refused(_) => false
    case Str(s) => ValidUtf8(s)
    case List(es) => forall i :: 0 <= i < |es| ==> WellFormed(es[i])
    case Object(ms) => StrictKeys(ms) && forall i :: 0 <= i < |ms| ==> ValidUtf8(ms[i].key) && WellFormed(ms[i].val)
    case _ => true
  }

  /** What may follow a value inside a document, or at its end. */
  ghost predicate Stops(rest: string) {
    rest == "" || rest[0] == ',' || rest[0] == ']' || rest[0] == '}'
  }

  // `Put` is the text of a value with what follows it, grouped the way a reader
  // takes it: one mark, one literal or one value at a time.

  function PutQuoted(s: string, rest: string): string {
    ['\"'] + PutEscaped(s, ['\"'] + rest)
  }

  function Put(v: Value, rest: string): string
    decreases v, 0
  {
    match v
    case Str(s) => PutQuoted(s, rest)
    case List(es) => ['['] + if es == [] then [']'] + rest else Put(es[0], PutElemsTail(es[1..], rest))
    case Object(ms) => ['{'] + if ms == [] then ['}'] + rest else PutMember(ms[0], PutMembersTail(ms[1..], rest))
    case _ => Print(v) + rest
  }

  function PutElemsTail(es: seq<Value>, rest: string): string
    decreases es, 0
  {
    if es == [] then [']'] + rest else [','] + Put(es[0], PutElemsTail(es[1..], rest))
  }

  function PutMember(m: Member, after: string): string
    decreases m, 1
  {
    PutQuoted(m.key, [':'] + Put(m.val, after))
  }

  function PutMembersTail(ms: seq<Member>, rest: string): string
    decreases ms, 0
  {
    if ms == [] then ['}'] + rest else [','] + PutMember(ms[0], PutMembersTail(ms[1..], rest))
  }

  lemma PutIsPrintQuoted(s: string, rest: string)
    ensures PutQuoted(s, rest) == Quote(s) + rest
  {
    PutEscapedIsEscape(s, ['\"'] + rest);
  }

  lemma {:induction false} PutIsPrint(v: Value, rest: string)
    ensures Put(v, rest) == Print(v) + rest
    decreases v, 2
  {
    match v
    case Str(s) => PutIsPrintQuoted(s, rest);
    case List(es) => PutListIsPrint(es, rest);
    case Object(ms) => PutObjectIsPrint(ms, rest);
    case _ =>
  }

  lemma {:induction false} PutListIsPrint(es: seq<Value>, rest: string)
    ensures Put(List(es), rest) == Print(List(es)) + rest
    decreases es, 1
  {
    if es == [] {
    } else {
      PutIsPrint(es[0], PutElemsTail(es[1..], rest));
      PutElemsTailIsPrint(es[1..], rest);
    }
  }

  lemma {:induction false} PutObjectIsPrint(ms: seq<Member>, rest: string)
    ensures Put(Object(ms), rest) == Print(Object(ms)) + rest
    decreases ms, 1
  {
    if ms == [] {
    } else {
      PutMemberIsPrint(ms[0], PutMembersTail(ms[1..], rest));
      PutMembersTailIsPrint(ms[1..], rest);
    }
  }

  lemma {:induction false} PutElemsTailIsPrint(es: seq<Value>, rest: string)
    ensures PutElemsTail(es, rest) == (if es == [] then "" else "," + PrintElems(es)) + "]" + rest
    decreases es, 0
  {
    if es == [] {
    } else {
      var after := if |es| == 1 then "" else "," + PrintElems(es[1..]);
      PutIsPrint(es[0], PutElemsTail(es[1..], rest));
      PutElemsTailIsPrint(es[1..], rest);
      TailText(Print(es[0]), after, "]", rest);
    }
  }

  /** One more item before the rest of a list's text. */
  lemma TailText(item: string, after: string, close: string, rest: string)
    ensures "," + (item + (after + close + rest)) == "," + (item + after) + close + rest
  {
    Assoc(item, after + close, rest);
    Assoc(item, after, close);
    Assoc(",", item + after + close, rest);
    Assoc(",", item + after, close);
  }

  lemma {:induction false} PutMemberIsPrint(m: Member, after: string)
    ensures PutMember(m, after) == Quote(m.key) + ":" + Print(m.val) + after
    decreases m, 1
  {
    PutIsPrint(m.val, after);
    PutIsPrintQuoted(m.key, [':'] + Put(m.val, after));
  }

  lemma {:induction false} PutMembersTailIsPrint(ms: seq<Member>, rest: string)
    ensures PutMembersTail(ms, rest) == (if ms == [] then "" else "," + PrintMembers(ms)) + "}" + rest
    decreases ms, 0
  {
    if ms == [] {
    } else {
      var after := if |ms| == 1 then "" else "," + PrintMembers(ms[1..]);
      PutMemberIsPrint(ms[0], PutMembersTail(ms[1..], rest));
      PutMembersTailIsPrint(ms[1..], rest);
      TailText(Quote(ms[0].key) + ":" + Print(ms[0].val), after, "}", rest);
    }
  }

  lemma PutHead(v: Value, rest: string)
    requires WellFormed(v)
    ensures var s := Put(v, rest); s != "" && !IsSpace(s[0]) && s[0] != ']' && s[0] != '}'
    ensures SkipSpace(Put(v, rest)) == Put(v, rest)
  {
    if v.Int? && v.n >= 0 {
      assert IsDigit(Digits(v.n)[0]);
    }
  }

  lemma ParsePrintMagnitude(m: nat, rest: string, negative: bool)
    requires Stops(rest)
    requires m < 0x1_0000_0000_0000_0000 && (negative ==> m <= 0x8000_0000_0000_0000)
    ensures ParseMagnitude(Digits(m) + rest, negative) == Ok((Int(if negative then -(m as int) else m as int), rest))
  {
    var ds := Digits(m);
    var t := ds + rest;
    DigitRunOf(ds, rest);
    assert DigitRun(t) == |ds| && t[..|ds|] == ds && t[|ds|..] == rest;
    DigitsRoundTrip(m);
    assert t[0] == ds[0];
  }

  lemma ParseSignedNumber(t: string)
    ensures ParseNumber(['-'] + t) == ParseMagnitude(t, true)
    ensures t != "" && t[0] != '-' ==> ParseNumber(t) == ParseMagnitude(t, false)
  {
    assert (['-'] + t)[1..] == t;
  }

  lemma ParsePrintInt(n: Integer, rest: string)
    requires Stops(rest)
    ensures ParseNumber(Decimal(n) + rest) == Ok((Int(n), rest))
  {
    var m: nat := if n < 0 then -n else n;
    var t := Digits(m) + rest;
    assert IsDigit(Digits(m)[0]) && t[0] == Digits(m)[0];
    assert Decimal(n) + rest == if n < 0 then ['-'] + t else t;
    ParseSignedNumber(t);
    ParsePrintMagnitude(m, rest, n < 0);
  }

  lemma ParsePrintScalar(v: Value, rest: string)
    requires WellFormed(v) && Stops(rest) && !v.List? && !v.Object?
    ensures Put(v, rest) != ""
    ensures ParseScalar(Put(v, rest)) == Ok((v, rest))
    ensures Put(v, rest)[0] != '{' && Put(v, rest)[0] != '['
  {
    var s := Put(v, rest);
    match v
    case Null => assert s[4..] == rest;
    case Bool(b) => assert s[|Print(v)|..] == rest;
    case Int(n) =>
      ParsePrintInt(n, rest);
      assert s[0] == Decimal(n)[0];
      assert n >= 0 ==> IsDigit(Digits(n)[0]);
    case Str(str) =>
      Utf8IsBytes(str);
      assert s[1..] == PutEscaped(str, ['\"'] + rest);
      UnescapeEscape(str, rest);
  }

  /** `ParseValue` past an opening character. */
  lemma ParseOpened(c: char, t: string, depth: nat)
    requires depth <= MAX_DEPTH
    ensures c == '{' ==> ParseValue([c] + t, depth) == ParseObject(t, depth)
    ensures c == '[' ==> ParseValue([c] + t, depth) == ParseList(t, depth)
  {
    if c == '{' || c == '[' {
      var s := [c] + t;
      assert SkipSpace(s) == s && s[0] == c && s[1..] == t;
    }
  }

  lemma ParsePastMark(c: char, rest: string)
    requires !IsSpace(c)
    ensures SkipSpace([c] + rest) == [c] + rest
    ensures ParsePast(c, [c] + rest) == Some(rest)
    ensures forall d :: d != c ==> ParsePast(d, [c] + rest) == None
  {
    var t := [c] + rest;
    assert t[1..] == rest;
  }

  lemma ParseQuotedKey(key: string, rest: string)
    requires ValidUtf8(key)
    ensures ParseKey(PutQuoted(key, rest)) == Some((key, rest))
    ensures SkipSpace(PutQuoted(key, rest)) == PutQuoted(key, rest)
  {
    ParsePastMark('\"', PutEscaped(key, ['\"'] + rest));
    Utf8IsBytes(key);
    UnescapeEscape(key, rest);
  }

  /** Every well-formed document reads back as itself, whatever follows it. */
  lemma {:induction false} ParsePrint(v: Value, rest: string, depth: nat)
    requires WellFormed(v) && Stops(rest) && depth + Nesting(v) <= MAX_DEPTH
    ensures ParseValue(Put(v, rest), depth) == Ok((v, rest))
    decreases v, 1
  {
    PutHead(v, rest);
    if v.List? {
      ParsePrintList(v.elems, rest, depth);
    } else if v.Object? {
      ParsePrintObject(v.members, rest, depth);
    } else {
      ParsePrintScalar(v, rest);
    }
  }

  lemma {:induction false} ParsePrintList(es: seq<Value>, rest: string, depth: nat)
    requires WellFormed(List(es)) && depth + NestingElems(es) <= MAX_DEPTH
    ensures ParseValue(Put(List(es), rest), depth) == Ok((List(es), rest))
    decreases es, 3
  {
    if es == [] {
      ParseOpened('[', [']'] + rest, depth);
      ParsePastMark(']', rest);
    } else {
      var tail := PutElemsTail(es[1..], rest);
      var u := Put(es[0], tail);
      ParseOpened('[', u, depth);
      PutHead(es[0], tail);
      ParsePrintElems(es, rest, depth);
    }
  }

  lemma {:induction false} ParsePrintElems(es: seq<Value>, rest: string, depth: nat)
    requires es != [] && forall i :: 0 <= i < |es| ==> WellFormed(es[i])
    requires depth + NestingElems(es) <= MAX_DEPTH
    ensures ParseElems(Put(es[0], PutElemsTail(es[1..], rest)), depth) == Ok((es, rest))
    decreases es, 1
  {
    ParsePrint(es[0], PutElemsTail(es[1..], rest), depth + 1);
    ParsePrintMoreElems(es[0], es[1..], rest, depth);
    assert es == [es[0]] + es[1..];
  }

  lemma {:induction false} ParsePrintMoreElems(v: Value, es: seq<Value>, rest: string, depth: nat)
    requires forall i :: 0 <= i < |es| ==> WellFormed(es[i])
    requires depth + NestingElems(es) <= MAX_DEPTH
    ensures ParseMoreElems(v, PutElemsTail(es, rest), depth) == Ok(([v] + es, rest))
    decreases es, 2
  {
    if es == [] {
      assert [v] + es == [v];
      ParsePastMark(']', rest);
    } else {
      ParsePastMark(',', Put(es[0], PutElemsTail(es[1..], rest)));
      ParsePrintElems(es, rest, depth);
    }
  }

  lemma {:induction false} ParsePrintObject(ms: seq<Member>, rest: string, depth: nat)
    requires WellFormed(Object(ms)) && depth + NestingMembers(ms) <= MAX_DEPTH
    ensures ParseValue(Put(Object(ms), rest), depth) == Ok((Object(ms), rest))
    decreases ms, 3
  {
    if ms == [] {
      ParseOpened('{', ['}'] + rest, depth);
      ParsePastMark('}', rest);
    } else {
      var after := PutMembersTail(ms[1..], rest);
      ParseOpened('{', PutMember(ms[0], after), depth);
      ParseQuotedKey(ms[0].key, [':'] + Put(ms[0].val, after));
      ParsePrintMembers(ms, {}, rest, depth);
    }
  }

  lemma WellFormedTail(ms: seq<Member>)
    requires ms != [] && WellFormed(Object(ms))
    ensures WellFormed(Object(ms[1..]))
    ensures forall m :: m in ms[1..] ==> m in ms && m.key != ms[0].key
  {
    assert forall i :: 0 <= i < |ms[1..]| ==> ms[1..][i] == ms[i + 1];
  }

  lemma ReadMember(m: Member, after: string, depth: nat, seen: set<string>)
    requires ValidUtf8(m.key) && m.key !in seen
    requires ParseValue(Put(m.val, after), depth + 1) == Ok((m.val, after))
    ensures ParseMembers(PutMember(m, after), depth, seen) == ParseMoreMembers(m, after, depth, seen)
  {
    ParseQuotedKey(m.key, [':'] + Put(m.val, after));
    ParsePastMark(':', Put(m.val, after));
  }

  lemma {:induction false} ParsePrintMembers(ms: seq<Member>, seen: set<string>, rest: string, depth: nat)
    requires ms != [] && WellFormed(Object(ms))
    requires forall m :: m in ms ==> m.key !in seen
    requires depth + NestingMembers(ms) <= MAX_DEPTH
    ensures ParseMembers(PutMember(ms[0], PutMembersTail(ms[1..], rest)), depth, seen) == Ok((ms, rest))
    decreases ms, 1
  {
    var m, tail := ms[0], ms[1..];
    assert m in ms && ms == [m] + tail;
    ParsePrint(m.val, PutMembersTail(tail, rest), depth + 1);
    ReadMember(m, PutMembersTail(tail, rest), depth, seen);
    WellFormedTail(ms);
    ParsePrintMoreMembers(m, tail, seen, rest, depth);
  }

  lemma {:induction false} ParsePrintMoreMembers(m: Member, ms: seq<Member>, seen: set<string>, rest: string, depth: nat)
    requires WellFormed(Object(ms)) && depth + NestingMembers(ms) <= MAX_DEPTH
    requires forall m' :: m' in ms ==> m'.key !in seen && m'.key != m.key
    ensures ParseMoreMembers(m, PutMembersTail(ms, rest), depth, seen) == Ok(([m] + ms, rest))
    decreases ms, 2
  {
    if ms == [] {
      assert [m] + ms == [m];
      ParsePastMark('}', rest);
    } else {
      ParsePastMark(',', PutMember(ms[0], PutMembersTail(ms[1..], rest)));
      ParsePrintMembers(ms, seen + {m.key}, rest, depth);
    }
  }

  // -- the sorted form ------------------------------------------------------

  ghost predicate Ordered(v: Value)
    decreases v, 0
  {
    match v
    case List(es) => forall i :: 0 <= i < |es| ==> Ordered(es[i])
    case Object(ms) => Order.Sorted(KeyLeq, ms) && forall i :: 0 <= i < |ms| ==> Ordered(ms[i].val)
    case _ => true
  }

  lemma KeyLeqTotal(ms: seq<Member>)
    ensures Order.TotalOn(KeyLeq, ms)
  {
    forall x, y | x in ms && y in ms ensures KeyLeq(x, y) || KeyLeq(y, x) {
      Order.LeqTotal(x.key, y.key);
    }
    forall x, y, z | x in ms && y in ms && z in ms && KeyLeq(x, y) && KeyLeq(y, z) ensures KeyLeq(x, z) {
      Order.LeqTransitive(x.key, y.key, z.key);
    }
  }

  lemma {:induction false} NormalMembersAt(ms: seq<Member>)
    ensures |NormalMembers(ms)| == |ms|
    ensures forall i :: 0 <= i < |ms| ==> NormalMembers(ms)[i] == Member(ms[i].key, Normal(ms[i].val))
    decreases ms
  {
    if ms == [] {
    } else {
      NormalMembersAt(ms[1..]);
    }
  }

  lemma {:induction false} NormalElemsAt(es: seq<Value>)
    ensures |NormalElems(es)| == |es|
    ensures forall i :: 0 <= i < |es| ==> NormalElems(es)[i] == Normal(es[i])
    decreases es
  {
    if es == [] {
    } else {
      NormalElemsAt(es[1..]);
    }
  }

  lemma {:induction false} NormalOrdered(v: Value)
    ensures Ordered(Normal(v))
    decreases v
  {
    match v
    case List(es) =>
      NormalElemsAt(es);
      forall i | 0 <= i < |es| ensures Ordered(NormalElems(es)[i]) { NormalOrdered(es[i]); }
    case Object(ms) =>
      NormalMembersAt(ms);
      var ns := NormalMembers(ms);
      var sorted := Order.Sort(KeyLeq, ns);
      KeyLeqTotal(ns);
      Order.SortSorts(KeyLeq, ns);
      Order.SortPermutes(KeyLeq, ns);
      forall m | m in ns ensures Ordered(m.val) {
        var i :| 0 <= i < |ns| && ns[i] == m;
        NormalOrdered(ms[i].val);
      }
      assert forall i :: 0 <= i < |sorted| ==> sorted[i] in ns;
    case _ =>
  }

  /** The encoder refuses nothing exactly when the sorted value is well-formed
      and shallow enough. */
  lemma {:induction false} FaultFree(v: Value, depth: nat, shape: Shape)
    requires Ordered(v)
    ensures Fault(v, depth, shape) == None <==> WellFormed(v) && depth + Cost(shape, Nesting(v)) <= MAX_DEPTH
    decreases v, 1
  {
    match v
    case List(es) => FaultFreeElems(es, depth, shape);
    case Object(ms) => FaultFreeMembers(ms, None, depth, shape);
    case _ =>
  }

  lemma {:induction false} FaultFreeElems(es: seq<Value>, depth: nat, shape: Shape)
    requires forall i :: 0 <= i < |es| ==> Ordered(es[i])
    ensures FaultElems(es, depth, shape) == None
        <==> (forall i :: 0 <= i < |es| ==> WellFormed(es[i]))
             && (es == [] || depth + Cost(shape, NestingElems(es)) <= MAX_DEPTH)
    decreases es, 0
  {
    if es == [] {
    } else {
      FaultFree(es[0], depth + Cost(shape, 1), shape);
      FaultFreeElems(es[1..], depth, shape);
      assert forall i :: 0 < i < |es| ==> es[i] == es[1..][i - 1];
      assert (forall i :: 0 <= i < |es| ==> WellFormed(es[i]))
        <==> WellFormed(es[0]) && forall i :: 0 <= i < |es[1..]| ==> WellFormed(es[1..][i]);
    }
  }

  ghost predicate FreshHead(ms: seq<Member>, previous: Option<string>) {
    ms == [] || previous != Some(ms[0].key)
  }

  lemma {:induction false} FaultFreeMembers(ms: seq<Member>, previous: Option<string>, depth: nat, shape: Shape)
    requires Ordered(Object(ms))
    ensures FaultMembers(ms, previous, depth, shape) == None
        <==> FreshHead(ms, previous) && WellFormed(Object(ms))
             && (ms == [] || depth + Cost(shape, NestingMembers(ms)) <= MAX_DEPTH)
    decreases ms, 0
  {
    if ms == [] {
    } else {
      var tail := ms[1..];
      OrderedTail(ms);
      FaultFree(ms[0].val, depth + Cost(shape, 1), shape);
      FaultFreeMembers(tail, Some(ms[0].key), depth, shape);
      WellFormedUnfold(ms);
      DepthOfMembers(ms, depth, shape);
    }
  }

  lemma DepthOfMembers(ms: seq<Member>, depth: nat, shape: Shape)
    requires ms != []
    ensures depth + Cost(shape, NestingMembers(ms)) <= MAX_DEPTH
       <==> depth + Cost(shape, 1) + Cost(shape, Nesting(ms[0].val)) <= MAX_DEPTH
            && (ms[1..] == [] || depth + Cost(shape, NestingMembers(ms[1..])) <= MAX_DEPTH)
  {
  }

  lemma OrderedTail(ms: seq<Member>)
    requires ms != [] && Ordered(Object(ms))
    ensures Ordered(Object(ms[1..])) && Ordered(ms[0].val)
  {
    assert forall i :: 0 <= i < |ms[1..]| ==> ms[1..][i] == ms[i + 1];
  }

  /** In key order, adjacent keys that differ make all keys differ. */
  lemma WellFormedUnfold(ms: seq<Member>)
    requires ms != [] && Ordered(Object(ms))
    ensures WellFormed(Object(ms))
       <==> ValidUtf8(ms[0].key) && WellFormed(ms[0].val) && WellFormed(Object(ms[1..])) && FreshHead(ms[1..], Some(ms[0].key))
  {
    var tail := ms[1..];
    assert forall i :: 0 <= i < |tail| ==> tail[i] == ms[i + 1];
    if ValidUtf8(ms[0].key) && WellFormed(ms[0].val) && WellFormed(Object(tail)) && FreshHead(tail, Some(ms[0].key)) {
      forall i, j | 0 <= i < j < |ms| ensures Order.Less(ms[i].key, ms[j].key) {
        assert KeyLeq(ms[i], ms[j]);
        if i == 0 && j > 1 {
          assert KeyLeq(ms[0], ms[1]) && KeyLeq(ms[1], ms[j]) && Order.Less(tail[0].key, tail[j - 1].key);
          if ms[0].key == ms[j].key { Order.LeqAntisymmetric(ms[0].key, ms[1].key); }
        } else if i > 0 {
          assert Order.Less(tail[i - 1].key, tail[j - 1].key);
        }
      }
      forall i | 0 <= i < |ms| ensures ValidUtf8(ms[i].key) && WellFormed(ms[i].val) {
        if i > 0 { assert ms[i] == tail[i - 1]; }
      }
    }
  }

  /** A well-formed document can only be refused for its depth. */
  lemma {:induction false} DepthIsTheOnlyFault(v: Value, depth: nat, shape: Shape)
    requires WellFormed(v)
    ensures Fault(v, depth, shape) == None || Fault(v, depth, shape) == Some(NotCanonical)
    decreases v, 1
  {
    match v
    case List(es) => DepthIsTheOnlyFaultElems(es, depth, shape);
    case Object(ms) => DepthIsTheOnlyFaultMembers(ms, None, depth, shape);
    case _ =>
  }

  lemma {:induction false} DepthIsTheOnlyFaultElems(es: seq<Value>, depth: nat, shape: Shape)
    requires forall i :: 0 <= i < |es| ==> WellFormed(es[i])
    ensures FaultElems(es, depth, shape) == None || FaultElems(es, depth, shape) == Some(NotCanonical)
    decreases es, 0
  {
    if es == [] {
    } else {
      DepthIsTheOnlyFault(es[0], depth + Cost(shape, 1), shape);
      DepthIsTheOnlyFaultElems(es[1..], depth, shape);
    }
  }

  lemma {:induction false} DepthIsTheOnlyFaultMembers(ms: seq<Member>, previous: Option<string>, depth: nat, shape: Shape)
    requires WellFormed(Object(ms)) && FreshHead(ms, previous)
    ensures FaultMembers(ms, previous, depth, shape) == None || FaultMembers(ms, previous, depth, shape) == Some(NotCanonical)
    decreases ms, 0
  {
    if ms == [] {
    } else {
      WellFormedTail(ms);
      DepthIsTheOnlyFault(ms[0].val, depth + Cost(shape, 1), shape);
      assert |ms| > 1 ==> ms[1..][0] in ms[1..];
      DepthIsTheOnlyFaultMembers(ms[1..], Some(ms[0].key), depth, shape);
    }
  }

  lemma {:induction false} NestingInsert(m: Member, ms: seq<Member>)
    ensures NestingMembers(Order.Insert(KeyLeq, m, ms)) == Max(1 + Nesting(m.val), NestingMembers(ms))
    decreases |ms|
  {
    if ms == [] {
    } else {
      if KeyLeq(m, ms[0]) {
        assert ([m] + ms)[1..] == ms;
      } else {
        var r := Order.Insert(KeyLeq, m, ms[1..]);
        NestingInsert(m, ms[1..]);
        assert ([ms[0]] + r)[1..] == r;
      }
    }
  }

  lemma {:induction false} NestingSort(ms: seq<Member>)
    ensures NestingMembers(Order.Sort(KeyLeq, ms)) == NestingMembers(ms)
    decreases |ms|
  {
    if ms == [] {
    } else {
      NestingSort(ms[1..]);
      NestingInsert(ms[0], Order.Sort(KeyLeq, ms[1..]));
    }
  }

  lemma {:induction false} NestingNormal(v: Value)
    ensures Nesting(Normal(v)) == Nesting(v)
    decreases v, 1
  {
    match v
    case List(es) => NestingNormalElems(es);
    case Object(ms) =>
      NestingNormalMembers(ms);
      NestingSort(NormalMembers(ms));
    case _ =>
  }

  lemma {:induction false} NestingNormalElems(es: seq<Value>)
    ensures NestingElems(NormalElems(es)) == NestingElems(es)
    decreases es, 0
  {
    if es == [] {
    } else {
      NestingNormal(es[0]);
      NestingNormalElems(es[1..]);
      assert NormalElems(es)[1..] == NormalElems(es[1..]);
    }
  }

  lemma {:induction false} NestingNormalMembers(ms: seq<Member>)
    ensures NestingMembers(NormalMembers(ms)) == NestingMembers(ms)
    decreases ms, 0
  {
    if ms == [] {
    } else {
      NestingNormal(ms[0].val);
      NestingNormalMembers(ms[1..]);
      assert NormalMembers(ms)[1..] == NormalMembers(ms[1..]);
    }
  }

  lemma {:induction false} SortOfSorted(ms: seq<Member>)
    requires Order.Sorted(KeyLeq, ms)
    ensures Order.Sort(KeyLeq, ms) == ms
    decreases |ms|
  {
    if ms == [] {
    } else {
      SortOfSorted(ms[1..]);
      assert ms == [ms[0]] + ms[1..];
      if |ms| > 1 { assert KeyLeq(ms[0], ms[1]); }
    }
  }

  /** A printed document is its own sorted form. */
  lemma {:induction false} NormalOfWellFormed(v: Value)
    requires WellFormed(v)
    ensures Normal(v) == v
    decreases v
  {
    match v
    case List(es) =>
      NormalElemsAt(es);
      forall i | 0 <= i < |es| ensures NormalElems(es)[i] == es[i] { NormalOfWellFormed(es[i]); }
      assert NormalElems(es) == es;
    case Object(ms) =>
      NormalMembersAt(ms);
      forall i | 0 <= i < |ms| ensures NormalMembers(ms)[i] == ms[i] { NormalOfWellFormed(ms[i].val); }
      assert NormalMembers(ms) == ms;
      assert forall i, j :: 0 <= i < j < |ms| ==> Order.Less(ms[i].key, ms[j].key);
      SortOfSorted(ms);
    case _ =>
  }

  // -- the bytes ------------------------------------------------------------

  lemma DigitsAscii(n: int)
    ensures ValidUtf8(Decimal(n)) && Printable(Decimal(n))
  {
    var s := Digits(if n < 0 then -n else n);
    assert forall i :: 0 <= i < |s| ==> IsDigit(s[i]);
    AsciiIsUtf8(Decimal(n));
  }

  /** Well-formed text that holds nothing below 0x20. */
  ghost predicate Clean(s: string) {
    ValidUtf8(s) && Printable(s)
  }

  lemma CleanConcat(a: string, b: string)
    requires Clean(a) && Clean(b)
    ensures Clean(a + b)
  {
    ValidUtf8Concat(a, b);
  }

  lemma CleanQuote(s: string)
    requires ValidUtf8(s)
    ensures Clean(Quote(s))
  {
    EscapeUtf8(s);
    EscapePrintable(s);
    AsciiIsUtf8("\"");
    CleanConcat("\"", Escape(s));
    CleanConcat("\"" + Escape(s), "\"");
  }

  lemma CleanLiteral(s: string)
    requires Ascii(s) && Printable(s)
    ensures Clean(s)
  {
    AsciiIsUtf8(s);
  }

  /** Canonical text is UTF-8 and carries no control character, so a document is
      always one line. */
  lemma {:induction false} PrintClean(v: Value)
    requires WellFormed(v)
    ensures Clean(Print(v))
    decreases v, 1
  {
    match v
    case Int(n) => DigitsAscii(n);
    case Str(s) => CleanQuote(s);
    case List(es) =>
      PrintElemsClean(es);
      CleanLiteral("[");
      CleanLiteral("]");
      CleanConcat("[", PrintElems(es));
      CleanConcat("[" + PrintElems(es), "]");
    case Object(ms) =>
      PrintMembersClean(ms);
      CleanLiteral("{");
      CleanLiteral("}");
      CleanConcat("{", PrintMembers(ms));
      CleanConcat("{" + PrintMembers(ms), "}");
    case _ => CleanLiteral(Print(v));
  }

  lemma {:induction false} PrintElemsClean(es: seq<Value>)
    requires forall i :: 0 <= i < |es| ==> WellFormed(es[i])
    ensures Clean(PrintElems(es))
    decreases es, 0
  {
    CleanLiteral("");
    CleanLiteral(",");
    if es == [] {
    } else {
      PrintClean(es[0]);
      PrintElemsClean(es[1..]);
      CleanConcat(",", PrintElems(es[1..]));
      CleanConcat(Print(es[0]), if |es| > 1 then "," + PrintElems(es[1..]) else "");
    }
  }

  lemma {:induction false} PrintMembersClean(ms: seq<Member>)
    requires WellFormed(Object(ms))
    ensures Clean(PrintMembers(ms))
    decreases ms, 0
  {
    CleanLiteral("");
    CleanLiteral(",");
    CleanLiteral(":");
    if ms == [] {
    } else {
      WellFormedTail(ms);
      CleanQuote(ms[0].key);
      PrintClean(ms[0].val);
      PrintMembersClean(ms[1..]);
      CleanConcat(Quote(ms[0].key), ":");
      CleanConcat(Quote(ms[0].key) + ":", Print(ms[0].val));
      CleanConcat(",", PrintMembers(ms[1..]));
      CleanConcat(Quote(ms[0].key) + ":" + Print(ms[0].val), if |ms| > 1 then "," + PrintMembers(ms[1..]) else "");
    }
  }

  // -- the laws of the canonical form ---------------------------------------

  /** Marshal succeeds exactly on well-formed documents that are shallow enough. */
  lemma MarshalAdmits(v: Value, shape: Shape)
    ensures Marshal(v, shape).Ok? <==> WellFormed(Normal(v)) && Cost(shape, Nesting(v)) <= MAX_DEPTH
    ensures Marshal(v, shape).Ok? ==> Marshal(v, shape).value == Print(Normal(v))
  {
    NormalOrdered(v);
    FaultFree(Normal(v), 0, shape);
    NestingNormal(v);
  }

  /** What was marshalled reads back as the same document. */
  lemma ParseOfMarshal(v: Value, shape: Shape)
    requires Marshal(v, shape).Ok?
    ensures Parse(Marshal(v, shape).value) == Ok(Normal(v))
  {
    MarshalAdmits(v, shape);
    NestingNormal(v);
    ParsePrint(Normal(v), "", 0);
    PutIsPrint(Normal(v), "");
    assert Print(Normal(v)) + "" == Print(Normal(v));
  }

  /** Re-encoding what was marshalled gives the same bytes exactly when it is
      nested at most 32 deep: the decoded tree costs two levels a level, so a
      deeper document that Marshal wrote is refused by Canonical. */
  lemma CanonicalOfMarshal(v: Value, shape: Shape)
    requires Marshal(v, shape).Ok?
    ensures var text := Marshal(v, shape).value;
            Canonical(text) == (if Nesting(v) <= 32 then Ok(text) else Err(NotCanonical))
  {
    var n := Normal(v);
    var text := Marshal(v, shape).value;
    MarshalAdmits(v, shape);
    PrintClean(n);
    ParseOfMarshal(v, shape);
    NormalOfWellFormed(n);
    NestingNormal(v);
    MarshalAdmits(n, Decoded);
    if Nesting(v) > 32 {
      DepthIsTheOnlyFault(n, 0, Decoded);
    }
  }

  /** Canonical is a projection: its output is a fixed point. */
  lemma CanonicalIdempotent(raw: string)
    requires Canonical(raw).Ok?
    ensures Canonical(Canonical(raw).value) == Canonical(raw)
  {
    var v := Parse(raw).value;
    MarshalAdmits(v, Decoded);
    CanonicalOfMarshal(v, Decoded);
  }

  /** One document has one spelling, and one spelling is one document. */
  lemma MarshalInjective(v: Value, w: Value, shape: Shape, shape': Shape)
    requires Marshal(v, shape).Ok? && Marshal(w, shape').Ok?
    ensures Marshal(v, shape) == Marshal(w, shape') <==> Normal(v) == Normal(w)
  {
    ParseOfMarshal(v, shape);
    ParseOfMarshal(w, shape');
    MarshalAdmits(v, shape);
    MarshalAdmits(w, shape');
  }

  ghost predicate DistinctKeys(ms: seq<Member>) {
    forall i, j :: 0 <= i < j < |ms| ==> ms[i].key != ms[j].key
  }

  lemma NormalMembersConcat(a: seq<Member>, b: seq<Member>)
    ensures NormalMembers(a + b) == NormalMembers(a) + NormalMembers(b)
  {
    NormalMembersAt(a);
    NormalMembersAt(b);
    NormalMembersAt(a + b);
  }

  lemma NormalMembersPull(a: seq<Member>, m: Member, b: seq<Member>)
    ensures multiset(NormalMembers(a + ([m] + b))) == multiset(NormalMembers(a + b)) + multiset{Member(m.key, Normal(m.val))}
  {
    NormalMembersConcat(a, b);
    NormalMembersConcat([m], b);
    NormalMembersConcat(a, [m] + b);
    assert NormalMembers([m]) == [Member(m.key, Normal(m.val))];
  }

  lemma {:induction false} NormalMembersPermute(ms: seq<Member>, ms': seq<Member>)
    requires multiset(ms) == multiset(ms')
    ensures multiset(NormalMembers(ms)) == multiset(NormalMembers(ms'))
    decreases |ms|
  {
    Order.SameElements(ms, ms');
    if ms == [] {
    } else {
      var k := Order.PullOut(ms, ms');
      var a, b := ms'[..k], ms'[k + 1..];
      NormalMembersPermute(ms[1..], a + b);
      assert ms == [] + ([ms[0]] + ms[1..]) && [] + ms[1..] == ms[1..];
      NormalMembersPull([], ms[0], ms[1..]);
      NormalMembersPull(a, ms[0], b);
    }
  }

  /** The order a map is walked in, or a struct is declared in, leaves no trace. */
  lemma KeyOrderIrrelevant(ms: seq<Member>, ms': seq<Member>, shape: Shape)
    requires multiset(ms) == multiset(ms') && DistinctKeys(ms)
    ensures Marshal(Object(ms), shape) == Marshal(Object(ms'), shape)
  {
    var ns, ns' := NormalMembers(ms), NormalMembers(ms');
    var s, s' := Order.Sort(KeyLeq, ns), Order.Sort(KeyLeq, ns');
    NormalMembersPermute(ms, ms');
    KeyLeqTotal(ns);
    KeyLeqTotal(ns');
    Order.SortSorts(KeyLeq, ns);
    Order.SortSorts(KeyLeq, ns');
    Order.SortPermutes(KeyLeq, ns);
    Order.SortPermutes(KeyLeq, ns');
    SortedKeysDiffer(ms, s);
    Order.SortedArrangementIsUnique(KeyLeq, s, s');
  }

  lemma SortedKeysDiffer(ms: seq<Member>, s: seq<Member>)
    requires DistinctKeys(ms) && forall m :: m in s <==> m in NormalMembers(ms)
    ensures Order.AntisymmetricOn(KeyLeq, s)
  {
    var ns := NormalMembers(ms);
    NormalMembersAt(ms);
    forall x, y | x in s && y in s && KeyLeq(x, y) && KeyLeq(y, x) ensures x == y {
      assert x in ns && y in ns;
      Order.LeqAntisymmetric(x.key, y.key);
      var i :| 0 <= i < |ns| && ns[i] == x;
      var j :| 0 <= j < |ns| && ns[j] == y;
      assert ms[i].key == ms[j].key;
    }
  }

  // -- past the reader's depth ----------------------------------------------

  /** A list within a list, n deep. */
  function Nested(n: nat): Value {
    if n == 0 then Null else List([Nested(n - 1)])
  }

  lemma {:induction false} NestedIsNested(n: nat)
    ensures Nesting(Nested(n)) == n && WellFormed(Nested(n))
  {
    if n == 0 {
    } else {
      NestedIsNested(n - 1);
      assert [Nested(n - 1)][1..] == [];
    }
  }

  /** Every depth from 33 to 64 is written and then refused. */
  lemma WrittenPastTheReader(n: nat)
    requires 32 < n <= MAX_DEPTH
    ensures Marshal(Nested(n), Typed).Ok? && Canonical(Marshal(Nested(n), Typed).value) == Err(NotCanonical)
  {
    NestedIsNested(n);
    NormalOfWellFormed(Nested(n));
    MarshalAdmits(Nested(n), Typed);
    CanonicalOfMarshal(Nested(n), Typed);
  }

  // -- how long a document is -----------------------------------------------

  lemma {:induction false} EscapeGrows(s: string)
    ensures |Escape(s)| >= |s|
  {
    if s == "" {
    } else {
      EscapeGrows(s[1..]);
    }
  }

  lemma {:induction false} MembersHold(ms: seq<Member>, k: nat)
    requires k < |ms|
    ensures |PrintMembers(ms)| >= |Print(ms[k].val)|
    decreases |ms|
  {
    if k == 0 {
    } else {
      MembersHold(ms[1..], k - 1);
    }
  }

  /** An object is at least as long as any one of its members. */
  lemma ObjectHolds(ms: seq<Member>, i: nat)
    requires i < |ms|
    ensures |Print(Normal(Object(ms)))| >= |Print(Normal(ms[i].val))|
  {
    var ns := NormalMembers(ms);
    var sorted := Order.Sort(KeyLeq, ns);
    NormalMembersAt(ms);
    Order.SortPermutes(KeyLeq, ns);
    assert ns[i] in sorted;
    var k :| 0 <= k < |sorted| && sorted[k] == ns[i];
    MembersHold(sorted, k);
  }

  lemma ObjectHoldsText(ms: seq<Member>, i: nat)
    requires i < |ms| && ms[i].val.Str?
    ensures |Print(Normal(Object(ms)))| >= |ms[i].val.s|
  {
    ObjectHolds(ms, i);
    EscapeGrows(ms[i].val.s);
  }

  /** An object of well-formed members with distinct keys is well formed. */
  lemma ObjectAdmits(ms: seq<Member>)
    requires DistinctKeys(ms)
    requires forall i :: 0 <= i < |ms| ==> ValidUtf8(ms[i].key) && WellFormed(Normal(ms[i].val))
    ensures WellFormed(Normal(Object(ms)))
  {
    var ns := NormalMembers(ms);
    var sorted := Order.Sort(KeyLeq, ns);
    NormalMembersAt(ms);
    KeyLeqTotal(ns);
    Order.SortSorts(KeyLeq, ns);
    Order.SortPermutes(KeyLeq, ns);
    Order.DistinctByPermutes((m: Member) => m.key, ns, sorted);
    forall i, j | 0 <= i < j < |sorted| ensures Order.Less(sorted[i].key, sorted[j].key) {
      assert KeyLeq(sorted[i], sorted[j]);
      DistinctAt(sorted, i, j);
    }
    forall i | 0 <= i < |sorted| ensures ValidUtf8(sorted[i].key) && WellFormed(sorted[i].val) {
      assert sorted[i] in ns;
      var k :| 0 <= k < |ns| && ns[k] == sorted[i];
    }
  }

  lemma DistinctAt(ms: seq<Member>, i: nat, j: nat)
    requires Order.DistinctBy((m: Member) => m.key, ms) && i < j < |ms|
    ensures ms[i].key != ms[j].key
  {
    var key := (m: Member) => m.key;
    assert key(ms[i]) != key(ms[j]);
  }
}
