/** What a canonical document looks like, byte by byte, said without the printer, the
    sort or the reader: and that it is what is written. */
module Spelling {
  import opened Wrappers
  import opened Text
  import opened Canon
  import Order

  // -- numbers and strings --------------------------------------------------

  /** The number a run of digits writes, the first the most significant. */
  function Worth(d: string): int
    decreases |d|
  {
    if d == "" then 0 else 10 * Worth(d[..|d| - 1]) + (d[|d| - 1] as int - '0' as int)
  }

  /** Digits alone, with no zero before another digit. */
  predicate Numeral(d: string, n: int) {
    d != "" && (forall i :: 0 <= i < |d| ==> '0' <= d[i] <= '9') && (|d| > 1 ==> d[0] != '0') && Worth(d) == n
  }

  predicate SpellsInt(s: string, n: int) {
    if n < 0 then s != "" && s[0] == '-' && Numeral(s[1..], -n) else Numeral(s, n)
  }

  function LowHex(n: nat): char
    requires n < 16
  {
    if n < 10 then ('0' as int + n) as char else ('a' as int + (n - 10)) as char
  }

  /** How one byte of a string is written: quotes and backslashes behind a backslash,
      the five control bytes that have a letter by it, the others as four hex digits,
      and everything else as it is. */
  function Spelt(c: char): string {
    match c as int
    case 0x22 => ['\\', '\"']
    case 0x5C => ['\\', '\\']
    case 0x08 => ['\\', 'b']
    case 0x09 => ['\\', 't']
    case 0x0A => ['\\', 'n']
    case 0x0C => ['\\', 'f']
    case 0x0D => ['\\', 'r']
    case n => if n < 0x20 then ['\\', 'u', '0', '0', LowHex(n / 16), LowHex(n % 16)] else [c]
  }

  function SpeltAll(s: string): string {
    if s == "" then "" else Spelt(s[0]) + SpeltAll(s[1..])
  }

  function Quoted(s: string): string {
    ['\"'] + SpeltAll(s) + ['\"']
  }

  lemma SpeltIsEscaped(c: char)
    ensures Spelt(c) == EscapeByte(c)
  {
    if c < ' ' {
      assert LowHex(c as int / 16) == HexDigit(c as int / 16) && LowHex(c as int % 16) == HexDigit(c as int % 16);
    }
  }

  lemma {:induction false} SpeltAllIsEscaped(s: string)
    ensures SpeltAll(s) == Escape(s)
  {
    if s == "" {
    } else {
      SpeltIsEscaped(s[0]);
      SpeltAllIsEscaped(s[1..]);
    }
  }

  lemma QuotedIsQuote(s: string)
    ensures Quoted(s) == Quote(s)
  {
    SpeltAllIsEscaped(s);
  }

  lemma {:induction false} WorthIsValue(d: string)
    requires forall i :: 0 <= i < |d| ==> '0' <= d[i] <= '9'
    ensures Worth(d) == DigitsValue(d)
    decreases |d|
  {
    if d == "" {
    } else {
      WorthIsValue(d[..|d| - 1]);
    }
  }

  lemma DigitsAreANumeral(n: nat)
    ensures Numeral(Digits(n), n)
  {
    DigitsRoundTrip(n);
    WorthIsValue(Digits(n));
  }

  lemma {:induction false} WorthGrows(d: string)
    requires d != "" && (forall i :: 0 <= i < |d| ==> '0' <= d[i] <= '9') && d[0] != '0'
    ensures Worth(d) > 0
    decreases |d|
  {
    if |d| == 1 {
      assert Worth(d[..0]) == 0;
    } else {
      WorthGrows(d[..|d| - 1]);
    }
  }

  /** A number has one numeral. */
  lemma {:induction false} NumeralIsDigits(d: string, n: nat)
    requires Numeral(d, n)
    ensures d == Digits(n)
    decreases |d|
  {
    var init, last := d[..|d| - 1], d[|d| - 1];
    assert d == init + [last];
    assert Worth("") == 0;
    if init == "" {
      OneDigit(last, n);
    } else {
      WorthGrows(init);
      LastDigit(Worth(init), last as int - '0' as int, n);
      NumeralIsDigits(init, Worth(init));
      OneDigit(last, n % 10);
    }
  }

  lemma LastDigit(high: int, low: int, n: int)
    requires high > 0 && 0 <= low < 10 && n == 10 * high + low
    ensures n >= 10 && n / 10 == high && n % 10 == low
  {
  }

  lemma OneDigit(c: char, n: nat)
    requires '0' <= c <= '9' && n == c as int - '0' as int
    ensures c == Digit(n)
  {
  }

  lemma IntSpeltExactly(s: string, n: int)
    ensures SpellsInt(s, n) <==> s == Decimal(n)
  {
    if n < 0 {
      DigitsAreANumeral(-n);
      if SpellsInt(s, n) {
        NumeralIsDigits(s[1..], -n);
        assert s == [s[0]] + s[1..];
      }
      if s == Decimal(n) {
        assert s[1..] == Digits(-n);
      }
    } else {
      DigitsAreANumeral(n);
      if SpellsInt(s, n) {
        NumeralIsDigits(s, n);
      }
    }
  }

  // -- documents ------------------------------------------------------------

  function Commas(parts: seq<string>): string {
    if parts == [] then "" else if |parts| == 1 then parts[0] else parts[0] + "," + Commas(parts[1..])
  }

  function Members(ms: seq<Member>, texts: seq<string>): (parts: seq<string>)
    requires |ms| == |texts|
    ensures |parts| == |ms| && forall i :: 0 <= i < |ms| ==> parts[i] == Quoted(ms[i].key) + ":" + texts[i]
  {
    seq(|ms|, i requires 0 <= i < |ms| => Quoted(ms[i].key) + ":" + texts[i])
  }

  /** `s` is the text of `v`, with no space anywhere and its members as they stand. */
  ghost predicate Spells(s: string, v: Value)
    decreases v
  {
    match v
    case Null => s == ['n', 'u', 'l', 'l']
    case Bool(b) => s == if b then ['t', 'r', 'u', 'e'] else ['f', 'a', 'l', 's', 'e']
    case Int(n) => SpellsInt(s, n)
    case Str(t) => s == Quoted(t)
    case List(es) =>
      exists texts: seq<string> :: SpellsEach(texts, es) && s == "[" + Commas(texts) + "]"
    case Object(ms) =>
      exists texts: seq<string> :: SpellsMembers(texts, ms) && s == "{" + Commas(Members(ms, texts)) + "}"
    case Refused(_) => false
  }

  ghost predicate SpellsEach(texts: seq<string>, es: seq<Value>)
    decreases es
  {
    |texts| == |es| && forall i :: 0 <= i < |es| ==> Spells(texts[i], es[i])
  }

  ghost predicate SpellsMembers(texts: seq<string>, ms: seq<Member>)
    decreases ms
  {
    |texts| == |ms| && forall i :: 0 <= i < |ms| ==> Spells(texts[i], ms[i].val)
  }

  lemma {:induction false} CommasOfElems(es: seq<Value>, texts: seq<string>)
    requires |texts| == |es| && forall i :: 0 <= i < |es| ==> texts[i] == Print(es[i])
    ensures Commas(texts) == PrintElems(es)
  {
    if es == [] {
    } else {
      CommasOfElems(es[1..], texts[1..]);
      Assoc(texts[0], ",", Commas(texts[1..]));
    }
  }

  lemma {:induction false} CommasOfMembers(ms: seq<Member>, parts: seq<string>)
    requires |parts| == |ms| && forall i :: 0 <= i < |ms| ==> parts[i] == Quote(ms[i].key) + ":" + Print(ms[i].val)
    ensures Commas(parts) == PrintMembers(ms)
  {
    if ms == [] {
    } else {
      CommasOfMembers(ms[1..], parts[1..]);
      Assoc(parts[0], ",", Commas(parts[1..]));
    }
  }

  /** A text spells a document exactly when it is what is printed of it. */
  lemma {:induction false} SpellsExactly(s: string, v: Value)
    requires WellFormed(v)
    ensures Spells(s, v) <==> s == Print(v)
    decreases v, 1
  {
    match v
    case Null =>
    case Bool(_) =>
    case Int(n) => IntSpeltExactly(s, n);
    case Str(t) => QuotedIsQuote(t);
    case List(es) => ListSpeltExactly(s, es);
    case Object(ms) => ObjectSpeltExactly(s, ms);
  }

  lemma {:induction false} ListSpeltExactly(s: string, es: seq<Value>)
    requires WellFormed(List(es))
    ensures Spells(s, List(es)) <==> s == Print(List(es))
    decreases es, 0
  {
    var printed := seq(|es|, i requires 0 <= i < |es| => Print(es[i]));
    forall i, t | 0 <= i < |es| ensures Spells(t, es[i]) <==> t == Print(es[i]) {
      SpellsExactly(t, es[i]);
    }
    CommasOfElems(es, printed);
    assert SpellsEach(printed, es);
    forall texts | SpellsEach(texts, es) ensures texts == printed {
      forall i | 0 <= i < |es| ensures texts[i] == printed[i] {
        assert Spells(texts[i], es[i]);
      }
    }
  }

  lemma {:induction false} ObjectSpeltExactly(s: string, ms: seq<Member>)
    requires WellFormed(Object(ms))
    ensures Spells(s, Object(ms)) <==> s == Print(Object(ms))
    decreases ms, 0
  {
    var printed := seq(|ms|, i requires 0 <= i < |ms| => Print(ms[i].val));
    forall i, t | 0 <= i < |ms| ensures Spells(t, ms[i].val) <==> t == Print(ms[i].val) {
      SpellsExactly(t, ms[i].val);
    }
    forall i | 0 <= i < |ms| ensures Members(ms, printed)[i] == Quote(ms[i].key) + ":" + Print(ms[i].val) {
      QuotedIsQuote(ms[i].key);
    }
    CommasOfMembers(ms, Members(ms, printed));
    assert SpellsMembers(printed, ms);
    forall texts | SpellsMembers(texts, ms) ensures texts == printed {
      forall i | 0 <= i < |ms| ensures texts[i] == printed[i] {
        assert Spells(texts[i], ms[i].val);
      }
    }
  }

  // -- order ----------------------------------------------------------------

  /** Keys ascend by their bytes in every object, strictly. */
  ghost predicate KeysAscend(v: Value)
    decreases v
  {
    match v
    case List(es) => forall i :: 0 <= i < |es| ==> KeysAscend(es[i])
    case Object(ms) =>
      && (forall i, j :: 0 <= i < j < |ms| ==> Order.Before(ms[i].key, ms[j].key))
      && forall i :: 0 <= i < |ms| ==> KeysAscend(ms[i].val)
    case _ => true
  }

  /** All text of a document is UTF-8, and it holds nothing the encoder refuses. */
  ghost predicate Encodable(v: Value)
    decreases v
  {
    match v
    case Refused(_) => false
    case Str(s) => ValidUtf8(s)
    case List(es) => forall i :: 0 <= i < |es| ==> Encodable(es[i])
    case Object(ms) => forall i :: 0 <= i < |ms| ==> ValidUtf8(ms[i].key) && Encodable(ms[i].val)
    case _ => true
  }

  lemma StrictExactly(ms: seq<Member>)
    ensures StrictKeys(ms) <==> forall i, j :: 0 <= i < j < |ms| ==> Order.Before(ms[i].key, ms[j].key)
  {
    forall i, j | 0 <= i < j < |ms| ensures Order.Less(ms[i].key, ms[j].key) <==> Order.Before(ms[i].key, ms[j].key) {
      Order.LessExactly(ms[i].key, ms[j].key);
    }
  }

  lemma {:induction false} WellFormedExactly(v: Value)
    ensures WellFormed(v) <==> KeysAscend(v) && Encodable(v)
    decreases v
  {
    match v
    case List(es) =>
      forall i | 0 <= i < |es| ensures WellFormed(es[i]) <==> KeysAscend(es[i]) && Encodable(es[i]) {
        WellFormedExactly(es[i]);
      }
    case Object(ms) =>
      forall i | 0 <= i < |ms| ensures WellFormed(ms[i].val) <==> KeysAscend(ms[i].val) && Encodable(ms[i].val) {
        WellFormedExactly(ms[i].val);
      }
      StrictExactly(ms);
    case _ =>
  }

  /** The same document with its objects' members in another order: lists keep theirs. */
  ghost predicate Rearranged(v: Value, w: Value)
    decreases v
  {
    match v
    case List(es) => w.List? && |w.elems| == |es| && forall i :: 0 <= i < |es| ==> Rearranged(es[i], w.elems[i])
    case Object(ms) =>
      && w.Object? && |w.members| == |ms|
      && (forall i :: 0 <= i < |ms| ==>
            exists j :: 0 <= j < |ms| && w.members[j].key == ms[i].key && Rearranged(ms[i].val, w.members[j].val))
    case _ => w == v
  }

  lemma {:induction false} NormalRearranges(v: Value)
    ensures Rearranged(v, Normal(v))
    decreases v
  {
    match v
    case List(es) =>
      NormalElemsAt(es);
      forall i | 0 <= i < |es| ensures Rearranged(es[i], NormalElems(es)[i]) {
        NormalRearranges(es[i]);
      }
    case Object(ms) =>
      var ns := NormalMembers(ms);
      var sorted := Order.Sort(KeyLeq, ns);
      NormalMembersAt(ms);
      Order.SortPermutes(KeyLeq, ns);
      assert |sorted| == |multiset(sorted)| == |multiset(ns)| == |ns|;
      forall i | 0 <= i < |ms|
        ensures exists j :: 0 <= j < |ms| && sorted[j].key == ms[i].key && Rearranged(ms[i].val, sorted[j].val)
      {
        NormalRearranges(ms[i].val);
        assert ns[i] in sorted;
        var j :| 0 <= j < |sorted| && sorted[j] == ns[i];
      }
    case _ =>
  }

  /** What Marshal writes: the document's one text with every object's keys ascending by
      their bytes. */
  lemma MarshalSpells(v: Value, shape: Shape) returns (n: Value)
    requires Marshal(v, shape).Ok?
    ensures Rearranged(v, n) && KeysAscend(n) && Encodable(n)
    ensures Spells(Marshal(v, shape).value, n)
  {
    n := Normal(v);
    MarshalAdmits(v, shape);
    NormalRearranges(v);
    WellFormedExactly(n);
    SpellsExactly(Print(n), n);
  }

  /** What Canonical leaves as it is: exactly the texts that spell a document with its
      keys ascending, all of it UTF-8, nested at most 32 deep. */
  lemma CanonicalFixesExactly(raw: string)
    ensures Canonical(raw) == Ok(raw) <==>
      exists n :: Spells(raw, n) && KeysAscend(n) && Encodable(n) && Nesting(n) <= 32
  {
    if Canonical(raw) == Ok(raw) {
      var v := Parse(raw).value;
      var n := Normal(v);
      MarshalAdmits(v, Decoded);
      NestingNormal(v);
      WellFormedExactly(n);
      SpellsExactly(raw, n);
    }
    forall n | Spells(raw, n) && KeysAscend(n) && Encodable(n) && Nesting(n) <= 32 ensures Canonical(raw) == Ok(raw) {
      WellFormedExactly(n);
      SpellsExactly(raw, n);
      NormalOfWellFormed(n);
      MarshalAdmits(n, Typed);
      CanonicalOfMarshal(n, Typed);
    }
  }

  // -- one of them ----------------------------------------------------------

  lemma OneDigitPrints(m: Member)
    requires m.key == "a" || m.key == "b"
    requires m.val == Int(1) || m.val == Int(2)
    ensures Quote(m.key) + ":" + Print(m.val) == ['\"', m.key[0], '\"', ':', if m.val.n == 1 then '1' else '2']
  {
    assert m.key[1..] == "";
    assert Escape(m.key) == m.key;
    assert Decimal(m.val.n) == [if m.val.n == 1 then '1' else '2'];
  }

  lemma TwoPrint(ms: seq<Member>)
    requires ms == [Member("a", Int(1)), Member("b", Int(2))]
    ensures Print(Object(ms)) == ['{', '\"', 'a', '\"', ':', '1', ',', '\"', 'b', '\"', ':', '2', '}']
  {
    OneDigitPrints(ms[0]);
    OneDigitPrints(ms[1]);
    assert PrintMembers(ms[1..]) == Quote("b") + ":" + Print(Int(2)) + "";
    assert PrintMembers(ms) == Quote("a") + ":" + Print(Int(1)) + ("," + PrintMembers(ms[1..]));
  }

  lemma TwoSort(a: Member, b: Member)
    requires a == Member("a", Int(1)) && b == Member("b", Int(2))
    ensures Normal(Object([b, a])) == Object([a, b]) && WellFormed(Object([a, b]))
  {
    assert [b, a][1..] == [a] && [a][1..] == [];
    assert NormalMembers([a]) == [a] && NormalMembers([b, a]) == [b] + [a] == [b, a];
    assert KeyLeq(a, b) && !KeyLeq(b, a);
    assert Order.Sort(KeyLeq, [a]) == [a];
    assert Order.Insert(KeyLeq, b, []) == [b] && Order.Insert(KeyLeq, b, [a]) == [a] + Order.Insert(KeyLeq, b, [a][1..]);
    assert Order.Sort(KeyLeq, [b, a]) == Order.Insert(KeyLeq, b, [a]) == [a, b];
  }

  /** A document of two keys, offered the wrong way round. */
  lemma TwoKeys(shape: Shape)
    ensures Marshal(Object([Member("b", Int(2)), Member("a", Int(1))]), shape)
         == Ok(['{', '\"', 'a', '\"', ':', '1', ',', '\"', 'b', '\"', ':', '2', '}'])
  {
    var a, b := Member("a", Int(1)), Member("b", Int(2));
    TwoSort(a, b);
    TwoPrint([a, b]);
    MarshalAdmits(Object([b, a]), shape);
  }
}
