/** The encoder as it runs: one buffer, appended to while the value is walked. */
module Encoding {
  import opened Wrappers
  import opened Text
  import opened Canon
  import Order

  lemma {:induction false} InsertNormal(m: Member, ms: seq<Member>)
    ensures Order.Insert(KeyLeq, Member(m.key, Normal(m.val)), NormalMembers(ms)) == NormalMembers(Order.Insert(KeyLeq, m, ms))
    decreases |ms|
  {
    NormalMembersConcat([m], ms);
    if ms == [] || KeyLeq(m, ms[0]) {
    } else {
      InsertNormal(m, ms[1..]);
      NormalMembersConcat([ms[0]], Order.Insert(KeyLeq, m, ms[1..]));
    }
  }

  /** Sorting the keys and then walking them is the sorted form. */
  lemma {:induction false} SortNormal(ms: seq<Member>)
    ensures Order.Sort(KeyLeq, NormalMembers(ms)) == NormalMembers(Order.Sort(KeyLeq, ms))
    decreases |ms|
  {
    if ms == [] {
    } else {
      SortNormal(ms[1..]);
      InsertNormal(ms[0], Order.Sort(KeyLeq, ms[1..]));
    }
  }

  /** What is still to be written once `i` elements are. */
  function ElemsAfter(es: seq<Value>, i: nat): string
    requires i <= |es|
  {
    if i == |es| then "" else (if i > 0 then "," else "") + PrintElems(es[i..])
  }

  function MembersAfter(ms: seq<Member>, i: nat): string
    requires i <= |ms|
  {
    if i == |ms| then "" else (if i > 0 then "," else "") + PrintMembers(ms[i..])
  }

  lemma Wrap(a: string, open: string, text: string, close: string)
    ensures a + open + text + close == a + (open + text + close)
  {
  }

  lemma EscapeStep(buf: string, s: string, i: nat)
    requires i < |s|
    ensures buf + EscapeByte(s[i]) + Escape(s[i + 1..]) == buf + Escape(s[i..])
  {
    assert s[i..][1..] == s[i + 1..];
    Assoc(buf, EscapeByte(s[i]), Escape(s[i + 1..]));
  }

  /** Writing element `i` leaves what comes after it. */
  lemma ElemsAfterStep(es: seq<Value>, i: nat, buf: string, total: string)
    requires i < |es| && buf + ElemsAfter(es, i) == total
    ensures (if i > 0 then buf + "," else buf) + Print(es[i]) + ElemsAfter(es, i + 1) == total
  {
    var item, rest := Print(es[i]), ElemsAfter(es, i + 1);
    assert PrintElems(es[i..]) == item + rest by { assert es[i..][1..] == es[i + 1..]; }
    if i > 0 {
      Assoc(buf, ",", item + rest);
      Assoc(buf + ",", item, rest);
    } else {
      assert ElemsAfter(es, i) == item + rest;
      Assoc(buf, item, rest);
    }
  }

  lemma FaultElemsStep(es: seq<Value>, i: nat, depth: nat, shape: Shape)
    requires i < |es|
    ensures FaultElems(es[i..], depth, shape)
         == if Fault(es[i], depth + Cost(shape, 1), shape).Some? then Fault(es[i], depth + Cost(shape, 1), shape)
            else FaultElems(es[i + 1..], depth, shape)
  {
    assert es[i..][0] == es[i] && es[i..][1..] == es[i + 1..];
  }

  lemma MembersAfterStep(ms: seq<Member>, i: nat, buf: string, total: string)
    requires i < |ms| && buf + MembersAfter(ms, i) == total
    ensures (if i > 0 then buf + "," else buf) + Quote(ms[i].key) + ":" + Print(ms[i].val) + MembersAfter(ms, i + 1) == total
  {
    var key, val, rest := Quote(ms[i].key), Print(ms[i].val), MembersAfter(ms, i + 1);
    var start := if i > 0 then buf + "," else buf;
    assert PrintMembers(ms[i..]) == key + ":" + val + rest by { assert ms[i..][1..] == ms[i + 1..]; }
    assert total == start + (key + ":" + val + rest) by {
      if i > 0 {
        Assoc(buf, ",", key + ":" + val + rest);
      } else {
        assert MembersAfter(ms, i) == key + ":" + val + rest;
      }
    }
    Assoc(start, key + ":" + val, rest);
    Assoc(start, key + ":", val);
    Assoc(start, key, ":");
  }

  lemma FaultMembersStep(ms: seq<Member>, i: nat, previous: Option<string>, depth: nat, shape: Shape)
    requires i < |ms|
    ensures FaultMembers(ms[i..], previous, depth, shape)
         == if previous == Some(ms[i].key) then Some(DuplicateKey)
            else if !ValidUtf8(ms[i].key) then Some(NotUtf8)
            else if Fault(ms[i].val, depth + Cost(shape, 1), shape).Some? then Fault(ms[i].val, depth + Cost(shape, 1), shape)
            else FaultMembers(ms[i + 1..], Some(ms[i].key), depth, shape)
  {
    assert ms[i..][0] == ms[i] && ms[i..][1..] == ms[i + 1..];
  }

  lemma FaultMembersHead(ms: seq<Member>, i: nat, previous: Option<string>, depth: nat, shape: Shape)
    requires i < |ms|
    ensures FaultMembers(ms[i..], previous, depth, shape)
         == if FaultMembers([ms[i]], previous, depth, shape).Some? then FaultMembers([ms[i]], previous, depth, shape)
            else FaultMembers(ms[i + 1..], Some(ms[i].key), depth, shape)
  {
    FaultMembersStep(ms, i, previous, depth, shape);
    FaultMembersStep([ms[i]], 0, previous, depth, shape);
    assert [ms[i]][1..] == [];
  }

  /** What writing member `i` of an object comes to. */
  lemma ObjectStep(ns: seq<Member>, i: nat, m: Member, previous: Option<string>, depth: nat, shape: Shape,
                   fault: Option<Error>, buf: string, buf': string, total: string)
    requires i < |ns| && ns[i] == Member(m.key, Normal(m.val)) && (i > 0 <==> previous.Some?)
    requires buf + MembersAfter(ns, i) == total
    requires fault == FaultMembers([ns[i]], previous, depth, shape)
    requires fault == None ==> buf' == (if previous.Some? then buf + "," else buf) + Quote(m.key) + ":" + Print(Normal(m.val))
    ensures FaultMembers(ns[i..], previous, depth, shape)
         == if fault.Some? then fault else FaultMembers(ns[i + 1..], Some(m.key), depth, shape)
    ensures fault == None ==> buf' + MembersAfter(ns, i + 1) == total
  {
    FaultMembersHead(ns, i, previous, depth, shape);
    if fault == None {
      MembersAfterStep(ns, i, buf, total);
    }
  }

  lemma SortedFields(ms: seq<Member>)
    ensures var fields := Order.Sort(KeyLeq, ms);
            && NormalMembers(fields) == Order.Sort(KeyLeq, NormalMembers(ms))
            && forall i :: 0 <= i < |fields| ==> fields[i] in ms
  {
    SortNormal(ms);
    Order.SortPermutes(KeyLeq, ms);
  }

  class Encoder {
    var buf: string

    constructor ()
      ensures buf == ""
    {
      buf := "";
    }

    /** Writes one canonical string literal. */
    method Str(s: string) returns (fault: Option<Error>)
      modifies this
      ensures fault == if ValidUtf8(s) then None else Some(NotUtf8)
      ensures buf == if ValidUtf8(s) then old(buf) + Quote(s) else old(buf)
    {
      if !ValidUtf8(s) {
        return Some(NotUtf8);
      }
      buf := buf + "\"";
      ghost var total := old(buf) + "\"" + Escape(s);
      assert s[0..] == s;
      for i := 0 to |s|
        invariant buf + Escape(s[i..]) == total
      {
        EscapeStep(buf, s, i);
        buf := buf + EscapeByte(s[i]);
      }
      assert buf == total by { assert s[|s|..] == "" && buf + "" == buf; }
      Wrap(old(buf), "\"", Escape(s), "\"");
      buf := buf + "\"";
      return None;
    }

    method Write(v: Value, depth: nat, shape: Shape) returns (fault: Option<Error>)
      modifies this
      ensures fault == Fault(Normal(v), depth, shape)
      ensures fault == None ==> buf == old(buf) + Print(Normal(v))
      decreases v, 1
    {
      if depth > MAX_DEPTH {
        return Some(NotCanonical);
      }
      match v {
        case Null => buf := buf + "null"; return None;
        case Bool(b) => buf := buf + if b then "true" else "false"; return None;
        case Int(n) => buf := buf + Decimal(n); return None;
        case Str(s) => fault := this.Str(s);
        case List(es) => fault := WriteList(es, depth, shape);
        case Object(ms) => fault := WriteObject(ms, depth, shape);
        case Refused(e) => return Some(e);
      }
    }

    method WriteList(es: seq<Value>, depth: nat, shape: Shape) returns (fault: Option<Error>)
      requires depth <= MAX_DEPTH
      modifies this
      ensures fault == FaultElems(NormalElems(es), depth, shape)
      ensures fault == None ==> buf == old(buf) + Print(List(NormalElems(es)))
      decreases es, 0
    {
      ghost var ns := NormalElems(es);
      ghost var total := old(buf) + "[" + PrintElems(ns);
      NormalElemsAt(es);
      buf := buf + "[";
      assert ns[0..] == ns;
      for i := 0 to |es|
        invariant FaultElems(ns, depth, shape) == FaultElems(ns[i..], depth, shape)
        invariant buf + ElemsAfter(ns, i) == total
      {
        ElemsAfterStep(ns, i, buf, total);
        FaultElemsStep(ns, i, depth, shape);
        if i > 0 {
          buf := buf + ",";
        }
        fault := Write(es[i], depth + Cost(shape, 1), shape);
        if fault.Some? {
          return;
        }
      }
      assert buf == total;
      Wrap(old(buf), "[", PrintElems(ns), "]");
      buf := buf + "]";
      return None;
    }

    /** One member: the comma that separates it from the one before, if any, its
        key and its value. */
    method WriteMember(m: Member, previous: Option<string>, depth: nat, shape: Shape) returns (fault: Option<Error>)
      modifies this
      ensures fault == FaultMembers([Member(m.key, Normal(m.val))], previous, depth, shape)
      ensures fault == None ==>
        buf == (if previous.Some? then old(buf) + "," else old(buf)) + Quote(m.key) + ":" + Print(Normal(m.val))
      decreases m, 0
    {
      FaultMembersStep([Member(m.key, Normal(m.val))], 0, previous, depth, shape);
      if previous.Some? {
        if previous.value == m.key {
          return Some(DuplicateKey);
        }
        buf := buf + ",";
      }
      fault := this.Str(m.key);
      if fault.Some? {
        return;
      }
      buf := buf + ":";
      fault := Write(m.val, depth + Cost(shape, 1), shape);
    }

    /** The members of an object, already in key order. */
    method WriteFields(fields: seq<Member>, depth: nat, shape: Shape, ghost ms: seq<Member>) returns (fault: Option<Error>)
      requires forall i :: 0 <= i < |fields| ==> fields[i] in ms
      modifies this
      ensures fault == FaultMembers(NormalMembers(fields), None, depth, shape)
      ensures fault == None ==> buf == old(buf) + PrintMembers(NormalMembers(fields))
      decreases ms, 0
    {
      ghost var ns := NormalMembers(fields);
      ghost var total := old(buf) + PrintMembers(ns);
      NormalMembersAt(fields);
      var previous := None;
      assert ns[0..] == ns;
      for i := 0 to |fields|
        invariant i > 0 <==> previous.Some?
        invariant FaultMembers(ns, None, depth, shape) == FaultMembers(ns[i..], previous, depth, shape)
        invariant buf + MembersAfter(ns, i) == total
      {
        ghost var before := buf;
        fault := WriteMember(fields[i], previous, depth, shape);
        ObjectStep(ns, i, fields[i], previous, depth, shape, fault, before, buf, total);
        if fault.Some? {
          return;
        }
        previous := Some(fields[i].key);
      }
      assert buf == total;
      return None;
    }

    method WriteObject(ms: seq<Member>, depth: nat, shape: Shape) returns (fault: Option<Error>)
      modifies this
      ensures fault == FaultMembers(Order.Sort(KeyLeq, NormalMembers(ms)), None, depth, shape)
      ensures fault == None ==> buf == old(buf) + Print(Object(Order.Sort(KeyLeq, NormalMembers(ms))))
      decreases ms, 1
    {
      var fields := Order.Sort(KeyLeq, ms);
      SortedFields(ms);
      buf := buf + "{";
      fault := WriteFields(fields, depth, shape, ms);
      if fault.Some? {
        return;
      }
      Wrap(old(buf), "{", PrintMembers(NormalMembers(fields)), "}");
      buf := buf + "}";
    }
  }

  /** `baseline.Marshal`: a fresh encoder, and its bytes or its refusal. */
  method EncodeDocument(v: Value, shape: Shape) returns (r: Result<string, Error>)
    ensures r == Marshal(v, shape)
  {
    var e := new Encoder();
    var fault := e.Write(v, 0, shape);
    assert fault == None ==> e.buf == Print(Normal(v));
    r := match fault case Some(why) => Err(why) case None => Ok(e.buf);
  }
}
