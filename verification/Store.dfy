/** The adjudication store: canonical bytes that are a function of the set, and a
    reader that never trusts more than it can read. */
module AdjudicationStore {
  import opened Wrappers
  import opened Canon
  import opened Fields
  import opened Adjudications
  import Suppression
  import Text
  import Order

  const STORE_SCHEMA: Int64 := 1
  const MAX_STORE_BYTES := 0x10_0000

  // -- order ----------------------------------------------------------------

  /** Narrowest scope first, then by fingerprint, evidence and time. */
  predicate RecordLeq(a: Record, b: Record) {
    if Breadth(a.scope) != Breadth(b.scope) then Breadth(a.scope) < Breadth(b.scope)
    else if a.fingerprint != b.fingerprint then Order.Leq(a.fingerprint, b.fingerprint)
    else if a.evidenceDigest != b.evidenceDigest then Order.Leq(a.evidenceDigest, b.evidenceDigest)
    else Order.Leq(a.at, b.at)
  }

  lemma RecordLeqTotal(a: Record, b: Record)
    ensures RecordLeq(a, b) || RecordLeq(b, a)
  {
    Order.LeqTotal(a.fingerprint, b.fingerprint);
    Order.LeqTotal(a.evidenceDigest, b.evidenceDigest);
    Order.LeqTotal(a.at, b.at);
  }

  lemma LeqChain(a: string, b: string, c: string)
    requires Order.Leq(a, b) && Order.Leq(b, c)
    ensures Order.Leq(a, c) && (a == c ==> a == b == c)
  {
    Order.LeqTransitive(a, b, c);
    if a == c {
      Order.LeqAntisymmetric(a, b);
    }
  }

  lemma LeqReflexive(a: string)
    ensures Order.Leq(a, a)
  {
    Order.LeqTotal(a, a);
  }

  lemma RecordLeqTransitive(a: Record, b: Record, c: Record)
    requires RecordLeq(a, b) && RecordLeq(b, c)
    ensures RecordLeq(a, c)
  {
    if Breadth(a.scope) == Breadth(b.scope) == Breadth(c.scope) {
      LeqReflexive(a.fingerprint);
      LeqReflexive(b.fingerprint);
      LeqChain(a.fingerprint, b.fingerprint, c.fingerprint);
      if a.fingerprint == b.fingerprint == c.fingerprint {
        LeqReflexive(a.evidenceDigest);
        LeqReflexive(b.evidenceDigest);
        LeqChain(a.evidenceDigest, b.evidenceDigest, c.evidenceDigest);
        if a.evidenceDigest == b.evidenceDigest == c.evidenceDigest {
          LeqChain(a.at, b.at, c.at);
        }
      }
    }
  }

  lemma RecordLeqOrders(recs: seq<Record>)
    ensures Order.TotalOn(RecordLeq, recs)
  {
    forall a, b ensures RecordLeq(a, b) || RecordLeq(b, a) {
      RecordLeqTotal(a, b);
    }
    forall a, b, c | RecordLeq(a, b) && RecordLeq(b, c) ensures RecordLeq(a, c) {
      RecordLeqTransitive(a, b, c);
    }
  }

  // -- writing --------------------------------------------------------------

  function RecordMembers(r: Record): seq<Member> {
    [ Member("fingerprint", Str(r.fingerprint)),
      Member("rule_id", Str(r.ruleId)),
      Member("subject_kind", Str(r.subjectKind)),
      Member("subject", Str(r.subject)),
      Member("scope", Str(r.scope)),
      Member("evidence_digest", Str(r.evidenceDigest)),
      Member("fingerprint_epoch", Int(r.epoch)),
      Member("semantics_digest", Str(r.semanticsDigest)),
      Member("reason", Str(r.reason)),
      Member("by", Str(r.decidedBy)),
      Member("at", Str(r.at)),
      Member("expires_at", Str(r.expiresAt)),
      Member("forced", Bool(r.forced)) ]
  }

  function RecordValues(recs: seq<Record>): seq<Value> {
    seq(|recs|, i requires 0 <= i < |recs| => Object(RecordMembers(recs[i])))
  }

  function StoreValue(recs: seq<Record>): Value {
    Object([Member("schema_version", Int(STORE_SCHEMA)), Member("records", List(RecordValues(recs)))])
  }

  /** What two records of one store may not share. */
  function JudgementKey(r: Record): string {
    r.fingerprint + ("\0" + r.evidenceDigest)
  }

  ghost predicate Storable(valid: Record -> bool, recs: seq<Record>) {
    && (forall i :: 0 <= i < |recs| ==> valid(recs[i]))
    && Order.DistinctBy(JudgementKey, recs)
  }

  /** What an arrangement of the records is written as. */
  ghost function Written(valid: Record -> bool, recs: seq<Record>): Option<string> {
    if !Storable(valid, recs) then None
    else match Marshal(StoreValue(recs), Typed) case Err(_) => None case Ok(raw) => Some(raw)
  }

  method CheckStorable(valid: Record -> bool, recs: seq<Record>) returns (ok: bool)
    ensures ok <==> Storable(valid, recs)
  {
    var seen: set<string> := {};
    for i := 0 to |recs|
      invariant forall k :: 0 <= k < i ==> valid(recs[k])
      invariant forall k :: 0 <= k < i ==> JudgementKey(recs[k]) in seen
      invariant forall s :: s in seen ==> exists k :: 0 <= k < i && JudgementKey(recs[k]) == s
      invariant Order.DistinctBy(JudgementKey, recs[..i])
    {
      if !valid(recs[i]) {
        return false;
      }
      var key := JudgementKey(recs[i]);
      if key in seen {
        return false;
      }
      DistinctSnoc(recs, i);
      seen := seen + {key};
    }
    assert recs[..|recs|] == recs;
    return true;
  }

  method MarshalStore(valid: Record -> bool, records: seq<Record>) returns (r: Option<string>)
    ensures r == Written(valid, Order.Sort(RecordLeq, records))
  {
    var recs := Order.Sort(RecordLeq, records);
    var ok := CheckStorable(valid, recs);
    if !ok {
      return None;
    }
    var raw := Marshal(StoreValue(recs), Typed);
    return if raw.Ok? then Some(raw.value) else None;
  }

  lemma DistinctSnoc(recs: seq<Record>, i: nat)
    requires i < |recs| && Order.DistinctBy(JudgementKey, recs[..i])
    requires forall k :: 0 <= k < i ==> JudgementKey(recs[k]) != JudgementKey(recs[i])
    ensures Order.DistinctBy(JudgementKey, recs[..i + 1])
  {
    var before, prefix := recs[..i], recs[..i + 1];
    forall a, b | 0 <= a < b < |prefix| ensures JudgementKey(prefix[a]) != JudgementKey(prefix[b]) {
      if b < i {
        assert JudgementKey(before[a]) != JudgementKey(before[b]);
      }
    }
  }

  // -- the bytes are a function of the set ----------------------------------

  lemma StorablePermutes(valid: Record -> bool, recs: seq<Record>, recs': seq<Record>)
    requires multiset(recs) == multiset(recs') && Storable(valid, recs)
    ensures Storable(valid, recs')
  {
    Order.SameElements(recs, recs');
    Order.DistinctByPermutes(JudgementKey, recs, recs');
    forall i | 0 <= i < |recs'| ensures valid(recs'[i]) {
      assert recs'[i] in recs;
    }
  }

  lemma StorableIsOrdered(valid: Record -> bool, recs: seq<Record>)
    requires Storable(valid, recs)
    ensures Order.AntisymmetricOn(RecordLeq, recs)
  {
    forall a, b | a in recs && b in recs && RecordLeq(a, b) && RecordLeq(b, a) ensures a == b {
      TiesShareAKey(a, b);
      var i :| 0 <= i < |recs| && recs[i] == a;
      var k :| 0 <= k < |recs| && recs[k] == b;
    }
  }

  lemma TiesShareAKey(a: Record, b: Record)
    requires RecordLeq(a, b) && RecordLeq(b, a)
    ensures JudgementKey(a) == JudgementKey(b)
  {
    if a.fingerprint != b.fingerprint {
      Order.LeqAntisymmetric(a.fingerprint, b.fingerprint);
    } else if a.evidenceDigest != b.evidenceDigest {
      Order.LeqAntisymmetric(a.evidenceDigest, b.evidenceDigest);
    }
  }

  /** However the records came, and whichever way they were sorted, the store is
      refused or it is the same bytes. */
  lemma StoreIsOfTheSet(valid: Record -> bool, recs: seq<Record>, recs': seq<Record>, arranged: seq<Record>)
    requires multiset(recs) == multiset(recs') == multiset(arranged) && Order.Sorted(RecordLeq, arranged)
    ensures Written(valid, Order.Sort(RecordLeq, recs)) == Written(valid, Order.Sort(RecordLeq, recs')) == Written(valid, arranged)
  {
    OneArrangement(valid, recs, arranged);
    OneArrangement(valid, recs', arranged);
  }

  lemma OneArrangement(valid: Record -> bool, recs: seq<Record>, arranged: seq<Record>)
    requires multiset(recs) == multiset(arranged) && Order.Sorted(RecordLeq, arranged)
    ensures Written(valid, Order.Sort(RecordLeq, recs)) == Written(valid, arranged)
  {
    var sorted := Order.Sort(RecordLeq, recs);
    RecordLeqOrders(recs);
    Order.SortPermutes(RecordLeq, recs);
    Order.SortSorts(RecordLeq, recs);
    if Storable(valid, sorted) {
      StorableIsOrdered(valid, sorted);
      Order.SortedArrangementIsUnique(RecordLeq, sorted, arranged);
    } else if Storable(valid, arranged) {
      StorablePermutes(valid, arranged, sorted);
    }
  }

  // -- reading --------------------------------------------------------------

  const RECORD_KEYS := {"fingerprint", "rule_id", "subject_kind", "subject", "scope", "evidence_digest", "fingerprint_epoch",
                        "semantics_digest", "reason", "by", "at", "expires_at", "forced"}
  const STORE_KEYS := {"schema_version", "records"}

  /** The text members of a record, in the order they are declared. */
  const TEXT_KEYS := ["fingerprint", "rule_id", "subject_kind", "subject", "scope", "evidence_digest", "semantics_digest",
                      "reason", "by", "at", "expires_at"]

  function StrFields(ms: seq<Member>, keys: seq<string>): Option<seq<string>> {
    if keys == [] then Some([])
    else
      match (StrField(ms, keys[0]), StrFields(ms, keys[1..]))
      case (Some(s), Some(rest)) => Some([s] + rest)
      case _ => None
  }

  lemma {:induction false} StrFieldsAre(ms: seq<Member>, keys: seq<string>, texts: seq<string>)
    requires |keys| == |texts| && forall i :: 0 <= i < |keys| ==> StrField(ms, keys[i]) == Some(texts[i])
    ensures StrFields(ms, keys) == Some(texts)
  {
    if keys == [] {
    } else {
      StrFieldsAre(ms, keys[1..], texts[1..]);
      assert texts == [texts[0]] + texts[1..];
    }
  }

  function FromTexts(t: seq<string>, epoch: Int64, forced: bool): Record
    requires |t| == 11
  {
    Record(t[0], t[1], t[2], t[3], t[4], t[5], epoch, t[6], t[7], t[8], t[9], t[10], forced)
  }

  function TextsOf(r: Record): seq<string> {
    [r.fingerprint, r.ruleId, r.subjectKind, r.subject, r.scope, r.evidenceDigest, r.semanticsDigest, r.reason, r.decidedBy,
     r.at, r.expiresAt]
  }

  function RecordFrom(v: Value): Option<Record> {
    if !v.Object? || !OnlyKeys(v.members, RECORD_KEYS) then None
    else
      match (StrFields(v.members, TEXT_KEYS), IntField(v.members, "fingerprint_epoch"), BoolField(v.members, "forced"))
      case (Some(texts), Some(epoch), Some(forced)) =>
        if |texts| == 11 && IsInt64(epoch) then Some(FromTexts(texts, epoch, forced)) else None
      case _ => None
  }

  function RecordsFrom(vs: seq<Value>): Option<seq<Record>> {
    if vs == [] then Some([])
    else
      match (RecordFrom(vs[0]), RecordsFrom(vs[1..]))
      case (Some(r), Some(rest)) => Some([r] + rest)
      case _ => None
  }

  /** The schema and the records of an envelope; an absent list holds none. */
  function StoreFrom(v: Value): Option<(Integer, seq<Record>)> {
    if !v.Object? || !OnlyKeys(v.members, STORE_KEYS) then None
    else
      var listed := match Lookup(v.members, "records") case None => Some([]) case Some(l) => if l.List? then Some(l.elems) else None;
      match (IntField(v.members, "schema_version"), listed)
      case (Some(schema), Some(vs)) =>
        (match RecordsFrom(vs) case None => None case Some(recs) => if IsInt64(schema) then Some((schema, recs)) else None)
      case _ => None
  }

  /** How a document fills the store's fields. `encoding/json` reads every document the
      exact reading takes as that reading does, and some with names in another case or
      null for a field besides. */
  type Reader = Value -> Option<(Integer, seq<Record>)>

  ghost predicate ReadsExact(read: Reader) {
    forall v :: StoreFrom(v).Some? ==> read(v) == StoreFrom(v)
  }

  function Decode(read: Reader, raw: string): Option<(Integer, seq<Record>)> {
    match Parse(raw) case Err(_) => None case Ok(v) => read(v)
  }

  /** The usable records of an envelope, in order. */
  function Usable(valid: Record -> bool, recs: seq<Record>): seq<Record>
    decreases |recs|
  {
    if recs == [] then []
    else
      var n := |recs| - 1;
      Usable(valid, recs[..n]) + if valid(recs[n]) then [recs[n]] else []
  }

  function RecordFaults(valid: Record -> bool, recs: seq<Record>): seq<string>
    decreases |recs|
  {
    if recs == [] then []
    else
      var n := |recs| - 1;
      RecordFaults(valid, recs[..n]) + if valid(recs[n]) then [] else ["record " + Text.Digits(n)]
  }

  /** The document some bytes are, when they are a store this build understands. */
  function Understood(read: Reader, raw: string): Option<seq<Record>> {
    if raw == "" || |raw| > MAX_STORE_BYTES || Canonical(raw).Err? then None
    else
      match Decode(read, raw)
      case None => None
      case Some((schema, recs)) => if schema == STORE_SCHEMA then Some(recs) else None
  }

  /** Never an error: what cannot be used is no record and at least one fault. */
  method ParseStore(valid: Record -> bool, read: Reader, source: string, raw: string) returns (loaded: Suppression.Set)
    ensures loaded.source == source
    ensures match Understood(read, raw)
      case None => loaded.records == [] && loaded.faults == ["file"]
      case Some(recs) =>
        && loaded.records == Usable(valid, recs)
        && loaded.faults == RecordFaults(valid, recs) + if recs == [] then ["file"] else []
  {
    if raw == "" || |raw| > MAX_STORE_BYTES || Canonical(raw).Err? {
      return Suppression.Set([], ["file"], source);
    }
    var doc := Decode(read, raw);
    if doc.None? || doc.value.0 != STORE_SCHEMA {
      return Suppression.Set([], ["file"], source);
    }
    var recs, kept, faults := doc.value.1, [], [];
    for i := 0 to |recs|
      invariant kept == Usable(valid, recs[..i]) && faults == RecordFaults(valid, recs[..i])
    {
      assert recs[..i + 1][..i] == recs[..i];
      if !valid(recs[i]) {
        faults := faults + ["record " + Text.Digits(i)];
        continue;
      }
      kept := kept + [recs[i]];
    }
    assert recs[..|recs|] == recs;
    if |recs| == 0 {
      faults := faults + ["file"];
    }
    return Suppression.Set(kept, faults, source);
  }

  // -- round trip -----------------------------------------------------------

  lemma RecordKeysDistinct(r: Record)
    ensures DistinctKeys(RecordMembers(r))
    ensures forall i :: 0 <= i < 13 ==> RecordMembers(r)[i].key in RECORD_KEYS
  {
  }

  /** Where the text members stand among all of them. */
  lemma TextAt(r: Record, i: nat)
    requires i < 11
    ensures RecordMembers(r)[if i < 6 then i else i + 1] == Member(TEXT_KEYS[i], Str(TextsOf(r)[i]))
  {
  }

  lemma RecordLookups(r: Record)
    ensures var s := Normal(Object(RecordMembers(r))).members;
      && OnlyKeys(s, RECORD_KEYS)
      && Lookup(s, "fingerprint_epoch") == Some(Int(r.epoch)) && Lookup(s, "forced") == Some(Bool(r.forced))
      && forall i :: 0 <= i < 11 ==> StrField(s, TEXT_KEYS[i]) == Some(TextsOf(r)[i])
  {
    RecordKeysDistinct(r);
    OnlyTheseKeys(RecordMembers(r), RECORD_KEYS);
    LookupAt(RecordMembers(r), 6);
    LookupAt(RecordMembers(r), 12);
    forall i | 0 <= i < 11 ensures StrField(Normal(Object(RecordMembers(r))).members, TEXT_KEYS[i]) == Some(TextsOf(r)[i]) {
      TextAt(r, i);
      LookupAt(RecordMembers(r), if i < 6 then i else i + 1);
    }
  }

  lemma RecordRoundTrip(r: Record)
    ensures RecordFrom(Normal(Object(RecordMembers(r)))) == Some(r)
  {
    RecordLookups(r);
    StrFieldsAre(Normal(Object(RecordMembers(r))).members, TEXT_KEYS, TextsOf(r));
  }

  lemma {:induction false} RecordsFromEach(vs: seq<Value>, recs: seq<Record>)
    requires |vs| == |recs| && forall i :: 0 <= i < |vs| ==> RecordFrom(vs[i]) == Some(recs[i])
    ensures RecordsFrom(vs) == Some(recs)
  {
    if vs == [] {
    } else {
      RecordsFromEach(vs[1..], recs[1..]);
      assert recs == [recs[0]] + recs[1..];
    }
  }

  lemma RecordsRoundTrip(recs: seq<Record>)
    ensures RecordsFrom(NormalElems(RecordValues(recs))) == Some(recs)
  {
    var vs := RecordValues(recs);
    NormalElemsAt(vs);
    forall i | 0 <= i < |recs| ensures RecordFrom(NormalElems(vs)[i]) == Some(recs[i]) {
      RecordRoundTrip(recs[i]);
    }
    RecordsFromEach(NormalElems(vs), recs);
  }

  lemma EnvelopeLookups(vs: seq<Value>)
    ensures var s := Normal(Object([Member("schema_version", Int(STORE_SCHEMA)), Member("records", List(vs))])).members;
      && OnlyKeys(s, STORE_KEYS)
      && Lookup(s, "schema_version") == Some(Int(STORE_SCHEMA)) && Lookup(s, "records") == Some(List(NormalElems(vs)))
  {
    var ms := [Member("schema_version", Int(STORE_SCHEMA)), Member("records", List(vs))];
    assert ms[0].key == "schema_version" && ms[1].key == "records";
    OnlyTheseKeys(ms, STORE_KEYS);
    LookupAt(ms, 0);
    LookupAt(ms, 1);
  }

  lemma StoreRoundTrip(recs: seq<Record>)
    ensures StoreFrom(Normal(StoreValue(recs))) == Some((STORE_SCHEMA, recs))
  {
    EnvelopeLookups(RecordValues(recs));
    RecordsRoundTrip(recs);
  }

  lemma {:induction false} NestingElemsAtMost(es: seq<Value>, k: nat)
    requires forall i :: 0 <= i < |es| ==> Nesting(es[i]) <= k
    ensures NestingElems(es) <= k + 1
  {
    if es == [] {
    } else {
      NestingElemsAtMost(es[1..], k);
    }
  }

  lemma RecordNesting(r: Record)
    ensures Nesting(Object(RecordMembers(r))) <= 1
  {
    NestingAtMost(RecordMembers(r), 0);
  }

  lemma StoreNesting(recs: seq<Record>)
    ensures Nesting(StoreValue(recs)) <= 3
  {
    forall i | 0 <= i < |recs| ensures Nesting(RecordValues(recs)[i]) <= 1 {
      RecordNesting(recs[i]);
    }
    NestingElemsAtMost(RecordValues(recs), 1);
    NestingAtMost(StoreValue(recs).members, 2);
  }

  lemma {:induction false} AllUsable(valid: Record -> bool, recs: seq<Record>)
    requires forall i :: 0 <= i < |recs| ==> valid(recs[i])
    ensures Usable(valid, recs) == recs && RecordFaults(valid, recs) == []
    decreases |recs|
  {
    if recs == [] {
    } else {
      AllUsable(valid, recs[..|recs| - 1]);
      assert recs == recs[..|recs| - 1] + [recs[|recs| - 1]];
    }
  }

  /** What was written is understood as exactly the records that were written, all of
      them usable, up to the size cap; the cap is the reader's alone, so a larger
      store is written and then read as no records and a fault. */
  lemma WrittenIsUnderstood(valid: Record -> bool, read: Reader, recs: seq<Record>)
    requires Written(valid, recs).Some? && ReadsExact(read)
    ensures var raw := Written(valid, recs).value;
      Understood(read, raw) == if |raw| <= MAX_STORE_BYTES then Some(recs) else None
    ensures Usable(valid, recs) == recs && RecordFaults(valid, recs) == []
  {
    var raw := Written(valid, recs).value;
    StoreNesting(recs);
    CanonicalOfMarshal(StoreValue(recs), Typed);
    ParseOfMarshal(StoreValue(recs), Typed);
    StoreRoundTrip(recs);
    AllUsable(valid, recs);
    assert raw != "";
  }
}
