/** One link of the chain, its canonical bytes and its admission from bytes. */
module ChainEntry {
  import opened Wrappers
  import opened Wire
  import opened Text
  import opened Digest
  import opened Canon
  import opened Fields

  const SCHEMA: Int64 := 1
  const GENESIS_PREV := ZEROS + ZEROS + ZEROS + ZEROS
  const KIND_BASELINE := "baseline"
  const KIND_APPEND := "append"

  datatype Payload = Payload(kind: string, namespace: string, sha256: string, size: Int64, keyFingerprint: string)

  datatype Entry = Entry(schema: Int64, position: Int64, prevHash: string, time: string, kind: string, host: string,
                         payload: Payload, note: string)

  /** An entry with the exact bytes that were signed and the signature over them. */
  datatype Record = Record(entry: Entry, raw: string, sig: bytes, hash: string)

  datatype Error = Malformed | BadSignature | Replay | Fork | Sequence | PrevHash | Time | Truncated | NotAChainFile | Unencodable

  /** What the host brings: SHA-256, timestamps, and, for the trusted key set in
      force, the fingerprint of the key whose chain-entry signature over `raw`
      `sig` is. */
  datatype Trust = Trust(
    sha256: string -> bytes,
    stamp: string -> Option<int>,
    signer: (bytes, string) -> Option<string>)

  function Hash(t: Trust, raw: string): string {
    Hex(t.sha256(raw))
  }

  // -- canonical bytes ------------------------------------------------------

  function PayloadMembers(p: Payload): seq<Member> {
    [ Member("kind", Str(p.kind)),
      Member("namespace", Str(p.namespace)),
      Member("sha256", Str(p.sha256)),
      Member("bytes", Int(p.size)),
      Member("key_fingerprint", Str(p.keyFingerprint)) ]
  }

  function EntryMembers(e: Entry): seq<Member> {
    [ Member("schema", Int(e.schema)),
      Member("seq", Int(e.position)),
      Member("prev_hash", Str(e.prevHash)),
      Member("time", Str(e.time)),
      Member("kind", Str(e.kind)),
      Member("host", Str(e.host)),
      Member("payload", Object(PayloadMembers(e.payload))),
      Member("note", Str(e.note)) ]
  }

  function MarshalEntry(e: Entry): Result<string, Canon.Error> {
    Marshal(Object(EntryMembers(e)), Typed)
  }

  const PAYLOAD_KEYS := {"kind", "namespace", "sha256", "bytes", "key_fingerprint"}
  const ENTRY_KEYS := {"schema", "seq", "prev_hash", "time", "kind", "host", "payload", "note"}

  function PayloadFrom(ms: seq<Member>): Option<Payload> {
    if !OnlyKeys(ms, PAYLOAD_KEYS) then None
    else
      match (StrField(ms, "kind"), StrField(ms, "namespace"), StrField(ms, "sha256"), IntField(ms, "bytes"),
             StrField(ms, "key_fingerprint"))
      case (Some(kind), Some(namespace), Some(sha), Some(size), Some(key)) =>
        if IsInt64(size) then Some(Payload(kind, namespace, sha, size, key)) else None
      case _ => None
  }

  function EntryFrom(v: Value): Option<Entry> {
    if !v.Object? || !OnlyKeys(v.members, ENTRY_KEYS) then None
    else
      var ms := v.members;
      match (ObjectField(ms, "payload"), IntField(ms, "schema"), IntField(ms, "seq"), StrField(ms, "prev_hash"))
      case (Some(fields), Some(schema), Some(position), Some(prev)) =>
        (match (PayloadFrom(fields), StrField(ms, "time"), StrField(ms, "kind"), StrField(ms, "host"), StrField(ms, "note"))
         case (Some(payload), Some(time), Some(kind), Some(host), Some(note)) =>
           if IsInt64(schema) && IsInt64(position)
           then Some(Entry(schema, position, prev, time, kind, host, payload, note)) else None
         case _ => None)
      case _ => None
  }

  lemma PayloadRoundTrip(p: Payload)
    ensures PayloadFrom(Normal(Object(PayloadMembers(p))).members) == Some(p)
  {
    var ms := PayloadMembers(p);
    assert ms[0].key == "kind" && ms[1].key == "namespace" && ms[2].key == "sha256" && ms[3].key == "bytes";
    assert ms[4].key == "key_fingerprint";
    OnlyTheseKeys(ms, PAYLOAD_KEYS);
    forall i | 0 <= i < 5 ensures Lookup(Normal(Object(ms)).members, ms[i].key) == Some(ms[i].val) {
      LookupAt(ms, i);
    }
  }

  lemma EntryKeysDistinct(e: Entry)
    ensures DistinctKeys(EntryMembers(e))
    ensures forall i :: 0 <= i < 8 ==> EntryMembers(e)[i].key in ENTRY_KEYS
  {
  }

  lemma EntryLookups(e: Entry)
    ensures var s := Normal(Object(EntryMembers(e))).members;
            && OnlyKeys(s, ENTRY_KEYS)
            && Lookup(s, "schema") == Some(Int(e.schema)) && Lookup(s, "seq") == Some(Int(e.position))
            && Lookup(s, "prev_hash") == Some(Str(e.prevHash)) && Lookup(s, "time") == Some(Str(e.time))
            && Lookup(s, "kind") == Some(Str(e.kind)) && Lookup(s, "host") == Some(Str(e.host))
            && Lookup(s, "payload") == Some(Normal(Object(PayloadMembers(e.payload))))
            && Lookup(s, "note") == Some(Str(e.note))
  {
    var ms := EntryMembers(e);
    EntryKeysDistinct(e);
    LookupNormal(ms);
    assert ms[0].key == "schema" && ms[1].key == "seq" && ms[2].key == "prev_hash" && ms[3].key == "time";
    assert ms[4].key == "kind" && ms[5].key == "host" && ms[6].key == "payload" && ms[7].key == "note";
  }

  /** An entry can be read back from its printed form: no two entries share one. */
  lemma EntryRoundTrip(e: Entry)
    ensures EntryFrom(Normal(Object(EntryMembers(e)))) == Some(e)
  {
    EntryLookups(e);
    PayloadRoundTrip(e.payload);
  }

  ghost predicate Encodable(e: Entry) {
    && ValidUtf8(e.prevHash) && ValidUtf8(e.time) && ValidUtf8(e.kind) && ValidUtf8(e.host) && ValidUtf8(e.note)
    && ValidUtf8(e.payload.kind) && ValidUtf8(e.payload.namespace) && ValidUtf8(e.payload.sha256)
    && ValidUtf8(e.payload.keyFingerprint)
  }

  lemma PayloadIsWellFormed(p: Payload)
    requires ValidUtf8(p.kind) && ValidUtf8(p.namespace) && ValidUtf8(p.sha256) && ValidUtf8(p.keyFingerprint)
    ensures WellFormed(Normal(Object(PayloadMembers(p))))
  {
    PlainObject(PayloadMembers(p));
  }

  lemma PlainEntryMember(e: Entry, i: nat)
    requires Encodable(e) && i < 8 && i != 6
    ensures Plain(EntryMembers(e)[i])
  {
  }

  lemma PayloadMemberIsWellFormed(m: Member, p: Payload)
    requires m == Member("payload", Object(PayloadMembers(p)))
    requires ValidUtf8(p.kind) && ValidUtf8(p.namespace) && ValidUtf8(p.sha256) && ValidUtf8(p.keyFingerprint)
    ensures ValidUtf8(m.key) && WellFormed(Normal(m.val))
  {
    PayloadIsWellFormed(p);
    PayloadKeyIsText(m.key);
  }

  lemma PayloadKeyIsText(key: string)
    requires key == "payload"
    ensures ValidUtf8(key)
  {
    assert key[0] == 'p' && key[1] == 'a' && key[2] == 'y' && key[3] == 'l' && key[4] == 'o' && key[5] == 'a' && key[6] == 'd';
    AsciiIsUtf8(key);
  }

  lemma EntryIsWellFormed(e: Entry)
    requires Encodable(e)
    ensures WellFormed(Normal(Object(EntryMembers(e))))
  {
    EntryKeysDistinct(e);
    forall i | 0 <= i < 8 ensures ValidUtf8(EntryMembers(e)[i].key) && WellFormed(Normal(EntryMembers(e)[i].val)) {
      if i == 6 {
        PayloadMemberIsWellFormed(EntryMembers(e)[6], e.payload);
      } else {
        PlainEntryMember(e, i);
        PlainIsWellFormed(EntryMembers(e)[i]);
      }
    }
    ObjectAdmits(EntryMembers(e));
  }

  /** An entry whose texts are UTF-8 has a spelling, and one at least as long as its
      note. */
  lemma EncodableIsMarshalled(e: Entry)
    requires Encodable(e)
    ensures MarshalEntry(e).Ok? && |MarshalEntry(e).value| >= |e.note|
  {
    EntryIsWellFormed(e);
    EntryNesting(e);
    MarshalAdmits(Object(EntryMembers(e)), Typed);
    ObjectHoldsText(EntryMembers(e), 7);
  }

  /** Equal signed bytes are equal entries. */
  lemma MarshalEntryInjective(e: Entry, f: Entry)
    requires MarshalEntry(e).Ok? && MarshalEntry(e) == MarshalEntry(f)
    ensures e == f
  {
    MarshalInjective(Object(EntryMembers(e)), Object(EntryMembers(f)), Typed, Typed);
    EntryRoundTrip(e);
    EntryRoundTrip(f);
  }

  // -- admission ------------------------------------------------------------

  /** Nothing malformed on its face. Says nothing about linkage. */
  predicate ValidEntry(t: Trust, e: Entry) {
    && e.schema == SCHEMA
    && e.position >= 0
    && ValidDigest(e.prevHash)
    && t.stamp(e.time).Some?
    && (e.kind == KIND_BASELINE || e.kind == KIND_APPEND)
    && !Blank(e.host)
    && !Blank(e.payload.kind)
    && !Blank(e.payload.namespace)
    && ValidDigest(e.payload.sha256)
    && e.payload.size >= 0
  }

  function MakeRecord(t: Trust, e: Entry, raw: string, sig: bytes): Record {
    Record(e, raw, sig, Hash(t, raw))
  }

  /** Validate, canonicalise, sign. */
  function NewRecord(t: Trust, sign: string -> Option<bytes>, e: Entry): Result<Record, Error> {
    if !ValidEntry(t, e) then Err(Malformed)
    else
      match MarshalEntry(e)
      case Err(_) => Err(Malformed)
      case Ok(raw) =>
        match sign(raw)
        case None => Err(BadSignature)
        case Some(sig) => Ok(MakeRecord(t, e, raw, sig))
  }

  function DecodeEntry(t: Trust, canon: string): Result<Entry, Error> {
    match Parse(canon)
    case Err(_) => Err(Malformed)
    case Ok(v) =>
      match EntryFrom(v)
      case None => Err(Malformed)
      case Some(e) => if MarshalEntry(e) != Ok(canon) || !ValidEntry(t, e) then Err(Malformed) else Ok(e)
  }

  /** Authenticate the bytes, then require them canonical, and only then parse. */
  function ParseRecord(t: Trust, raw: string, sig: bytes): Result<Record, Error> {
    if t.signer(sig, raw).None? then Err(BadSignature)
    else if Canonical(raw) != Ok(raw) then Err(Unencodable)
    else
      match DecodeEntry(t, raw)
      case Err(e) => Err(e)
      case Ok(e) => Ok(MakeRecord(t, e, raw, sig))
  }

  /** What every record built by this package satisfies: its bytes are its
      entry's, and its hash is theirs. */
  ghost predicate Authentic(t: Trust, r: Record) {
    && MarshalEntry(r.entry) == Ok(r.raw)
    && r.hash == Hash(t, r.raw)
  }

  /** ... and whose signature and entry the verifier accepts. */
  ghost predicate Admitted(t: Trust, r: Record) {
    Authentic(t, r) && t.signer(r.sig, r.raw).Some? && ValidEntry(t, r.entry)
  }

  lemma DecodeOfMarshal(t: Trust, e: Entry)
    requires MarshalEntry(e).Ok? && ValidEntry(t, e)
    ensures Canonical(MarshalEntry(e).value) == MarshalEntry(e)
    ensures DecodeEntry(t, MarshalEntry(e).value) == Ok(e)
  {
    var v := Object(EntryMembers(e));
    EntryNesting(e);
    CanonicalOfMarshal(v, Typed);
    ParseOfMarshal(v, Typed);
    EntryRoundTrip(e);
  }

  /** Exactly the admitted records come back from their own bytes. */
  lemma ParseRecordExact(t: Trust, raw: string, sig: bytes, r: Record)
    ensures ParseRecord(t, raw, sig) == Ok(r) <==> Admitted(t, r) && r.raw == raw && r.sig == sig
  {
    if Admitted(t, r) && r.raw == raw && r.sig == sig {
      DecodeOfMarshal(t, r.entry);
    }
  }

  lemma EntryNesting(e: Entry)
    ensures Nesting(Object(EntryMembers(e))) <= 2
  {
    NestingAtMost(PayloadMembers(e.payload), 0);
    NestingAtMost(EntryMembers(e), 1);
  }
}
