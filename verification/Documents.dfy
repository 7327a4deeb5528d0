/** The documents that are written, member by member: a chain entry, the anchor of a
    replicated chain, and an adjudication store. */
module Documents {
  import opened Canon
  import opened Spelling
  import Adjudications
  import AdjudicationStore
  import ChainEntry
  import Replication

  /** A text that is written of a document: its members in the order of their keys. */
  ghost predicate TextOf(s: string, v: Value) {
    exists n :: Rearranged(v, n) && KeysAscend(n) && Spells(s, n)
  }

  lemma MarshalIsText(v: Value, shape: Shape)
    requires Marshal(v, shape).Ok?
    ensures TextOf(Marshal(v, shape).value, v)
  {
    var n := MarshalSpells(v, shape);
  }

  /** What is signed of an entry. */
  lemma EntryExactly(e: ChainEntry.Entry)
    requires ChainEntry.MarshalEntry(e).Ok?
    ensures TextOf(ChainEntry.MarshalEntry(e).value,
      Object([ Member("schema", Int(e.schema)), Member("seq", Int(e.position)), Member("prev_hash", Str(e.prevHash)),
               Member("time", Str(e.time)), Member("kind", Str(e.kind)), Member("host", Str(e.host)),
               Member("payload", Object([ Member("kind", Str(e.payload.kind)), Member("namespace", Str(e.payload.namespace)),
                                          Member("sha256", Str(e.payload.sha256)), Member("bytes", Int(e.payload.size)),
                                          Member("key_fingerprint", Str(e.payload.keyFingerprint)) ])),
               Member("note", Str(e.note)) ]))
  {
    MarshalIsText(Object(ChainEntry.EntryMembers(e)), Typed);
  }

  function AnchorValue(r: Replication.State): Value {
    Object([ Member("schema", Int(1)), Member("remote", Str(r.remote)), Member("length", Int(r.length)),
             Member("head", Str(r.head)), Member("confirmed_at", Str(r.confirmedAt)),
             Member("protected_remote", Bool(r.protectedRemote)), Member("note", Str(r.note)) ])
  }

  /** What is signed of the last confirmed push. */
  lemma AnchorExactly(r: Replication.State)
    requires Marshal(Object(Replication.StateMembers(r)), Typed).Ok?
    ensures TextOf(Marshal(Object(Replication.StateMembers(r)), Typed).value, AnchorValue(r))
  {
    MarshalIsText(Object(Replication.StateMembers(r)), Typed);
  }

  function JudgementValue(r: Adjudications.Record): Value {
    Object([ Member("fingerprint", Str(r.fingerprint)), Member("rule_id", Str(r.ruleId)),
             Member("subject_kind", Str(r.subjectKind)), Member("subject", Str(r.subject)), Member("scope", Str(r.scope)),
             Member("evidence_digest", Str(r.evidenceDigest)), Member("fingerprint_epoch", Int(r.epoch)),
             Member("semantics_digest", Str(r.semanticsDigest)), Member("reason", Str(r.reason)),
             Member("by", Str(r.decidedBy)), Member("at", Str(r.at)), Member("expires_at", Str(r.expiresAt)),
             Member("forced", Bool(r.forced)) ])
  }

  /** What is written of some records, in their order. */
  lemma StoreExactly(recs: seq<Adjudications.Record>)
    requires Marshal(AdjudicationStore.StoreValue(recs), Typed).Ok?
    ensures TextOf(Marshal(AdjudicationStore.StoreValue(recs), Typed).value,
      Object([ Member("schema_version", Int(1)),
               Member("records", List(seq(|recs|, i requires 0 <= i < |recs| => JudgementValue(recs[i])))) ]))
  {
    MarshalIsText(AdjudicationStore.StoreValue(recs), Typed);
    assert AdjudicationStore.RecordValues(recs) == seq(|recs|, i requires 0 <= i < |recs| => JudgementValue(recs[i]));
  }
}
