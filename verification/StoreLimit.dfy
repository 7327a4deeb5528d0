/** A store that is written and then lost: the size cap is the reader's alone. */
module StoreLimit {
  import opened Wrappers
  import opened Digest
  import opened Canon
  import opened Fields
  import opened Adjudications
  import opened AdjudicationStore
  import Text

  // -- how long a store is --------------------------------------------------

  /** A store of one record is longer than the name of who decided it. */
  lemma StoreHoldsName(r: Record)
    ensures |Print(Normal(StoreValue([r])))| > |r.decidedBy|
  {
    var v := Object(RecordMembers(r));
    assert RecordValues([r]) == [v];
    assert [v][1..] == [];
    assert NormalElems([v]) == [Normal(v)];
    assert RecordMembers(r)[9] == Member("by", Str(r.decidedBy));
    ObjectHoldsText(RecordMembers(r), 9);
    ObjectHolds(StoreValue([r]).members, 1);
  }

  // -- what the writer takes ------------------------------------------------

  ghost predicate PlainTexts(r: Record) {
    forall i :: 0 <= i < 11 ==> Text.Ascii(TextsOf(r)[i])
  }

  lemma FirstKeyIsAscii(i: nat)
    requires i < 6
    ensures Text.Ascii(TEXT_KEYS[i])
  {
  }

  lemma LastKeyIsAscii(i: nat)
    requires 6 <= i < 11
    ensures Text.Ascii(TEXT_KEYS[i])
  {
  }

  lemma TextIsPlain(m: Member, key: string, s: string)
    requires m == Member(key, Str(s)) && Text.Ascii(key) && Text.Ascii(s)
    ensures Plain(m)
  {
    Text.AsciiIsUtf8(s);
  }

  lemma MemberIsPlain(r: Record, i: nat)
    requires PlainTexts(r) && i < 11
    ensures Plain(RecordMembers(r)[if i < 6 then i else i + 1])
  {
    TextAt(r, i);
    if i < 6 {
      FirstKeyIsAscii(i);
    } else {
      LastKeyIsAscii(i);
    }
    TextIsPlain(RecordMembers(r)[if i < 6 then i else i + 1], TEXT_KEYS[i], TextsOf(r)[i]);
  }

  lemma EpochAndForcedArePlain(r: Record)
    ensures Plain(RecordMembers(r)[6]) && Plain(RecordMembers(r)[12])
  {
  }

  lemma RecordIsWritten(r: Record)
    requires PlainTexts(r)
    ensures WellFormed(Normal(Object(RecordMembers(r))))
  {
    RecordKeysDistinct(r);
    EpochAndForcedArePlain(r);
    forall i | 0 <= i < 13 ensures Plain(RecordMembers(r)[i]) {
      if i != 6 && i != 12 {
        MemberIsPlain(r, if i < 6 then i else i - 1);
      }
    }
    PlainObject(RecordMembers(r));
  }

  lemma EnvelopeKeys()
    ensures Text.Ascii("schema_version") && Text.Ascii("records") && "schema_version" != "records"
  {
    assert "schema_version"[0] == 's' && "records"[0] == 'r';
  }

  lemma EnvelopeIsWritten(ms: seq<Member>, v: Value)
    requires |ms| == 2 && Text.Ascii(ms[0].key) && Text.Ascii(ms[1].key) && ms[0].key != ms[1].key
    requires ms[0].val.Int? && ms[1].val == List([v]) && WellFormed(Normal(v))
    ensures WellFormed(Normal(Object(ms)))
  {
    assert [v][1..] == [];
    assert NormalElems([v]) == [Normal(v)];
    Text.AsciiIsUtf8(ms[0].key);
    Text.AsciiIsUtf8(ms[1].key);
    ObjectAdmits(ms);
  }

  lemma StoreIsWellFormed(r: Record)
    requires PlainTexts(r)
    ensures WellFormed(Normal(StoreValue([r])))
  {
    RecordIsWritten(r);
    EnvelopeKeys();
    assert RecordValues([r]) == [Object(RecordMembers(r))];
    EnvelopeIsWritten(StoreValue([r]).members, Object(RecordMembers(r)));
  }

  lemma StoreIsMarshalled(recs: seq<Record>)
    requires WellFormed(Normal(StoreValue(recs)))
    ensures Marshal(StoreValue(recs), Typed) == Ok(Print(Normal(StoreValue(recs))))
  {
    StoreNesting(recs);
    MarshalAdmits(StoreValue(recs), Typed);
  }

  lemma StoreIsWritten(valid: Record -> bool, r: Record)
    requires valid(r) && PlainTexts(r)
    ensures Written(valid, [r]) == Some(Print(Normal(StoreValue([r]))))
  {
    StoreIsWellFormed(r);
    StoreIsMarshalled([r]);
  }

  /** One record whose author's name is as long as the cap: the store is written, and
      read back it is no records at all. */
  lemma LongNameIsLost(valid: Record -> bool, read: Reader, r: Record)
    requires valid(r) && PlainTexts(r) && |r.decidedBy| >= MAX_STORE_BYTES
    ensures Written(valid, [r]).Some? && Understood(read, Written(valid, [r]).value) == None
  {
    StoreIsWritten(valid, r);
    StoreHoldsName(r);
  }

  // -- a record that is valid -----------------------------------------------

  lemma {:induction false} LettersCount(s: string)
    requires forall i :: 0 <= i < |s| ==> s[i] == 'x'
    ensures ContentRunes(s) == |s|
    decreases |s|
  {
    if s == "" {
    } else {
      LettersCount(s[1..]);
    }
  }

  lemma LettersAreAReason(s: string)
    requires |s| == MIN_REASON_RUNES && forall i :: 0 <= i < |s| ==> s[i] == 'x'
    ensures ValidReason(s)
  {
    LettersCount(s);
    StartsNoSpace(s);
    StartsNoSpace(s[|s| - 1..]);
    StartsNoSpace(s[|s| - 2..]);
    StartsNoSpace(s[|s| - 3..]);
  }

  lemma StartsNoSpace(s: string)
    requires s != "" && s[0] == 'x'
    ensures Text.SpaceLength(s) == 0
  {
  }

  /** A record that hides all of a rule, by someone of that name. */
  function RuleRecord(w: World, reason: string, name: string): Record {
    Record(FingerprintFor(w, "r", "", "", RULE), "r", "", "", RULE, "", 1, ZEROS + ZEROS + ZEROS + ZEROS, reason, name, "at", "until", true)
  }

  function SomeWorld(): World {
    World(s => [], s => if s == "until" then Some(1) else Some(0), n => "at")
  }

  lemma RuleRecordIsValid(reason: string, name: string)
    requires ValidReason(reason) && name != ""
    ensures Valid(SomeWorld(), RuleRecord(SomeWorld(), reason, name))
  {
    ZeroDigest();
    assert |PIN| < |RULE| < |SUBJECT| && |"at"| < |"until"|;
  }

  lemma RuleRecordIsPlain(reason: string, name: string)
    requires Text.Ascii(reason) && Text.Ascii(name)
    ensures PlainTexts(RuleRecord(SomeWorld(), reason, name))
  {
    ZeroDigest();
    assert FingerprintFor(SomeWorld(), "r", "", "", RULE) == "";
  }

  /** There is such a record, valid like any other: its author's name is 2^20 letters
      long. */
  lemma SomeStoreIsLost(read: Reader) returns (w: World, r: Record)
    ensures Valid(w, r) && Written(ValidIn(w), [r]).Some? && Understood(read, Written(ValidIn(w), [r]).value) == None
  {
    var reason, name := seq(MIN_REASON_RUNES, _ => 'x'), seq(MAX_STORE_BYTES, _ => 'n');
    w := SomeWorld();
    r := RuleRecord(w, reason, name);
    LettersAreAReason(reason);
    RuleRecordIsValid(reason, name);
    RuleRecordIsPlain(reason, name);
    LongNameIsLost(ValidIn(w), read, r);
  }
}
