/** Appending one record: what a single appender decides and writes. */
module Append {
  import opened Wrappers
  import opened ChainEntry
  import opened Chain
  import opened Fields
  import ChainFile
  import Digest
  import Text
  import Wire

  const MAX_CHAIN_BYTES := 0x2000_0000

  datatype Refusal = InsideExaminedTree | TransactionInFlight | Busy | Chain(error: Error) | WriteFailed

  /** Reads the chain: a missing file is no records, anything else wrong is an
      error. */
  function Load(t: Trust, file: Option<string>): Result<seq<Record>, Error> {
    match file
    case None => Ok([])
    case Some(text) => if |text| > MAX_CHAIN_BYTES then Err(NotAChainFile) else ChainFile.Parse(t, text)
  }

  function WantPrev(head: Option<Record>): string {
    match head case None => GENESIS_PREV case Some(h) => h.hash
  }

  function WantPosition(head: Option<Record>): Int64 {
    match head case None => 0 case Some(h) => NextPosition(h.entry.position)
  }

  function HeadOf(rs: seq<Record>): Option<Record> {
    if rs == [] then None else Some(rs[|rs| - 1])
  }

  /** What is checked before a new record is written. */
  ghost function AppendFault(t: Trust, existing: seq<Record>, rec: Record): Option<Error> {
    if rec.entry.prevHash != WantPrev(HeadOf(existing)) then Some(PrevHash)
    else if rec.entry.position != WantPosition(HeadOf(existing)) then Some(Sequence)
    else Outcome(t, existing + [rec], None)
  }

  /** A chain that may be appended to. */
  ghost predicate Appendable(t: Trust, existing: seq<Record>) {
    existing == [] || Outcome(t, existing, None) == None
  }

  /** Makes the new record, given the head it is to follow. */
  type Builder = Option<Record> -> Result<Record, Error>

  /** A record is only ever made from an entry and its own bytes. */
  ghost predicate Builds(t: Trust, build: Builder) {
    forall head :: build(head).Ok? ==> Authentic(t, build(head).value)
  }

  /** The builder every caller uses: link the entry to the head, validate it, sign it. */
  function LinkAndSign(t: Trust, sign: string -> Option<Wire.bytes>, e: Entry): Builder {
    head => NewRecord(t, sign, Link(head, e))
  }

  lemma NewRecordIsAuthentic(t: Trust, sign: string -> Option<Wire.bytes>, e: Entry)
    ensures NewRecord(t, sign, e).Ok? ==>
      var rec := NewRecord(t, sign, e).value; Authentic(t, rec) && rec.entry == e && ValidEntry(t, e)
  {
  }

  lemma LinkAndSignBuilds(t: Trust, sign: string -> Option<Wire.bytes>, e: Entry)
    ensures Builds(t, LinkAndSign(t, sign, e))
  {
    forall head | LinkAndSign(t, sign, e)(head).Ok? ensures Authentic(t, LinkAndSign(t, sign, e)(head).value) {
      NewRecordIsAuthentic(t, sign, Link(head, e));
    }
  }

  lemma SoundIsAdmitted(t: Trust, existing: seq<Record>, rec: Record)
    requires ChainFile.AllAdmitted(t, existing) && Authentic(t, rec) && RecordFault(t, rec) == None
    ensures ChainFile.AllAdmitted(t, existing + [rec])
  {
    forall i | 0 <= i < |existing| + 1 ensures Admitted(t, (existing + [rec])[i]) {
      if i < |existing| { assert Admitted(t, existing[i]); }
    }
  }

  lemma LoadedIsAdmitted(t: Trust, file: Option<string>)
    requires Load(t, file).Ok?
    ensures ChainFile.AllAdmitted(t, Load(t, file).value)
  {
    if file.Some? {
      ChainFile.ParsedIsAdmitted(t, file.value);
    }
  }

  /** The last record of a verified chain stands on its own. */
  lemma LastRecordStands(t: Trust, existing: seq<Record>, rec: Record)
    requires Outcome(t, existing + [rec], None) == None
    ensures RecordFault(t, rec) == None
  {
    NoRecordFault(t, existing + [rec]);
    assert (existing + [rec])[|existing|] == rec;
  }

  lemma AuthenticReadsBack(t: Trust, file: Option<string>, existing: seq<Record>, rec: Record)
    requires Load(t, file) == Ok(existing) && Authentic(t, rec) && RecordFault(t, rec) == None
    ensures ChainFile.Parse(t, ChainFile.Encode(existing + [rec])) == Ok(existing + [rec])
  {
    LoadedIsAdmitted(t, file);
    SoundIsAdmitted(t, existing, rec);
    ChainFile.ChainFileRoundTrip(t, existing + [rec]);
  }

  lemma ReadBackIsAuthentic(t: Trust, existing: seq<Record>, rec: Record)
    requires ChainFile.Parse(t, ChainFile.Encode(existing + [rec])) == Ok(existing + [rec])
    ensures Authentic(t, rec)
  {
    ChainFile.ParsedIsAdmitted(t, ChainFile.Encode(existing + [rec]));
    assert (existing + [rec])[|existing|] == rec;
  }

  /** A checked record extends the chain to one that verifies. What is written reads
      back as that chain exactly when the record's entry is the one in its signed
      bytes, and the next load takes it exactly when it is within the reader's size cap
      besides; nothing looks at either before it is written. */
  lemma CheckedAppendReadsBack(t: Trust, file: Option<string>, existing: seq<Record>, rec: Record)
    requires Load(t, file) == Ok(existing) && AppendFault(t, existing, rec) == None
    ensures Sound(t, existing + [rec])
    ensures var next, text := existing + [rec], ChainFile.Encode(existing + [rec]);
      && (ChainFile.Parse(t, text) == Ok(next) <==> Authentic(t, rec))
      && (Load(t, Some(text)) == Ok(next) <==> Authentic(t, rec) && |text| <= MAX_CHAIN_BYTES)
      && (|text| > MAX_CHAIN_BYTES ==> Load(t, Some(text)) == Err(NotAChainFile))
  {
    VerifyExact(t, existing + [rec], None);
    LastRecordStands(t, existing, rec);
    if Authentic(t, rec) {
      AuthenticReadsBack(t, file, existing, rec);
    }
    if ChainFile.Parse(t, ChainFile.Encode(existing + [rec])) == Ok(existing + [rec]) {
      ReadBackIsAuthentic(t, existing, rec);
    }
  }

  // -- when an honest append is taken ---------------------------------------

  /** Nothing about the record is a repeat, and time does not go back. */
  ghost predicate Fresh(t: Trust, existing: seq<Record>, rec: Record) {
    && rec.hash !in Hashes(existing)
    && rec.entry.payload.sha256 !in PayloadDigests(existing)
    && (existing != [] ==>
          var head := existing[|existing| - 1];
          && head.hash != GENESIS_PREV
          && t.stamp(head.entry.time).Some? && t.stamp(rec.entry.time).Some?
          && t.stamp(head.entry.time).value <= t.stamp(rec.entry.time).value)
  }

  lemma DistinctSnoc(xs: seq<string>, x: string)
    requires Distinct(xs)
    ensures Distinct(xs + [x]) <==> x !in xs
  {
    var ys := xs + [x];
    if x !in xs {
      forall i, j | 0 <= i < j < |ys| ensures ys[i] != ys[j] {
        if j == |xs| {
          assert ys[i] == xs[i] && xs[i] in xs;
        }
      }
    } else {
      var i :| 0 <= i < |xs| && xs[i] == x;
      assert ys[i] == ys[|xs|];
    }
  }

  lemma PredecessorsAre(existing: seq<Record>, i: nat)
    requires Linked(existing) && i < |existing|
    ensures Predecessors(existing)[i] == if i == 0 then GENESIS_PREV else Hashes(existing)[i - 1]
  {
    assert existing[i].entry.prevHash == Predecessor(existing, i);
  }

  /** The predecessors of a sound chain are the genesis link and all hashes but its
      last, so its head's hash is new among them exactly when it is not the genesis
      link itself. */
  lemma PredecessorIsNew(existing: seq<Record>)
    requires Linked(existing) && Distinct(Hashes(existing)) && existing != []
    ensures existing[|existing| - 1].hash in Predecessors(existing) <==> existing[|existing| - 1].hash == GENESIS_PREV
  {
    var before, hashes, n := Predecessors(existing), Hashes(existing), |existing|;
    PredecessorsAre(existing, 0);
    forall i | 0 < i < n ensures before[i] != hashes[n - 1] {
      PredecessorsAre(existing, i);
      assert hashes[i - 1] != hashes[n - 1];
    }
    assert before[0] in before && hashes[n - 1] == existing[n - 1].hash;
  }

  lemma LinkedSnoc(t: Trust, existing: seq<Record>, rec: Record)
    requires Sound(t, existing) && rec.entry.prevHash == WantPrev(HeadOf(existing))
    requires rec.entry.position == WantPosition(HeadOf(existing)) && rec.entry.position >= 0
    ensures Positioned(existing + [rec]) && Linked(existing + [rec])
  {
    var next := existing + [rec];
    forall i | 0 <= i < |next| ensures next[i].entry.prevHash == Predecessor(next, i) {
      if i < |existing| {
        assert existing[i].entry.prevHash == Predecessor(existing, i);
      }
    }
  }

  lemma TimesSnoc(t: Trust, existing: seq<Record>, rec: Record)
    requires TimeOrdered(t, existing)
    ensures TimeOrdered(t, existing + [rec]) <==> (existing == [] || NotBackwards(t, existing + [rec], |existing|))
  {
    var next := existing + [rec];
    forall i | 0 < i < |existing| ensures NotBackwards(t, next, i) {
      assert NotBackwards(t, existing, i);
    }
  }

  lemma SignedSnoc(t: Trust, existing: seq<Record>, rec: Record)
    requires AllSigned(t, existing)
    ensures AllSigned(t, existing + [rec]) <==> RecordFault(t, rec) == None
  {
    assert (existing + [rec])[|existing|] == rec;
  }

  lemma DistinctsSnoc(t: Trust, existing: seq<Record>, rec: Record)
    requires Sound(t, existing) && rec.entry.prevHash == WantPrev(HeadOf(existing))
    ensures Distinct(Hashes(existing + [rec])) <==> rec.hash !in Hashes(existing)
    ensures Distinct(PayloadDigests(existing + [rec])) <==> rec.entry.payload.sha256 !in PayloadDigests(existing)
    ensures Distinct(Predecessors(existing + [rec])) <==> existing == [] || existing[|existing| - 1].hash != GENESIS_PREV
  {
    var next := existing + [rec];
    assert Hashes(next) == Hashes(existing) + [rec.hash];
    assert PayloadDigests(next) == PayloadDigests(existing) + [rec.entry.payload.sha256];
    assert Predecessors(next) == Predecessors(existing) + [rec.entry.prevHash];
    DistinctSnoc(Hashes(existing), rec.hash);
    DistinctSnoc(PayloadDigests(existing), rec.entry.payload.sha256);
    DistinctSnoc(Predecessors(existing), rec.entry.prevHash);
    if existing == [] {
    } else {
      PredecessorIsNew(existing);
    }
  }

  lemma SoundSnoc(t: Trust, existing: seq<Record>, rec: Record)
    requires Sound(t, existing) && rec.entry.position >= 0
    requires rec.entry.prevHash == WantPrev(HeadOf(existing)) && rec.entry.position == WantPosition(HeadOf(existing))
    ensures Sound(t, existing + [rec]) <==> RecordFault(t, rec) == None && Fresh(t, existing, rec)
  {
    SignedSnoc(t, existing, rec);
    LinkedSnoc(t, existing, rec);
    TimesSnoc(t, existing, rec);
    DistinctsSnoc(t, existing, rec);
  }

  lemma FaultOfValid(t: Trust, rec: Record)
    requires ValidEntry(t, rec.entry)
    ensures RecordFault(t, rec) == None <==> t.signer(rec.sig, rec.raw).Some?
    ensures rec.entry.position >= 0
  {
  }

  /** A record that was linked to the head of a sound chain and signed is taken
      exactly when its signature is accepted, its payload and its hash are new, the
      head does not hash to the genesis link, and time does not go back. */
  lemma HonestAppendExactly(t: Trust, sign: string -> Option<Wire.bytes>, e: Entry, existing: seq<Record>)
    requires Sound(t, existing) && LinkAndSign(t, sign, e)(HeadOf(existing)).Ok?
    ensures var rec := LinkAndSign(t, sign, e)(HeadOf(existing)).value;
      AppendFault(t, existing, rec) == None <==> t.signer(rec.sig, rec.raw).Some? && Fresh(t, existing, rec)
  {
    var rec := LinkAndSign(t, sign, e)(HeadOf(existing)).value;
    NewRecordIsAuthentic(t, sign, Link(HeadOf(existing), e));
    FaultOfValid(t, rec);
    SoundSnoc(t, existing, rec);
    VerifyExact(t, existing + [rec], None);
  }

  // -- a record edited after it was signed ----------------------------------

  /** A record whose entry was given another note once it had been signed: an entry is
      a field its holder may assign to. */
  function Renoted(rec: Record, note: string): Record {
    rec.(entry := rec.entry.(note := note))
  }

  lemma RenotedFaults(t: Trust, existing: seq<Record>, rec: Record, note: string)
    requires Sound(t, existing) && rec.entry.position >= 0
    requires rec.entry.prevHash == WantPrev(HeadOf(existing)) && rec.entry.position == WantPosition(HeadOf(existing))
    ensures Sound(t, existing + [Renoted(rec, note)]) <==> Sound(t, existing + [rec])
  {
    var edited := Renoted(rec, note);
    SoundSnoc(t, existing, rec);
    SoundSnoc(t, existing, edited);
    if existing != [] {
      SameTimes(t, existing, rec, note);
    }
  }

  lemma SameTimes(t: Trust, existing: seq<Record>, rec: Record, note: string)
    requires existing != []
    ensures NotBackwards(t, existing + [Renoted(rec, note)], |existing|) <==> NotBackwards(t, existing + [rec], |existing|)
  {
  }

  /** The verifier takes an edited record as it takes the signed one, since hash, bytes
      and signature are the signed one's; the edit is in no file, and what is read back
      is the record as it was signed. */
  lemma EditedIsTakenAndLost(t: Trust, file: Option<string>, existing: seq<Record>, rec: Record, note: string)
    requires Load(t, file) == Ok(existing) && Sound(t, existing)
    requires Authentic(t, rec) && AppendFault(t, existing, rec) == None && note != rec.entry.note
    ensures AppendFault(t, existing, Renoted(rec, note)) == None
    ensures ChainFile.Encode(existing + [Renoted(rec, note)]) == ChainFile.Encode(existing + [rec])
    ensures ChainFile.Parse(t, ChainFile.Encode(existing + [Renoted(rec, note)])) == Ok(existing + [rec])
  {
    var edited := Renoted(rec, note);
    LastRecordStands(t, existing, rec);
    VerifyExact(t, existing + [rec], None);
    VerifyExact(t, existing + [edited], None);
    RenotedFaults(t, existing, rec, note);
    AuthenticReadsBack(t, file, existing, rec);
    assert (existing + [edited])[..|existing|] == existing == (existing + [rec])[..|existing|];
  }

  // -- one append, and any number -------------------------------------------

  /** One call: the refusal it meets before any work, if there is one (the examined
      tree, pacman's lock, another appender), what becomes of its write, and its
      builder. */
  datatype Call = Call(gate: Option<Refusal>, write: Write, build: Builder)

  /** Everything a call is checked for before it writes. */
  ghost predicate Passes(t: Trust, file: Option<string>, c: Call) {
    && c.gate == None && Load(t, file).Ok?
    && var existing := Load(t, file).value;
       && Appendable(t, existing) && c.build(HeadOf(existing)).Ok?
       && AppendFault(t, existing, c.build(HeadOf(existing)).value) == None
  }

  /** What a call is refused for, the first thing that is wrong: what refused it at once,
      a chain that cannot be read or does not verify, a builder that fails, or a record
      that does not link or makes a chain that does not verify. */
  ghost function Refused(t: Trust, file: Option<string>, c: Call): (r: Option<Refusal>)
    ensures r == None <==> Passes(t, file, c)
  {
    if c.gate.Some? then c.gate
    else
      match Load(t, file)
      case Err(e) => Some(Chain(e))
      case Ok(existing) =>
        if !Appendable(t, existing) then Some(Chain(Outcome(t, existing, None).value))
        else
          match c.build(HeadOf(existing))
          case Err(e) => Some(Chain(e))
          case Ok(rec) => match AppendFault(t, existing, rec) case None => None case Some(e) => Some(Chain(e))
  }

  ghost function Longer(t: Trust, file: Option<string>, c: Call): seq<Record>
    requires Passes(t, file, c)
  {
    var existing := Load(t, file).value;
    existing + [c.build(HeadOf(existing)).value]
  }

  lemma PassedReadsBack(t: Trust, file: Option<string>, c: Call)
    requires Passes(t, file, c)
    ensures var next := Longer(t, file, c);
      var text, rec := ChainFile.Encode(next), next[|next| - 1];
      && Sound(t, next)
      && (ChainFile.Parse(t, text) == Ok(next) <==> Authentic(t, rec))
      && (Load(t, Some(text)) == Ok(next) <==> Authentic(t, rec) && |text| <= MAX_CHAIN_BYTES)
      && (|text| > MAX_CHAIN_BYTES ==> Load(t, Some(text)) == Err(NotAChainFile))
  {
    var existing := Load(t, file).value;
    CheckedAppendReadsBack(t, file, existing, c.build(HeadOf(existing)).value);
  }

  /** The file a call leaves: the longer chain once it has been renamed into place,
      whatever is then reported. */
  ghost function AfterAppend(t: Trust, file: Option<string>, c: Call): Option<string> {
    if Passes(t, file, c) && c.write != NotRenamed then Some(ChainFile.Encode(Longer(t, file, c))) else file
  }

  ghost function AfterAppends(t: Trust, file: Option<string>, calls: seq<Call>): Option<string>
    decreases |calls|
  {
    if calls == [] then file
    else AfterAppend(t, AfterAppends(t, file, calls[..|calls| - 1]), calls[|calls| - 1])
  }

  /** Past the reader's size cap every append is refused and the chain never changes
      again. */
  lemma {:induction false} PastTheCapIsFinal(t: Trust, text: string, calls: seq<Call>)
    requires |text| > MAX_CHAIN_BYTES
    ensures AfterAppends(t, Some(text), calls) == Some(text)
    ensures forall c :: !Passes(t, Some(text), c)
    decreases |calls|
  {
    if calls == [] {
    } else {
      PastTheCapIsFinal(t, text, calls[..|calls| - 1]);
    }
  }

  lemma FirstAppend(t: Trust, c: Call)
    requires c.gate == None && c.write == Synced && c.build(None).Ok? && AppendFault(t, [], c.build(None).value) == None
    ensures Passes(t, None, c) && AfterAppend(t, None, c) == Some(ChainFile.Encode([c.build(None).value]))
  {
    assert [] + [c.build(None).value] == [c.build(None).value];
  }

  lemma NewRecordMade(t: Trust, sign: string -> Option<Wire.bytes>, e: Entry, raw: string)
    requires ValidEntry(t, e) && MarshalEntry(e) == Ok(raw) && sign(raw).Some?
    ensures NewRecord(t, sign, e) == Ok(MakeRecord(t, e, raw, sign(raw).value))
  {
  }

  lemma FirstRecord(t: Trust, sign: string -> Option<Wire.bytes>, e: Entry)
    requires ValidEntry(t, Link(None, e)) && Encodable(Link(None, e))
    requires forall raw :: sign(raw).Some?
    ensures var made := LinkAndSign(t, sign, e)(None);
      made.Ok? && |made.value.raw| >= |e.note| && sign(made.value.raw) == Some(made.value.sig)
  {
    var first := Link(None, e);
    assert first.note == e.note;
    EncodableIsMarshalled(first);
    NewRecordMade(t, sign, first, MarshalEntry(first).value);
  }

  lemma FirstIsTaken(t: Trust, sign: string -> Option<Wire.bytes>, e: Entry)
    requires LinkAndSign(t, sign, e)(None).Ok?
    requires var rec := LinkAndSign(t, sign, e)(None).value; t.signer(rec.sig, rec.raw).Some?
    ensures AppendFault(t, [], LinkAndSign(t, sign, e)(None).value) == None
  {
    HonestAppendExactly(t, sign, e, []);
  }

  /** A first record with a note as long as the cap is taken like any other, and its
      chain is past the cap. */
  lemma OversizeNoteIsTaken(t: Trust, sign: string -> Option<Wire.bytes>, e: Entry)
    requires ValidEntry(t, Link(None, e)) && Encodable(Link(None, e)) && |e.note| >= MAX_CHAIN_BYTES
    requires forall raw :: sign(raw).Some? && t.signer(sign(raw).value, raw).Some?
    ensures var c := Call(None, Synced, LinkAndSign(t, sign, e));
      var after := AfterAppend(t, None, c);
      Passes(t, None, c) && after.Some? && |after.value| > MAX_CHAIN_BYTES
  {
    var build := LinkAndSign(t, sign, e);
    FirstRecord(t, sign, e);
    var rec := build(None).value;
    FirstIsTaken(t, sign, e);
    FirstAppend(t, Call(None, Synced, build));
    FileHoldsRecord(rec);
  }

  lemma FileHoldsRecord(rec: Record)
    ensures |ChainFile.Encode([rec])| > |rec.raw|
  {
    assert [rec][..0] == [];
    assert ChainFile.EncodeRecords([rec]) == "" + (ChainFile.Line(rec) + "\n");
  }

  /** There is such a record: its note is 2^29 bytes of one letter. */
  lemma SomeAppendPassesTheCap()
    returns (t: Trust, c: Call)
    ensures var after := AfterAppend(t, None, c);
      Builds(t, c.build) && Passes(t, None, c) && after.Some? && |after.value| > MAX_CHAIN_BYTES
  {
    var note := seq(MAX_CHAIN_BYTES, _ => 'n');
    var e := Entry(SCHEMA, 0, GENESIS_PREV, "t", KIND_APPEND, "h", Payload("p", "n", GENESIS_PREV, 0, "k"), note);
    var sign: string -> Option<Wire.bytes> := raw => Some([]);
    t := Trust(m => [], s => Some(0), (sig, raw) => Some("k"));
    c := Call(None, Synced, LinkAndSign(t, sign, e));
    LinkAndSignBuilds(t, sign, e);
    PlainEntry(t, e, note);
    OversizeNoteIsTaken(t, sign, e);
  }

  lemma PlainEntry(t: Trust, e: Entry, note: string)
    requires forall i :: 0 <= i < |note| ==> note[i] == 'n'
    requires e == Entry(SCHEMA, 0, GENESIS_PREV, "t", KIND_APPEND, "h", Payload("p", "n", GENESIS_PREV, 0, "k"), note)
    requires t.stamp("t").Some?
    ensures ValidEntry(t, Link(None, e)) && Encodable(Link(None, e))
  {
    assert Link(None, e) == e;
    PlainDigests();
    PlainLetters();
    Text.AsciiIsUtf8(note);
  }

  lemma PlainLetters()
    ensures Text.ValidUtf8("t") && Text.ValidUtf8("h") && Text.ValidUtf8("p") && Text.ValidUtf8("n") && Text.ValidUtf8("k")
    ensures !Text.Blank("h") && !Text.Blank("p") && !Text.Blank("n")
    ensures Text.ValidUtf8(KIND_APPEND)
  {
    OneLetter('t');
    OneLetter('h');
    OneLetter('p');
    OneLetter('n');
    OneLetter('k');
    Text.AsciiIsUtf8(KIND_APPEND);
  }

  lemma PlainDigests()
    ensures Digest.ValidDigest(GENESIS_PREV) && Text.ValidUtf8(GENESIS_PREV)
  {
    Digest.ZeroDigest();
    Text.AsciiIsUtf8(GENESIS_PREV);
  }

  lemma OneLetter(c: char)
    requires 'a' <= c <= 'z'
    ensures Text.ValidUtf8([c]) && !Text.Blank([c])
  {
  }

  /** The store as one appender holding the lock sees it. */
  class Store {
    var file: Option<string>

    constructor ()
      ensures file == None
    {
      file := None;
    }

    /** The checks, in their order, and the longer chain once all are passed. */
    method Check(t: Trust, c: Call) returns (r: Result<seq<Record>, Refusal>)
      ensures r.Ok? <==> Passes(t, file, c)
      ensures r.Ok? ==> r.value == Longer(t, file, c)
      ensures r.Err? ==> Some(r.error) == Refused(t, file, c)
    {
      if c.gate.Some? {
        return Err(c.gate.value);
      }
      var loaded := Load(t, file);
      if loaded.Err? {
        return Err(Chain(loaded.error));
      }
      var existing := loaded.value;
      var report, failure := Verify(t, existing, None);
      if failure.Some? && |existing| > 0 {
        return Err(Chain(failure.value));
      }
      var head := HeadOf(existing);
      var built := c.build(head);
      if built.Err? {
        return Err(Chain(built.error));
      }
      var rec := built.value;
      if rec.entry.prevHash != WantPrev(head) {
        return Err(Chain(PrevHash));
      }
      if rec.entry.position != WantPosition(head) {
        return Err(Chain(Sequence));
      }
      report, failure := Verify(t, existing + [rec], None);
      if failure.Some? {
        return Err(Chain(failure.value));
      }
      return Ok(existing + [rec]);
    }

    /** A failed call has left the file alone, unless it is the sync after the rename
        that failed: then the longer chain is in place. */
    method Append(t: Trust, c: Call) returns (r: Result<Record, Refusal>)
      modifies this
      ensures file == AfterAppend(t, old(file), c)
      ensures r.Ok? <==> Passes(t, old(file), c) && c.write.Synced?
      ensures r.Err? ==> file == old(file) || (c.write.Unsynced? && Passes(t, old(file), c))
      ensures r.Err? ==> Some(r.error) == if Passes(t, old(file), c) then Some(WriteFailed) else Refused(t, old(file), c)
      ensures r.Ok? ==>
        var next := Longer(t, old(file), c);
        && r.value == next[|next| - 1] && Sound(t, next)
        && (ChainFile.Parse(t, file.value) == Ok(next) <==> Authentic(t, r.value))
        && (Load(t, file) == Ok(next) <==> Authentic(t, r.value) && |file.value| <= MAX_CHAIN_BYTES)
        && (|file.value| > MAX_CHAIN_BYTES ==> Load(t, file) == Err(NotAChainFile))
    {
      var checked := Check(t, c);
      if checked.Err? {
        return Err(checked.error);
      }
      var next := checked.value;
      PassedReadsBack(t, file, c);
      var text := ChainFile.EncodeChainFile(next);
      if c.write.NotRenamed? {
        return Err(WriteFailed);
      }
      file := Some(text);
      if c.write.Unsynced? {
        return Err(WriteFailed);
      }
      return Ok(next[|next| - 1]);
    }
  }
}
