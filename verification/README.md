# aurvet: the trust store, modelled and proved

aurvet keeps a signed, append-only history of what a host looked like, and decides from it what has changed, what
indicators to trust and what an operator has already judged. This project models the parts those decisions rest on and
proves what they promise, for every input, every run and every interleaving:

- **the hash chain** — its verifier, its file format, the locked append protocol with crashes and power cuts, and the
  replication report built on the same anchor;
- **canonical documents** — the JSON encoder and decoder, and the SSHSIG framing that ties a signature to one document
  type;
- **the indicator channel** — root sets, threshold delegations, bundle verification, the anti-rollback floor, and whole
  histories of updates;
- **the line diff** shown in a review;
- **drift** — comparing a host with its signed baseline;
- **adjudications** — recorded decisions that hide findings, and the store they are kept in.

Code that works step by step is written that way here: classes with the source's fields (`Encoder`, `Writer`, `Reader`,
`Store`, `FloorStore`), a flat array for the diff's table, and methods with loops. Each method is proved against a
specification — a function or a predicate — and what the source promises is then proved about that specification.

## How things are modelled

- **Strings** are Go strings: a `string` whose characters are bytes. Wire data is a sequence of numbers below 256.
- **SHA-2, signatures, timestamps, key lines** are function-valued parameters, so every theorem holds for every such
  function. Nothing assumes a hash is injective: where a collision would break a property, the theorem says "or here are
  two different inputs with one hash".
- **Time** is an integer of nanoseconds and always a parameter.
- **Disk** is a value: for the append protocol, every version of the file a power cut might bring back; for the floor,
  missing, corrupt or a stored floor, the one that is there to stay beside those put in its place since.
- **Integers** are unbounded except where width matters: JSON numbers, `int64` members and the diff's `int32` table are
  bounded explicitly.

| file | models |
|---|---|
| `Common.dfy`, `Order.dfy` | `Option`, `Result`, timestamps, how a write ends; byte order on strings; sorting and when its result is determined |
| `Text.dfy`, `Unicode.dfy`, `Lines.dfy`, `Encodings.dfy` | UTF-8, white space, string escapes, decimals; text as lines; hex, base64 and the chain file spelled out |
| `Canon.dfy`, `Encoder.dfy`, `Spelling.dfy`, `Grammar.dfy`, `Documents.dfy` | canonical JSON as a printer and a parser; the encoder over one buffer; what is written and what is read, without either; the documents by their members |
| `Wire.dfy`, `Sshsig.dfy`, `Digest.dfy`, `Namespaces.dfy`, `SignatureTerms.dfy` | RFC 4251 wire strings, SSHSIG, hex digests, one namespace a document type |
| `Fields.dfy`, `Entry.dfy`, `Chain.dfy`, `Acceptance.dfy`, `Base64.dfy`, `ChainFile.dfy` | chain entries and their fields, the verifier, the file |
| `Append.dfy`, `AppendTerms.dfy`, `Protocol.dfy`, `ChainProtocol.dfy`, `Replication.dfy`, `ReplicationTerms.dfy` | one append, all appenders, what has been pushed |
| `Delegation.dfy`, `DelegationTerms.dfy`, `Indicators.dfy`, `Update.dfy`, `Verdicts.dfy`, `BundleTerms.dfy`, `Floor.dfy`, `Runs.dfy`, `Forks.dfy` | the indicator channel, its runs in sequence, through power cuts and at once |
| `Diff.dfy`, `LineDiff.dfy`, `DiffTerms.dfy`, `DiffLimit.dfy` | longest common subsequence, the rendered diff, an input past its limit |
| `Finding.dfy`, `Drift.dfy`, `DriftLaws.dfy`, `DriftTerms.dfy`, `Manifest.dfy`, `ManifestTerms.dfy` | findings, drift, the baseline document |
| `Adjudication.dfy`, `Reasons.dfy`, `JudgementTerms.dfy`, `Apply.dfy`, `ApplyLaws.dfy`, `Suppressed.dfy`, `Store.dfy`, `StoreTerms.dfy`, `StoreLimit.dfy` | adjudications, their store, a store past its cap |

The files named after terms (`Acceptance`, `Verdicts`, `Spelling`, `Grammar` and those ending in `Terms`) say what an operation
does in the terms of its inputs alone — bytes, stamps, digests, the literal names and numbers of the format — and prove
that the specification the rest is built on means just that.

## Where the code and its documentation differ

The model follows the code. Each of these is a proved statement.

- `internal/chain/replication.go:40-45` says no edit of the recorded anchor makes a truncated chain look complete. One
  does: the state recorded when the chain was that short. `Replication.ShorterStateHidesTruncation` exhibits it and
  `Replication.QuietExactly` shows it is the only one.
- `internal/baseline/canon.go:467-471` counts one level for each level of nesting and
  `internal/baseline/canon.go:271-276` counts two, so `Canonical` re-encodes what `Marshal` wrote exactly when it is
  nested at most 32 deep, not 64 (`Canon.CanonicalOfMarshal`, `Canon.WrittenPastTheReader`).
- The chain file's size cap and the adjudication store's are checked on reading only. An append returns success on a
  chain past the cap (`Append.SomeAppendPassesTheCap`; `Append.Store.Append` says exactly when the next load takes what
  was written), and from then on every append is refused (`Append.PastTheCapIsFinal`). `MarshalStore` writes a store
  that reads back as nothing (`AdjudicationStore.WrittenIsUnderstood`, `StoreLimit.SomeStoreIsLost`).
- `internal/bundle/floor.go:255-258` says a lost race costs the count and the time that were recorded. It can cost the
  digest too, lock or no lock: `Forks.RaceForksExactly` says exactly when two updaters that read one floor leave a
  version under another digest, and `Forks.TwoUpdatersFork` exhibits two that do. One digest per version holds of runs
  that do not overlap, across every power cut that brings back a floor at the last bundle taken
  (`BundleRuns.OneDigestPerVersion`), which every cut does where no sync failed (`BundleRuns.SyncedKeepOneDigest`). A
  floor that was renamed into place and not synced is one later runs build on and a cut can take back:
  `Forks.LostFloorForksExactly` says when that gives a version two digests, and `Forks.PowerCutForks` exhibits it.
- `cmd/aurvet/update.go:211-212` tells the operator, when a save fails, that the host has no record of the bundle. It
  can have one: the directory is synced after the rename and that sync's error is returned with the new floor in place
  (`internal/bundle/floor.go:407-418`), as a failed append can leave the longer chain (`internal/chain/store.go:495-499`).
  `Floors.FloorStore.Save` and `Append.Store.Append` say when, and the runs count what was taken and not reported.
- `max` bounds the edit lines of a diff and not its output: hunk headers are written even when the output is full. The
  output is within `max` exactly when no header falls past it (`LineDiff.WithinTheLimitExactly`, and `LineDiff.Diff` for
  the texts), which at the program's own context and limit it can (`DiffLimit.ReviewPassesTheLimit`).
- `internal/baseline/drift.go:32-37` says nothing is rated down except on the authority of the signed baseline's record or
  of an admitted absence of one. In that absence the code goes by the log as it is now: deleting the log then lowers
  every item that nothing excused already (`DriftLaws.NeverLowersExactly`, `DriftLaws.SomeReportIsLowered`).
- `internal/baseline/manifest.go:171-172` says the order of a manifest's inputs does not matter. It leaves no trace
  exactly when no two different records of a list share the key the list is sorted by
  (`Manifests.DeterminedExactly`); two surfaces of one kind and path (`Manifests.SomeInputTies`), or two gaps of one rule
  and subject, do.

## Model

| member | source | states |
|---|---|---|
| Canon.ParseOfMarshal | internal/baseline/canon.go:99-105 | whatever Marshal wrote reads back as the same document |
| Canon.CanonicalOfMarshal | internal/baseline/canon.go:137-165 | Canonical returns Marshal's own bytes exactly when the document is nested at most 32 deep, and refuses it otherwise |
| Canon.WrittenPastTheReader | internal/baseline/canon.go:137-165 | a list nested any depth from 33 to 64 is written by Marshal and refused by Canonical |
| Canon.CanonicalIdempotent | internal/baseline/canon.go:137-165 | what Canonical accepts it leaves alone the second time |
| Canon.MarshalAdmits | internal/baseline/canon.go:261-384 | Marshal succeeds exactly on well-formed documents within the encoder's depth |
| Canon.MarshalInjective | internal/baseline/canon.go:99-105 | two documents have one spelling exactly when they are the same up to key order |
| Canon.KeyOrderIrrelevant | internal/baseline/canon.go:321-384 | the order a map is walked in, or a struct declared in, leaves no trace in the bytes |
| Canon.ParsePrint | internal/baseline/canon.go:467-546 | the decoder undoes the printer on every well-formed document, whatever follows it, up to the decoder's depth |
| Canon.PrintClean | internal/baseline/canon.go:422-459 | no byte of a canonical document is below 0x20, and it is valid UTF-8 |
| Text.UnescapeEscape | internal/baseline/canon.go:422-459 | reading an escaped string gives the string back |
| Encoding.Encoder.Str | internal/baseline/canon.go:422-459 | the buffer grows by exactly the quoted string, or not at all when the string is not UTF-8 |
| Encoding.Encoder.Write | internal/baseline/canon.go:261-300 | the buffer grows by exactly the canonical text, or the first fault is returned |
| Encoding.Encoder.WriteList | internal/baseline/canon.go:302-319 | elements in order, separated by commas, or the first faulty one's fault |
| Encoding.Encoder.WriteObject | internal/baseline/canon.go:321-384 | members in key order, or the first fault among a repeated key, a bad key and a bad value |
| Encoding.EncodeDocument | internal/baseline/canon.go:99-105 | a fresh encoder's bytes are the document's one spelling |
| Order.LessExactly | internal/baseline/canon.go:321-384 | one key is written before another exactly when they agree up to a place where it has ended and the other has not, or its byte there is the smaller |
| Spelling.SpellsExactly | internal/baseline/canon.go:261-384 | the printed form of a document is its one text by a description that names neither printer nor escapes: numerals, quoted strings, commas, members as they stand |
| Spelling.MarshalSpells | internal/baseline/canon.go:261-384 | Marshal writes the text of the same document with the keys of every object strictly ascending by their bytes |
| Spelling.CanonicalFixesExactly | internal/baseline/canon.go:137-165 | Canonical leaves a text as it is exactly when it spells a document with ascending keys, all of it UTF-8, nested at most 32 deep |
| Spelling.TwoKeys | internal/baseline/canon.go:321-384 | the thirteen bytes of a document of two keys that was offered the wrong way round |
| Unicode.TextExactly | internal/baseline/canon.go:422-430 | a string is text exactly when it is the bytes of some Unicode scalar values (section 3 of RFC 3629) |
| Grammar.LiteralExactly | internal/baseline/canon.go:467-493 | what is read as a string is a string literal by the grammar of RFC 8259, section 7: bytes as they are, the eight short escapes, code units by number, surrogate pairs as one rune and halves of none as U+FFFD |
| Grammar.ReadsExactly | internal/baseline/canon.go:467-546 | the decoder takes a document at any depth exactly when the text is one by that grammar, with whole numbers that fit 64 bits, no key twice in an object and nesting within the limit; and it leaves what follows |
| Grammar.ParseExactly | internal/baseline/canon.go:137-153 | a text is read exactly when it is one document with nothing but white space around it, nested at most 64 deep |
| Grammar.CanonicalExactly | internal/baseline/canon.go:137-165 | the canonical form of any text is what Marshal writes of the document it is a text of, refused when that brings in a replacement character |
| Wire.StringPrefixFree | internal/baseline/keys.go:502-505 | a written string ends where it ends: no other string and continuation spell the same bytes |
| Wire.Writer.WriteString | internal/baseline/keys.go:502-505 | the buffer grows by the length and the bytes |
| Wire.Reader.ReadUint32 | internal/baseline/keys.go:528-535 | takes four bytes and the number they are, or refuses and moves nothing; never reads past the end |
| Wire.Reader.ReadString | internal/baseline/keys.go:537-548 | takes a length and that many bytes, or refuses; never reads past the end |
| Wire.Reader.ReadByte | internal/baseline/keys.go:550-557 | takes one byte, or refuses at the end |
| Sshsig.WriteFrame | internal/baseline/sign.go:139-160 | writes exactly the framed signature |
| Sshsig.ReadSignature | internal/baseline/sign.go:356-401 | returns what the specification of the frame says, on any bytes at all |
| Sshsig.ParseOfFrame | internal/baseline/sign.go:356-401 | a frame reads back as its version, key, namespace, hash name and signature, with nothing left over |
| Sshsig.FrameOfParsed | internal/baseline/sign.go:356-401 | only a frame reads back: what is parsed re-frames to the same bytes |
| Sshsig.SignedBlobInjective | internal/baseline/sign.go:323-346 | two signed blobs are equal only if namespace, hash name and message hash are |
| Sshsig.BlobOfParsedKey | internal/baseline/keys.go:148-182 | a key blob is determined by what is parsed out of it |
| Sshsig.VerifiedBodyIsSigned | internal/baseline/sign.go:192-242 | whatever verifies is a frame, in the namespace asked for, holding a trusted key's signature over this message |
| Sshsig.SignedBodyVerifies | internal/baseline/sign.go:192-242 | a framed signature by a trusted key verifies exactly when that key accepts it over the signed blob |
| Sshsig.NoCrossNamespaceReplay | internal/baseline/sign.go:192-242 | one signature verifies in one namespace only, whatever messages and trust sets it is tried with |
| Namespaces.NoSignatureDoesTwoJobs | internal/baseline/sign.go:68-81 | with each document type checked in its own namespace, the signature of a bundle in hand is in no delegation that authenticates, and no verified chain's signature is that bundle's or in any such delegation |
| Namespaces.NamespacesAreValid | internal/baseline/sign.go:68-81 | the three namespaces the program signs in are ones it accepts |
| Namespaces.EachTypeCanBeSigned | internal/baseline/sign.go:192-242 | in each of the three, what a trusted key signs is taken exactly when the key takes the signature |
| Sshsig.TokenMessageBinds | internal/baseline/sign.go:404-470 | a hardware token's flags, counter, application and message are all under its signature |
| SignatureTerms.NamespaceExactly | internal/baseline/sign.go:305-318 | a namespace is 1 to 255 printable bytes with no space |
| SignatureTerms.KeyExactly | internal/baseline/keys.go:148-182 | a key is read from a blob exactly when the blob is the name of one of the two algorithms, 32 bytes of key and, for a token, its application, each behind its big-endian length |
| SignatureTerms.SignatureExactly | internal/baseline/sign.go:404-470 | a signature is accepted exactly when it is 64 bytes over the message under a plain key, or over application hash, flags, counter and message hash under a token |
| SignatureTerms.VerifiesExactly | internal/baseline/sign.go:192-242 | a body verifies as a key's exactly when the namespace is one, the body is within the cap and is byte for byte the container of that namespace and key, the key is trusted, and what it holds is that key's signature over the statement of the message |
| Digest.HexInjective | internal/baseline/canon.go:122 | different digests have different spellings |
| Encodings.HexExactly | internal/baseline/canon.go:122 | two lower-case hex digits a byte, the high one first |
| ChainEntry.EntryRoundTrip | internal/chain/chain.go:228-247 | an entry can be read back from its printed form |
| ChainEntry.MarshalEntryInjective | internal/chain/chain.go:228-247 | equal signed bytes are equal entries |
| ChainEntry.ParseRecordExact | internal/chain/chain.go:211-247 | exactly the admitted records come back from their own bytes and signature |
| Documents.EntryExactly | internal/chain/chain.go:110-152 | the signed text of an entry, member by member |
| Chain.Verify | internal/chain/chain.go:362-478 | the verifier's passes return the outcome the specification gives, and its report the length, head and signers |
| Chain.VerifyExact | internal/chain/chain.go:362-478 | verification succeeds exactly when every record is signed, valid, distinct in hash, predecessor and payload, in position, linked from genesis and not back in time, and the anchor agrees |
| ChainAcceptance.InTimeExactly | internal/chain/chain.go:448-461 | comparing neighbours orders every two records: both stamps read, and the later record's is no earlier |
| ChainAcceptance.LinkageExactly | internal/chain/chain.go:393-461 | what records that stand are refused for, in order of severity, said of any two records and not of neighbours |
| ChainAcceptance.AcceptedExactly | internal/chain/chain.go:362-478 | a chain is accepted exactly when each record is signed and well formed, in its place and names the one before it, nothing comes twice, no record is earlier than any before it, and the anchor is met |
| ChainAcceptance.RefusedExactly | internal/chain/chain.go:362-478 | the refusal a chain gets: its first bad record's, else how the records fail to join, else how they disagree with the anchor |
| ChainAcceptance.GenesisIsZeros | internal/chain/chain.go:54-57 | the genesis predecessor is 64 zeros |
| Chain.PrefixSound | internal/chain/chain.go:26-34 | every prefix of a sound chain is sound |
| Chain.TruncationNeedsAnAnchor | internal/chain/chain.go:26-34 | every proper prefix of a verified chain verifies without an anchor and is reported truncated with the full chain's |
| Chain.AnchoredHistory | internal/chain/chain.go:463-476 | a chain that verifies against another verified chain's head anchor continues it record for record, entries and signed bytes, or two byte strings with one hash are at hand |
| Chain.ContinuationMeetsAnchor | internal/chain/chain.go:316-321 | a verified chain that continues another meets that one's anchor |
| Chain.DivergedCopiesAreRefused | internal/chain/chain.go:463-476 | two chains that differ below the anchor are refused, or a collision is at hand |
| Lines.SplitLinesTells | cmd/aurvet/review.go:921-927 | two texts have the same lines exactly when they are the same but for one final newline |
| Encodings.LinesExactly | cmd/aurvet/review.go:921-927 | the lines of a text are the unbroken pieces that, with a break between each two, are the text but for one at its end |
| Base64.Base64RoundTrip | internal/chain/store.go:184-195 | a signature's base64 decodes to it and holds no space and no line break |
| Encodings.Base64Exactly | internal/chain/store.go:184-195 | the base64 of section 4 of RFC 4648, by 24-bit groups |
| ChainFile.EncodeChainFile | internal/chain/store.go:184-195 | the buffer ends as the header and one line per record |
| ChainFile.ParseChainFile | internal/chain/store.go:143-182 | returns the records of the lines in order, or the first bad line's error |
| ChainFile.ChainFileRoundTrip | internal/chain/store.go:143-195 | every list of admitted records, the empty one included, reads back from its file as itself |
| ChainFile.ParsedIsAdmitted | internal/chain/store.go:143-182 | nothing is read from a file that was not signed, valid and canonical |
| Encodings.FileExactly | internal/chain/store.go:184-195 | a chain's file is its heading and, for each record, its signed bytes, a space and its signature in base64, each line ended by a break |
| Encodings.FileReadsExactly | internal/chain/store.go:143-182 | a file reads as some records exactly when its lines are the heading and one line holding each, cut at its last space |
| Append.Store.Append | internal/chain/store.go:226-285 | with any builder: succeeds exactly when nothing refused it, the chain loaded and verified, the new record links, the longer chain verifies and its write was synced; the file is then the longer chain's, which reads back as that chain exactly when the record's entry is the one in its signed bytes, and which the next load takes exactly when it is within the cap besides; an error names the first thing that was wrong and leaves the file alone unless it is the sync after the rename that failed |
| AppendTerms.LoadExactly | internal/chain/store.go:123-141 | what a call reads: no chain where there is no file, and otherwise what the file's lines hold, up to 2^29 bytes |
| AppendTerms.PassesExactly | internal/chain/store.go:226-285 | a call passes every check exactly when nothing refused it, the chain was read, the builder answered, and the chain with the new record verifies: checking the old chain and the link besides refuses nothing more |
| AppendTerms.AfterExactly | internal/chain/store.go:268-284 | what a call leaves behind: the longer chain once it was renamed into place, whatever is reported, and otherwise the file it found |
| Append.CheckedAppendReadsBack | internal/chain/store.go:268-284 | what passes the checks verifies; it reads back as the old chain and the new record exactly when the record's entry is the one in its signed bytes, and the next load takes it exactly when it is within the reader's size cap besides |
| Append.EditedIsTakenAndLost | internal/chain/chain.go:163-172 | a record whose note was edited after it was signed is taken like the signed one, and what is read back is the signed one |
| Append.LinkAndSignBuilds | internal/chain/chain.go:184-206 | linking to the head, validating, encoding and signing is a builder an append may be given |
| Append.HonestAppendExactly | internal/chain/store.go:260-284 | a linked and signed record is taken by a verified chain exactly when its signature is accepted, its payload and hash are new, the head does not hash to the genesis link and time does not go back |
| Append.PastTheCapIsFinal | internal/chain/store.go:123-141 | once the file is past the cap every append is refused and no run of appends changes it again |
| Append.OversizeNoteIsTaken | internal/chain/store.go:268-284 | a first record with a note as long as the cap is taken like any other, and its chain is past the cap |
| Append.SomeAppendPassesTheCap | internal/chain/store.go:268-284 | there is such an append, by the builder the program uses, to a store with no chain |
| Protocol.RunInv | internal/chain/store.go:458-500 | over every interleaving of appenders, crashes at every step and power cuts, only the lock's holder has work in hand and every version of the file is good |
| Protocol.DurableGrows | internal/chain/store.go:458-500 | what is durable only ever grows, and ended calls stay ended |
| Protocol.SuccessIsForever | internal/chain/store.go:226-285 | a record whose Append returned success is in every version of the file from then on |
| Protocol.VisibleGrows | internal/chain/lock.go:143-156 | while the power is on, what a reader sees only grows |
| Protocol.OneAtATime | internal/chain/lock.go:143-156 | at any point of any run at most one call is between taking the lock and leaving it |
| Protocol.AloneSucceeds | internal/chain/store.go:226-285 | a call that is alone, and whose record is accepted, gets to success and leaves the longer chain there to stay |
| ChainProtocol.ChainFormatFaithful | internal/chain/store.go:268-284 | the chain's own load, checks and encoding give the protocol what it needs |
| ChainProtocol.DiskAlwaysVerifies | internal/chain/store.go:226-285 | at every point of every run the chain on disk is absent or parses and verifies |
| ChainProtocol.NoUpdateLost | internal/chain/store.go:217-285 | no appender's success is ever undone by another |
| ChainProtocol.NoForks | internal/chain/store.go:217-285 | any two sightings of the chain agree as far as the earlier goes; across power cuts, what is durable does |
| ChainProtocol.AppendSucceeds | internal/chain/store.go:226-285 | so it does on the chain file itself: the run is there, and the chain has grown by the record |
| Replication.ReplicationReport | internal/chain/replication.go:376-429 | the report's loops fill in the report the specification gives |
| ReplicationTerms.ReportExactly | internal/chain/replication.go:376-429 | every field of the report, from the records and the recorded anchor alone |
| ReplicationTerms.FindingsExactly | internal/chain/replication.go:503-560 | critical exactly when the anchor disagrees with the chain, suspicious exactly when records are not pushed, a gap exactly where there is no anchor |
| ReplicationTerms.AnchorExactly | internal/chain/replication.go:157-190 | an anchor is built exactly when it names a remote, confirms at least one record by a digest, and can be dated and written |
| Documents.AnchorExactly | internal/chain/replication.go:116-141 | the signed text of an anchor, member by member |
| Replication.ConflictIsRefusal | internal/chain/replication.go:376-443 | the report conflicts exactly when the verifier refuses its anchor, and for the same reason |
| Replication.PushedIsPrefix | internal/chain/replication.go:376-429 | pushed entries are a prefix, unpushed ones the rest, and a conflict confirms nothing |
| Replication.RollingBackAddsUnpushed | internal/chain/replication.go:36-44 | a shorter anchor that agrees with the chain only adds unpushed entries |
| Replication.QuietExactly | internal/chain/replication.go:503-560 | a non-empty chain draws no finding and no gap exactly when the anchor is its own head |
| Replication.ShorterStateHidesTruncation | internal/chain/replication.go:36-45 | the state recorded when the chain was shorter makes the truncated chain verify and report nothing |
| Delegation.NewRootSet | internal/bundle/roots.go:91-119 | a root set is made exactly when the generation and threshold are in range and no key is missing or listed twice |
| Delegation.Index | internal/bundle/roots.go:212-219 | a position where the key stands, or -1 when it is in the set nowhere |
| Delegation.CountSigners | internal/bundle/delegation.go:138-179 | passes exactly when every signature is a root's, no root signed twice and the set of signers reaches the threshold |
| Delegation.ThresholdIgnoresOrder | internal/bundle/delegation.go:138-179 | the order of the signatures does not matter |
| Delegation.CheckDelegation | internal/bundle/delegation.go:223-317 | accepts exactly the delegations the declarative predicate describes |
| Delegation.CheckSigningKeys | internal/bundle/delegation.go:275-317 | comparing neighbours orders and separates all the keys |
| Delegation.SelectActiveKeys | internal/bundle/delegation.go:326-351 | the keys whose window holds now, in document order |
| Delegation.ExpiredDelegatesNothing | internal/bundle/delegation.go:326-360 | once a delegation has expired none of its keys is active |
| Delegation.VerifyDelegation | internal/bundle/delegation.go:138-199 | authenticated by the threshold before it is read, valid, and of this root generation, or nothing |
| Delegation.ActiveExactly | internal/bundle/delegation.go:326-351 | a key may sign now exactly when some signing key parses to it, both its stamps read, and the first is at or before now and the second after |
| DelegationTerms.ThresholdExactly | internal/bundle/delegation.go:138-179 | the threshold is met exactly when every signature is a root's, no two are one root's, and they are as many as it asks |
| DelegationTerms.WellMadeExactly | internal/bundle/delegation.go:223-317 | a delegation is valid exactly by its dates, its one to four keys in strict order of their fingerprints, and each key's at most ninety days within the delegation's at most one year |
| DelegationTerms.TakenExactly | internal/bundle/delegation.go:138-199 | a delegation is taken exactly when there are roots, its bytes are within the cap, enough roots signed them, and what they decode to is well made and of this generation |
| IndicatorSets.SortedUnique | internal/bundle/bundle.go:412-423 | comparing neighbours decides whether the keys strictly ascend |
| IndicatorSets.ValidateIndicators | internal/bundle/bundle.go:340-403 | accepts exactly the sets within the cap whose members are usable and whose lists strictly ascend |
| IndicatorSets.OneSpelling | internal/bundle/bundle.go:132-141 | two admitted spellings of one indicator set are the same spelling |
| IndicatorSets.Count | internal/bundle/bundle.go:442-465 | active and inert together are every indicator, and nothing is active exactly when every one is unknown to this build |
| BundleTerms.WellListedExactly | internal/bundle/bundle.go:340-423 | indicators are admitted exactly when there are at most a hundred thousand, each with what names it, and each list strictly ascends by the bytes of its names |
| BundleTerms.ActiveExactly | internal/bundle/bundle.go:442-465 | how many this build acts on: the places of hosts and repositories of known kinds, and every name, digest and threshold |
| Bundles.Verify | internal/bundle/verify.go:193-368 | the pipeline returns the verdict its specification gives on every input |
| Bundles.ParseBundle | internal/bundle/bundle.go:258-345 | authenticated before it is read, and then a bundle exactly when its header and its indicators are valid |
| BundleTerms.ReadExactly | internal/bundle/bundle.go:258-345 | a bundle is read exactly when its bytes are within 4 MiB and signed by an online key, and decode to one of this format with its version, dates and predecessor in order and its indicators well listed |
| Bundles.CheckBundle | internal/bundle/verify.go:281-368 | the floor, count and expiry checks, in their order, give the specified status |
| Bundles.ActiveExactly | internal/bundle/verify.go:193-368 | a status is Active exactly when some delegation and bundle pass every check |
| BundleVerdicts.VerdictExactly | internal/bundle/verify.go:193-368 | the whole status of any input, from what was supplied, what authenticates and the dates, serials and digests in it |
| BundleVerdicts.CurrentExactly | internal/bundle/verify.go:193-368 | Active exactly when some delegation and bundle pass every check and now is before the bundle's valid_until |
| BundleVerdicts.ExpiredExactly | internal/bundle/verify.go:340-347 | Expired exactly when they pass every check and now is at or after it |
| BundleVerdicts.UnavailableExactly | internal/bundle/verify.go:209-263 | Unavailable exactly when there are roots, and nothing was supplied, or a delegation that is not refused and no bundle |
| BundleVerdicts.UnsuppliedRefused | internal/bundle/verify.go:200-222 | refused for having no roots, or for a bundle with no delegation, exactly then |
| BundleVerdicts.UnauthenticRefused | internal/bundle/verify.go:223-230 | refused for its delegation exactly when one was supplied and it does not authenticate |
| BundleVerdicts.MandateRefused | internal/bundle/verify.go:231-256 | refused for what an authentic delegation says exactly when it says so |
| BundleVerdicts.MandateRefusalExactly | internal/bundle/verify.go:231-256 | stale, retired, expired and keyless delegations, each by its exact condition |
| BundleVerdicts.UnreadRefused | internal/bundle/verify.go:258-280 | refused for its bundle exactly when the delegation was not refused and the bundle is not signed or not well formed; no expiry that reached the check is unreadable |
| BundleVerdicts.HeldRefused | internal/bundle/verify.go:281-324 | refused for a bundle in hand exactly when it is one to refuse |
| BundleVerdicts.BundleRefusalExactly | internal/bundle/verify.go:281-324 | rollback, forked version, forked link and empty bundle, each by its exact condition against the floor |
| BundleVerdicts.NotedExactly | internal/bundle/verify.go:193-335 | silence, a dropped count and skipped versions are noted each exactly when they are so |
| BundleVerdicts.CarriesExactly | internal/bundle/verify.go:193-368 | which bundle, digest and serial a status carries |
| BundleVerdicts.ProposedExactly | internal/bundle/verify.go:350-365 | the floor proposed, field by field, exactly where a counter moved |
| Bundles.AcceptedIsActive | internal/bundle/verify.go:349-368 | and then it carries that bundle, its digest and serial, and the floor to record when it moved |
| Bundles.StatusShape | internal/bundle/verify.go:106-191 | a refusal has a reason, anything short of Active leaves a gap, only Active proposes a floor, and no bundle is handed back that an active key of an authenticated delegation did not sign |
| Bundles.AcceptedSettlesTheFloor | internal/bundle/verify.go:351-365 | an accepted bundle leaves the floor at its own version, digest and serial, whether or not it had to be written |
| Bundles.NextFloorPasses | internal/bundle/verify.go:351-365 | a proposed floor is well formed exactly when the clock's spelling of now reads back, and a save against the floor it came from takes it exactly when that spelling is UTF-8 besides |
| Floors.FloorStore.Load | internal/bundle/floor.go:177-213 | absence, a valid floor, or an error; never an unreadable floor read as absence |
| Floors.FloorStore.Save | internal/bundle/floor.go:261-300 | succeeds exactly when the lock was had, the floor is valid, the stored one reads back, neither counter would fall, the encoder takes the floor and the write was synced; otherwise the disk is untouched unless it is the sync after the rename that failed |
| BundleTerms.LoadExactly | internal/bundle/floor.go:177-236 | nothing where no floor is stored, the floor where it is sane, and an error otherwise |
| BundleTerms.SaveExactly | internal/bundle/floor.go:215-300 | a floor replaces what is stored exactly when it is sane and can be written, what is stored can be read, and neither counter of that is above it |
| Floors.CountersNeverFall | internal/bundle/floor.go:285-294 | over any proposals by any writers in any order, whatever becomes of their writes, neither counter falls |
| Floors.SecondSaveExactly | internal/bundle/floor.go:281-300 | after one save another is taken exactly when its floor is valid and can be encoded and neither counter is below the first one's, whatever the digests |
| BundleRuns.EventsKeepInvExactly | cmd/aurvet/update.go:200-217 | over any history of runs and power cuts, on adversarial inputs, reported or cut short, whatever became of the writes, the floor stays readable and at the last bundle taken throughout exactly when every cut brought back a floor that is |
| BundleRuns.SyncedWritesSurviveCuts | internal/bundle/floor.go:407-418 | where no sync after a rename failed, what is visible is durable and every power cut is harmless, wherever and however often it comes |
| BundleRuns.CutCostsExactly | internal/bundle/floor.go:407-418 | after one cut, of any host, a run that takes a bundle keeps the history going forward exactly when that bundle goes forward from the last one taken |
| BundleRuns.FloorNeverFalls | internal/bundle/floor.go:261-300 | over any runs while the power is on what was taken stays taken and neither counter falls |
| BundleRuns.OneDigestPerVersion | internal/bundle/verify.go:289-295 | over any history whose cuts were harmless one version taken has one digest for ever, reported or not, and nothing later is of an earlier version or serial |
| BundleRuns.SyncedKeepOneDigest | internal/bundle/verify.go:289-295 | and so over every history, cuts and all, in which no sync failed |
| BundleRuns.ConsecutiveVersionsJoin | internal/bundle/verify.go:297-303 | taken versions v and v+1 are joined by the later one's predecessor digest, reported or not, or two bundles with one hash are at hand |
| Forks.RaceForksExactly | internal/bundle/floor.go:281-294 | of two updaters that loaded one floor and took a bundle each, the first always saves, the second exactly when neither its version nor its serial is below, and the recorded version gets another digest exactly when the versions are equal, the serials in order and the raw bundles hash differently |
| Forks.TwoUpdatersFork | internal/bundle/floor.go:248-260 | there is such a pair on a fresh host: both are Active, both save, and version 1 ends under another digest |
| Forks.LostFloorForksExactly | internal/bundle/floor.go:407-418 | when a power cut takes back a floor that was put in place, not synced and built on, two bundles reported give one version two digests exactly when they are of one version and hash differently |
| Forks.PowerCutForks | internal/bundle/floor.go:407-418 | there is such a history on a fresh host, and its cut is not harmless |
| Lcs.LengthIsMaximal | cmd/aurvet/review.go:1018-1042 | no common subsequence is longer than the table's recurrence says |
| Lcs.CellBound | cmd/aurvet/review.go:929-939 | with at most 2^20 cells no cell exceeds 1024, so int32 cannot overflow |
| Lcs.CellInjective | cmd/aurvet/review.go:1024-1042 | the flat index gives every cell its own place |
| Lcs.FillTable | cmd/aurvet/review.go:1024-1042 | the nested downward loops fill every cell with the longest length from there, in bounds throughout |
| Lcs.LongestCommon | cmd/aurvet/review.go:1024-1057 | strictly increasing pairs of equal lines, and no common subsequence is longer |
| LineDiff.Script | cmd/aurvet/review.go:946-971 | keeps and deletions spell the old lines, keeps and insertions the new, no script changes fewer, and between kept lines deletions come first |
| LineDiff.ScriptLowerBound | cmd/aurvet/review.go:946-971 | no script makes fewer changes than the longest common subsequence forces |
| LineDiff.UnchangedExactly | cmd/aurvet/review.go:921-971 | a minimal script changes nothing exactly when the texts are the same but for a final newline |
| LineDiff.Window | cmd/aurvet/review.go:973-988 | a line is marked exactly when it is within the context of a change |
| LineDiff.ChangesAreShown | cmd/aurvet/review.go:973-988 | every change is inside the window, exactly when the context is not negative or there is no change |
| LineDiff.RenderedShows | cmd/aurvet/review.go:990-1010 | the rendering shows the windowed edits, and its headers and tail count every other line once |
| LineDiff.CappedIsPrefix | cmd/aurvet/review.go:990-1010 | a limit keeps a beginning of the edits and every header |
| LineDiff.CappedBound | cmd/aurvet/review.go:990-1010 | no more edit lines than the limit, and all of the output exactly when none was dropped |
| LineDiff.CappedIs | cmd/aurvet/review.go:990-1010 | the output is its first lines up to the limit and then every later header |
| LineDiff.WithinTheLimitExactly | cmd/aurvet/review.go:990-1010 | the output stays within the limit exactly when nothing but edit lines would have come after it |
| DiffLimit.OutputMayPassTheLimit | cmd/aurvet/review.go:78-85 | at the context of 3 and the limit of 200 the review uses, one change is drawn in more than 200 lines whatever minimal script it is drawn from |
| DiffLimit.ReviewPassesTheLimit | cmd/aurvet/review.go:565-578 | the diff itself returns more than 200 lines on it |
| LineDiff.Render | cmd/aurvet/review.go:990-1010 | emitted and dropped edit lines together are the edits to be shown |
| LineDiff.Diff | cmd/aurvet/review.go:938-1016 | under the cell cap a minimal script, windowed and cut, with no limit stated exactly when nothing was dropped, and within the limit exactly when no header falls past it; over the cap, the limit alone |
| DiffTerms.TurnsExactly | cmd/aurvet/review.go:946-971 | a script leads from one side to the other exactly when the edits that are not insertions stand in order for the lines of the one, each in its place, and those that are not deletions for the other's |
| DiffTerms.ChangesExactly | cmd/aurvet/review.go:946-971 | what is minimal is the number of edits that are not kept lines |
| DiffTerms.WholeRendered | cmd/aurvet/review.go:990-1010 | the uncut output, edit by edit: a shown edit's own line, and before it the count of those passed over since the last one shown, if any |
| DiffTerms.CapExactly | cmd/aurvet/review.go:929-945 | the table's cap is 2^20 cells |
| Findings.MaxSeverity | internal/finding/finding.go:70-78 | the worst severity present, Info when nothing is worse |
| Findings.EncodedInjective | internal/finding/finding.go:88-100 | different lists of fields, of whatever lengths, have different pre-images |
| Findings.Fingerprint | internal/finding/finding.go:92-100 | the builder's bytes are the length-prefixed encoding |
| Findings.FingerprintIdentifies | internal/finding/finding.go:92-100 | one fingerprint is one rule, kind, subject and scope, or two inputs whose hashes begin alike are at hand |
| Encodings.FingerprintExactly | internal/finding/finding.go:88-100 | the pre-image is each field behind its decimal length and a colon, and the fingerprint the first sixteen bytes of its hash in hex |
| Drift.Corroborate | internal/baseline/drift.go:485-515 | the running best is the latest explaining transaction, the first of those at one instant |
| Drift.CorroborationIsLatest | internal/baseline/drift.go:485-515 | a change is corroborated exactly when some transaction explains it, and by one than which none is later |
| Drift.IndexAdjudications | internal/baseline/drift.go:583-633 | usable records by subject, the later of two standing, and one gap for each record that cannot be used |
| Drift.IndexObserved | internal/baseline/drift.go:268-284 | the index by name, or the first fault among no name, a name seen before and a digest missing without a reason |
| Drift.Drift | internal/baseline/drift.go:251-410 | the report the specification describes, or the first thing that makes the input unclassifiable |
| DriftLaws.DriftIsPartition | internal/baseline/drift.go:306-360 | with unique names, the items are exactly the changes due, no two about one package, and the unread gaps exactly the packages that could not be compared |
| DriftLaws.SilentExactly | internal/baseline/drift.go:306-360 | a report has no item and no unread gap about a name exactly when neither side lists it, or both do, its digest was read, versions agree, and so do digests or the baseline recorded none |
| DriftLaws.CountsAddUp | internal/baseline/drift.go:371-403 | the four counts are the items, all but corroborated ones are findings, and any number of shortfalls raises one gap |
| DriftLaws.BuiltNamesAreUnique | internal/baseline/manifest.go:260-270 | the package names of a manifest that was built are unique |
| DriftLaws.BucketExactly | internal/baseline/drift.go:419-476 | which bucket and severity a change gets: explained, else judged, else not covered, else unexplained and critical; a truncated log is never an excuse |
| DriftLaws.JudgedExactly | internal/baseline/drift.go:583-633 | a package is judged exactly when some usable record names it, and by the last one that does |
| DriftLaws.ShorterLogNeverLowers | internal/baseline/drift.go:19-37 | against a recorded window, a log that lost transactions or its beginning lowers no item's severity and loses no critical finding |
| DriftLaws.SafeExactly | internal/baseline/drift.go:533-577 | one change keeps its severity under every shortening of the log exactly when the baseline recorded a window, a transaction explains it, its package was judged or the log could not have covered it |
| DriftLaws.NeverLowersExactly | internal/baseline/drift.go:19-37 | no report over a shortened log rates anything lower exactly when the baseline recorded a window or every change reported was explained, judged or not coverable already; otherwise deleting the log lowers one |
| DriftLaws.SomeReportIsLowered | internal/baseline/drift.go:19-37 | there is a report that deleting the log lowers: no window recorded, one changed package, and a log from before the baseline that says nothing |
| DriftLaws.BoundedOnlyAddsAGap | internal/baseline/drift.go:31-37 | whether the log was read to its end changes no item and no finding, and one gap says when it was not |
| DriftTerms.ReportedExactly | internal/baseline/drift.go:306-360 | the changes reported are exactly those the two package lists show |
| DriftTerms.RatedExactly | internal/baseline/drift.go:419-577 | the rating of every reported change in stamps and log lines: corroborated by a transaction of its package, no earlier than the baseline, of an operation that makes such a change and leaving its version; else judged; else a coverage gap exactly when the log was not cut short and never reached what would explain it; else critical |
| DriftTerms.RestsOn | internal/baseline/drift.go:419-515 | and what the rating rests on: the latest such transaction, the last such judgement |
| DriftTerms.FindingsExactly | internal/baseline/drift.go:371-382 | every change but a corroborated one is a finding, of its package, bucket and severity |
| DriftTerms.GapsAndFlags | internal/baseline/drift.go:583-633 | a gap for each judgement that cannot be relied on, and whether the log was cut short |
| DriftTerms.ClassifiableExactly | internal/baseline/drift.go:251-305 | an input is classified exactly when the clock and the dates can be read and every observed package has a name of its own and a digest or a reason |
| DriftTerms.ItemsAscend | internal/baseline/drift.go:361-366 | items come in the byte order of their packages' names |
| Manifests.BuildManifest | internal/baseline/manifest.go:234-407 | builds a manifest of exactly the admissible inputs, unless the encoder refuses it |
| Manifests.CollectPackages | internal/baseline/manifest.go:260-293 | refuses a bad or repeated package, and gives one gap for each unread mtree |
| Manifests.CompleteExactly | internal/baseline/manifest.go:376-400 | complete exactly when nothing was reported missing, every mtree read, and the log's window known and read to its end |
| Manifests.DeterminedExactly | internal/baseline/manifest.go:294-400 | what was measured settles the document exactly when no two different records of a list tie |
| Manifests.SomeInputTies | internal/baseline/manifest.go:294-374 | there is an admissible input that does not settle its document: one path of one kind with two owners |
| Manifests.OrderLeavesNoTrace | internal/baseline/manifest.go:171-172 | two orderings of one measurement allow the same manifests |
| ManifestTerms.FitExactly | internal/baseline/manifest.go:234-360 | which inputs are admissible, field by field |
| ManifestTerms.BuildsExactly | internal/baseline/manifest.go:294-407 | what a manifest of some input is: its fields, its lists by the bytes of their keys, and a gap for each package not read, an unknown log window and a log not read to its end |
| Order.ArrangementDeterminedExactly | internal/baseline/manifest.go:294-374 | a sort has one result to return exactly when no two different elements tie |
| Adjudications.NewCovers | internal/adjudicate/adjudicate.go:241-304 | what is made from a finding is valid, bound to today's semantics, of the scope asked for, and covers that finding unless it pins other evidence |
| JudgementTerms.MadeExactly | internal/adjudicate/adjudicate.go:241-304 | a record is made exactly when scope, time, rule and expiry are in order and it is valid, and every field of it is given |
| JudgementTerms.TrimExactly | internal/adjudicate/adjudicate.go:294-295 | trimming takes white space off both ends and leaves none at either |
| SuppressionTerms.WellMadeExactly | internal/adjudicate/adjudicate.go:313-395 | validity of a record, field by field: scope and what it needs, reason, semantics, fingerprint, and a life of at most a year |
| Reasons.ReasonExactly | internal/adjudicate/adjudicate.go:456-481 | a reason is one by its code points: no space at either end and 12 to 2000 that are not spaces |
| Unicode.SpaceExactly | internal/adjudicate/adjudicate.go:466-471 | white space is the code points of Unicode's white space and no others |
| Adjudications.ScopesNest | internal/adjudicate/adjudicate.go:396-419 | what a pin covers a subject record covers, and what that covers a rule record covers; and exactly how they differ |
| Adjudications.PreImagesApart | internal/adjudicate/adjudicate.go:182-187 | records of different scopes have different pre-images |
| Adjudications.FingerprintTellsScope | internal/adjudicate/adjudicate.go:366-370 | valid records share a fingerprint exactly when they agree on rule, scope and subject, or a collision is at hand |
| Adjudications.RelabellingInvalidates | internal/adjudicate/adjudicate.go:178-187 | a record moved to another scope under its old fingerprint is no longer valid, or a collision is at hand |
| Suppression.Evaluate | internal/adjudicate/apply.go:249-305 | one record's state, the first that applies of invalid, stale, expired, active, spent and dead, with the findings it covers |
| Suppression.ApplyWith | internal/adjudicate/apply.go:177-240 | the loops over faults, records and findings give the outcome the specification describes |
| SuppressionLaws.FindingsAreSplit | internal/adjudicate/apply.go:221-227 | kept and suppressed findings laid back together are the scan's, in order and as often |
| SuppressionLaws.HiddenExactly | internal/adjudicate/apply.go:177-240 | a finding is hidden exactly when some valid, current, unexpired record of the set covers it, and is reported with one |
| SuppressionLaws.GapsOnlyGrow | internal/adjudicate/apply.go:175-217 | no gap of the scan is lost, and each fault and invalid record adds one |
| SuppressionLaws.OneStatusPerRecord | internal/adjudicate/apply.go:201-239 | every record is reported once, in the state it is in |
| SuppressionLaws.StateExactly | internal/adjudicate/apply.go:249-305 | each state's exact condition, in their order: active exactly when it hides something, dead only when it is about nothing |
| SuppressionLaws.OnlyActiveHides | internal/adjudicate/apply.go:51-55 | only an active record of the set hides anything |
| SuppressionLaws.ApplyIsIdempotent | internal/adjudicate/apply.go:177-240 | applied to what it kept, a set hides nothing more |
| SuppressionLaws.HidingOnlyShrinks | internal/adjudicate/apply.go:284-289 | as time passes what is kept can only grow and what is suppressed only shrink |
| SuppressionTerms.HiddenNowExactly | internal/adjudicate/apply.go:177-305 | a finding is missing from what is kept exactly when some record of the set is well made, has a registry entry of its epoch and digest, expires after now, and is about the finding by rule, scope, subject and pinned evidence |
| SuppressionTerms.HiddenByTheFirst | internal/adjudicate/apply.go:177-240 | and it is reported with the first such record |
| SuppressionTerms.StateNowExactly | internal/adjudicate/apply.go:249-305 | each state by the fields, the registry and the clock: lapsed exactly when now is at or past the stamp of expires_at, or it does not read |
| SuppressionTerms.MatchedExactly | internal/adjudicate/apply.go:249-305 | the findings a record is said to match |
| SuppressionTerms.GapsExactly | internal/adjudicate/apply.go:175-217 | the gaps left: the scan's, one a fault and one a record that is not well made |
| SuppressionTerms.StatusesInOrder | internal/adjudicate/apply.go:228-240 | statuses come by state, then scope, then the bytes of the fingerprint |
| AdjudicationStore.MarshalStore | internal/adjudicate/store.go:64-83 | writes the sorted records, or refuses an invalid one or two judgements of one finding |
| AdjudicationStore.StoreIsOfTheSet | internal/adjudicate/store.go:51-62 | however the records came and whichever way they were sorted, the store is refused or it is the same bytes |
| StoreTerms.WrittenExactly | internal/adjudicate/store.go:64-83 | a store is written exactly when every record is valid, none repeats a judgement and the text can be written; and it is the document of the records narrowest scope first, then by the bytes of fingerprint, evidence and time |
| Documents.StoreExactly | internal/adjudicate/store.go:64-83 | the text of a store, member by member |
| AdjudicationStore.ParseStore | internal/adjudicate/store.go:109-161 | with any way of filling a record from a document: usable records in order and a fault for each other one; no records and one fault when the bytes are not a store this build understands |
| StoreTerms.UnderstoodExactly | internal/adjudicate/store.go:109-140 | a store is understood exactly when it is not empty, within 2^20 bytes, has a canonical form and reads under schema 1 |
| StoreTerms.UsableExactly | internal/adjudicate/store.go:141-161 | the usable records are the valid ones in their order |
| StoreTerms.FaultsExactly | internal/adjudicate/store.go:141-161 | and the faults name the places of the others |
| AdjudicationStore.WrittenIsUnderstood | internal/adjudicate/store.go:109-161 | what was written reads back, by any reader that takes exact documents as they are, as exactly its records with no faults, up to the reader's size cap, and as no records beyond it |
| StoreLimit.LongNameIsLost | internal/adjudicate/store.go:109-119 | one record whose author's name is as long as the cap is written, and read back as no store, whatever the reader |
| StoreLimit.SomeStoreIsLost | internal/adjudicate/store.go:64-119 | there is such a record, valid like any other |

## Left out

- Cryptography: SHA-2, ed25519, PEM, ssh-agent and FIDO2 internals are parameters; the padding loop of a private key is not modelled.
- PEM armour around a signature, and the tokens of `encoding/json`: the decoder is a recursive function over the remaining bytes, so which error a malformed number followed by junk gives is not tracked.
- `encoding/json`'s leniency when it fills a struct, which also takes names in another case and null for a field: the store's reader is a parameter of `AdjudicationStore.ParseStore`, of which only the exact reading is spelled out.
- Where an entry is read that leniency makes no difference: an entry is refused unless it encodes back to the bytes it was read from.
- The encoder's use of reflection (struct tags, embedding, empty structs) and `Seconds`: values come as trees, and a Go value with no canonical spelling is one constructor.
- File modes, ownership, directories, fsync and the lock's system call: only atomic rename, durability, crash points and mutual exclusion are kept, as steps.
- `PutPayload` and `LoadPayload`: a content-addressed file beside the chain, keyed by the digest the entry already commits to.
- The floor file's own bytes: a stored floor is a value, and a file that does not read back canonically is `Corrupt`.
- The one line a diff prints in place of an input over the cell cap.
- Wording of details, reasons, notes, banners and limits; `Banner`, `ByState`, `NeedsAttention` and `RuleScoped`, which filter or format.
- Detail, evidence and limit lines of drift findings: what an item rests on is kept as a value.
- Rule-scope records in drift: they are looked up by package under an empty subject, so nothing is claimed of them.
- How a bundle's bytes become a bundle: strict decoding, the walk over denied member names and re-encoding are one parameter of `Bundles.Verify`, which then checks the header and the indicators itself.
- How a delegation's bytes become a delegation and how keys are parsed: parameters of `Delegation`. Which key a signature is of is one too, which `Namespaces` fills with SSHSIG.
- Fetching, caching and rendering bundles; `--check`, which writes nothing.
- Bundles.Verify: requires the roots to be pairwise distinct keys, which every constructed root set is (`Delegation.NewRootSet`).
- Manifests.BuildManifest: whether the encoder takes the finished document is a parameter, since its only remaining refusal is a string that is not UTF-8.
- AdjudicationStore.MarshalStore: validity of one record is a parameter, which `Adjudications.ValidIn` fills.
- Adjudications.NewCovers: validity of one record is a parameter, which `Adjudications.ValidIn` fills; and neither it nor `JudgementTerms.MadeExactly` says when the new record lapses, only which instant its stamps are written from, since a stamp written to the second need not read back as that instant.
- DriftLaws.DriftIsPartition: assumes the manifest's package names are unique, as those of one that was built are (`DriftLaws.BuiltNamesAreUnique`) and `Drift` does not check.
- BundleRuns.OneDigestPerVersion: holds of runs one after another; `Forks` says what overlapping runs cost.
- ChainProtocol.DiskAlwaysVerifies: assumes that builders hand back records as they were signed, as the one every caller passes does (`Append.LinkAndSignBuilds`); `Append.EditedIsTakenAndLost` says what one that does not gets.
- Whether a log seen later begins later than a manifest recorded, as the manifest package answers it: the classifier makes that judgement itself.
- Protocol.VisibleGrows: holds while the power is on; across a power cut only what was durable is promised.
