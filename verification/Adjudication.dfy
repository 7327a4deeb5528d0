/** One recorded decision about findings: what makes it valid, and what it covers. */
module Adjudications {
  import opened Times
  import opened Wrappers
  import opened Wire
  import opened Text
  import opened Digest
  import opened Findings
  import opened Fields
  import Canon

  const DEFAULT_EXPIRY := 180 * DAY
  const MAX_EXPIRY := 365 * DAY
  const MIN_REASON_RUNES := 12
  const MAX_REASON_RUNES := 2000

  const PIN := "pin"
  const SUBJECT := "subject"
  const RULE := "rule"

  datatype Record = Record(
    fingerprint: string, ruleId: string, subjectKind: string, subject: string, scope: string, evidenceDigest: string,
    epoch: Int64, semanticsDigest: string, reason: string, decidedBy: string, at: string, expiresAt: string, forced: bool)

  /** The matching semantics a rule has now; the digest is absent when they cannot
      be encoded. */
  datatype Semantics = Semantics(epoch: Int64, digest: Option<string>)

  type Registry = string -> Option<Semantics>

  /** What records are checked with: SHA-256, and RFC 3339 stamps read and written
      in nanoseconds. */
  datatype World = World(sha256: string -> bytes, stamp: Stamp, format: int -> string)

  /** How much a scope hides, 0 for what is not a scope. */
  function Breadth(scope: string): nat {
    if scope == PIN then 1 else if scope == SUBJECT then 2 else if scope == RULE then 3 else 0
  }

  function FingerprintFor(w: World, ruleId: string, kind: string, subject: string, scope: string): string {
    if scope == RULE then FingerprintOf(w.sha256, ruleId, "", "", scope) else FingerprintOf(w.sha256, ruleId, kind, subject, scope)
  }

  function EvidenceValue(f: Finding): Canon.Value {
    Canon.Object([Canon.Member("evidence", Canon.List(seq(|f.evidence|, i requires 0 <= i < |f.evidence| => Canon.Str(f.evidence[i]))))])
  }

  /** The digest a pin binds, none when the evidence cannot be encoded. */
  function EvidenceDigest(w: World, f: Finding): Option<string> {
    match Canon.Marshal(EvidenceValue(f), Canon.Typed)
    case Err(_) => None
    case Ok(s) => Some(Hex(w.sha256(s)))
  }

  // -- validity -------------------------------------------------------------

  /** Length of the white-space rune that ends `s`, 0 when there is none. */
  function TrailingSpace(s: string): (n: nat)
    ensures n <= |s|
  {
    if |s| >= 1 && SpaceLength(s[|s| - 1..]) == 1 then 1
    else if |s| >= 2 && SpaceLength(s[|s| - 2..]) == 2 then 2
    else if |s| >= 3 && SpaceLength(s[|s| - 3..]) == 3 then 3
    else 0
  }

  /** Runes that are not white space; a byte that starts no rune counts as one. */
  function ContentRunes(s: string): nat
    decreases |s|
  {
    if s == "" then 0
    else if SpaceLength(s) > 0 then ContentRunes(s[SpaceLength(s)..])
    else if 0 < RuneLength(s) <= |s| then 1 + ContentRunes(s[RuneLength(s)..])
    else 1 + ContentRunes(s[1..])
  }

  predicate ValidReason(reason: string) {
    && reason != "" && SpaceLength(reason) == 0 && TrailingSpace(reason) == 0
    && MIN_REASON_RUNES <= ContentRunes(reason) <= MAX_REASON_RUNES
  }

  predicate ValidScope(r: Record) {
    if r.scope == RULE then r.subjectKind == "" && r.subject == "" && r.forced && r.evidenceDigest == ""
    else
      && r.subject != "" && r.subjectKind != ""
      && if r.scope == PIN then ValidDigest(r.evidenceDigest) else r.evidenceDigest == ""
  }

  predicate ValidSpan(w: World, r: Record) {
    var at, until := w.stamp(r.at), w.stamp(r.expiresAt);
    && r.at != "" && r.expiresAt != "" && at.Some? && until.Some?
    && 0 < until.value - at.value <= MAX_EXPIRY
  }

  /** Everything that can be checked without the registry or the clock. */
  predicate Valid(w: World, r: Record) {
    && Breadth(r.scope) > 0
    && r.ruleId != ""
    && ValidReason(r.reason)
    && r.decidedBy != ""
    && r.epoch >= 1
    && ValidDigest(r.semanticsDigest)
    && ValidScope(r)
    && r.fingerprint == FingerprintFor(w, r.ruleId, r.subjectKind, r.subject, r.scope)
    && ValidSpan(w, r)
  }

  /** The validity of a record, as it is asked by what makes, applies and stores them. */
  function ValidIn(w: World): Record -> bool {
    r => Valid(w, r)
  }

  // -- coverage -------------------------------------------------------------

  /** Whether the record is about the finding, and whether the evidence it pinned,
      if it pinned any, is still the finding's. */
  function Matches(w: World, r: Record, f: Finding): (bool, bool) {
    if r.ruleId != f.ruleId then (false, false)
    else if r.scope == RULE then (true, true)
    else if r.scope == SUBJECT then (r.subjectKind == f.subjectKind && r.subject == f.subject, true)
    else if r.scope == PIN then
      if r.subjectKind != f.subjectKind || r.subject != f.subject then (false, false)
      else (true, EvidenceDigest(w, f) == Some(r.evidenceDigest))
    else (false, false)
  }

  predicate Covers(w: World, r: Record, f: Finding) {
    Matches(w, r, f) == (true, true)
  }

  /** Still bound to the semantics it was made against. */
  predicate Current(reg: Registry, r: Record) {
    var sem := reg(r.ruleId);
    sem.Some? && sem.value.epoch == r.epoch && sem.value.digest == Some(r.semanticsDigest)
  }

  predicate Expired(w: World, r: Record, now: int) {
    match w.stamp(r.expiresAt) case None => true case Some(until) => now >= until
  }

  // -- making one -----------------------------------------------------------

  datatype Request = Request(finding: Finding, scope: string, reason: string, decidedBy: string, now: Option<int>, expiry: int,
                             evidenceDigest: string, forced: bool)

  function TrimLeft(s: string): string
    decreases |s|
  {
    if SpaceLength(s) > 0 then TrimLeft(s[SpaceLength(s)..]) else s
  }

  function TrimRight(s: string): string
    decreases |s|
  {
    if TrailingSpace(s) > 0 then TrimRight(s[..|s| - TrailingSpace(s)]) else s
  }

  function Trim(s: string): string {
    TrimRight(TrimLeft(s))
  }

  /** The digest a new record binds: nothing unless it is a pin, and then what was
      asked for or else the finding's own. */
  function BoundDigest(w: World, req: Request): Option<string> {
    if req.scope != PIN then Some("")
    else if req.evidenceDigest != "" then Some(req.evidenceDigest)
    else EvidenceDigest(w, req.finding)
  }

  function Drafted(w: World, req: Request, sem: Semantics, semDigest: string, evidence: string, now: int): Record {
    var f, expiry := req.finding, if req.expiry == 0 then DEFAULT_EXPIRY else req.expiry;
    var kind, subject := if req.scope == RULE then "" else f.subjectKind, if req.scope == RULE then "" else f.subject;
    Record(FingerprintFor(w, f.ruleId, kind, subject, req.scope), f.ruleId, kind, subject, req.scope, evidence,
           sem.epoch, semDigest, Trim(req.reason), Trim(req.decidedBy), w.format(now), w.format(now + expiry), req.forced)
  }

  /** A validated record, or nothing: an unknown scope, no decision time, a rule that
      declares no epoch, an expiry that is no duration or too long, evidence that
      cannot be encoded, or a record that would not read back as valid. */
  function New(w: World, valid: Record -> bool, reg: Registry, req: Request): Option<Record> {
    var sem := reg(req.finding.ruleId);
    if Breadth(req.scope) == 0 || req.now.None? || sem.None? || sem.value.digest.None? then None
    else if req.expiry < 0 || req.expiry > MAX_EXPIRY then None
    else
      match BoundDigest(w, req)
      case None => None
      case Some(evidence) =>
        var r := Drafted(w, req, sem.value, sem.value.digest.value, evidence, req.now.value);
        if valid(r) then Some(r) else None
  }

  lemma DraftCovers(w: World, reg: Registry, req: Request, sem: Semantics, semDigest: string, evidence: string, now: int)
    requires Breadth(req.scope) > 0 && BoundDigest(w, req) == Some(evidence)
    ensures var r := Drafted(w, req, sem, semDigest, evidence, now);
      && Matches(w, r, req.finding).0
      && (Covers(w, r, req.finding) <==>
            req.scope != PIN || req.evidenceDigest == "" || Some(req.evidenceDigest) == EvidenceDigest(w, req.finding))
  {
  }

  /** What is made from a finding is valid and covers that finding, is bound to
      today's semantics, and is neither wider nor narrower than was asked for. */
  lemma NewCovers(w: World, valid: Record -> bool, reg: Registry, req: Request)
    requires New(w, valid, reg, req).Some?
    ensures var r := New(w, valid, reg, req).value;
      && valid(r) && Current(reg, r) && r.scope == req.scope
      && Matches(w, r, req.finding).0
      && (Covers(w, r, req.finding) <==>
            req.scope != PIN || req.evidenceDigest == "" || Some(req.evidenceDigest) == EvidenceDigest(w, req.finding))
  {
    var sem := reg(req.finding.ruleId).value;
    DraftCovers(w, reg, req, sem, sem.digest.value, BoundDigest(w, req).value, req.now.value);
  }

  // -- scope ----------------------------------------------------------------

  /** Over one finding, what a pin covers a subject record covers, and what that
      covers a rule record covers. */
  lemma ScopesNest(w: World, pin: Record, subject: Record, rule: Record, f: Finding)
    requires pin.scope == PIN && subject.scope == SUBJECT && rule.scope == RULE
    requires pin.ruleId == subject.ruleId == rule.ruleId
    requires pin.subjectKind == subject.subjectKind && pin.subject == subject.subject
    ensures Covers(w, pin, f) ==> Covers(w, subject, f)
    ensures Covers(w, subject, f) ==> Covers(w, rule, f)
    ensures Covers(w, pin, f) <==> Covers(w, subject, f) && EvidenceDigest(w, f) == Some(pin.evidenceDigest)
    ensures Covers(w, subject, f) <==> Covers(w, rule, f) && f.subjectKind == subject.subjectKind && f.subject == subject.subject
  {
  }

  function PreImage(r: Record): string {
    if r.scope == RULE then Encoded([r.ruleId, "", "", r.scope]) else Encoded([r.ruleId, r.subjectKind, r.subject, r.scope])
  }

  /** Records of different scopes, over one finding or not, have different
      pre-images. */
  lemma PreImagesApart(r: Record, s: Record)
    requires r.scope != s.scope
    ensures PreImage(r) != PreImage(s)
  {
    var fs := if r.scope == RULE then [r.ruleId, "", "", r.scope] else [r.ruleId, r.subjectKind, r.subject, r.scope];
    var gs := if s.scope == RULE then [s.ruleId, "", "", s.scope] else [s.ruleId, s.subjectKind, s.subject, s.scope];
    assert fs[3] != gs[3];
    if PreImage(r) == PreImage(s) {
      EncodedInjective(fs, gs);
    }
  }

  /** The fingerprint of a valid record tells its rule, scope and subject, and
      nothing else: valid records that share one agree on all four, unless two
      pre-images whose hashes begin alike are at hand. */
  lemma FingerprintTellsScope(w: World, r: Record, s: Record)
    requires Valid(w, r) && Valid(w, s)
    ensures r.ruleId == s.ruleId && r.scope == s.scope && r.subjectKind == s.subjectKind && r.subject == s.subject
            ==> r.fingerprint == s.fingerprint
    ensures r.fingerprint == s.fingerprint ==>
      || (r.ruleId == s.ruleId && r.scope == s.scope && r.subjectKind == s.subjectKind && r.subject == s.subject)
      || PrefixCollision(w.sha256, PreImage(r), PreImage(s))
  {
    if r.fingerprint == s.fingerprint {
      FingerprintIdentifies(w.sha256, (r.ruleId, r.subjectKind, r.subject, r.scope), (s.ruleId, s.subjectKind, s.subject, s.scope));
    }
  }

  /** A record cannot be relabelled into another scope, whatever else is edited to
      suit: with its fingerprint kept it is no longer valid. */
  lemma RelabellingInvalidates(w: World, r: Record, s: Record)
    requires Valid(w, r) && s.fingerprint == r.fingerprint && s.scope != r.scope
    ensures !Valid(w, s) || PrefixCollision(w.sha256, PreImage(r), PreImage(s))
  {
    if Valid(w, s) {
      FingerprintTellsScope(w, r, s);
    }
  }
}
