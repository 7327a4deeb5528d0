/** The record a new judgement makes, field by field. */
module JudgementTerms {
  import opened Times
  import opened Wrappers
  import opened Digest
  import opened Findings
  import opened Text
  import opened Adjudications
  import SuppressionTerms

  // -- trimmed texts --------------------------------------------------------

  lemma SpaceKeeps(a: string, b: string)
    requires SpaceLength(a) > 0
    ensures SpaceLength(a + b) == SpaceLength(a)
  {
    assert (a + b)[0] == a[0] && (|a| > 1 ==> (a + b)[1] == a[1]) && (|a| > 2 ==> (a + b)[2] == a[2]);
  }

  lemma {:induction false} BlankJoins(a: string, b: string)
    requires Blank(a) && Blank(b)
    ensures Blank(a + b)
    decreases |a|
  {
    if a == "" {
      assert a + b == b;
    } else {
      SpaceKeeps(a, b);
      assert (a + b)[SpaceLength(a)..] == a[SpaceLength(a)..] + b;
      BlankJoins(a[SpaceLength(a)..], b);
    }
  }

  lemma OneSpaceIsBlank(s: string)
    requires s != "" && SpaceLength(s) == |s|
    ensures Blank(s)
  {
    assert s[|s|..] == "";
  }

  lemma HeadSpace(s: string)
    requires SpaceLength(s) > 0
    ensures SpaceLength(s[..SpaceLength(s)]) == SpaceLength(s)
  {
    var h := s[..SpaceLength(s)];
    assert h[0] == s[0] && (|h| > 1 ==> h[1] == s[1]) && (|h| > 2 ==> h[2] == s[2]);
  }

  lemma {:induction false} TrimmedLeft(s: string) returns (left: string)
    ensures s == left + TrimLeft(s) && Blank(left) && SpaceLength(TrimLeft(s)) == 0
    decreases |s|
  {
    var n := SpaceLength(s);
    left := "";
    if n > 0 {
      var more := TrimmedLeft(s[n..]);
      left := TakenOff(s, n, more, TrimLeft(s[n..]));
    }
  }

  lemma TakenOff(s: string, n: nat, more: string, rest: string) returns (left: string)
    requires n == SpaceLength(s) > 0 && s[n..] == more + rest && Blank(more)
    ensures s == left + rest && Blank(left)
  {
    left := s[..n] + more;
    HeadSpace(s);
    OneSpaceIsBlank(s[..n]);
    BlankJoins(s[..n], more);
    Glued(s, n, s[..n], more + rest);
    Assoc(s[..n], more, rest);
  }

  lemma Glued(s: string, n: nat, a: string, b: string)
    requires n <= |s| && s[..n] == a && s[n..] == b
    ensures s == a + b
  {
  }

  lemma TailSpace(s: string)
    requires TrailingSpace(s) > 0
    ensures Blank(s[|s| - TrailingSpace(s)..])
  {
    OneSpaceIsBlank(s[|s| - TrailingSpace(s)..]);
  }

  lemma {:induction false} NoSpaceLeft(s: string)
    ensures TrailingSpace(TrimRight(s)) == 0
    decreases |s|
  {
    if TrailingSpace(s) > 0 {
      NoSpaceLeft(s[..|s| - TrailingSpace(s)]);
    }
  }

  lemma {:induction false} TrimmedRight(s: string) returns (right: string)
    ensures s == TrimRight(s) + right && Blank(right)
    decreases |s|
  {
    var n := |s| - TrailingSpace(s);
    if n == |s| {
      right := "";
    } else {
      TailSpace(s);
      var more := TrimmedRight(s[..n]);
      assert TrimRight(s) == TrimRight(s[..n]);
      right := TakenOffEnd(s, n, TrimRight(s[..n]), more);
    }
  }

  lemma TakenOffEnd(s: string, n: nat, rest: string, more: string) returns (right: string)
    requires n <= |s| && s[..n] == rest + more && Blank(more) && Blank(s[n..])
    ensures s == rest + right && Blank(right)
  {
    var tail := s[n..];
    Glued(s, n, rest + more, tail);
    Assoc(rest, more, tail);
    right := more + tail;
    BlankJoins(more, tail);
  }

  /** Trimming takes white space off both ends, and leaves none at either. */
  lemma TrimExactly(s: string) returns (left: string, right: string)
    ensures s == left + (Trim(s) + right) && Blank(left) && Blank(right)
    ensures SpaceLength(Trim(s)) == 0 && TrailingSpace(Trim(s)) == 0
  {
    left := TrimmedLeft(s);
    right := TrimmedRight(TrimLeft(s));
    NoSpaceLeft(TrimLeft(s));
    if SpaceLength(Trim(s)) > 0 {
      SpaceKeeps(Trim(s), right);
    }
  }

  // -- what is made ---------------------------------------------------------

  /** The evidence a new record binds: none unless it is a pin, then what was asked for
      or else the digest of the finding's own. */
  predicate Binds(w: World, req: Request, evidence: string) {
    if req.scope != "pin" then evidence == ""
    else if req.evidenceDigest != "" then evidence == req.evidenceDigest
    else EvidenceDigest(w, req.finding) == Some(evidence)
  }

  /** The record a request asks for. */
  predicate AsAsked(w: World, req: Request, epoch: int, digest: string, now: int, r: Record) {
    var f, whole := req.finding, req.scope == "rule";
    && r.scope == req.scope && r.ruleId == f.ruleId && r.forced == req.forced
    && r.subjectKind == (if whole then "" else f.subjectKind) && r.subject == (if whole then "" else f.subject)
    && r.fingerprint == FingerprintOf(w.sha256, r.ruleId, r.subjectKind, r.subject, r.scope)
    && Binds(w, req, r.evidenceDigest) && r.epoch == epoch && r.semanticsDigest == digest
    && r.reason == Trim(req.reason) && r.decidedBy == Trim(req.decidedBy)
    && r.at == w.format(now)
    && r.expiresAt == w.format(now + if req.expiry == 0 then 180 * 24 * 60 * 60 * 1_000_000_000 else req.expiry)
  }

  /** A record is made exactly when the scope is one, the time of the decision is given,
      the registry has the rule and its semantics' digest, the expiry is at most a year,
      and the record that is asked for is valid; and it is that record. */
  lemma MadeExactly(w: World, valid: Record -> bool, reg: Registry, req: Request, r: Record)
    ensures New(w, valid, reg, req) == Some(r) <==>
      && (req.scope == "pin" || req.scope == "subject" || req.scope == "rule")
      && req.now.Some? && reg(req.finding.ruleId).Some? && reg(req.finding.ruleId).value.digest.Some?
      && 0 <= req.expiry <= SuppressionTerms.YEAR && valid(r)
      && AsAsked(w, req, reg(req.finding.ruleId).value.epoch, reg(req.finding.ruleId).value.digest.value, req.now.value, r)
  {
    SuppressionTerms.ScopesApart();
    BindsExactly(w, req, r.evidenceDigest);
    if req.now.Some? && reg(req.finding.ruleId).Some? && reg(req.finding.ruleId).value.digest.Some? {
      var sem := reg(req.finding.ruleId).value;
      DraftExactly(w, req, sem, sem.digest.value, req.now.value, r);
      NewIs(w, valid, reg, req, sem, sem.digest.value, req.now.value);
    }
  }

  lemma DraftExactly(w: World, req: Request, sem: Semantics, digest: string, now: int, r: Record)
    ensures Binds(w, req, r.evidenceDigest) && r == Drafted(w, req, sem, digest, r.evidenceDigest, now)
            <==> AsAsked(w, req, sem.epoch, digest, now, r)
  {
    SuppressionTerms.ScopesApart();
  }

  lemma NewIs(w: World, valid: Record -> bool, reg: Registry, req: Request, sem: Semantics, digest: string, now: int)
    requires reg(req.finding.ruleId) == Some(sem) && sem.digest == Some(digest) && req.now == Some(now)
    ensures New(w, valid, reg, req)
         == if Breadth(req.scope) == 0 || req.expiry < 0 || req.expiry > MAX_EXPIRY || BoundDigest(w, req).None? then None
            else
              var r := Drafted(w, req, sem, digest, BoundDigest(w, req).value, now);
              if valid(r) then Some(r) else None
  {
  }

  lemma BindsExactly(w: World, req: Request, evidence: string)
    ensures BoundDigest(w, req) == Some(evidence) <==> Binds(w, req, evidence)
  {
    SuppressionTerms.ScopesApart();
  }
}
