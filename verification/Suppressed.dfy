/** What is hidden, and what became of each record, in the terms of the records, the
    findings, the registry and the clock. */
module SuppressionTerms {
  import opened Wrappers
  import opened Digest
  import opened Findings
  import opened Adjudications
  import opened Suppression
  import opened SuppressionLaws
  import Canon
  import Order
  import Text

  /** A year, in nanoseconds. */
  const YEAR := 365 * 24 * 60 * 60 * 1_000_000_000

  /** A record that says who judged what, why, against which semantics and for how long,
      under the fingerprint its rule, scope and subject have. */
  predicate WellMade(w: World, r: Record) {
    && r.ruleId != "" && r.decidedBy != "" && r.epoch >= 1 && ValidDigest(r.semanticsDigest)
    && (match (r.scope == "pin", r.scope == "subject", r.scope == "rule")
        case (true, _, _) => r.subject != "" && r.subjectKind != "" && ValidDigest(r.evidenceDigest)
        case (_, true, _) => r.subject != "" && r.subjectKind != "" && r.evidenceDigest == ""
        case (_, _, true) => r.subject == "" && r.subjectKind == "" && r.evidenceDigest == "" && r.forced
        case _ => false)
    && r.reason != "" && Text.SpaceLength(r.reason) == 0 && TrailingSpace(r.reason) == 0
    && 12 <= ContentRunes(r.reason) <= 2000
    && r.fingerprint == FingerprintOf(w.sha256, r.ruleId, r.subjectKind, r.subject, r.scope)
    && r.at != "" && r.expiresAt != "" && w.stamp(r.at).Some? && w.stamp(r.expiresAt).Some?
    && w.stamp(r.at).value < w.stamp(r.expiresAt).value <= w.stamp(r.at).value + YEAR
  }

  /** The record is about this finding: its rule, or its rule and subject. */
  predicate About(r: Record, f: Finding) {
    && r.ruleId == f.ruleId
    && (r.scope == "rule" || ((r.scope == "subject" || r.scope == "pin") && r.subjectKind == f.subjectKind && r.subject == f.subject))
  }

  /** What a pin pins is the evidence the finding has: the digest of its canonical
      document. */
  predicate SameEvidence(w: World, r: Record, f: Finding) {
    var doc := Canon.Marshal(EvidenceValue(f), Canon.Typed);
    doc.Ok? && r.evidenceDigest == Hex(w.sha256(doc.value))
  }

  predicate AboutAsItIs(w: World, r: Record, f: Finding) {
    About(r, f) && (r.scope == "pin" ==> SameEvidence(w, r, f))
  }

  /** The registry still has the rule, at the epoch and semantics the record was made
      against. */
  predicate Backed(reg: Registry, r: Record) {
    reg(r.ruleId).Some? && reg(r.ruleId).value.epoch == r.epoch && reg(r.ruleId).value.digest == Some(r.semanticsDigest)
  }

  predicate Unlapsed(w: World, r: Record, now: int) {
    w.stamp(r.expiresAt).Some? && now < w.stamp(r.expiresAt).value
  }

  /** Everything it takes for a record to hide a finding now. */
  predicate HidesNow(w: World, reg: Registry, r: Record, f: Finding, now: int) {
    WellMade(w, r) && Backed(reg, r) && Unlapsed(w, r, now) && AboutAsItIs(w, r, f)
  }

  lemma ScopesApart()
    ensures PIN == "pin" && SUBJECT == "subject" && RULE == "rule" && "pin" != "subject" && "pin" != "rule" && "subject" != "rule"
  {
    assert |"pin"| < |"rule"| < |"subject"|;
  }

  lemma WellMadeExactly(w: World, r: Record)
    ensures WellMade(w, r) <==> Valid(w, r)
  {
    ScopesApart();
  }

  lemma AboutExactly(w: World, r: Record, f: Finding)
    ensures Matches(w, r, f).0 <==> About(r, f)
    ensures Matches(w, r, f) == (true, true) <==> AboutAsItIs(w, r, f)
    ensures Matches(w, r, f) == (true, false) <==> About(r, f) && !AboutAsItIs(w, r, f)
  {
    ScopesApart();
    var m := Matches(w, r, f);
    assert m == (m.0, m.1);
  }

  lemma HidesExactly(w: World, reg: Registry, r: Record, f: Finding, now: int)
    ensures JudgeAt(w, reg, now).Hides(r, f) <==> HidesNow(w, reg, r, f, now)
  {
    WellMadeExactly(w, r);
    AboutExactly(w, r, f);
  }

  /** A finding is missing from what is kept exactly when some record of the set is well
      made, backed by the registry, not lapsed, and about the finding as it is. */
  lemma HiddenNowExactly(w: World, reg: Registry, loaded: Set, scan: Scan, now: int, f: Finding)
    requires f in scan.findings
    ensures f !in Applied(JudgeAt(w, reg, now), loaded, scan).kept.findings
            <==> exists r :: r in loaded.records && HidesNow(w, reg, r, f, now)
  {
    var j := JudgeAt(w, reg, now);
    Members(j, loaded.records, scan.findings);
    HiddenByExactly(j, loaded.records, f);
    forall r ensures j.Hides(r, f) <==> HidesNow(w, reg, r, f, now) {
      HidesExactly(w, reg, r, f, now);
    }
  }

  /** What is reported hidden is a finding of the scan, hidden by the first record of
      the set that hides it. */
  lemma HiddenByTheFirst(w: World, reg: Registry, loaded: Set, scan: Scan, now: int, h: Hidden) returns (k: nat)
    requires h in Applied(JudgeAt(w, reg, now), loaded, scan).suppressed
    ensures h.finding in scan.findings && k < |loaded.records| && loaded.records[k] == h.record
    ensures HidesNow(w, reg, h.record, h.finding, now)
    ensures forall i :: 0 <= i < k ==> !HidesNow(w, reg, loaded.records[i], h.finding, now)
  {
    var j := JudgeAt(w, reg, now);
    Members(j, loaded.records, scan.findings);
    k := FirstHides(j, loaded.records, h.finding);
    forall r ensures j.Hides(r, h.finding) <==> HidesNow(w, reg, r, h.finding, now) {
      HidesExactly(w, reg, r, h.finding, now);
    }
  }

  lemma {:induction false} FirstHides(j: Judge, recs: seq<Record>, f: Finding) returns (k: nat)
    requires HiddenBy(j, recs, f).Some?
    ensures k < |recs| && HiddenBy(j, recs, f) == Some(recs[k]) && j.Hides(recs[k], f)
    ensures forall i :: 0 <= i < k ==> !j.Hides(recs[i], f)
    decreases |recs|
  {
    var init := recs[..|recs| - 1];
    if HiddenBy(j, init, f).Some? {
      k := FirstHides(j, init, f);
      assert forall i :: 0 <= i < |init| ==> init[i] == recs[i];
    } else {
      k := |recs| - 1;
      HiddenByExactly(j, init, f);
      forall i | 0 <= i < k ensures !j.Hides(recs[i], f) {
        assert init[i] in init;
      }
    }
  }

  /** What became of one record, the first of these that holds: it is not well made; the
      registry no longer backs it; it has lapsed; it hides something; the evidence it
      pins has changed; it is about nothing. */
  lemma StateNowExactly(w: World, reg: Registry, r: Record, findings: seq<Finding>, now: int)
    ensures StateOf(JudgeAt(w, reg, now), r, findings)
         == if !WellMade(w, r) then Invalid
            else if !Backed(reg, r) then Stale
            else if !Unlapsed(w, r, now) then Lapsed
            else if exists f :: f in findings && AboutAsItIs(w, r, f) then Active
            else if exists f :: f in findings && About(r, f) then Spent
            else Dead
  {
    WellMadeExactly(w, r);
    forall f ensures Matches(w, r, f) == (true, true) <==> AboutAsItIs(w, r, f) {
      AboutExactly(w, r, f);
    }
    forall f ensures Matches(w, r, f) == (true, false) <==> About(r, f) && !AboutAsItIs(w, r, f) {
      AboutExactly(w, r, f);
    }
  }

  /** The findings a record is said to match are those it is about as they are, whatever
      state it is in, unless it is not well made. */
  lemma MatchedExactly(w: World, reg: Registry, r: Record, findings: seq<Finding>, now: int, id: string)
    ensures id in StatusOf(JudgeAt(w, reg, now), r, findings).matched
            <==> WellMade(w, r) && exists f :: f in findings && AboutAsItIs(w, r, f)
                                               && id == f.ruleId + (" " + (f.subjectKind + (":" + f.subject)))
  {
    WellMadeExactly(w, r);
    CoveredIdsExactly(w, reg, r, findings, now, id);
  }

  lemma IdSpells(f: Finding)
    ensures FindingId(f) == f.ruleId + (" " + (f.subjectKind + (":" + f.subject)))
  {
    Text.Assoc(f.ruleId + " " + f.subjectKind, ":", f.subject);
    Text.Assoc(f.ruleId + " ", f.subjectKind, ":" + f.subject);
    Text.Assoc(f.ruleId, " ", f.subjectKind + (":" + f.subject));
  }

  lemma {:induction false} CoveredIdsExactly(w: World, reg: Registry, r: Record, findings: seq<Finding>, now: int, id: string)
    ensures id in CoveredIds(JudgeAt(w, reg, now), r, findings)
            <==> exists f :: f in findings && AboutAsItIs(w, r, f) && id == f.ruleId + (" " + (f.subjectKind + (":" + f.subject)))
    decreases |findings|
  {
    if findings == [] {
    } else {
      var init, last := findings[..|findings| - 1], findings[|findings| - 1];
      CoveredIdsExactly(w, reg, r, init, now, id);
      AboutExactly(w, r, last);
      IdSpells(last);
      assert findings == init + [last];
    }
  }

  // -- gaps and order -------------------------------------------------------

  ghost predicate FaultGap(source: string, faults: seq<string>, g: Gap) {
    exists f :: f in faults && g == Gap("adjudicate-store", source + ": " + f)
  }

  ghost predicate RecordGap(w: World, source: string, recs: seq<Record>, g: Gap) {
    exists n: nat :: n < |recs| && !WellMade(w, recs[n]) && g == Gap("adjudicate-store", source + ": record " + Text.Digits(n))
  }

  /** The gaps after a set is applied: the scan's own first, and besides them one for
      each place the set could not be read and one for each record that is not well
      made. */
  lemma GapsExactly(w: World, reg: Registry, loaded: Set, scan: Scan, now: int, g: Gap)
    ensures scan.gaps <= Applied(JudgeAt(w, reg, now), loaded, scan).kept.gaps
    ensures var source := if loaded.source == "" then "adjudications" else loaded.source;
      g in Applied(JudgeAt(w, reg, now), loaded, scan).kept.gaps
      <==> g in scan.gaps || FaultGap(source, loaded.faults, g) || RecordGap(w, source, loaded.records, g)
  {
    FaultGapsAre(SourceOf(loaded), loaded.faults);
    RecordGapsAre(w, reg, SourceOf(loaded), loaded.records, scan.findings, now, g);
  }

  lemma RecordGapsAre(w: World, reg: Registry, source: string, recs: seq<Record>, findings: seq<Finding>, now: int, g: Gap)
    ensures g in InvalidGaps(source, StatusesOf(JudgeAt(w, reg, now), recs, findings)) <==> RecordGap(w, source, recs, g)
  {
    var statuses := StatusesOf(JudgeAt(w, reg, now), recs, findings);
    StatusesAt(JudgeAt(w, reg, now), recs, findings);
    InvalidGapsAre(source, statuses);
    forall n: nat | n < |recs| ensures statuses[n].state == Invalid <==> !WellMade(w, recs[n]) {
      WellMadeExactly(w, recs[n]);
    }
  }

  lemma {:induction false} FaultGapsAre(source: string, faults: seq<string>)
    ensures forall g :: g in FaultGaps(source, faults) <==> FaultGap(source, faults, g)
    decreases |faults|
  {
    if faults == [] {
    } else {
      FaultGapsAre(source, faults[..|faults| - 1]);
      assert faults == faults[..|faults| - 1] + [faults[|faults| - 1]];
    }
  }

  lemma {:induction false} InvalidGapsAre(source: string, statuses: seq<Status>)
    ensures forall g :: g in InvalidGaps(source, statuses) <==>
      exists n: nat :: n < |statuses| && statuses[n].state == Invalid && g == Gap("adjudicate-store", source + ": record " + Text.Digits(n))
    decreases |statuses|
  {
    if statuses == [] {
    } else {
      var init := statuses[..|statuses| - 1];
      InvalidGapsAre(source, init);
      assert forall n: nat :: n < |init| ==> init[n] == statuses[n];
    }
  }

  /** Where a state comes in a report: by its name. */
  function Place(s: State): nat {
    match s case Active => 0 case Dead => 1 case Lapsed => 2 case Invalid => 3 case Spent => 4 case Stale => 5
  }

  /** Narrowest scope first. */
  function Width(r: Record): nat {
    if r.scope == "pin" then 1 else if r.scope == "subject" then 2 else if r.scope == "rule" then 3 else 0
  }

  /** By state, then by scope, then by fingerprint. */
  ghost predicate InOrder(a: Status, b: Status) {
    || Place(a.state) < Place(b.state)
    || (a.state == b.state && Width(a.record) < Width(b.record))
    || (a.state == b.state && Width(a.record) == Width(b.record)
        && (a.record.fingerprint == b.record.fingerprint || Order.Before(a.record.fingerprint, b.record.fingerprint)))
  }

  lemma NamesAscend(s: State, t: State)
    ensures s != t ==> (Order.Leq(StateName(s), StateName(t)) <==> Place(s) < Place(t))
  {
    var a, b := StateName(s), StateName(t);
    if s != t {
      assert a[0] != b[0] || a == "spent" || b == "spent";
      assert "spent"[0] == 's' && "stale"[0] == 's' && "spent"[1..] == "pent" && "stale"[1..] == "tale" && "pent"[0] == 'p' && "tale"[0] == 't';
    }
  }

  lemma InOrderExactly(a: Status, b: Status)
    ensures StatusLeq(a, b) <==> InOrder(a, b)
  {
    NamesAscend(a.state, b.state);
    ScopesApart();
    Order.LessExactly(a.record.fingerprint, b.record.fingerprint);
    Order.LeqTotal(a.record.fingerprint, a.record.fingerprint);
  }

  /** Records are reported in order of state, scope and fingerprint. */
  lemma StatusesInOrder(w: World, reg: Registry, loaded: Set, scan: Scan, now: int, i: nat, k: nat)
    requires i < k < |Applied(JudgeAt(w, reg, now), loaded, scan).statuses|
    ensures var statuses := Applied(JudgeAt(w, reg, now), loaded, scan).statuses; InOrder(statuses[i], statuses[k])
  {
    var sts := StatusesOf(JudgeAt(w, reg, now), loaded.records, scan.findings);
    StatusLeqOrders(sts);
    Order.SortSorts(StatusLeq, sts);
    InOrderExactly(Order.Sort(StatusLeq, sts)[i], Order.Sort(StatusLeq, sts)[k]);
  }

  lemma StatusLeqTotal(a: Status, b: Status)
    ensures StatusLeq(a, b) || StatusLeq(b, a)
  {
    NamesAscend(a.state, b.state);
    NamesAscend(b.state, a.state);
    Order.LeqTotal(a.record.fingerprint, b.record.fingerprint);
  }

  lemma StatusLeqTransitive(a: Status, b: Status, c: Status)
    requires StatusLeq(a, b) && StatusLeq(b, c)
    ensures StatusLeq(a, c)
  {
    NamesAscend(a.state, b.state);
    NamesAscend(b.state, c.state);
    NamesAscend(a.state, c.state);
    if a.state == b.state == c.state && Breadth(a.record.scope) == Breadth(b.record.scope) == Breadth(c.record.scope) {
      Order.LeqTransitive(a.record.fingerprint, b.record.fingerprint, c.record.fingerprint);
    }
  }

  lemma StatusLeqOrders(sts: seq<Status>)
    ensures Order.TotalOn(StatusLeq, sts)
  {
    forall a, b ensures StatusLeq(a, b) || StatusLeq(b, a) {
      StatusLeqTotal(a, b);
    }
    forall a, b, c | StatusLeq(a, b) && StatusLeq(b, c) ensures StatusLeq(a, c) {
      StatusLeqTransitive(a, b, c);
    }
  }
}
