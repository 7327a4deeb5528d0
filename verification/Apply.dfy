/** Applying a set of adjudications to a scan: findings can be hidden, gaps never. */
module Suppression {
  import opened Wrappers
  import opened Findings
  import opened Adjudications
  import Text
  import Order

  datatype State = Active | Stale | Lapsed | Spent | Dead | Invalid

  datatype Status = Status(record: Record, state: State, matched: seq<string>)

  datatype Hidden = Hidden(finding: Finding, record: Record)

  /** A loaded set: its records, where it could not be read, and what it came from. */
  datatype Set = Set(records: seq<Record>, faults: seq<string>, source: string)

  datatype Scan = Scan(findings: seq<Finding>, gaps: seq<Gap>)

  datatype Outcome = Outcome(kept: Scan, suppressed: seq<Hidden>, statuses: seq<Status>)

  // -- one record -----------------------------------------------------------

  function FindingId(f: Finding): string {
    f.ruleId + " " + f.subjectKind + ":" + f.subject
  }

  /** What is known of one record when a set is applied: whether it is valid, current
      and past its expiry, and how it matches a finding. */
  datatype Judge = Judge(
    valid: Record -> bool,
    current: Record -> bool,
    expired: Record -> bool,
    matches: (Record, Finding) -> (bool, bool))
  {
    predicate Covers(r: Record, f: Finding) {
      matches(r, f) == (true, true)
    }

    /** The record hides this finding. */
    predicate Hides(r: Record, f: Finding) {
      valid(r) && current(r) && !expired(r) && Covers(r, f)
    }
  }

  function JudgeAt(w: World, reg: Registry, now: int): Judge {
    Judge(ValidIn(w), r => Current(reg, r), r => Expired(w, r, now), (r, f) => Matches(w, r, f))
  }

  function Covered(j: Judge, r: Record, findings: seq<Finding>): seq<nat>
    decreases |findings|
  {
    if findings == [] then []
    else
      var n := |findings| - 1;
      Covered(j, r, findings[..n]) + if j.Covers(r, findings[n]) then [n] else []
  }

  function CoveredIds(j: Judge, r: Record, findings: seq<Finding>): seq<string>
    decreases |findings|
  {
    if findings == [] then []
    else
      var n := |findings| - 1;
      CoveredIds(j, r, findings[..n]) + if j.Covers(r, findings[n]) then [FindingId(findings[n])] else []
  }

  predicate PinnedOther(j: Judge, r: Record, findings: seq<Finding>) {
    exists f :: f in findings && j.matches(r, f) == (true, false)
  }

  /** What one record did: the first of these that applies. */
  function StateOf(j: Judge, r: Record, findings: seq<Finding>): State {
    if !j.valid(r) then Invalid
    else if !j.current(r) then Stale
    else if j.expired(r) then Lapsed
    else if exists f :: f in findings && j.Covers(r, f) then Active
    else if PinnedOther(j, r, findings) then Spent
    else Dead
  }

  function StatusOf(j: Judge, r: Record, findings: seq<Finding>): Status {
    Status(r, StateOf(j, r, findings), if j.valid(r) then CoveredIds(j, r, findings) else [])
  }

  lemma {:induction false} CoveredExactly(j: Judge, r: Record, findings: seq<Finding>)
    ensures forall k: nat :: k in Covered(j, r, findings) <==> k < |findings| && j.Covers(r, findings[k])
    ensures Covered(j, r, findings) != [] <==> exists f :: f in findings && j.Covers(r, f)
    decreases |findings|
  {
    if findings == [] {
    } else {
      var init, last := findings[..|findings| - 1], findings[|findings| - 1];
      CoveredExactly(j, r, init);
      assert findings == init + [last];
    }
  }

  method Evaluate(j: Judge, r: Record, findings: seq<Finding>)
    returns (st: Status, indices: seq<nat>)
    ensures st == StatusOf(j, r, findings)
    ensures indices == if st.state == Active then Covered(j, r, findings) else []
  {
    if !j.valid(r) {
      return Status(r, Invalid, []), [];
    }
    var idx, ids, spent := CollectMatches(j, r, findings);
    CoveredExactly(j, r, findings);
    if !j.current(r) {
      return Status(r, Stale, ids), [];
    }
    if j.expired(r) {
      return Status(r, Lapsed, ids), [];
    }
    if |idx| > 0 {
      return Status(r, Active, ids), idx;
    }
    if spent {
      return Status(r, Spent, ids), [];
    }
    return Status(r, Dead, ids), [];
  }

  method CollectMatches(j: Judge, r: Record, findings: seq<Finding>) returns (idx: seq<nat>, ids: seq<string>, spent: bool)
    ensures idx == Covered(j, r, findings) && ids == CoveredIds(j, r, findings)
    ensures spent == PinnedOther(j, r, findings)
  {
    idx, ids, spent := [], [], false;
    for i := 0 to |findings|
      invariant idx == Covered(j, r, findings[..i]) && ids == CoveredIds(j, r, findings[..i])
      invariant spent == PinnedOther(j, r, findings[..i])
    {
      assert findings[..i + 1][..i] == findings[..i];
      assert findings[..i + 1] == findings[..i] + [findings[i]];
      var (matched, evidenceOk) := j.matches(r, findings[i]);
      if !matched {
        continue;
      }
      if !evidenceOk {
        spent := true;
        continue;
      }
      idx := idx + [i];
      ids := ids + [FindingId(findings[i])];
    }
    assert findings[..|findings|] == findings;
  }

  // -- the whole set --------------------------------------------------------

  /** The record a finding is hidden by: the first, in the set's order, that does. */
  function HiddenBy(j: Judge, recs: seq<Record>, f: Finding): Option<Record>
    decreases |recs|
  {
    if recs == [] then None
    else
      var before, last := HiddenBy(j, recs[..|recs| - 1], f), recs[|recs| - 1];
      if before.Some? then before else if j.Hides(last, f) then Some(last) else None
  }

  function KeptOf(j: Judge, recs: seq<Record>, findings: seq<Finding>): seq<Finding>
    decreases |findings|
  {
    if findings == [] then []
    else
      var init, last := findings[..|findings| - 1], findings[|findings| - 1];
      KeptOf(j, recs, init) + if HiddenBy(j, recs, last).Some? then [] else [last]
  }

  function HiddenOf(j: Judge, recs: seq<Record>, findings: seq<Finding>): seq<Hidden>
    decreases |findings|
  {
    if findings == [] then []
    else
      var init, last := findings[..|findings| - 1], findings[|findings| - 1];
      HiddenOf(j, recs, init)
      + match HiddenBy(j, recs, last) case None => [] case Some(r) => [Hidden(last, r)]
  }

  function StatusesOf(j: Judge, recs: seq<Record>, findings: seq<Finding>): seq<Status>
    decreases |recs|
  {
    if recs == [] then []
    else
      var n := |recs| - 1;
      StatusesOf(j, recs[..n], findings) + [StatusOf(j, recs[n], findings)]
  }

  function SourceOf(loaded: Set): string {
    if loaded.source == "" then "adjudications" else loaded.source
  }

  function FaultGaps(source: string, faults: seq<string>): seq<Gap>
    decreases |faults|
  {
    if faults == [] then []
    else
      FaultGaps(source, faults[..|faults| - 1]) + [Gap("adjudicate-store", source + ": " + faults[|faults| - 1])]
  }

  function InvalidGap(source: string, n: nat): Gap {
    Gap("adjudicate-store", source + ": record " + Text.Digits(n))
  }

  /** A gap for every record that could not be used. */
  function InvalidGaps(source: string, statuses: seq<Status>): seq<Gap>
    decreases |statuses|
  {
    if statuses == [] then []
    else
      var n := |statuses| - 1;
      InvalidGaps(source, statuses[..n]) + if statuses[n].state == Invalid then [InvalidGap(source, n)] else []
  }

  function StateName(s: State): string {
    match s
    case Active => "active"
    case Stale => "stale"
    case Lapsed => "expired"
    case Spent => "spent"
    case Dead => "dead"
    case Invalid => "invalid"
  }

  predicate StatusLeq(a: Status, b: Status) {
    if a.state != b.state then Order.Leq(StateName(a.state), StateName(b.state))
    else if Breadth(a.record.scope) != Breadth(b.record.scope) then Breadth(a.record.scope) < Breadth(b.record.scope)
    else Order.Leq(a.record.fingerprint, b.record.fingerprint)
  }

  /** What applying a set to a scan comes to. */
  function Applied(j: Judge, loaded: Set, scan: Scan): Outcome {
    var source, statuses := SourceOf(loaded), StatusesOf(j, loaded.records, scan.findings);
    Outcome(
      Scan(KeptOf(j, loaded.records, scan.findings),
           scan.gaps + FaultGaps(source, loaded.faults) + InvalidGaps(source, statuses)),
      HiddenOf(j, loaded.records, scan.findings),
      Order.Sort(StatusLeq, statuses))
  }

  // -- as it runs -----------------------------------------------------------

  /** Which findings the records so far hide. */
  ghost predicate Claimed(j: Judge, recs: seq<Record>, findings: seq<Finding>, claimed: map<nat, Record>) {
    forall k: nat :: k < |findings| ==>
      (match HiddenBy(j, recs, findings[k]) case None => k !in claimed case Some(r) => k in claimed && claimed[k] == r)
  }

  method Claim(claimed: map<nat, Record>, indices: seq<nat>, r: Record) returns (claimed': map<nat, Record>)
    ensures forall k :: k in claimed' <==> k in claimed || k in indices
    ensures forall k :: k in claimed' ==> claimed'[k] == if k in claimed then claimed[k] else r
  {
    claimed' := claimed;
    for i := 0 to |indices|
      invariant forall k :: k in claimed' <==> k in claimed || k in indices[..i]
      invariant forall k :: k in claimed' ==> claimed'[k] == if k in claimed then claimed[k] else r
    {
      assert indices[..i + 1] == indices[..i] + [indices[i]];
      if indices[i] !in claimed' {
        claimed' := claimed'[indices[i] := r];
      }
    }
    assert indices[..|indices|] == indices;
  }

  lemma ClaimedStep(j: Judge, recs: seq<Record>, findings: seq<Finding>, i: nat,
                    claimed: map<nat, Record>, claimed': map<nat, Record>)
    requires i < |recs| && Claimed(j, recs[..i], findings, claimed)
    requires var st := StateOf(j, recs[i], findings);
      && (forall k: nat :: k in claimed' <==> k in claimed || (st == Active && k in Covered(j, recs[i], findings)))
      && (forall k :: k in claimed' ==> claimed'[k] == if k in claimed then claimed[k] else recs[i])
    ensures Claimed(j, recs[..i + 1], findings, claimed')
  {
    assert recs[..i + 1][..i] == recs[..i];
    CoveredExactly(j, recs[i], findings);
    forall k: nat | k < |findings|
      ensures match HiddenBy(j, recs[..i + 1], findings[k]) case None => k !in claimed' case Some(r) => k in claimed' && claimed'[k] == r
    {
      assert findings[k] in findings;
      assert j.Hides(recs[i], findings[k]) <==>
             StateOf(j, recs[i], findings) == Active && j.Covers(recs[i], findings[k]);
    }
  }

  lemma StatusesStep(j: Judge, source: string, recs: seq<Record>, findings: seq<Finding>, i: nat)
    requires i < |recs|
    ensures |StatusesOf(j, recs[..i], findings)| == i
    ensures var sts, st := StatusesOf(j, recs[..i], findings), StatusOf(j, recs[i], findings);
      && StatusesOf(j, recs[..i + 1], findings) == sts + [st]
      && InvalidGaps(source, sts + [st]) == InvalidGaps(source, sts) + if st.state == Invalid then [InvalidGap(source, i)] else []
  {
    var sts, st := StatusesOf(j, recs[..i], findings), StatusOf(j, recs[i], findings);
    StatusesAt(j, recs[..i], findings);
    assert recs[..i + 1][..i] == recs[..i];
    assert (sts + [st])[..i] == sts;
  }

  lemma {:induction false} StatusesAt(j: Judge, recs: seq<Record>, findings: seq<Finding>)
    ensures |StatusesOf(j, recs, findings)| == |recs|
    ensures forall i :: 0 <= i < |recs| ==> StatusesOf(j, recs, findings)[i] == StatusOf(j, recs[i], findings)
    decreases |recs|
  {
    if recs == [] {
    } else {
      StatusesAt(j, recs[..|recs| - 1], findings);
    }
  }

  method EvaluateAll(j: Judge, loaded: Set, findings: seq<Finding>)
    returns (claimed: map<nat, Record>, gaps: seq<Gap>, statuses: seq<Status>)
    ensures Claimed(j, loaded.records, findings, claimed)
    ensures statuses == StatusesOf(j, loaded.records, findings)
    ensures gaps == InvalidGaps(SourceOf(loaded), statuses)
  {
    var recs := loaded.records;
    claimed, gaps, statuses := map[], [], [];
    for i := 0 to |recs|
      invariant Claimed(j, recs[..i], findings, claimed)
      invariant statuses == StatusesOf(j, recs[..i], findings)
      invariant gaps == InvalidGaps(SourceOf(loaded), statuses)
    {
      ghost var before := claimed;
      var st, indices := Evaluate(j, recs[i], findings);
      if st.state == Invalid {
        gaps := gaps + [InvalidGap(SourceOf(loaded), i)];
      } else if st.state == Active {
        claimed := Claim(claimed, indices, recs[i]);
      }
      ClaimedStep(j, recs, findings, i, before, claimed);
      StatusesStep(j, SourceOf(loaded), recs, findings, i);
      statuses := statuses + [st];
    }
    assert recs[..|recs|] == recs;
  }

  method Split(j: Judge, recs: seq<Record>, findings: seq<Finding>, claimed: map<nat, Record>)
    returns (kept: seq<Finding>, hidden: seq<Hidden>)
    requires Claimed(j, recs, findings, claimed)
    ensures kept == KeptOf(j, recs, findings) && hidden == HiddenOf(j, recs, findings)
  {
    kept, hidden := [], [];
    for i := 0 to |findings|
      invariant kept == KeptOf(j, recs, findings[..i]) && hidden == HiddenOf(j, recs, findings[..i])
    {
      assert findings[..i + 1][..i] == findings[..i];
      if i in claimed {
        hidden := hidden + [Hidden(findings[i], claimed[i])];
        continue;
      }
      kept := kept + [findings[i]];
    }
    assert findings[..|findings|] == findings;
  }

  method ApplyWith(w: World, reg: Registry, loaded: Set, scan: Scan, now: int) returns (out: Outcome)
    ensures out == Applied(JudgeAt(w, reg, now), loaded, scan)
  {
    var j, gaps := JudgeAt(w, reg, now), [];
    for i := 0 to |loaded.faults|
      invariant gaps == FaultGaps(SourceOf(loaded), loaded.faults[..i])
    {
      assert loaded.faults[..i + 1][..i] == loaded.faults[..i];
      gaps := gaps + [Gap("adjudicate-store", SourceOf(loaded) + ": " + loaded.faults[i])];
    }
    assert loaded.faults[..|loaded.faults|] == loaded.faults;
    var claimed, invalid, statuses := EvaluateAll(j, loaded, scan.findings);
    var kept, hidden := Split(j, loaded.records, scan.findings, claimed);
    return Outcome(Scan(kept, scan.gaps + gaps + invalid), hidden, Order.Sort(StatusLeq, statuses));
  }
}
