/** The laws of suppression: what a set can hide, what it cannot, and how that
    changes with time. */
module SuppressionLaws {
  import opened Wrappers
  import opened Findings
  import opened Adjudications
  import opened Suppression
  import Order

  ghost predicate HiddenAmong(j: Judge, recs: seq<Record>, f: Finding) {
    exists r :: r in recs && j.Hides(r, f)
  }

  lemma {:induction false} HiddenByExactly(j: Judge, recs: seq<Record>, f: Finding)
    ensures HiddenBy(j, recs, f).Some? <==> HiddenAmong(j, recs, f)
    ensures HiddenBy(j, recs, f).Some? ==> HiddenBy(j, recs, f).value in recs && j.Hides(HiddenBy(j, recs, f).value, f)
    decreases |recs|
  {
    if recs == [] {
    } else {
      var init, last := recs[..|recs| - 1], recs[|recs| - 1];
      HiddenByExactly(j, init, f);
      assert recs == init + [last];
      assert forall r :: r in recs <==> r in init || r == last;
    }
  }

  // -- the split ------------------------------------------------------------

  function FindingsOf(hidden: seq<Hidden>): (fs: seq<Finding>)
    ensures |fs| == |hidden| && forall i :: 0 <= i < |hidden| ==> fs[i] == hidden[i].finding
  {
    seq(|hidden|, i requires 0 <= i < |hidden| => hidden[i].finding)
  }

  /** Two lists put back together: `mask` says which gives the next element. */
  function Woven(mask: seq<bool>, kept: seq<Finding>, hidden: seq<Finding>): Option<seq<Finding>>
    decreases |mask|
  {
    if mask == [] then if kept == [] && hidden == [] then Some([]) else None
    else
      var n, k, h := |mask| - 1, |kept| - 1, |hidden| - 1;
      if mask[n] then
        if h < 0 then None
        else match Woven(mask[..n], kept, hidden[..h]) case None => None case Some(fs) => Some(fs + [hidden[h]])
      else
        if k < 0 then None
        else match Woven(mask[..n], kept[..k], hidden) case None => None case Some(fs) => Some(fs + [kept[k]])
  }

  function Mask(j: Judge, recs: seq<Record>, findings: seq<Finding>): seq<bool> {
    seq(|findings|, i requires 0 <= i < |findings| => HiddenBy(j, recs, findings[i]).Some?)
  }

  lemma WeaveOn(mask: seq<bool>, kept: seq<Finding>, hidden: seq<Finding>, f: Finding)
    requires Woven(mask, kept, hidden).Some?
    ensures Woven(mask + [true], kept, hidden + [f]) == Some(Woven(mask, kept, hidden).value + [f])
    ensures Woven(mask + [false], kept + [f], hidden) == Some(Woven(mask, kept, hidden).value + [f])
  {
    assert (mask + [true])[..|mask|] == mask && (mask + [false])[..|mask|] == mask;
    assert (hidden + [f])[..|hidden|] == hidden && (kept + [f])[..|kept|] == kept;
  }

  lemma SplitStep(j: Judge, recs: seq<Record>, init: seq<Finding>, f: Finding)
    ensures var findings, mask, kept, hidden :=
      init + [f], Mask(j, recs, init), KeptOf(j, recs, init), FindingsOf(HiddenOf(j, recs, init));
      if HiddenBy(j, recs, f).Some? then
        Mask(j, recs, findings) == mask + [true] && KeptOf(j, recs, findings) == kept
        && FindingsOf(HiddenOf(j, recs, findings)) == hidden + [f]
      else
        Mask(j, recs, findings) == mask + [false] && KeptOf(j, recs, findings) == kept + [f]
        && FindingsOf(HiddenOf(j, recs, findings)) == hidden
  {
    assert (init + [f])[..|init|] == init;
    assert Mask(j, recs, init + [f]) == Mask(j, recs, init) + [HiddenBy(j, recs, f).Some?];
    var hidden := HiddenOf(j, recs, init);
    if HiddenBy(j, recs, f).Some? {
      var h := Hidden(f, HiddenBy(j, recs, f).value);
      assert HiddenOf(j, recs, init + [f]) == hidden + [h];
      assert FindingsOf(hidden + [h]) == FindingsOf(hidden) + [f];
    } else {
      assert HiddenOf(j, recs, init + [f]) == hidden;
    }
  }

  lemma {:induction false} SplitWeaves(j: Judge, recs: seq<Record>, findings: seq<Finding>)
    ensures Woven(Mask(j, recs, findings), KeptOf(j, recs, findings), FindingsOf(HiddenOf(j, recs, findings))) == Some(findings)
    decreases |findings|
  {
    if findings == [] {
      assert Mask(j, recs, findings) == [] && FindingsOf(HiddenOf(j, recs, findings)) == [];
    } else {
      var init, last := findings[..|findings| - 1], findings[|findings| - 1];
      assert findings == init + [last];
      SplitWeaves(j, recs, init);
      SplitStep(j, recs, init, last);
      WeaveOn(Mask(j, recs, init), KeptOf(j, recs, init), FindingsOf(HiddenOf(j, recs, init)), last);
    }
  }

  lemma {:induction false} SplitCounts(j: Judge, recs: seq<Record>, findings: seq<Finding>)
    ensures multiset(findings) == multiset(KeptOf(j, recs, findings)) + multiset(FindingsOf(HiddenOf(j, recs, findings)))
    decreases |findings|
  {
    if findings == [] {
    } else {
      var init, last := findings[..|findings| - 1], findings[|findings| - 1];
      assert findings == init + [last];
      SplitCounts(j, recs, init);
      SplitStep(j, recs, init, last);
    }
  }

  lemma {:induction false} Members(j: Judge, recs: seq<Record>, findings: seq<Finding>)
    ensures forall f :: f in KeptOf(j, recs, findings) <==> f in findings && HiddenBy(j, recs, f).None?
    ensures forall h :: h in HiddenOf(j, recs, findings) <==> h.finding in findings && HiddenBy(j, recs, h.finding) == Some(h.record)
    decreases |findings|
  {
    if findings == [] {
    } else {
      var init, last := findings[..|findings| - 1], findings[|findings| - 1];
      Members(j, recs, init);
      assert findings == init + [last];
      assert forall f :: f in findings <==> f in init || f == last;
    }
  }

  /** Applying a set splits the findings in two, keeping their order and how often
      each occurs: laid back together they are the scan's. */
  lemma FindingsAreSplit(j: Judge, loaded: Set, scan: Scan)
    ensures var out := Applied(j, loaded, scan);
      && Woven(Mask(j, loaded.records, scan.findings), out.kept.findings, FindingsOf(out.suppressed)) == Some(scan.findings)
      && multiset(scan.findings) == multiset(out.kept.findings) + multiset(FindingsOf(out.suppressed))
  {
    SplitWeaves(j, loaded.records, scan.findings);
    SplitCounts(j, loaded.records, scan.findings);
  }

  /** A finding is hidden exactly when some valid, current, unexpired record of the
      set covers it, and then it is reported with such a record. */
  lemma HiddenExactly(j: Judge, loaded: Set, scan: Scan, f: Finding)
    requires f in scan.findings
    ensures var out := Applied(j, loaded, scan);
      && (f !in out.kept.findings <==>
            exists r :: r in loaded.records && j.valid(r) && j.current(r) && !j.expired(r) && j.matches(r, f) == (true, true))
      && (f !in out.kept.findings <==> exists h :: h in out.suppressed && h.finding == f)
      && (forall h :: h in out.suppressed ==> h.record in loaded.records && j.Hides(h.record, h.finding))
  {
    var recs := loaded.records;
    Members(j, recs, scan.findings);
    HiddenByExactly(j, recs, f);
    if HiddenBy(j, recs, f).Some? {
      assert Hidden(f, HiddenBy(j, recs, f).value) in HiddenOf(j, recs, scan.findings);
    }
    forall h | h in HiddenOf(j, recs, scan.findings) ensures h.record in recs && j.Hides(h.record, h.finding) {
      HiddenByExactly(j, recs, h.finding);
    }
  }

  // -- gaps and statuses ----------------------------------------------------

  function CountInvalid(statuses: seq<Status>): nat
    decreases |statuses|
  {
    if statuses == [] then 0
    else CountInvalid(statuses[..|statuses| - 1]) + if statuses[|statuses| - 1].state == Invalid then 1 else 0
  }

  lemma {:induction false} InvalidGapsCount(source: string, statuses: seq<Status>)
    ensures |InvalidGaps(source, statuses)| == CountInvalid(statuses)
    decreases |statuses|
  {
    if statuses == [] {
    } else {
      InvalidGapsCount(source, statuses[..|statuses| - 1]);
    }
  }

  lemma {:induction false} FaultGapsCount(source: string, faults: seq<string>)
    ensures |FaultGaps(source, faults)| == |faults|
    decreases |faults|
  {
    if faults == [] {
    } else {
      FaultGapsCount(source, faults[..|faults| - 1]);
    }
  }

  /** No gap of the scan is lost, and each fault and each invalid record adds one. */
  lemma GapsOnlyGrow(j: Judge, loaded: Set, scan: Scan)
    ensures var out := Applied(j, loaded, scan);
      && scan.gaps <= out.kept.gaps
      && |out.kept.gaps| == |scan.gaps| + |loaded.faults| + CountInvalid(StatusesOf(j, loaded.records, scan.findings))
  {
    FaultGapsCount(SourceOf(loaded), loaded.faults);
    InvalidGapsCount(SourceOf(loaded), StatusesOf(j, loaded.records, scan.findings));
  }

  /** The state a record is in: the first that applies. A record is active exactly
      when it hides something, and dead only when it is about nothing at all. */
  lemma StateExactly(j: Judge, r: Record, findings: seq<Finding>)
    ensures var st, usable := StateOf(j, r, findings), j.valid(r) && j.current(r) && !j.expired(r);
      && (st == Invalid <==> !j.valid(r))
      && (st == Stale <==> j.valid(r) && !j.current(r))
      && (st == Lapsed <==> j.valid(r) && j.current(r) && j.expired(r))
      && (st == Active <==> exists f :: f in findings && j.Hides(r, f))
      && (st == Dead <==> usable && forall f :: f in findings ==> !j.matches(r, f).0)
      && (st == Spent <==> usable && (forall f :: f in findings ==> !j.Covers(r, f))
                           && exists f :: f in findings && j.matches(r, f) == (true, false))
  {
    forall f | f in findings && j.matches(r, f).0 ensures j.matches(r, f) == (true, true) || j.matches(r, f) == (true, false) {
      var m := j.matches(r, f);
      if m.1 {
        assert m == (true, true);
      } else {
        assert m == (true, false);
      }
    }
  }

  function RecordsOf(statuses: seq<Status>): (recs: seq<Record>)
    ensures |recs| == |statuses| && forall i :: 0 <= i < |statuses| ==> recs[i] == statuses[i].record
  {
    seq(|statuses|, i requires 0 <= i < |statuses| => statuses[i].record)
  }

  /** Every record, whatever it did, is reported once, in the state it is in. */
  lemma OneStatusPerRecord(j: Judge, loaded: Set, scan: Scan)
    ensures var out := Applied(j, loaded, scan);
      && multiset(RecordsOf(out.statuses)) == multiset(loaded.records)
      && (forall st :: st in out.statuses ==> st == StatusOf(j, st.record, scan.findings))
  {
    var sts := StatusesOf(j, loaded.records, scan.findings);
    StatusesAt(j, loaded.records, scan.findings);
    Order.SortPermutes(StatusLeq, sts);
    RecordsPermute(sts, Order.Sort(StatusLeq, sts));
    assert RecordsOf(sts) == loaded.records;
  }

  /** Only an active record hides anything. */
  lemma OnlyActiveHides(j: Judge, loaded: Set, scan: Scan, h: Hidden)
    requires h in Applied(j, loaded, scan).suppressed
    ensures h.record in loaded.records && StateOf(j, h.record, scan.findings) == Active
  {
    Members(j, loaded.records, scan.findings);
    HiddenByExactly(j, loaded.records, h.finding);
  }

  lemma RecordsConcat(a: seq<Status>, b: seq<Status>)
    ensures RecordsOf(a + b) == RecordsOf(a) + RecordsOf(b)
  {
  }

  lemma RecordsPull(a: seq<Status>, st: Status, b: seq<Status>)
    ensures multiset(RecordsOf(a + ([st] + b))) == multiset(RecordsOf(a + b)) + multiset{st.record}
  {
    RecordsConcat(a, b);
    RecordsConcat([st], b);
    RecordsConcat(a, [st] + b);
    assert RecordsOf([st]) == [st.record];
  }

  lemma {:induction false} RecordsPermute(s: seq<Status>, t: seq<Status>)
    requires multiset(s) == multiset(t)
    ensures multiset(RecordsOf(s)) == multiset(RecordsOf(t))
    decreases |s|
  {
    Order.SameElements(s, t);
    if s == [] {
    } else {
      var k := Order.PullOut(s, t);
      RecordsPermute(s[1..], t[..k] + t[k + 1..]);
      assert s == [] + ([s[0]] + s[1..]) && [] + s[1..] == s[1..];
      RecordsPull([], s[0], s[1..]);
      RecordsPull(t[..k], s[0], t[k + 1..]);
    }
  }

  // -- again, and later -----------------------------------------------------

  lemma {:induction false} NothingHidden(j: Judge, recs: seq<Record>, findings: seq<Finding>)
    requires forall f :: f in findings ==> HiddenBy(j, recs, f).None?
    ensures KeptOf(j, recs, findings) == findings && HiddenOf(j, recs, findings) == []
    decreases |findings|
  {
    if findings == [] {
    } else {
      NothingHidden(j, recs, findings[..|findings| - 1]);
      assert findings == findings[..|findings| - 1] + [findings[|findings| - 1]];
    }
  }

  /** Applied again to what it kept, a set hides nothing more. */
  lemma ApplyIsIdempotent(j: Judge, loaded: Set, scan: Scan)
    ensures var again := Applied(j, loaded, Applied(j, loaded, scan).kept);
      again.suppressed == [] && again.kept.findings == Applied(j, loaded, scan).kept.findings
  {
    Members(j, loaded.records, scan.findings);
    NothingHidden(j, loaded.records, KeptOf(j, loaded.records, scan.findings));
  }

  /** Every record `j'` would hide a finding by, `j` would. */
  ghost predicate HidesNoLess(j: Judge, j': Judge) {
    forall r, f :: j'.Hides(r, f) ==> j.Hides(r, f)
  }

  lemma {:induction false} KeepsNoMore(j: Judge, j': Judge, recs: seq<Record>, findings: seq<Finding>)
    requires HidesNoLess(j, j')
    ensures multiset(KeptOf(j, recs, findings)) <= multiset(KeptOf(j', recs, findings))
    decreases |findings|
  {
    if findings == [] {
    } else {
      var init, last := findings[..|findings| - 1], findings[|findings| - 1];
      KeepsNoMore(j, j', recs, init);
      HiddenByExactly(j, recs, last);
      HiddenByExactly(j', recs, last);
    }
  }

  /** As time passes what a set hides can only shrink: whatever is kept now is kept,
      as often, at any later time. */
  lemma HidingOnlyShrinks(w: World, reg: Registry, loaded: Set, scan: Scan, now: int, later: int)
    requires now <= later
    ensures var out, out' := Applied(JudgeAt(w, reg, now), loaded, scan), Applied(JudgeAt(w, reg, later), loaded, scan);
      && multiset(out.kept.findings) <= multiset(out'.kept.findings)
      && multiset(FindingsOf(out'.suppressed)) <= multiset(FindingsOf(out.suppressed))
  {
    var j, j' := JudgeAt(w, reg, now), JudgeAt(w, reg, later);
    ExpiryIsFinal(w, reg, now, later);
    ShrinksBetween(j, j', loaded, scan);
  }

  lemma ShrinksBetween(j: Judge, j': Judge, loaded: Set, scan: Scan)
    requires HidesNoLess(j, j')
    ensures var out, out' := Applied(j, loaded, scan), Applied(j', loaded, scan);
      && multiset(out.kept.findings) <= multiset(out'.kept.findings)
      && multiset(FindingsOf(out'.suppressed)) <= multiset(FindingsOf(out.suppressed))
  {
    KeepsNoMore(j, j', loaded.records, scan.findings);
    SplitCounts(j, loaded.records, scan.findings);
    SplitCounts(j', loaded.records, scan.findings);
    Complements(multiset(KeptOf(j, loaded.records, scan.findings)), multiset(FindingsOf(HiddenOf(j, loaded.records, scan.findings))),
                multiset(KeptOf(j', loaded.records, scan.findings)), multiset(FindingsOf(HiddenOf(j', loaded.records, scan.findings))));
  }

  lemma Complements<T>(a: multiset<T>, b: multiset<T>, a': multiset<T>, b': multiset<T>)
    requires a + b == a' + b' && a <= a'
    ensures b' <= b
  {
    forall x ensures b'[x] <= b[x] {
      assert (a + b)[x] == (a' + b')[x] && a[x] <= a'[x];
    }
  }

  lemma ExpiryIsFinal(w: World, reg: Registry, now: int, later: int)
    requires now <= later
    ensures HidesNoLess(JudgeAt(w, reg, now), JudgeAt(w, reg, later))
  {
    var j, j' := JudgeAt(w, reg, now), JudgeAt(w, reg, later);
    forall r, f | j'.Hides(r, f) ensures j.Hides(r, f) {
      assert !Expired(w, r, later) && j'.valid(r) == j.valid(r) && j'.matches(r, f) == j.matches(r, f);
    }
  }
}
