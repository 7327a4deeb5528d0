/** What a drift report says of each package, in the terms of the two sides, the log,
    the records and the clock. */
module DriftTerms {
  import opened Times
  import opened Wrappers
  import opened Findings
  import Manifests
  import opened Drift
  import opened DriftLaws
  import Order
  import Text

  // -- which change a package is reported with ------------------------------

  /** The change the two sides show, by what each says of the package. */
  ghost predicate Shows(input: Input, c: Change) {
    match c.kind
    case Added =>
      && (forall p :: p in input.baseline.packages ==> p.name != c.package)
      && exists o :: o in input.observed && o.name == c.package && o.unread == ""
                     && c.was == "" && c.became == o.version && c.version == o.version
    case Removed =>
      && (forall o :: o in input.observed ==> o.name != c.package)
      && exists p :: p in input.baseline.packages && p.name == c.package
                     && c.was == p.version && c.became == "" && c.version == p.version
    case VersionChanged =>
      exists p, o :: p in input.baseline.packages && o in input.observed && p.name == o.name == c.package && o.unread == ""
                     && o.version != p.version && c.was == p.version && c.became == o.version && c.version == o.version
    case MtreeChanged =>
      exists p, o :: p in input.baseline.packages && o in input.observed && p.name == o.name == c.package && o.unread == ""
                     && o.version == p.version && p.mtree != "" && o.mtree != p.mtree
                     && c.was == p.mtree && c.became == o.mtree && c.version == o.version
  }

  lemma ShowsExactly(input: Input, c: Change)
    requires FirstFault(input.observed) == None && UniqueNames(input.baseline.packages)
    ensures Shows(input, c) <==> DueOn(input, c.package) == Changed(c)
  {
    OnlyPackage(input.baseline.packages, c.package);
    OnlyObserved(input.observed, c.package);
  }

  /** The changes reported are exactly those the two sides show. */
  lemma ReportedExactly(stamp: Stamp, input: Input, r: Report, c: Change)
    requires InputFault(stamp, input).None? && Describes(stamp, input, r) && UniqueNames(input.baseline.packages)
    ensures (exists item :: item in r.items && item.change == c) <==> Shows(input, c)
  {
    DriftIsPartition(stamp, input, r);
    ShowsExactly(input, c);
  }

  // -- how a change is rated ------------------------------------------------

  /** A transaction that leaves the change in place: of this package, not before the
      baseline, of a kind that makes such a change, and leaving the version there is. */
  predicate LeavesIt(c: Change, tx: Transaction, created: int) {
    && tx.pkg == c.package && created <= tx.time
    && match c.kind
       case Added => (tx.op == "installed" || tx.op == "reinstalled" || tx.op == "upgraded") && (tx.version == "" || tx.version == c.became)
       case Removed => tx.op == "removed"
       case VersionChanged =>
         && (tx.op == "upgraded" || tx.op == "downgraded" || tx.op == "installed" || tx.op == "reinstalled")
         && (tx.version == "" || tx.version == c.became)
       case MtreeChanged =>
         && (tx.op == "reinstalled" || tx.op == "upgraded" || tx.op == "downgraded" || tx.op == "installed")
         && (tx.version == "" || c.version == "" || tx.version == c.version)
  }

  /** A record to rely on: of drift, with a reason, of some scope, with a subject unless
      it is of the whole rule, and not past an expiry. */
  predicate Reliable(stamp: Stamp, r: Adjudication, now: int) {
    && (r.ruleId == "" || r.ruleId == "baseline-drift") && !Text.Blank(r.reason)
    && (r.scope == "rule" || ((r.scope == "pin" || r.scope == "subject") && !Text.Blank(r.subject)))
    && (r.expiresAt == "" || (stamp(r.expiresAt).Some? && now < stamp(r.expiresAt).value))
  }

  ghost predicate JudgedBy(stamp: Stamp, recs: seq<Adjudication>, now: int, package: string) {
    exists r :: r in recs && Reliable(stamp, r, now) && r.subject == package
  }

  /** When the package says it was installed, where it is observed at all. */
  ghost predicate InstalledBefore(input: Input, package: string, t: int) {
    exists o :: o in input.observed && o.name == package && o.installed.Some? && o.installed.value < t
  }

  /** Where the log began when the baseline was signed, if that was recorded. */
  function Window(stamp: Stamp, m: Manifest): Option<int> {
    if m.log.earliest != "" && stamp(m.log.earliest).Some? then stamp(m.log.earliest) else None
  }

  /** The log is gone, or begins later than the baseline recorded. */
  predicate CutShort(stamp: Stamp, input: Input) {
    var window := Window(stamp, input.baseline);
    window.Some? && (input.log.earliest.None? || window.value < input.log.earliest.value)
  }

  /** The log never reached what would explain the change: it was installed before the
      window the baseline recorded; or no window was recorded, and it was installed
      before the log begins, or the log is absent or begins after the baseline. A log
      that was cut short is no such excuse. */
  ghost predicate OutOfReach(stamp: Stamp, input: Input, package: string, created: int) {
    var window, began := Window(stamp, input.baseline), input.log.earliest;
    && !CutShort(stamp, input)
    && match window
       case Some(t) => InstalledBefore(input, package, t)
       case None => began.None? || began.value > created || InstalledBefore(input, package, began.value)
  }

  lemma ReliableExactly(stamp: Stamp, r: Adjudication, now: int)
    ensures Usable(stamp, r, now) <==> Reliable(stamp, r, now)
  {
    assert |"pin"| < |"rule"| < |"subject"|;
  }

  lemma LeavesExactly(c: Change, tx: Transaction, created: int)
    ensures Explains(c, tx, created) <==> LeavesIt(c, tx, created)
  {
  }

  lemma InstalledExactly(cx: Context, input: Input, package: string, t: int)
    requires FirstFault(input.observed) == None && cx.obs == ObservedMap(input.observed)
    ensures (InstalledAt(cx, package).Some? && InstalledAt(cx, package).value < t) <==> InstalledBefore(input, package, t)
  {
    LookedUp(input.observed, package);
    OnlyObserved(input.observed, package);
  }

  lemma OutOfReachExactly(stamp: Stamp, input: Input, c: Change, created: int, now: int)
    requires FirstFault(input.observed) == None
    ensures CouldNotCover(ContextOf(stamp, input, created, now), c) <==> OutOfReach(stamp, input, c.package, created)
    ensures Drift.Truncated(ContextOf(stamp, input, created, now)) <==> CutShort(stamp, input)
  {
    var cx := ContextOf(stamp, input, created, now);
    if cx.recorded.Some? {
      InstalledExactly(cx, input, c.package, cx.recorded.value);
    } else if cx.log.earliest.Some? {
      InstalledExactly(cx, input, c.package, cx.log.earliest.value);
    }
  }

  lemma JudgedByExactly(stamp: Stamp, recs: seq<Adjudication>, now: int, package: string)
    ensures package in Judgements(stamp, recs, now) <==> JudgedBy(stamp, recs, now, package)
  {
    JudgedExactly(stamp, recs, now, package);
    forall r ensures Usable(stamp, r, now) <==> Reliable(stamp, r, now) {
      ReliableExactly(stamp, r, now);
    }
  }

  ghost predicate Logged(input: Input, c: Change, created: int) {
    exists tx :: tx in input.log.transactions && LeavesIt(c, tx, created)
  }

  lemma LoggedExactly(input: Input, c: Change, created: int)
    ensures Corroboration(c, input.log.transactions, created).Some? <==> Logged(input, c, created)
  {
    CorroborationIsLatest(c, input.log.transactions, created);
    forall tx ensures Explains(c, tx, created) <==> LeavesIt(c, tx, created) {
      LeavesExactly(c, tx, created);
    }
  }

  /** How every reported change is rated, and that only one nothing accounts for is
      critical: some transaction leaves it in place; else its package was judged; else
      it was out of the log's reach; else it is unexplained. */
  lemma RatedExactly(stamp: Stamp, input: Input, r: Report, item: Item)
    requires InputFault(stamp, input).None? && Describes(stamp, input, r) && item in r.items
    ensures var created, now := stamp(input.baseline.createdAt).value, input.now.value;
      var c := item.change;
      && item.bucket == (if Logged(input, c, created) then Corroborated
                         else if JudgedBy(stamp, input.adjudications, now, c.package) then Adjudicated
                         else if OutOfReach(stamp, input, c.package, created) then LogCoverageGap
                         else Unexplained)
      && item.severity == (if item.bucket == Unexplained then Critical else Info)
  {
    var created, now := stamp(input.baseline.createdAt).value, input.now.value;
    var cx := ContextOf(stamp, input, created, now);
    var k :| 0 <= k < |r.items| && r.items[k] == item;
    assert item == Classify(cx, SortedChanges(input)[k]);
    LoggedExactly(input, item.change, created);
    JudgedByExactly(stamp, input.adjudications, now, item.change.package);
    OutOfReachExactly(stamp, input, item.change, created, now);
  }

  /** What a rating rests on: the latest transaction that leaves the change in place; the
      last reliable record of its package; or the log's silence, and whether the log was
      cut short. */
  lemma RestsOn(stamp: Stamp, input: Input, r: Report, item: Item)
    requires InputFault(stamp, input).None? && Describes(stamp, input, r) && item in r.items
    ensures var created, now := stamp(input.baseline.createdAt).value, input.now.value;
      match item.bucket
      case Corroborated =>
        && item.evidence.Logged? && item.evidence.tx in input.log.transactions && LeavesIt(item.change, item.evidence.tx, created)
        && forall tx :: tx in input.log.transactions && LeavesIt(item.change, tx, created) ==> tx.time <= item.evidence.tx.time
      case Adjudicated =>
        item.evidence.Judged? && item.evidence.rec in input.adjudications
        && Reliable(stamp, item.evidence.rec, now) && item.evidence.rec.subject == item.change.package
      case LogCoverageGap => item.evidence == NotCovered
      case Unexplained => item.evidence == Silent(CutShort(stamp, input))
  {
    var created, now := stamp(input.baseline.createdAt).value, input.now.value;
    var cx := ContextOf(stamp, input, created, now);
    var c := item.change;
    var k :| 0 <= k < |r.items| && r.items[k] == item;
    assert item == Classify(cx, SortedChanges(input)[k]);
    LatestLeaves(input, c, created);
    LastJudgement(stamp, input.adjudications, now, c.package);
    OutOfReachExactly(stamp, input, c, created, now);
  }

  lemma LatestLeaves(input: Input, c: Change, created: int)
    ensures var best := Corroboration(c, input.log.transactions, created);
      best.Some? ==>
        && best.value in input.log.transactions && LeavesIt(c, best.value, created)
        && forall tx :: tx in input.log.transactions && LeavesIt(c, tx, created) ==> tx.time <= best.value.time
  {
    CorroborationIsLatest(c, input.log.transactions, created);
    forall tx ensures Explains(c, tx, created) <==> LeavesIt(c, tx, created) {
      LeavesExactly(c, tx, created);
    }
  }

  lemma LastJudgement(stamp: Stamp, recs: seq<Adjudication>, now: int, package: string)
    ensures package in Judgements(stamp, recs, now) ==>
      var rec := Judgements(stamp, recs, now)[package]; rec in recs && Reliable(stamp, rec, now) && rec.subject == package
  {
    JudgedExactly(stamp, recs, now, package);
    if package in Judgements(stamp, recs, now) {
      var k :| 0 <= k < |recs| && IsLast(stamp, recs, now, package, k);
      ReliableExactly(stamp, recs[k], now);
    }
  }

  // -- the rest of the report -----------------------------------------------

  /** Every change but a corroborated one is a finding, of its package, severity and
      bucket. */
  lemma FindingsExactly(stamp: Stamp, input: Input, r: Report, f: DriftFinding)
    requires InputFault(stamp, input).None? && Describes(stamp, input, r)
    ensures f in r.findings <==>
      exists item :: item in r.items && item.bucket != Corroborated
                     && f == DriftFinding(item.change.package, item.severity, item.bucket)
  {
    FindingsAreItems(r.items, f);
    if f in r.findings {
      var k :| 0 <= k < |r.items| && r.items[k].bucket != Corroborated
               && f == DriftFinding(r.items[k].change.package, r.items[k].severity, r.items[k].bucket);
      assert r.items[k] in r.items;
    }
  }

  lemma {:induction false} UnusableExactly(stamp: Stamp, recs: seq<Adjudication>, now: int, n: nat)
    ensures UnusableAdjudication(n) in UnusableGaps(stamp, recs, now) <==> n < |recs| && !Reliable(stamp, recs[n], now)
    decreases |recs|
  {
    if recs == [] {
    } else {
      UnusableExactly(stamp, recs[..|recs| - 1], now, n);
      ReliableExactly(stamp, recs[|recs| - 1], now);
    }
  }

  /** A gap for each record that is not reliable, and the two flags: whether the log was
      cut short, and whether it reaches back to the baseline. */
  lemma GapsAndFlags(stamp: Stamp, input: Input, r: Report, n: nat)
    requires InputFault(stamp, input).None? && Describes(stamp, input, r)
    ensures UnusableAdjudication(n) in r.gaps <==>
      n < |input.adjudications| && !Reliable(stamp, input.adjudications[n], input.now.value)
    ensures r.truncated <==> CutShort(stamp, input)
    ensures r.windowCovered <==> input.log.earliest.Some? && input.log.earliest.value <= stamp(input.baseline.createdAt).value
  {
    UnreadOfFates(Fates(input.baseline.packages, input.observed));
    UnusableExactly(stamp, input.adjudications, input.now.value, n);
    OnlyUnusable(UnreadOf(Fates(input.baseline.packages, input.observed)),
                 UnusableGaps(stamp, input.adjudications, input.now.value), CountIn(r.items, LogCoverageGap), input.log.bounded, n);
  }

  lemma OnlyUnusable(unread: seq<DriftGap>, unusable: seq<DriftGap>, shortfall: nat, bounded: bool, n: nat)
    requires forall g :: g in unread ==> g.UnreadMtree?
    ensures UnusableAdjudication(n) in GapsOf(unread, unusable, shortfall, bounded) <==> UnusableAdjudication(n) in unusable
  {
    var tail := (if shortfall > 0 then [Shortfall(shortfall)] else []) + if bounded then [BoundedLog] else [];
    assert GapsOf(unread, unusable, shortfall, bounded) == unread + unusable + tail;
  }

  // -- what can be classified, and in what order ----------------------------

  /** An input can be classified exactly when the clock and the baseline's own date can
      be read, the baseline is of this schema, and every observed package has a name of
      its own and a digest or a reason for having none. */
  lemma ClassifiableExactly(stamp: Stamp, input: Input)
    ensures InputFault(stamp, input).None? <==>
      && input.now.Some? && stamp(input.baseline.createdAt).Some? && input.baseline.schema == 1
      && (forall o :: o in input.observed ==> o.name != "" && (o.mtree != "" || o.unread != ""))
      && (forall i, j :: 0 <= i < j < |input.observed| ==> input.observed[i].name != input.observed[j].name)
  {
    ObservedExactly(input.observed);
  }

  lemma {:induction false} ObservedExactly(observed: seq<Observed>)
    ensures FirstFault(observed) == None <==>
      && (forall o :: o in observed ==> o.name != "" && (o.mtree != "" || o.unread != ""))
      && (forall i, j :: 0 <= i < j < |observed| ==> observed[i].name != observed[j].name)
    decreases |observed|
  {
    if observed == [] {
    } else {
      var init, last := observed[..|observed| - 1], observed[|observed| - 1];
      ObservedExactly(init);
      assert observed == init + [last];
      assert forall o :: o in observed <==> o in init || o == last;
      if FirstFault(init) == None {
        ObservedMapIs(init);
        NewNameExactly(init, last);
      }
    }
  }

  lemma NewNameExactly(init: seq<Observed>, last: Observed)
    requires FirstFault(init) == None
    ensures last.name in ObservedMap(init) <==> exists j :: 0 <= j < |init| && init[j].name == last.name
  {
    ObservedMapIs(init);
  }

  /** Items come in the order of their packages' names, by their bytes. */
  lemma ItemsAscend(stamp: Stamp, input: Input, r: Report, i: nat, k: nat)
    requires InputFault(stamp, input).None? && Describes(stamp, input, r) && UniqueNames(input.baseline.packages)
    requires i < k < |r.items|
    ensures Order.Before(r.items[i].change.package, r.items[k].change.package)
  {
    ChangesAscend(input, i, k);
  }

  lemma ChangesAscend(input: Input, i: nat, k: nat)
    requires FirstFault(input.observed) == None && UniqueNames(input.baseline.packages) && i < k < |SortedChanges(input)|
    ensures Order.Before(SortedChanges(input)[i].package, SortedChanges(input)[k].package)
  {
    var changes := ChangesOf(Fates(input.baseline.packages, input.observed));
    ChangesAreDue(input);
    ChangeLeqOrders(changes);
    Order.SortSorts(ChangeLeq, changes);
    SortedApart(Order.Sort(ChangeLeq, changes), i, k);
  }

  lemma SortedApart(sorted: seq<Change>, i: nat, k: nat)
    requires Order.Sorted(ChangeLeq, sorted) && Order.DistinctBy((c: Change) => c.package, sorted) && i < k < |sorted|
    ensures Order.Before(sorted[i].package, sorted[k].package)
  {
    var package := (c: Change) => c.package;
    assert package(sorted[i]) != package(sorted[k]) && ChangeLeq(sorted[i], sorted[k]);
    Order.LessExactly(sorted[i].package, sorted[k].package);
  }

  lemma ChangeLeqOrders(changes: seq<Change>)
    ensures Order.TotalOn(ChangeLeq, changes)
  {
    forall a, b ensures ChangeLeq(a, b) || ChangeLeq(b, a) {
      Order.LeqTotal(a.package, b.package);
      Order.LeqTotal(KindName(a.kind), KindName(b.kind));
    }
    forall a, b, c | ChangeLeq(a, b) && ChangeLeq(b, c) ensures ChangeLeq(a, c) {
      ChangeLeqTransitive(a, b, c);
    }
  }

  lemma ChangeLeqTransitive(a: Change, b: Change, c: Change)
    requires ChangeLeq(a, b) && ChangeLeq(b, c)
    ensures ChangeLeq(a, c)
  {
    Order.LeqTotal(a.package, a.package);
    Order.LeqTotal(b.package, b.package);
    Order.LeqTransitive(a.package, b.package, c.package);
    if a.package == c.package {
      Order.LeqAntisymmetric(a.package, b.package);
      Order.LeqTransitive(KindName(a.kind), KindName(b.kind), KindName(c.kind));
    }
  }
}
