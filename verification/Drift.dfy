/** What changed since the signed baseline, and which of four buckets each change
    belongs in. */
module Drift {
  import opened Times
  import opened Wrappers
  import opened Findings
  import Manifests
  import Text
  import Order

  const DRIFT_RULE := "baseline-drift"

  // -- input ----------------------------------------------------------------

  type Package = Manifests.Package

  /** The verified baseline is the manifest that was signed. */
  type Manifest = Manifests.Manifest

  datatype Observed = Observed(name: string, version: string, mtree: string, unread: string, installed: Option<int>)

  datatype Transaction = Transaction(time: int, op: string, pkg: string, version: string)

  datatype Log = Log(earliest: Option<int>, latest: Option<int>, bounded: bool, transactions: seq<Transaction>)

  datatype Adjudication = Adjudication(ruleId: string, subject: string, scope: string, reason: string, expiresAt: string)

  datatype Input = Input(baseline: Manifest, observed: seq<Observed>, log: Log, adjudications: seq<Adjudication>,
                         now: Option<int>)

  // -- output ---------------------------------------------------------------

  datatype Kind = Added | Removed | VersionChanged | MtreeChanged

  datatype Change = Change(kind: Kind, package: string, was: string, became: string, version: string)

  datatype Bucket = Corroborated | Adjudicated | Unexplained | LogCoverageGap

  datatype Evidence = Logged(tx: Transaction) | Judged(rec: Adjudication) | NotCovered | Silent(truncated: bool)

  datatype Item = Item(change: Change, bucket: Bucket, severity: Severity, evidence: Evidence)

  datatype DriftFinding = DriftFinding(subject: string, severity: Severity, bucket: Bucket)

  datatype DriftGap = UnreadMtree(name: string) | UnusableAdjudication(index: nat) | Shortfall(count: nat) | BoundedLog

  datatype Report = Report(items: seq<Item>, counts: map<Bucket, nat>, findings: seq<DriftFinding>, gaps: seq<DriftGap>,
                           truncated: bool, windowCovered: bool)

  datatype Fault = NoClock | BadCreated | BadSchema | Unnamed | ObservedTwice | NoDigest

  // -- comparing the two sides ----------------------------------------------

  /** What comparing one package comes to. */
  datatype Fate = Changed(change: Change) | Unexamined(name: string) | Unchanged(name: string) | Skipped

  function ObservedMap(observed: seq<Observed>): map<string, Observed>
    decreases |observed|
  {
    if observed == [] then map[]
    else
      var last := observed[|observed| - 1];
      ObservedMap(observed[..|observed| - 1])[last.name := last]
  }

  function ObservedFault(p: Observed, before: map<string, Observed>): Option<Fault> {
    if p.name == "" then Some(Unnamed)
    else if p.name in before then Some(ObservedTwice)
    else if p.mtree == "" && p.unread == "" then Some(NoDigest)
    else None
  }

  /** The first thing wrong with what was observed. */
  function FirstFault(observed: seq<Observed>): Option<Fault>
    decreases |observed|
  {
    if observed == [] then None
    else
      var init := observed[..|observed| - 1];
      if FirstFault(init).Some? then FirstFault(init) else ObservedFault(observed[|observed| - 1], ObservedMap(init))
  }

  function BaselineFate(obs: map<string, Observed>, p: Package): Fate {
    if p.name !in obs then Changed(Change(Removed, p.name, p.version, "", p.version))
    else
      var cur := obs[p.name];
      if cur.unread != "" then Unexamined(p.name)
      else if cur.version != p.version then
        Changed(Change(VersionChanged, p.name, p.version, cur.version, cur.version))
      else if p.mtree != "" && cur.mtree != p.mtree then
        Changed(Change(MtreeChanged, p.name, p.mtree, cur.mtree, cur.version))
      else Unchanged(p.name)
  }

  function ObservedFate(names: set<string>, p: Observed): Fate {
    if p.name in names then Skipped
    else if p.unread != "" then Unexamined(p.name)
    else Changed(Change(Added, p.name, "", p.version, p.version))
  }

  function NamesOf(packages: seq<Package>): set<string> {
    set i | 0 <= i < |packages| :: packages[i].name
  }

  function BaselineFates(obs: map<string, Observed>, packages: seq<Package>): seq<Fate> {
    seq(|packages|, i requires 0 <= i < |packages| => BaselineFate(obs, packages[i]))
  }

  function ObservedFates(names: set<string>, observed: seq<Observed>): seq<Fate> {
    seq(|observed|, i requires 0 <= i < |observed| => ObservedFate(names, observed[i]))
  }

  /** The fate of every package of the baseline, then of every observed one it does
      not list. */
  function Fates(packages: seq<Package>, observed: seq<Observed>): (fates: seq<Fate>)
    ensures |fates| == |packages| + |observed|
  {
    BaselineFates(ObservedMap(observed), packages) + ObservedFates(NamesOf(packages), observed)
  }

  function ChangesOf(fates: seq<Fate>): seq<Change>
    decreases |fates|
  {
    if fates == [] then []
    else
      var last := fates[|fates| - 1];
      ChangesOf(fates[..|fates| - 1]) + if last.Changed? then [last.change] else []
  }

  function UnreadOf(fates: seq<Fate>): seq<DriftGap>
    decreases |fates|
  {
    if fates == [] then []
    else
      var last := fates[|fates| - 1];
      UnreadOf(fates[..|fates| - 1]) + if last.Unexamined? then [UnreadMtree(last.name)] else []
  }

  function KindName(k: Kind): string {
    match k
    case Added => "added"
    case Removed => "removed"
    case VersionChanged => "version"
    case MtreeChanged => "mtree"
  }

  /** By package, and within one by kind: the order items are reported in. */
  predicate ChangeLeq(a: Change, b: Change) {
    if a.package != b.package then Order.Leq(a.package, b.package) else Order.Leq(KindName(a.kind), KindName(b.kind))
  }

  function SortedChanges(input: Input): seq<Change> {
    Order.Sort(ChangeLeq, ChangesOf(Fates(input.baseline.packages, input.observed)))
  }

  // -- corroboration --------------------------------------------------------

  predicate OpExplains(kind: Kind, op: string) {
    match kind
    case Added => op == "installed" || op == "reinstalled" || op == "upgraded"
    case Removed => op == "removed"
    case VersionChanged => op == "upgraded" || op == "downgraded" || op == "installed" || op == "reinstalled"
    case MtreeChanged => op == "reinstalled" || op == "upgraded" || op == "downgraded" || op == "installed"
  }

  /** A transaction of the right shape: this package, not before the baseline, and
      leaving the version that is there. */
  predicate Explains(c: Change, tx: Transaction, created: int) {
    && tx.pkg == c.package && tx.time >= created && OpExplains(c.kind, tx.op)
    && (match c.kind
        case Removed => true
        case MtreeChanged => tx.version == "" || c.version == "" || tx.version == c.version
        case _ => tx.version == "" || tx.version == c.became)
  }

  /** The latest transaction that explains the change, the first of those at once. */
  function Corroboration(c: Change, txs: seq<Transaction>, created: int): Option<Transaction>
    decreases |txs|
  {
    if txs == [] then None
    else
      var best, tx := Corroboration(c, txs[..|txs| - 1], created), txs[|txs| - 1];
      if Explains(c, tx, created) && (best.None? || tx.time > best.value.time) then Some(tx) else best
  }

  lemma {:induction false} CorroborationIsLatest(c: Change, txs: seq<Transaction>, created: int)
    ensures Corroboration(c, txs, created).Some? <==> exists tx :: tx in txs && Explains(c, tx, created)
    ensures Corroboration(c, txs, created).Some? ==>
      var best := Corroboration(c, txs, created).value;
      && best in txs && Explains(c, best, created)
      && forall tx :: tx in txs && Explains(c, tx, created) ==> tx.time <= best.time
    decreases |txs|
  {
    if txs == [] {
    } else {
      var init, last := txs[..|txs| - 1], txs[|txs| - 1];
      CorroborationIsLatest(c, init, created);
      assert txs == init + [last];
      assert forall tx :: tx in txs <==> tx in init || tx == last;
    }
  }

  // -- adjudications --------------------------------------------------------

  predicate LapsedAt(stamp: Stamp, expiresAt: string, now: int) {
    match stamp(expiresAt) case None => true case Some(t) => now >= t
  }

  /** A record that may be relied on: for this rule, with a reason, a scope, a
      subject unless it is rule-wide, and no expiry that has passed. */
  predicate Usable(stamp: Stamp, r: Adjudication, now: int) {
    && (r.ruleId == "" || r.ruleId == DRIFT_RULE)
    && !Text.Blank(r.reason)
    && (r.scope == "pin" || r.scope == "subject" || r.scope == "rule")
    && (r.scope == "rule" || !Text.Blank(r.subject))
    && (r.expiresAt == "" || !LapsedAt(stamp, r.expiresAt, now))
  }

  /** Usable records by subject; of two for one subject the later stands. */
  function Judgements(stamp: Stamp, recs: seq<Adjudication>, now: int): map<string, Adjudication>
    decreases |recs|
  {
    if recs == [] then map[]
    else
      var before, last := Judgements(stamp, recs[..|recs| - 1], now), recs[|recs| - 1];
      if Usable(stamp, last, now) then before[last.subject := last] else before
  }

  function UnusableGaps(stamp: Stamp, recs: seq<Adjudication>, now: int): seq<DriftGap>
    decreases |recs|
  {
    if recs == [] then []
    else
      UnusableGaps(stamp, recs[..|recs| - 1], now)
      + if Usable(stamp, recs[|recs| - 1], now) then [] else [UnusableAdjudication(|recs| - 1)]
  }

  // -- classification -------------------------------------------------------

  /** Everything one change is judged by. */
  datatype Context = Context(obs: map<string, Observed>, log: Log, created: int, recorded: Option<int>,
                             judgements: map<string, Adjudication>)

  function Recorded(stamp: Stamp, m: Manifest): Option<int> {
    if m.log.earliest == "" then None else stamp(m.log.earliest)
  }

  /** The log begins later than the signed baseline saw it begin, or is gone. */
  predicate Truncated(cx: Context) {
    cx.recorded.Some? && (cx.log.earliest.None? || cx.log.earliest.value > cx.recorded.value)
  }

  predicate WindowCovered(cx: Context) {
    cx.log.earliest.Some? && cx.log.earliest.value <= cx.created
  }

  function InstalledAt(cx: Context, package: string): Option<int> {
    if package in cx.obs then cx.obs[package].installed else None
  }

  /** The log could not have covered the instant that would explain the change. */
  predicate CouldNotCover(cx: Context, c: Change) {
    var at := InstalledAt(cx, c.package);
    && !Truncated(cx)
    && (|| (at.Some? && cx.recorded.Some? && at.value < cx.recorded.value)
        || (at.Some? && cx.recorded.None? && cx.log.earliest.Some? && at.value < cx.log.earliest.value)
        || (cx.recorded.None? && (cx.log.earliest.None? || cx.log.earliest.value > cx.created)))
  }

  function Classify(cx: Context, c: Change): Item {
    var tx := Corroboration(c, cx.log.transactions, cx.created);
    if tx.Some? then Item(c, Corroborated, Info, Logged(tx.value))
    else if c.package in cx.judgements then Item(c, Adjudicated, Info, Judged(cx.judgements[c.package]))
    else if CouldNotCover(cx, c) then Item(c, LogCoverageGap, Info, NotCovered)
    else Item(c, Unexplained, Critical, Silent(Truncated(cx)))
  }

  function ItemsOf(cx: Context, changes: seq<Change>): (items: seq<Item>)
    ensures |items| == |changes|
    ensures forall k :: 0 <= k < |items| ==> items[k] == Classify(cx, changes[k])
  {
    seq(|changes|, k requires 0 <= k < |changes| => Classify(cx, changes[k]))
  }

  function FindingsOf(items: seq<Item>): seq<DriftFinding>
    decreases |items|
  {
    if items == [] then []
    else
      var last := items[|items| - 1];
      FindingsOf(items[..|items| - 1])
      + if last.bucket == Corroborated then [] else [DriftFinding(last.change.package, last.severity, last.bucket)]
  }

  function CountIn(items: seq<Item>, b: Bucket): nat
    decreases |items|
  {
    if items == [] then 0
    else CountIn(items[..|items| - 1], b) + if items[|items| - 1].bucket == b then 1 else 0
  }

  function Counted(counts: map<Bucket, nat>, b: Bucket): nat {
    if b in counts then counts[b] else 0
  }

  function GapsOf(unread: seq<DriftGap>, unusable: seq<DriftGap>, shortfall: nat, bounded: bool): seq<DriftGap> {
    unread + unusable + (if shortfall > 0 then [Shortfall(shortfall)] else []) + if bounded then [BoundedLog] else []
  }

  function ContextOf(stamp: Stamp, input: Input, created: int, now: int): Context {
    Context(ObservedMap(input.observed), input.log, created, Recorded(stamp, input.baseline),
            Judgements(stamp, input.adjudications, now))
  }

  /** What makes the input unclassifiable, in the order it is looked for. */
  function InputFault(stamp: Stamp, input: Input): Option<Fault> {
    if input.now.None? then Some(NoClock)
    else if stamp(input.baseline.createdAt).None? then Some(BadCreated)
    else if input.baseline.schema != Manifests.MANIFEST_SCHEMA then Some(BadSchema)
    else FirstFault(input.observed)
  }

  function ItemsFor(stamp: Stamp, input: Input): seq<Item>
    requires InputFault(stamp, input).None?
  {
    ItemsOf(ContextOf(stamp, input, stamp(input.baseline.createdAt).value, input.now.value), SortedChanges(input))
  }

  /** The whole report, as a relation between what went in and what came out. */
  ghost predicate Describes(stamp: Stamp, input: Input, r: Report)
    requires InputFault(stamp, input).None?
  {
    var cx := ContextOf(stamp, input, stamp(input.baseline.createdAt).value, input.now.value);
    && r.items == ItemsFor(stamp, input)
    && r.findings == FindingsOf(r.items)
    && (forall b :: Counted(r.counts, b) == CountIn(r.items, b))
    && r.gaps == GapsOf(UnreadOf(Fates(input.baseline.packages, input.observed)),
                        UnusableGaps(stamp, input.adjudications, input.now.value),
                        CountIn(r.items, LogCoverageGap), input.log.bounded)
    && r.truncated == Truncated(cx)
    && r.windowCovered == WindowCovered(cx)
  }

  // -- the classifier, as it runs -------------------------------------------

  method Corroborate(c: Change, txs: seq<Transaction>, created: int) returns (best: Option<Transaction>)
    ensures best == Corroboration(c, txs, created)
  {
    best := None;
    for i := 0 to |txs|
      invariant best == Corroboration(c, txs[..i], created)
    {
      assert txs[..i + 1][..i] == txs[..i];
      var tx := txs[i];
      if Explains(c, tx, created) && (best.None? || tx.time > best.value.time) {
        best := Some(tx);
      }
    }
    assert txs[..|txs|] == txs;
  }

  method IndexAdjudications(stamp: Stamp, recs: seq<Adjudication>, now: int)
    returns (out: map<string, Adjudication>, gaps: seq<DriftGap>)
    ensures out == Judgements(stamp, recs, now)
    ensures gaps == UnusableGaps(stamp, recs, now)
  {
    out, gaps := map[], [];
    for i := 0 to |recs|
      invariant out == Judgements(stamp, recs[..i], now)
      invariant gaps == UnusableGaps(stamp, recs[..i], now)
    {
      assert recs[..i + 1][..i] == recs[..i];
      var r := recs[i];
      if r.ruleId != "" && r.ruleId != DRIFT_RULE {
        gaps := gaps + [UnusableAdjudication(i)];
      } else if Text.Blank(r.reason) {
        gaps := gaps + [UnusableAdjudication(i)];
      } else if r.scope != "pin" && r.scope != "subject" && r.scope != "rule" {
        gaps := gaps + [UnusableAdjudication(i)];
      } else if r.scope != "rule" && Text.Blank(r.subject) {
        gaps := gaps + [UnusableAdjudication(i)];
      } else if r.expiresAt == "" || !LapsedAt(stamp, r.expiresAt, now) {
        out := out[r.subject := r];
      } else {
        gaps := gaps + [UnusableAdjudication(i)];
      }
    }
    assert recs[..|recs|] == recs;
  }

  method IndexObserved(observed: seq<Observed>) returns (r: Result<map<string, Observed>, Fault>)
    ensures r == (match FirstFault(observed) case Some(f) => Err(f) case None => Ok(ObservedMap(observed)))
  {
    var obs: map<string, Observed> := map[];
    for i := 0 to |observed|
      invariant obs == ObservedMap(observed[..i]) && FirstFault(observed[..i]) == None
    {
      assert observed[..i + 1][..i] == observed[..i];
      var fault := ObservedFault(observed[i], obs);
      if fault.Some? {
        FaultsStay(observed, i + 1);
        return Err(fault.value);
      }
      obs := obs[observed[i].name := observed[i]];
    }
    assert observed[..|observed|] == observed;
    return Ok(obs);
  }

  lemma {:induction false} FaultsStay(observed: seq<Observed>, n: nat)
    requires n <= |observed| && FirstFault(observed[..n]).Some?
    ensures FirstFault(observed) == FirstFault(observed[..n])
    decreases |observed|
  {
    if n == |observed| {
      assert observed[..n] == observed;
    } else {
      assert observed[..|observed| - 1][..n] == observed[..n];
      FaultsStay(observed[..|observed| - 1], n);
    }
  }

  /** The change or the gap a list of fates gains with its next one. */
  lemma FatesSnoc(fates: seq<Fate>, k: nat)
    requires k < |fates|
    ensures ChangesOf(fates[..k + 1]) == ChangesOf(fates[..k]) + if fates[k].Changed? then [fates[k].change] else []
    ensures UnreadOf(fates[..k + 1]) == UnreadOf(fates[..k]) + if fates[k].Unexamined? then [UnreadMtree(fates[k].name)] else []
  {
    assert fates[..k + 1][..k] == fates[..k];
  }

  lemma {:induction false} FatesConcat(a: seq<Fate>, b: seq<Fate>)
    ensures ChangesOf(a + b) == ChangesOf(a) + ChangesOf(b) && UnreadOf(a + b) == UnreadOf(a) + UnreadOf(b)
    decreases |b|
  {
    if b == [] {
      assert a + b == a;
    } else {
      assert (a + b)[..|a + b| - 1] == a + b[..|b| - 1];
      FatesConcat(a, b[..|b| - 1]);
    }
  }

  method CompareBaseline(packages: seq<Package>, obs: map<string, Observed>)
    returns (changes: seq<Change>, gaps: seq<DriftGap>, names: set<string>)
    ensures var fates := BaselineFates(obs, packages); changes == ChangesOf(fates) && gaps == UnreadOf(fates)
    ensures names == NamesOf(packages)
  {
    changes, gaps, names := [], [], {};
    ghost var fates := BaselineFates(obs, packages);
    for i := 0 to |packages|
      invariant changes == ChangesOf(fates[..i]) && gaps == UnreadOf(fates[..i])
      invariant names == NamesOf(packages[..i])
    {
      FatesSnoc(fates, i);
      NamesSnoc(packages, i);
      var base := packages[i];
      names := names + {base.name};
      if base.name !in obs {
        changes := changes + [Change(Removed, base.name, base.version, "", base.version)];
      } else {
        var cur := obs[base.name];
        if cur.unread != "" {
          gaps := gaps + [UnreadMtree(base.name)];
        } else if cur.version != base.version {
          changes := changes + [Change(VersionChanged, base.name, base.version, cur.version, cur.version)];
        } else if base.mtree != "" && cur.mtree != base.mtree {
          changes := changes + [Change(MtreeChanged, base.name, base.mtree, cur.mtree, cur.version)];
        }
      }
    }
    assert packages[..|packages|] == packages && fates[..|packages|] == fates;
  }

  method CompareObserved(names: set<string>, observed: seq<Observed>) returns (changes: seq<Change>, gaps: seq<DriftGap>)
    ensures var fates := ObservedFates(names, observed); changes == ChangesOf(fates) && gaps == UnreadOf(fates)
  {
    changes, gaps := [], [];
    ghost var fates := ObservedFates(names, observed);
    for j := 0 to |observed|
      invariant changes == ChangesOf(fates[..j]) && gaps == UnreadOf(fates[..j])
    {
      FatesSnoc(fates, j);
      var p := observed[j];
      if p.name in names {
        continue;
      }
      if p.unread != "" {
        gaps := gaps + [UnreadMtree(p.name)];
      } else {
        changes := changes + [Change(Added, p.name, "", p.version, p.version)];
      }
    }
    assert fates[..|observed|] == fates;
  }

  lemma NamesSnoc(packages: seq<Package>, i: nat)
    requires i < |packages|
    ensures NamesOf(packages[..i + 1]) == NamesOf(packages[..i]) + {packages[i].name}
  {
    var all, some := NamesOf(packages[..i + 1]), NamesOf(packages[..i]);
    forall n | n in some ensures n in all {
      var j :| 0 <= j < i && packages[..i][j].name == n;
      assert packages[..i + 1][j].name == n;
    }
    assert packages[..i + 1][i].name == packages[i].name;
    forall n | n in all ensures n in some || n == packages[i].name {
      var j :| 0 <= j < i + 1 && packages[..i + 1][j].name == n;
      if j < i {
        assert packages[..i][j].name == n;
      }
    }
  }

  method Compare(input: Input, obs: map<string, Observed>) returns (changes: seq<Change>, unread: seq<DriftGap>)
    requires obs == ObservedMap(input.observed)
    ensures changes == SortedChanges(input)
    ensures unread == UnreadOf(Fates(input.baseline.packages, input.observed))
  {
    var names, added, unreadAdded;
    changes, unread, names := CompareBaseline(input.baseline.packages, obs);
    added, unreadAdded := CompareObserved(names, input.observed);
    FatesConcat(BaselineFates(obs, input.baseline.packages), ObservedFates(names, input.observed));
    unread := unread + unreadAdded;
    changes := Order.Sort(ChangeLeq, changes + added);
  }

  lemma ItemsSnoc(items: seq<Item>, item: Item)
    ensures FindingsOf(items + [item])
         == FindingsOf(items) + if item.bucket == Corroborated then [] else [DriftFinding(item.change.package, item.severity, item.bucket)]
    ensures forall b :: CountIn(items + [item], b) == CountIn(items, b) + if item.bucket == b then 1 else 0
  {
    assert (items + [item])[..|items|] == items;
  }

  method ClassifyAll(cx: Context, changes: seq<Change>)
    returns (items: seq<Item>, counts: map<Bucket, nat>, findings: seq<DriftFinding>, shortfall: nat)
    ensures items == ItemsOf(cx, changes) && findings == FindingsOf(items)
    ensures forall b :: Counted(counts, b) == CountIn(items, b)
    ensures shortfall == CountIn(items, LogCoverageGap)
  {
    items, counts, findings, shortfall := [], map[], [], 0;
    for i := 0 to |changes|
      invariant |items| == i && forall k :: 0 <= k < i ==> items[k] == Classify(cx, changes[k])
      invariant findings == FindingsOf(items)
      invariant forall b :: Counted(counts, b) == CountIn(items, b)
      invariant shortfall == CountIn(items, LogCoverageGap)
    {
      var item := ClassifyOne(cx, changes[i]);
      ItemsSnoc(items, item);
      if item.bucket == LogCoverageGap {
        shortfall := shortfall + 1;
      }
      counts := counts[item.bucket := Counted(counts, item.bucket) + 1];
      items := items + [item];
      if item.bucket != Corroborated {
        findings := findings + [DriftFinding(item.change.package, item.severity, item.bucket)];
      }
    }
  }

  method ClassifyOne(cx: Context, c: Change) returns (item: Item)
    ensures item == Classify(cx, c)
  {
    var tx := Corroborate(c, cx.log.transactions, cx.created);
    if tx.Some? {
      return Item(c, Corroborated, Info, Logged(tx.value));
    }
    if c.package in cx.judgements {
      return Item(c, Adjudicated, Info, Judged(cx.judgements[c.package]));
    }
    if CouldNotCover(cx, c) {
      return Item(c, LogCoverageGap, Info, NotCovered);
    }
    return Item(c, Unexplained, Critical, Silent(Truncated(cx)));
  }

  method Drift(stamp: Stamp, input: Input) returns (r: Result<Report, Fault>)
    ensures match InputFault(stamp, input)
      case Some(f) => r == Err(f)
      case None => r.Ok? && Describes(stamp, input, r.value)
  {
    if input.now.None? {
      return Err(NoClock);
    }
    var created := stamp(input.baseline.createdAt);
    if created.None? {
      return Err(BadCreated);
    }
    if input.baseline.schema != Manifests.MANIFEST_SCHEMA {
      return Err(BadSchema);
    }
    var obs := IndexObserved(input.observed);
    if obs.Err? {
      return Err(obs.error);
    }
    var recorded := Recorded(stamp, input.baseline);
    var changes, unread := Compare(input, obs.value);
    var judgements, unusable := IndexAdjudications(stamp, input.adjudications, input.now.value);
    var cx := Context(obs.value, input.log, created.value, recorded, judgements);
    var items, counts, findings, shortfall := ClassifyAll(cx, changes);
    var gaps := unread + unusable;
    if shortfall > 0 {
      gaps := gaps + [Shortfall(shortfall)];
    }
    if input.log.bounded {
      gaps := gaps + [BoundedLog];
    }
    return Ok(Report(items, counts, findings, gaps, Truncated(cx), WindowCovered(cx)));
  }
}
