/** What a drift report means: every package is accounted for exactly once, and
    deleting log does not make anything look better. */
module DriftLaws {
  import opened Times
  import opened Wrappers
  import opened Findings
  import Manifests
  import opened Drift
  import Order

  // -- a complete partition -------------------------------------------------

  function FindPackage(packages: seq<Package>, n: string): Option<Package> {
    if packages == [] then None
    else if packages[0].name == n then Some(packages[0])
    else FindPackage(packages[1..], n)
  }

  function FindObserved(observed: seq<Observed>, n: string): Option<Observed> {
    if observed == [] then None
    else if observed[0].name == n then Some(observed[0])
    else FindObserved(observed[1..], n)
  }

  /** What is owed about one name, from what the two sides say about it alone. */
  function Due(n: string, base: Option<Package>, cur: Option<Observed>): Fate {
    if cur.Some? && cur.value.unread != "" then Unexamined(n)
    else
      match (base, cur)
      case (None, None) => Skipped
      case (Some(b), None) => Changed(Change(Removed, n, b.version, "", b.version))
      case (None, Some(c)) => Changed(Change(Added, n, "", c.version, c.version))
      case (Some(b), Some(c)) =>
        if c.version != b.version then Changed(Change(VersionChanged, n, b.version, c.version, c.version))
        else if b.mtree != "" && c.mtree != b.mtree then Changed(Change(MtreeChanged, n, b.mtree, c.mtree, c.version))
        else Unchanged(n)
  }

  function DueOn(input: Input, n: string): Fate {
    Due(n, FindPackage(input.baseline.packages, n), FindObserved(input.observed, n))
  }

  function NameOf(f: Fate): string
    requires !f.Skipped?
  {
    match f case Changed(c) => c.package case Unexamined(n) => n case Unchanged(n) => n
  }

  ghost predicate UniqueNames(packages: seq<Package>) {
    Order.DistinctBy((p: Package) => p.name, packages)
  }

  /** The names of a manifest that was built are unique. */
  lemma BuiltNamesAreUnique(w: Manifests.World, input: Manifests.Input, m: Manifest)
    requires Manifests.Admissible(w, input) && Manifests.Builds(input, m)
    ensures UniqueNames(m.packages)
  {
    Order.DistinctByPermutes((p: Package) => p.name, input.packages, m.packages);
  }

  lemma {:induction false} FindPackageAt(packages: seq<Package>, i: nat)
    requires i < |packages| && UniqueNames(packages)
    ensures FindPackage(packages, packages[i].name) == Some(packages[i])
  {
    if i == 0 {
    } else {
      var name := (p: Package) => p.name;
      assert name(packages[0]) != name(packages[i]);
      assert UniqueNames(packages[1..]);
      FindPackageAt(packages[1..], i - 1);
    }
  }

  lemma {:induction false} FoundPackage(packages: seq<Package>, n: string)
    ensures FindPackage(packages, n).Some? <==> n in NamesOf(packages)
    ensures FindPackage(packages, n).Some? ==> FindPackage(packages, n).value in packages && FindPackage(packages, n).value.name == n
  {
    if packages == [] {
    } else {
      FoundPackage(packages[1..], n);
      assert forall j :: 0 <= j < |packages[1..]| ==> packages[1..][j] == packages[j + 1];
      if n in NamesOf(packages) && packages[0].name != n {
        var j :| 0 <= j < |packages| && packages[j].name == n;
        assert packages[1..][j - 1].name == n;
      }
    }
  }

  lemma {:induction false} FindObservedAt(observed: seq<Observed>, j: nat)
    requires j < |observed| && forall i, k :: 0 <= i < k < |observed| ==> observed[i].name != observed[k].name
    ensures FindObserved(observed, observed[j].name) == Some(observed[j])
  {
    if j == 0 {
    } else {
      FindObservedAt(observed[1..], j - 1);
    }
  }

  lemma {:induction false} FoundObserved(observed: seq<Observed>, n: string)
    ensures FindObserved(observed, n).Some? ==> FindObserved(observed, n).value in observed && FindObserved(observed, n).value.name == n
    ensures FindObserved(observed, n).None? ==> forall j :: 0 <= j < |observed| ==> observed[j].name != n
  {
    if observed == [] {
    } else {
      FoundObserved(observed[1..], n);
      assert forall j :: 0 < j < |observed| ==> observed[1..][j - 1] == observed[j];
    }
  }

  /** The index the classifier builds is the observed list, looked up by name. */
  lemma {:induction false} ObservedMapIs(observed: seq<Observed>)
    requires FirstFault(observed) == None
    ensures forall i, j :: 0 <= i < j < |observed| ==> observed[i].name != observed[j].name
    ensures forall j :: 0 <= j < |observed| ==>
      observed[j].name in ObservedMap(observed) && ObservedMap(observed)[observed[j].name] == observed[j]
    ensures forall n :: n in ObservedMap(observed) ==> exists j :: 0 <= j < |observed| && observed[j].name == n
    decreases |observed|
  {
    if observed == [] {
    } else {
      var init, last := observed[..|observed| - 1], observed[|observed| - 1];
      ObservedMapIs(init);
      assert forall j :: 0 <= j < |init| ==> init[j] == observed[j];
      assert last.name !in ObservedMap(init);
    }
  }

  lemma LookedUp(observed: seq<Observed>, n: string)
    requires FirstFault(observed) == None
    ensures n in ObservedMap(observed) <==> FindObserved(observed, n).Some?
    ensures n in ObservedMap(observed) ==> FindObserved(observed, n) == Some(ObservedMap(observed)[n])
  {
    ObservedMapIs(observed);
    FoundObserved(observed, n);
    if n in ObservedMap(observed) {
      var j :| 0 <= j < |observed| && observed[j].name == n;
      FindObservedAt(observed, j);
    }
  }

  /** Each fate the classifier decides is the one due on that name. */
  lemma FateIsDue(input: Input, k: nat)
    requires FirstFault(input.observed) == None && UniqueNames(input.baseline.packages)
    requires k < |input.baseline.packages| + |input.observed|
    ensures var f := Fates(input.baseline.packages, input.observed)[k];
      !f.Skipped? ==> f == DueOn(input, NameOf(f))
  {
    var packages, observed := input.baseline.packages, input.observed;
    if k < |packages| {
      assert Fates(packages, observed)[k] == BaselineFate(ObservedMap(observed), packages[k]);
      BaselineFateIsDue(input, k);
    } else {
      assert Fates(packages, observed)[k] == ObservedFate(NamesOf(packages), observed[k - |packages|]);
      ObservedFateIsDue(input, k - |packages|);
    }
  }

  lemma BaselineFateIsDue(input: Input, i: nat)
    requires FirstFault(input.observed) == None && UniqueNames(input.baseline.packages) && i < |input.baseline.packages|
    ensures BaselineFate(ObservedMap(input.observed), input.baseline.packages[i]) == DueOn(input, input.baseline.packages[i].name)
  {
    FindPackageAt(input.baseline.packages, i);
    LookedUp(input.observed, input.baseline.packages[i].name);
  }

  lemma ObservedFateIsDue(input: Input, j: nat)
    requires FirstFault(input.observed) == None && j < |input.observed|
    ensures var f := ObservedFate(NamesOf(input.baseline.packages), input.observed[j]);
      !f.Skipped? ==> f == DueOn(input, input.observed[j].name)
  {
    FoundPackage(input.baseline.packages, input.observed[j].name);
    ObservedMapIs(input.observed);
    FindObservedAt(input.observed, j);
  }

  /** Whatever is due on a name is decided somewhere. */
  lemma DueIsDecided(input: Input, n: string) returns (k: nat)
    requires FirstFault(input.observed) == None && UniqueNames(input.baseline.packages)
    requires !DueOn(input, n).Skipped?
    ensures k < |input.baseline.packages| + |input.observed| && Fates(input.baseline.packages, input.observed)[k] == DueOn(input, n)
  {
    var packages, observed := input.baseline.packages, input.observed;
    FoundPackage(packages, n);
    FoundObserved(observed, n);
    LookedUp(observed, n);
    if FindPackage(packages, n).Some? {
      k :| 0 <= k < |packages| && packages[k] == FindPackage(packages, n).value;
      assert Fates(packages, observed)[k] == BaselineFate(ObservedMap(observed), packages[k]);
    } else {
      var j :| 0 <= j < |observed| && observed[j] == FindObserved(observed, n).value;
      k := |packages| + j;
      assert Fates(packages, observed)[k] == ObservedFate(NamesOf(packages), observed[j]);
    }
  }

  ghost predicate NamesApart(fates: seq<Fate>) {
    forall i, j :: 0 <= i < j < |fates| && !fates[i].Skipped? && !fates[j].Skipped? ==> NameOf(fates[i]) != NameOf(fates[j])
  }

  lemma FateNames(input: Input, k: nat)
    requires k < |input.baseline.packages| + |input.observed|
    ensures var packages, f := input.baseline.packages, Fates(input.baseline.packages, input.observed)[k];
      !f.Skipped? ==>
        if k < |packages| then NameOf(f) == packages[k].name
        else NameOf(f) == input.observed[k - |packages|].name && NameOf(f) !in NamesOf(packages)
  {
    var packages := input.baseline.packages;
    if k < |packages| {
      assert Fates(packages, input.observed)[k] == BaselineFate(ObservedMap(input.observed), packages[k]);
    } else {
      assert Fates(packages, input.observed)[k] == ObservedFate(NamesOf(packages), input.observed[k - |packages|]);
    }
  }

  lemma FatesApart(input: Input)
    requires FirstFault(input.observed) == None && UniqueNames(input.baseline.packages)
    ensures NamesApart(Fates(input.baseline.packages, input.observed))
  {
    var fates := Fates(input.baseline.packages, input.observed);
    forall i, j | 0 <= i < j < |fates| && !fates[i].Skipped? && !fates[j].Skipped? ensures NameOf(fates[i]) != NameOf(fates[j]) {
      FateNames(input, i);
      FateNames(input, j);
      NamesDiffer(input.baseline.packages, input.observed, i, j);
    }
  }

  lemma NamesDiffer(packages: seq<Package>, observed: seq<Observed>, i: nat, j: nat)
    requires FirstFault(observed) == None && UniqueNames(packages)
    requires i < j < |packages| + |observed|
    ensures j < |packages| ==> packages[i].name != packages[j].name
    ensures i < |packages| ==> packages[i].name in NamesOf(packages)
    ensures i >= |packages| ==> observed[i - |packages|].name != observed[j - |packages|].name
  {
    var name := (p: Package) => p.name;
    ObservedMapIs(observed);
    if j < |packages| {
      assert name(packages[i]) != name(packages[j]);
    }
  }

  lemma {:induction false} ChangesOfFates(fates: seq<Fate>)
    ensures forall c :: c in ChangesOf(fates) <==> Changed(c) in fates
    ensures NamesApart(fates) ==> Order.DistinctBy((c: Change) => c.package, ChangesOf(fates))
    decreases |fates|
  {
    if fates == [] {
    } else {
      var init, last := fates[..|fates| - 1], fates[|fates| - 1];
      ChangesOfFates(init);
      assert fates == init + [last];
      assert forall f :: f in fates <==> f in init || f == last;
      if NamesApart(fates) {
        assert NamesApart(init);
        if last.Changed? {
          forall c | c in ChangesOf(init) ensures c.package != last.change.package {
            assert Changed(c) in init;
            var i :| 0 <= i < |init| && init[i] == Changed(c);
            assert fates[i] == Changed(c);
          }
        }
      }
    }
  }

  lemma {:induction false} UnreadOfFates(fates: seq<Fate>)
    ensures forall g :: g in UnreadOf(fates) <==> g.UnreadMtree? && Unexamined(g.name) in fates
    ensures NamesApart(fates) ==> forall i, j :: 0 <= i < j < |UnreadOf(fates)| ==> UnreadOf(fates)[i] != UnreadOf(fates)[j]
    decreases |fates|
  {
    if fates == [] {
    } else {
      var init, last := fates[..|fates| - 1], fates[|fates| - 1];
      UnreadOfFates(init);
      assert fates == init + [last];
      assert forall f :: f in fates <==> f in init || f == last;
      if NamesApart(fates) {
        assert NamesApart(init);
        if last.Unexamined? {
          forall g | g in UnreadOf(init) ensures g != UnreadMtree(last.name) {
            var i :| 0 <= i < |init| && init[i] == Unexamined(g.name);
            assert fates[i] == Unexamined(g.name);
          }
        }
      }
    }
  }

  /** Every name is accounted for once: the items are exactly the changes that are
      due, no two of them about one package, and the names that could not be compared
      are exactly those reported as gaps. */
  lemma DriftIsPartition(stamp: Stamp, input: Input, r: Report)
    requires InputFault(stamp, input).None? && Describes(stamp, input, r)
    requires UniqueNames(input.baseline.packages)
    ensures Order.DistinctBy((item: Item) => item.change.package, r.items)
    ensures forall item :: item in r.items ==> DueOn(input, item.change.package) == Changed(item.change)
    ensures forall n :: DueOn(input, n).Changed? ==> exists item :: item in r.items && item.change == DueOn(input, n).change
    ensures forall n :: UnreadMtree(n) in r.gaps <==> DueOn(input, n) == Unexamined(n)
  {
    ItemsAreDue(stamp, input);
    forall n ensures UnreadMtree(n) in r.gaps <==> DueOn(input, n) == Unexamined(n) {
      UnreadIsDue(input, n);
      UnusableIsUnusable(stamp, input.adjudications, input.now.value);
    }
  }

  lemma ItemsAreDue(stamp: Stamp, input: Input)
    requires InputFault(stamp, input).None? && UniqueNames(input.baseline.packages)
    ensures Order.DistinctBy((item: Item) => item.change.package, ItemsFor(stamp, input))
    ensures forall item :: item in ItemsFor(stamp, input) ==> DueOn(input, item.change.package) == Changed(item.change)
    ensures forall n :: DueOn(input, n).Changed? ==>
      exists item :: item in ItemsFor(stamp, input) && item.change == DueOn(input, n).change
  {
    ChangesAreDue(input);
    var changes, items := SortedChanges(input), ItemsFor(stamp, input);
    assert forall k :: 0 <= k < |items| ==> items[k].change == changes[k];
    var package := (c: Change) => c.package;
    forall i, j | 0 <= i < j < |items| ensures items[i].change.package != items[j].change.package {
      assert package(changes[i]) != package(changes[j]);
    }
    forall n | DueOn(input, n).Changed? ensures exists item :: item in items && item.change == DueOn(input, n).change {
      var k :| 0 <= k < |changes| && changes[k] == DueOn(input, n).change;
      assert items[k] in items;
    }
  }

  lemma ChangesAreDue(input: Input)
    requires FirstFault(input.observed) == None && UniqueNames(input.baseline.packages)
    ensures Order.DistinctBy((c: Change) => c.package, SortedChanges(input))
    ensures forall c :: c in SortedChanges(input) ==> DueOn(input, c.package) == Changed(c)
    ensures forall n :: DueOn(input, n).Changed? ==> DueOn(input, n).change in SortedChanges(input)
  {
    var fates := Fates(input.baseline.packages, input.observed);
    FatesApart(input);
    ChangesOfFates(fates);
    Order.SortPermutes(ChangeLeq, ChangesOf(fates));
    Order.DistinctByPermutes((c: Change) => c.package, ChangesOf(fates), SortedChanges(input));
    forall c | c in SortedChanges(input) ensures DueOn(input, c.package) == Changed(c) {
      var k :| 0 <= k < |fates| && fates[k] == Changed(c);
      FateIsDue(input, k);
    }
    forall n | DueOn(input, n).Changed? ensures DueOn(input, n).change in SortedChanges(input) {
      var k := DueIsDecided(input, n);
      assert fates[k] in fates;
    }
  }

  lemma UnreadIsDue(input: Input, n: string)
    requires FirstFault(input.observed) == None && UniqueNames(input.baseline.packages)
    ensures UnreadMtree(n) in UnreadOf(Fates(input.baseline.packages, input.observed)) <==> DueOn(input, n) == Unexamined(n)
  {
    var fates := Fates(input.baseline.packages, input.observed);
    UnreadOfFates(fates);
    if Unexamined(n) in fates {
      var k :| 0 <= k < |fates| && fates[k] == Unexamined(n);
      FateIsDue(input, k);
    }
    if DueOn(input, n) == Unexamined(n) {
      var k := DueIsDecided(input, n);
      assert fates[k] in fates;
    }
  }

  lemma {:induction false} UnusableIsUnusable(stamp: Stamp, recs: seq<Adjudication>, now: int)
    ensures forall g :: g in UnusableGaps(stamp, recs, now) ==> g.UnusableAdjudication?
    decreases |recs|
  {
    if recs == [] {
    } else {
      UnusableIsUnusable(stamp, recs[..|recs| - 1], now);
    }
  }

  /** A report says something about a name: an item, or that it could not be compared. */
  ghost predicate Speaks(r: Report, n: string) {
    (exists item :: item in r.items && item.change.package == n) || UnreadMtree(n) in r.gaps
  }

  /** The two sides agree on a name: both list it, its digest was read, versions agree,
      and so do digests unless the baseline had recorded none. */
  ghost predicate Agreed(input: Input, n: string) {
    exists p, o :: p in input.baseline.packages && o in input.observed && p.name == o.name == n
                   && o.unread == "" && o.version == p.version && (p.mtree == "" || o.mtree == p.mtree)
  }

  ghost predicate Listed(input: Input, n: string) {
    (exists p :: p in input.baseline.packages && p.name == n) || (exists o :: o in input.observed && o.name == n)
  }

  /** A report is silent about a name exactly when neither side lists it or the two
      sides agree on it. */
  lemma SilentExactly(stamp: Stamp, input: Input, r: Report, n: string)
    requires InputFault(stamp, input).None? && Describes(stamp, input, r)
    requires UniqueNames(input.baseline.packages)
    ensures !Speaks(r, n) <==> !Listed(input, n) || Agreed(input, n)
  {
    SpeaksWhenDue(stamp, input, r, n);
    QuietlyDue(input, n);
  }

  lemma SpeaksWhenDue(stamp: Stamp, input: Input, r: Report, n: string)
    requires InputFault(stamp, input).None? && Describes(stamp, input, r)
    requires UniqueNames(input.baseline.packages)
    ensures Speaks(r, n) <==> DueOn(input, n).Changed? || DueOn(input, n) == Unexamined(n)
  {
    DriftIsPartition(stamp, input, r);
  }

  lemma QuietlyDue(input: Input, n: string)
    requires FirstFault(input.observed) == None && UniqueNames(input.baseline.packages)
    ensures DueOn(input, n).Skipped? || DueOn(input, n) == Unchanged(n) <==> !Listed(input, n) || Agreed(input, n)
  {
    var packages, observed := input.baseline.packages, input.observed;
    OnlyPackage(packages, n);
    OnlyObserved(observed, n);
  }

  lemma OnlyPackage(packages: seq<Package>, n: string)
    requires UniqueNames(packages)
    ensures forall p :: p in packages && p.name == n ==> FindPackage(packages, n) == Some(p)
    ensures FindPackage(packages, n).Some? ==> FindPackage(packages, n).value in packages && FindPackage(packages, n).value.name == n
  {
    FoundPackage(packages, n);
    forall p | p in packages && p.name == n ensures FindPackage(packages, n) == Some(p) {
      var i :| 0 <= i < |packages| && packages[i] == p;
      FindPackageAt(packages, i);
    }
  }

  lemma OnlyObserved(observed: seq<Observed>, n: string)
    requires FirstFault(observed) == None
    ensures forall o :: o in observed && o.name == n ==> FindObserved(observed, n) == Some(o)
    ensures FindObserved(observed, n).Some? ==> FindObserved(observed, n).value in observed && FindObserved(observed, n).value.name == n
  {
    FoundObserved(observed, n);
    ObservedMapIs(observed);
    forall o | o in observed && o.name == n ensures FindObserved(observed, n) == Some(o) {
      var i :| 0 <= i < |observed| && observed[i] == o;
      FindObservedAt(observed, i);
    }
  }

  // -- counting -------------------------------------------------------------

  /** Every item is in one bucket and every bucket counted: the four counts are the
      items, and however many changes the log could not cover, one gap says so. */
  lemma CountsAddUp(stamp: Stamp, input: Input, r: Report)
    requires InputFault(stamp, input).None? && Describes(stamp, input, r)
    ensures Counted(r.counts, Corroborated) + Counted(r.counts, Adjudicated) + Counted(r.counts, Unexplained)
            + Counted(r.counts, LogCoverageGap) == |r.items|
    ensures |r.findings| == |r.items| - Counted(r.counts, Corroborated)
    ensures forall n :: Shortfall(n) in r.gaps <==> n > 0 && n == Counted(r.counts, LogCoverageGap)
    ensures forall i, j :: 0 <= i < |r.gaps| && 0 <= j < |r.gaps| && r.gaps[i].Shortfall? && r.gaps[j].Shortfall? ==> i == j
  {
    BucketsAddUp(r.items);
    UnreadOfFates(Fates(input.baseline.packages, input.observed));
    UnusableIsUnusable(stamp, input.adjudications, input.now.value);
    OneShortfall(UnreadOf(Fates(input.baseline.packages, input.observed)), UnusableGaps(stamp, input.adjudications, input.now.value),
                 CountIn(r.items, LogCoverageGap), input.log.bounded);
  }

  lemma {:induction false} BucketsAddUp(items: seq<Item>)
    ensures CountIn(items, Corroborated) + CountIn(items, Adjudicated) + CountIn(items, Unexplained)
            + CountIn(items, LogCoverageGap) == |items|
    ensures |FindingsOf(items)| == |items| - CountIn(items, Corroborated)
    decreases |items|
  {
    if items == [] {
    } else {
      BucketsAddUp(items[..|items| - 1]);
    }
  }

  lemma OneShortfall(unread: seq<DriftGap>, unusable: seq<DriftGap>, shortfall: nat, bounded: bool)
    requires forall g :: g in unread ==> g.UnreadMtree?
    requires forall g :: g in unusable ==> g.UnusableAdjudication?
    ensures var gaps := GapsOf(unread, unusable, shortfall, bounded);
      && (forall n :: Shortfall(n) in gaps <==> n > 0 && n == shortfall)
      && (forall i, j :: 0 <= i < |gaps| && 0 <= j < |gaps| && gaps[i].Shortfall? && gaps[j].Shortfall? ==> i == j)
  {
    var gaps, n := GapsOf(unread, unusable, shortfall, bounded), |unread| + |unusable|;
    forall i | 0 <= i < |gaps|
      ensures gaps[i].Shortfall? ==> i == n && shortfall > 0 && gaps[i] == Shortfall(shortfall)
    {
      if i < |unread| {
        assert gaps[i] == unread[i] && unread[i] in unread;
      } else if i < n {
        assert gaps[i] == unusable[i - |unread|] && unusable[i - |unread|] in unusable;
      }
    }
    if shortfall > 0 {
      assert gaps[n] == Shortfall(shortfall) && gaps[n] in gaps;
    }
  }

  // -- buckets --------------------------------------------------------------

  /** The bucket a change lands in and how severe it is: corroborated when some
      transaction explains it, else adjudicated when its package has been judged,
      else a coverage gap when the log could not have covered it, which a truncated
      log never is an excuse for, else unexplained, which alone is critical. */
  lemma BucketExactly(cx: Context, c: Change)
    ensures var item, logged := Classify(cx, c), exists tx :: tx in cx.log.transactions && Explains(c, tx, cx.created);
      && (item.bucket == Corroborated <==> logged)
      && (item.bucket == Adjudicated <==> !logged && c.package in cx.judgements)
      && (item.bucket == LogCoverageGap <==> !logged && c.package !in cx.judgements && CouldNotCover(cx, c))
      && (item.severity == Critical <==> item.bucket == Unexplained)
      && (item.severity == Info <==> item.bucket != Unexplained)
      && (Drift.Truncated(cx) ==> item.bucket != LogCoverageGap)
      && (item.evidence == Silent(true) <==> item.bucket == Unexplained && Drift.Truncated(cx))
  {
    CorroborationIsLatest(c, cx.log.transactions, cx.created);
  }

  /** A package has been judged exactly when some usable record names it, and then by
      the last one that does. */
  lemma {:induction false} JudgedExactly(stamp: Stamp, recs: seq<Adjudication>, now: int, n: string)
    ensures n in Judgements(stamp, recs, now) <==> exists r :: r in recs && Usable(stamp, r, now) && r.subject == n
    ensures n in Judgements(stamp, recs, now) ==> exists k :: 0 <= k < |recs| && IsLast(stamp, recs, now, n, k)
    decreases |recs|
  {
    if recs == [] {
    } else {
      var init, last := recs[..|recs| - 1], recs[|recs| - 1];
      JudgedExactly(stamp, init, now, n);
      assert recs == init + [last];
      if n in Judgements(stamp, recs, now) {
        if Usable(stamp, last, now) && last.subject == n {
          assert IsLast(stamp, recs, now, n, |recs| - 1);
        } else {
          var k :| 0 <= k < |init| && IsLast(stamp, init, now, n, k);
          assert IsLast(stamp, recs, now, n, k);
        }
      }
    }
  }

  /** Record `k` is the judgement of `n`: it is usable, names it, and no later one does
      both. */
  ghost predicate IsLast(stamp: Stamp, recs: seq<Adjudication>, now: int, n: string, k: nat)
    requires k < |recs|
  {
    && n in Judgements(stamp, recs, now) && Judgements(stamp, recs, now)[n] == recs[k]
    && Usable(stamp, recs[k], now) && recs[k].subject == n
    && forall m :: k < m < |recs| ==> !(Usable(stamp, recs[m], now) && recs[m].subject == n)
  }

  // -- a shorter log --------------------------------------------------------

  /** What deleting from a log, or losing it, can leave: some of its transactions,
      and a beginning no earlier, if any. */
  ghost predicate Shorter(log: Log, log': Log) {
    && (forall tx :: tx in log'.transactions ==> tx in log.transactions)
    && (log'.earliest.Some? ==> log.earliest.Some? && log'.earliest.value >= log.earliest.value)
  }

  lemma ShorterNeverLowers(cx: Context, c: Change, log': Log)
    requires cx.recorded.Some? && Shorter(cx.log, log')
    ensures Rank(Classify(cx.(log := log'), c).severity) >= Rank(Classify(cx, c).severity)
  {
    CorroborationIsLatest(c, cx.log.transactions, cx.created);
    CorroborationIsLatest(c, log'.transactions, cx.created);
  }

  /** What a change has to be rated down by: a transaction that explains it, a
      judgement of its package, or an instant the log could not have covered. */
  ghost predicate Excused(cx: Context, c: Change) {
    (exists tx :: tx in cx.log.transactions && Explains(c, tx, cx.created)) || c.package in cx.judgements || CouldNotCover(cx, c)
  }

  /** One change is safe from every shortening of the log exactly when the baseline
      recorded a window or the change was excused already. */
  lemma SafeExactly(cx: Context, c: Change)
    ensures (forall log' :: Shorter(cx.log, log') ==> Rank(Classify(cx.(log := log'), c).severity) >= Rank(Classify(cx, c).severity))
            <==> cx.recorded.Some? || Excused(cx, c)
  {
    BucketExactly(cx, c);
    if cx.recorded.Some? {
      forall log' | Shorter(cx.log, log')
        ensures Rank(Classify(cx.(log := log'), c).severity) >= Rank(Classify(cx, c).severity)
      {
        ShorterNeverLowers(cx, c, log');
      }
    } else if !Excused(cx, c) {
      DeletingLowers(cx, c);
    }
  }

  const NO_LOG := Log(None, None, false, [])

  lemma DeletingLowers(cx: Context, c: Change)
    requires cx.recorded.None?
    ensures Shorter(cx.log, NO_LOG)
    ensures Classify(cx.(log := NO_LOG), c).severity == Info
  {
  }

  lemma SafeItems(cx: Context, changes: seq<Change>, log': Log)
    requires Shorter(cx.log, log')
    requires cx.recorded.Some? || forall item :: item in ItemsOf(cx, changes) ==> Excused(cx, item.change)
    ensures var items, items' := ItemsOf(cx, changes), ItemsOf(cx.(log := log'), changes);
      forall k :: 0 <= k < |items| ==> items'[k].change == items[k].change && Rank(items'[k].severity) >= Rank(items[k].severity)
  {
    forall k | 0 <= k < |changes|
      ensures Rank(Classify(cx.(log := log'), changes[k]).severity) >= Rank(Classify(cx, changes[k]).severity)
    {
      assert ItemsOf(cx, changes)[k] in ItemsOf(cx, changes);
      SafeExactly(cx, changes[k]);
    }
  }

  /** The second report rates nothing lower than the first: the same changes, in the
      same order, each at least as severe. */
  ghost predicate RatesNoLower(r: Report, r': Report) {
    && |r'.items| == |r.items|
    && forall k :: 0 <= k < |r.items| ==>
      r'.items[k].change == r.items[k].change && Rank(r'.items[k].severity) >= Rank(r.items[k].severity)
  }

  /** Against a baseline that recorded the log's window, shortening the log lowers
      no rating: the same changes are reported, each at least as severe, and every
      critical finding stays. */
  lemma ShorterLogNeverLowers(stamp: Stamp, input: Input, log': Log, r: Report, r': Report)
    requires InputFault(stamp, input).None? && Recorded(stamp, input.baseline).Some? && Shorter(input.log, log')
    requires Describes(stamp, input, r) && Describes(stamp, input.(log := log'), r')
    ensures RatesNoLower(r, r')
    ensures forall f :: f in r.findings && f.severity == Critical ==> f in r'.findings
  {
    var cx := ContextOf(stamp, input, stamp(input.baseline.createdAt).value, input.now.value);
    SafeItems(cx, SortedChanges(input), log');
    CriticalsStay(cx, SortedChanges(input), log');
  }

  lemma CriticalStays(cx: Context, c: Change, log': Log)
    requires cx.recorded.Some? && Shorter(cx.log, log') && Classify(cx, c).severity == Critical
    ensures Classify(cx, c).bucket == Unexplained
    ensures Classify(cx.(log := log'), c).severity == Critical && Classify(cx.(log := log'), c).bucket == Unexplained
  {
    ShorterNeverLowers(cx, c, log');
  }

  lemma CriticalsStay(cx: Context, changes: seq<Change>, log': Log)
    requires cx.recorded.Some? && Shorter(cx.log, log')
    ensures forall f :: f in FindingsOf(ItemsOf(cx, changes)) && f.severity == Critical ==>
      f in FindingsOf(ItemsOf(cx.(log := log'), changes))
  {
    var items, items' := ItemsOf(cx, changes), ItemsOf(cx.(log := log'), changes);
    forall k | 0 <= k < |items| && items[k].severity == Critical
      ensures items[k].bucket == Unexplained == items'[k].bucket && items'[k].severity == Critical
    {
      CriticalStays(cx, changes[k], log');
    }
    CriticalItemsStay(items, items');
  }

  lemma CriticalItemsStay(items: seq<Item>, items': seq<Item>)
    requires |items| == |items'|
    requires forall k :: 0 <= k < |items| ==> items[k].change == items'[k].change
    requires forall k :: 0 <= k < |items| && items[k].severity == Critical ==>
      items[k].bucket == Unexplained == items'[k].bucket && items'[k].severity == Critical
    ensures forall f :: f in FindingsOf(items) && f.severity == Critical ==> f in FindingsOf(items')
  {
    forall f | f in FindingsOf(items) && f.severity == Critical ensures f in FindingsOf(items') {
      FindingsAreItems(items, f);
      FindingsAreItems(items', f);
    }
  }

  lemma {:induction false} FindingsAreItems(items: seq<Item>, f: DriftFinding)
    ensures f in FindingsOf(items) <==>
      exists k :: 0 <= k < |items| && items[k].bucket != Corroborated
                  && f == DriftFinding(items[k].change.package, items[k].severity, items[k].bucket)
    decreases |items|
  {
    if items == [] {
    } else {
      var init, last := items[..|items| - 1], items[|items| - 1];
      FindingsAreItems(init, f);
      assert forall k :: 0 <= k < |init| ==> init[k] == items[k];
    }
  }

  ghost predicate SafeReport(stamp: Stamp, input: Input, r: Report)
    requires InputFault(stamp, input).None?
  {
    forall log', r' :: Shorter(input.log, log') && Describes(stamp, input.(log := log'), r') ==> RatesNoLower(r, r')
  }

  /** The recorded window is what that rests on. No shortening of the log lowers
      anything in a report exactly when the baseline recorded a window, or every
      change reported was excused already; otherwise deleting the log lowers it. */
  lemma NeverLowersExactly(stamp: Stamp, input: Input, r: Report)
    requires InputFault(stamp, input).None? && Describes(stamp, input, r)
    ensures var cx := ContextOf(stamp, input, stamp(input.baseline.createdAt).value, input.now.value);
      SafeReport(stamp, input, r) <==>
        Recorded(stamp, input.baseline).Some? || forall item :: item in r.items ==> Excused(cx, item.change)
  {
    var cx := ContextOf(stamp, input, stamp(input.baseline.createdAt).value, input.now.value);
    if Recorded(stamp, input.baseline).Some? || forall item :: item in r.items ==> Excused(cx, item.change) {
      forall log', r' | Shorter(input.log, log') && Describes(stamp, input.(log := log'), r') ensures RatesNoLower(r, r') {
        SafeItems(cx, SortedChanges(input), log');
      }
    } else {
      var r' := LoweredReport(stamp, input, r);
    }
  }

  lemma LoweredReport(stamp: Stamp, input: Input, r: Report) returns (r': Report)
    requires InputFault(stamp, input).None? && Describes(stamp, input, r) && Recorded(stamp, input.baseline).None?
    requires var cx := ContextOf(stamp, input, stamp(input.baseline.createdAt).value, input.now.value);
      exists item :: item in r.items && !Excused(cx, item.change)
    ensures Shorter(input.log, NO_LOG) && Describes(stamp, input.(log := NO_LOG), r') && !RatesNoLower(r, r')
  {
    var cx := ContextOf(stamp, input, stamp(input.baseline.createdAt).value, input.now.value);
    var item :| item in r.items && !Excused(cx, item.change);
    var k :| 0 <= k < |r.items| && r.items[k] == item;
    LoweredItem(cx, SortedChanges(input), k);
    r' := SomeReport(stamp, input.(log := NO_LOG));
  }

  lemma LoweredItem(cx: Context, changes: seq<Change>, k: nat)
    requires cx.recorded.None? && k < |changes| && !Excused(cx, changes[k])
    ensures Shorter(cx.log, NO_LOG)
    ensures Rank(ItemsOf(cx.(log := NO_LOG), changes)[k].severity) < Rank(ItemsOf(cx, changes)[k].severity)
  {
    BucketExactly(cx, changes[k]);
    DeletingLowers(cx, changes[k]);
  }

  /** Every classifiable input has a report. */
  lemma SomeReport(stamp: Stamp, input: Input) returns (r: Report)
    requires InputFault(stamp, input).None?
    ensures Describes(stamp, input, r)
  {
    var cx := ContextOf(stamp, input, stamp(input.baseline.createdAt).value, input.now.value);
    var items := ItemsFor(stamp, input);
    var counts := map[Corroborated := CountIn(items, Corroborated), Adjudicated := CountIn(items, Adjudicated),
                      Unexplained := CountIn(items, Unexplained), LogCoverageGap := CountIn(items, LogCoverageGap)];
    forall b ensures Counted(counts, b) == CountIn(items, b) {
      match b {
        case Corroborated =>
        case Adjudicated =>
        case Unexplained =>
        case LogCoverageGap =>
      }
    }
    r := Report(items, counts, FindingsOf(items),
                GapsOf(UnreadOf(Fates(input.baseline.packages, input.observed)),
                       UnusableGaps(stamp, input.adjudications, input.now.value),
                       CountIn(items, LogCoverageGap), input.log.bounded),
                Drift.Truncated(cx), WindowCovered(cx));
  }

  // -- a log that was not read to its end -----------------------------------

  lemma SameVerdicts(cx: Context, changes: seq<Change>, log': Log)
    requires log'.transactions == cx.log.transactions && log'.earliest == cx.log.earliest
    ensures ItemsOf(cx.(log := log'), changes) == ItemsOf(cx, changes)
  {
    assert forall k :: 0 <= k < |changes| ==> Classify(cx.(log := log'), changes[k]) == Classify(cx, changes[k]);
  }

  lemma BoundedGap(unread: seq<DriftGap>, unusable: seq<DriftGap>, shortfall: nat, bounded: bool)
    requires (forall g :: g in unread ==> g.UnreadMtree?) && (forall g :: g in unusable ==> g.UnusableAdjudication?)
    ensures BoundedLog in GapsOf(unread, unusable, shortfall, bounded) <==> bounded
  {
    var before := unread + unusable + if shortfall > 0 then [Shortfall(shortfall)] else [];
    assert GapsOf(unread, unusable, shortfall, bounded) == before + if bounded then [BoundedLog] else [];
    assert BoundedLog !in before;
  }

  /** Whether the log was read to its end, and where it ends, rate nothing up or down:
      the items and findings are the same, and one gap says it was not. */
  lemma BoundedOnlyAddsAGap(stamp: Stamp, input: Input, log': Log, r: Report, r': Report)
    requires InputFault(stamp, input).None? && Describes(stamp, input, r) && Describes(stamp, input.(log := log'), r')
    requires log'.transactions == input.log.transactions && log'.earliest == input.log.earliest
    ensures r'.items == r.items && r'.findings == r.findings
    ensures BoundedLog in r'.gaps <==> log'.bounded
  {
    SameVerdicts(ContextOf(stamp, input, stamp(input.baseline.createdAt).value, input.now.value), SortedChanges(input), log');
    UnreadOfFates(Fates(input.baseline.packages, input.observed));
    UnusableIsUnusable(stamp, input.adjudications, input.now.value);
    BoundedGap(UnreadOf(Fates(input.baseline.packages, input.observed)), UnusableGaps(stamp, input.adjudications, input.now.value),
               CountIn(r'.items, LogCoverageGap), log'.bounded);
  }

  /** There is a report that is not safe: no window recorded, one package whose mtree is
      not the baseline's, and a log that begins before the baseline and says nothing.
      With the log deleted, the critical item is a coverage gap. */
  lemma SomeReportIsLowered() returns (stamp: Stamp, input: Input, r: Report)
    ensures InputFault(stamp, input).None? && UniqueNames(input.baseline.packages) && Describes(stamp, input, r)
    ensures input.log.earliest.Some? && !SafeReport(stamp, input, r)
  {
    stamp := s => Some(10);
    input := Lowered();
    NothingWrong(stamp, input);
    r := SomeReport(stamp, input);
    DriftIsPartition(stamp, input, r);
    UnexcusedChange(stamp, input);
    NeverLowersExactly(stamp, input, r);
  }

  function Lowered(): Input {
    var packages := [Manifests.Package("p", "1", false, "m", 0, "")];
    var baseline := Manifests.Manifest(Manifests.MANIFEST_SCHEMA, "h", "/", "t", "l", packages, [], [], [],
                                       Manifests.LogWindow("", "", [], false), true, []);
    Input(baseline, [Observed("p", "1", "n", "", None)], Log(Some(5), None, false, []), [], Some(20))
  }

  lemma NothingWrong(stamp: Stamp, input: Input)
    requires input == Lowered() && stamp(input.baseline.createdAt) == Some(10)
    ensures InputFault(stamp, input).None? && UniqueNames(input.baseline.packages)
  {
    assert input.observed[..0] == [];
  }

  lemma UnexcusedChange(stamp: Stamp, input: Input)
    requires input == Lowered() && stamp(input.baseline.createdAt) == Some(10)
    ensures DueOn(input, "p").Changed? && Recorded(stamp, input.baseline).None?
    ensures !Excused(ContextOf(stamp, input, 10, 20), DueOn(input, "p").change)
  {
    assert "m"[0] != "n"[0];
    assert DueOn(input, "p") == Changed(Change(MtreeChanged, "p", "m", "n", "1"));
    assert input.observed[..0] == [];
  }
}
