/** The baseline document in the terms of what was measured: what is refused, what is
    said of what is not covered, and the order of its lists. */
module ManifestTerms {
  import opened Wrappers
  import opened Manifests
  import BundleTerms
  import Digest
  import Order
  import StoreTerms
  import Text

  // -- what is refused ------------------------------------------------------

  predicate Readable(w: World, s: string) {
    s == "" || w.stamp(s).Some?
  }

  /** A host, a root, a time and a tier; packages with names, all different, each with a
      digest or a reason why not; and records that can be read. */
  ghost predicate Fit(w: World, input: Input) {
    && !Text.Blank(input.host) && input.root != "" && w.stamp(input.createdAt).Some? && !Text.Blank(input.tier)
    && (forall p :: p in input.packages ==>
          p.name != "" && (p.mtree == "" ==> p.unread != "") && (p.mtree != "" ==> BundleTerms.Hexadecimal(p.mtree)))
    && (forall i, k :: 0 <= i < k < |input.packages| ==> input.packages[i].name != input.packages[k].name)
    && (forall p :: p in input.provenance ==> p.pkgBase != "" && BundleTerms.Hexadecimal(p.snapshot) && Readable(w, p.capturedAt))
    && (forall s :: s in input.surfaces ==> s.path != "" && (s.sha256 == "" || BundleTerms.Hexadecimal(s.sha256)))
    && (forall a :: a in input.adjudications ==>
          && a.fingerprint != "" && !Text.Blank(a.reason) && (a.scope == "pin" || a.scope == "subject" || a.scope == "rule")
          && Readable(w, a.expiresAt))
    && Readable(w, input.log.earliest) && Readable(w, input.log.latest)
  }

  lemma FitExactly(w: World, input: Input)
    ensures Admissible(w, input) <==> Fit(w, input)
  {
    RecordsFit(w, input);
    PackagesFit(input.packages);
  }

  lemma PackagesFit(packages: seq<Package>)
    ensures (forall p :: p in packages ==> GoodPackage(p)) <==>
      forall p :: p in packages ==>
        p.name != "" && (p.mtree == "" ==> p.unread != "") && (p.mtree != "" ==> BundleTerms.Hexadecimal(p.mtree))
    ensures Order.DistinctBy((p: Package) => p.name, packages) <==>
      forall i, k :: 0 <= i < k < |packages| ==> packages[i].name != packages[k].name
  {
    forall s ensures BundleTerms.Hexadecimal(s) <==> Digest.ValidDigest(s) {
      BundleTerms.HexadecimalExactly(s);
    }
    var name := (p: Package) => p.name;
    assert forall i :: 0 <= i < |packages| ==> name(packages[i]) == packages[i].name;
  }

  lemma RecordsFit(w: World, input: Input)
    ensures (forall p :: p in input.provenance ==> GoodProvenance(w, p)) <==>
      forall p :: p in input.provenance ==> p.pkgBase != "" && BundleTerms.Hexadecimal(p.snapshot) && Readable(w, p.capturedAt)
    ensures (forall s :: s in input.surfaces ==> GoodSurface(s)) <==>
      forall s :: s in input.surfaces ==> s.path != "" && (s.sha256 == "" || BundleTerms.Hexadecimal(s.sha256))
  {
    forall s ensures BundleTerms.Hexadecimal(s) <==> Digest.ValidDigest(s) {
      BundleTerms.HexadecimalExactly(s);
    }
  }

  // -- the lists ------------------------------------------------------------

  /** By the first text and then by the second, each by its bytes. */
  ghost predicate NoLater(a: (string, string), b: (string, string)) {
    Order.Before(a.0, b.0) || (a.0 == b.0 && StoreTerms.UpTo(a.1, b.1))
  }

  lemma NoLaterExactly(a: (string, string), b: (string, string))
    ensures Order.PairLeq(a, b) <==> NoLater(a, b)
  {
    Order.LessExactly(a.0, b.0);
    Order.LessExactly(a.1, b.1);
    Order.LeqTotal(a.1, a.1);
    StoreTerms.NotBeforeItself(a.0);
  }

  /** What was given, each as often as it was given, in the order of its keys. */
  ghost predicate Arranged<T>(key: T -> (string, string), s: seq<T>, t: seq<T>) {
    multiset(s) == multiset(t) && forall i, k :: 0 <= i < k < |t| ==> NoLater(key(t[i]), key(t[k]))
  }

  lemma ArrangedExactly<T(!new)>(key: T -> (string, string), name: T -> (string, string), s: seq<T>, t: seq<T>)
    requires forall x :: key(x) == name(x)
    ensures Order.SortedArrangement(By(key), s, t) <==> Arranged(name, s, t)
  {
    forall i, k | 0 <= i < k < |t| ensures By(key)(t[i], t[k]) <==> NoLater(name(t[i]), name(t[k])) {
      NoLaterExactly(key(t[i]), key(t[k]));
    }
  }

  /** The lists of a manifest: packages by name, provenance by package base and snapshot,
      surfaces by kind and path, adjudications by fingerprint, log files by name, and
      gaps by rule and subject. */
  ghost predicate InOrder(input: Input, gaps: seq<Gap>, m: Manifest) {
    && Arranged((p: Package) => (p.name, ""), input.packages, m.packages)
    && Arranged((p: Provenance) => (p.pkgBase, p.snapshot), input.provenance, m.provenance)
    && Arranged((s: Surface) => (s.kind, s.path), input.surfaces, m.surfaces)
    && Arranged((a: Adjudication) => (a.fingerprint, ""), input.adjudications, m.adjudications)
    && Arranged((f: string) => (f, ""), input.log.files, m.log.files)
    && Arranged((g: Gap) => (g.ruleId, g.subject), gaps, m.gaps)
  }

  /** The gaps of a package that was not read, in the order the packages came. */
  lemma {:induction false} UnreadExactly(packages: seq<Package>) returns (at: seq<nat>)
    ensures StoreTerms.Picks(packages, (p: Package) => p.mtree == "", at)
    ensures StoreTerms.Gathers(UnreadGaps(packages), packages, at,
                               (p: Package, i: nat) => Gap("baseline.mtree-unread", "pkg:" + p.name, p.unread))
    decreases |packages|
  {
    if packages == [] {
      at := [];
    } else {
      var init, last := packages[..|packages| - 1], packages[|packages| - 1];
      at := UnreadExactly(init);
      StoreTerms.PicksSnoc(init, last, (p: Package) => p.mtree == "", at);
      StoreTerms.GathersSnoc(UnreadGaps(init), init, last, at,
                             (p: Package, i: nat) => Gap("baseline.mtree-unread", "pkg:" + p.name, p.unread));
      assert packages == init + [last];
      at := if last.mtree == "" then at + [|init|] else at;
    }
  }

  /** A manifest of some input: its own fields, its lists in order, and for gaps those
      given, one for each package not read, and one each for a log whose beginning is not
      known and one not read to its end; complete when there are none. */
  lemma BuildsExactly(input: Input, m: Manifest) returns (unread: seq<Gap>, at: seq<nat>)
    ensures StoreTerms.Picks(input.packages, (p: Package) => p.mtree == "", at)
    ensures StoreTerms.Gathers(unread, input.packages, at,
                               (p: Package, i: nat) => Gap("baseline.mtree-unread", "pkg:" + p.name, p.unread))
    ensures var gaps := input.gaps + unread
        + ((if input.log.earliest == "" then [Gap("baseline.log-window-unknown", "/var/log/pacman.log", "no window")] else [])
           + if input.log.bounded then [Gap("baseline.log-bounded", "/var/log/pacman.log", "bounded")] else []);
      Builds(input, m) <==>
        && m.schema == 1 && m.host == input.host && m.root == input.root && m.createdAt == input.createdAt && m.tier == input.tier
        && m.log.earliest == input.log.earliest && m.log.latest == input.log.latest && m.log.bounded == input.log.bounded
        && InOrder(input, gaps, m) && (m.complete <==> gaps == [])
  {
    at := UnreadExactly(input.packages);
    unread := UnreadGaps(input.packages);
    var gaps := AllGaps(input);
    InOrderExactly(input, gaps, m);
    if multiset(gaps) == multiset(m.gaps) {
      Order.SameElements(gaps, m.gaps);
    }
  }

  lemma InOrderExactly(input: Input, gaps: seq<Gap>, m: Manifest)
    ensures InOrder(input, gaps, m) <==>
      && Order.SortedArrangement(By(PackageKey), input.packages, m.packages)
      && Order.SortedArrangement(By(ProvenanceKey), input.provenance, m.provenance)
      && Order.SortedArrangement(By(SurfaceKey), input.surfaces, m.surfaces)
      && Order.SortedArrangement(By(AdjudicationKey), input.adjudications, m.adjudications)
      && Order.SortedArrangement(By(FileKey), input.log.files, m.log.files)
      && Order.SortedArrangement(By(GapKey), gaps, m.gaps)
  {
    ArrangedExactly(PackageKey, (p: Package) => (p.name, ""), input.packages, m.packages);
    ArrangedExactly(ProvenanceKey, (p: Provenance) => (p.pkgBase, p.snapshot), input.provenance, m.provenance);
    ArrangedExactly(SurfaceKey, (s: Surface) => (s.kind, s.path), input.surfaces, m.surfaces);
    ArrangedExactly(AdjudicationKey, (a: Adjudication) => (a.fingerprint, ""), input.adjudications, m.adjudications);
    ArrangedExactly(FileKey, (f: string) => (f, ""), input.log.files, m.log.files);
    ArrangedExactly(GapKey, (g: Gap) => (g.ruleId, g.subject), gaps, m.gaps);
  }
}
