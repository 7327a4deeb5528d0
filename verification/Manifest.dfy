/** Assembling the baseline document that gets signed. */
module Manifests {
  import opened Times
  import opened Wrappers
  import opened Digest
  import opened Fields
  import Text
  import Order

  const MANIFEST_SCHEMA := 1
  const LOG_SUBJECT := "/var/log/pacman.log"

  datatype Package = Package(name: string, version: string, foreign: bool, mtree: string, mtreeBytes: Int64, unread: string)

  datatype Provenance = Provenance(pkgBase: string, snapshot: string, capturedAt: string)

  datatype Surface = Surface(kind: string, path: string, owner: string, state: string, sha256: string)

  datatype Adjudication = Adjudication(fingerprint: string, scope: string, reason: string, expiresAt: string, epoch: Int64)

  datatype LogWindow = LogWindow(earliest: string, latest: string, files: seq<string>, bounded: bool)

  datatype Gap = Gap(ruleId: string, subject: string, reason: string)

  datatype Input = Input(
    host: string, root: string, createdAt: string, tier: string, packages: seq<Package>, provenance: seq<Provenance>,
    surfaces: seq<Surface>, adjudications: seq<Adjudication>, log: LogWindow, gaps: seq<Gap>)

  datatype Manifest = Manifest(
    schema: int, host: string, root: string, createdAt: string, tier: string, packages: seq<Package>,
    provenance: seq<Provenance>, surfaces: seq<Surface>, adjudications: seq<Adjudication>, log: LogWindow,
    complete: bool, gaps: seq<Gap>)

  /** What a manifest is assembled with: the reading of timestamps, and whether the
      canonical encoder takes the result. */
  datatype World = World(stamp: Stamp, encodes: Manifest -> bool)

  // -- what is refused ------------------------------------------------------

  predicate Unstated(w: World, s: string) {
    s != "" && w.stamp(s).None?
  }

  predicate GoodPackage(p: Package) {
    p.name != "" && if p.mtree == "" then p.unread != "" else ValidDigest(p.mtree)
  }

  predicate GoodProvenance(w: World, p: Provenance) {
    p.pkgBase != "" && ValidDigest(p.snapshot) && !Unstated(w, p.capturedAt)
  }

  predicate GoodSurface(s: Surface) {
    s.path != "" && (s.sha256 != "" ==> ValidDigest(s.sha256))
  }

  predicate GoodAdjudication(w: World, a: Adjudication) {
    && a.fingerprint != "" && !Text.Blank(a.reason)
    && (a.scope == "pin" || a.scope == "subject" || a.scope == "rule") && !Unstated(w, a.expiresAt)
  }

  predicate GoodHeader(w: World, input: Input) {
    !Text.Blank(input.host) && input.root != "" && w.stamp(input.createdAt).Some? && !Text.Blank(input.tier)
  }

  ghost predicate Admissible(w: World, input: Input) {
    && GoodHeader(w, input)
    && (forall p :: p in input.packages ==> GoodPackage(p))
    && Order.DistinctBy((p: Package) => p.name, input.packages)
    && (forall p :: p in input.provenance ==> GoodProvenance(w, p))
    && (forall s :: s in input.surfaces ==> GoodSurface(s))
    && (forall a :: a in input.adjudications ==> GoodAdjudication(w, a))
    && !Unstated(w, input.log.earliest) && !Unstated(w, input.log.latest)
  }

  // -- what is not covered --------------------------------------------------

  function UnreadGap(p: Package): seq<Gap> {
    if p.mtree == "" then [Gap("baseline.mtree-unread", "pkg:" + p.name, p.unread)] else []
  }

  function UnreadGaps(packages: seq<Package>): seq<Gap>
    decreases |packages|
  {
    if packages == [] then [] else UnreadGaps(packages[..|packages| - 1]) + UnreadGap(packages[|packages| - 1])
  }

  const NO_WINDOW := Gap("baseline.log-window-unknown", LOG_SUBJECT, "no window")
  const BOUNDED_LOG := Gap("baseline.log-bounded", LOG_SUBJECT, "bounded")

  function LogGaps(log: LogWindow): seq<Gap> {
    (if log.earliest == "" then [NO_WINDOW] else []) + if log.bounded then [BOUNDED_LOG] else []
  }

  function AllGaps(input: Input): seq<Gap> {
    input.gaps + UnreadGaps(input.packages) + LogGaps(input.log)
  }

  // -- the orders it sorts by -----------------------------------------------

  function PackageKey(p: Package): (string, string) { (p.name, "") }
  function ProvenanceKey(p: Provenance): (string, string) { (p.pkgBase, p.snapshot) }
  function SurfaceKey(s: Surface): (string, string) { (s.kind, s.path) }
  function AdjudicationKey(a: Adjudication): (string, string) { (a.fingerprint, "") }
  function FileKey(f: string): (string, string) { (f, "") }
  function GapKey(g: Gap): (string, string) { (g.ruleId, g.subject) }

  function By<T>(key: T -> (string, string)): (T, T) -> bool {
    (x, y) => Order.PairLeq(key(x), key(y))
  }

  /** `m` is a manifest of `input`: each list holds what was given, sorted by its key
      and by nothing else, as a sort that promises no more would leave it. */
  ghost predicate Builds(input: Input, m: Manifest) {
    && m.schema == MANIFEST_SCHEMA
    && m.host == input.host && m.root == input.root && m.createdAt == input.createdAt && m.tier == input.tier
    && Order.SortedArrangement(By(PackageKey), input.packages, m.packages)
    && Order.SortedArrangement(By(ProvenanceKey), input.provenance, m.provenance)
    && Order.SortedArrangement(By(SurfaceKey), input.surfaces, m.surfaces)
    && Order.SortedArrangement(By(AdjudicationKey), input.adjudications, m.adjudications)
    && Order.SortedArrangement(By(FileKey), input.log.files, m.log.files)
    && m.log.earliest == input.log.earliest && m.log.latest == input.log.latest && m.log.bounded == input.log.bounded
    && Order.SortedArrangement(By(GapKey), AllGaps(input), m.gaps)
    && (m.complete <==> m.gaps == [])
  }

  // -- as it runs -----------------------------------------------------------

  lemma KeysOrder<T(!new)>(key: T -> (string, string), s: seq<T>)
    ensures Order.TotalOn(By(key), s)
  {
    forall x, y ensures By(key)(x, y) || By(key)(y, x) {
      Order.PairLeqTotal(key(x), key(y));
    }
    forall x, y, z | By(key)(x, y) && By(key)(y, z) ensures By(key)(x, z) {
      Order.PairLeqTransitive(key(x), key(y), key(z));
    }
  }

  lemma SortArranges<T(!new)>(key: T -> (string, string), s: seq<T>)
    ensures Order.SortedArrangement(By(key), s, Order.Sort(By(key), s))
  {
    KeysOrder(key, s);
    Order.SortSorts(By(key), s);
    Order.SortPermutes(By(key), s);
  }

  method SortBy<T(!new)>(key: T -> (string, string), s: seq<T>) returns (t: seq<T>)
    ensures Order.SortedArrangement(By(key), s, t)
  {
    t := Order.Sort(By(key), s);
    SortArranges(key, s);
  }

  function NamesOf(packages: seq<Package>): set<string> {
    set p | p in packages :: p.name
  }

  /** One package more: its name joins the others, and no name is repeated so far
      exactly when none was and it is new. */
  lemma NamesSnoc(packages: seq<Package>, i: nat)
    requires i < |packages|
    ensures NamesOf(packages[..i + 1]) == NamesOf(packages[..i]) + {packages[i].name}
    ensures var name := (p: Package) => p.name;
      Order.DistinctBy(name, packages[..i]) && packages[i].name !in NamesOf(packages[..i])
      ==> Order.DistinctBy(name, packages[..i + 1])
    ensures packages[i].name in NamesOf(packages[..i]) ==> !Order.DistinctBy((p: Package) => p.name, packages)
  {
    var before, after := packages[..i], packages[..i + 1];
    assert after == before + [packages[i]];
    if packages[i].name in NamesOf(before) {
      var p :| p in before && p.name == packages[i].name;
      var k :| 0 <= k < i && packages[k] == p;
      var name := (p: Package) => p.name;
      assert name(packages[k]) == name(packages[i]);
    }
  }

  method CollectPackages(good: Package -> bool, packages: seq<Package>) returns (ok: bool, gaps: seq<Gap>)
    ensures ok <==> (forall p :: p in packages ==> good(p)) && Order.DistinctBy((p: Package) => p.name, packages)
    ensures ok ==> gaps == UnreadGaps(packages)
  {
    gaps := [];
    var seen: set<string> := {};
    for i := 0 to |packages|
      invariant forall k :: 0 <= k < i ==> good(packages[k])
      invariant seen == NamesOf(packages[..i]) && Order.DistinctBy((p: Package) => p.name, packages[..i])
      invariant gaps == UnreadGaps(packages[..i])
    {
      NamesSnoc(packages, i);
      var p := packages[i];
      if p.name in seen {
        return false, [];
      }
      if !good(p) {
        return false, [];
      }
      seen := seen + {p.name};
      gaps := gaps + UnreadGap(p);
      assert packages[..i + 1][..i] == packages[..i];
    }
    assert packages[..|packages|] == packages;
    return true, gaps;
  }

  method AllGood<T>(good: T -> bool, s: seq<T>) returns (ok: bool)
    ensures ok <==> forall x :: x in s ==> good(x)
  {
    for i := 0 to |s|
      invariant forall k :: 0 <= k < i ==> good(s[k])
    {
      if !good(s[i]) {
        return false;
      }
    }
    return true;
  }

  method CheckRecords(w: World, input: Input) returns (ok: bool)
    ensures ok <==>
      && (forall p :: p in input.provenance ==> GoodProvenance(w, p))
      && (forall s :: s in input.surfaces ==> GoodSurface(s))
      && (forall a :: a in input.adjudications ==> GoodAdjudication(w, a))
  {
    ok := AllGood(p => GoodProvenance(w, p), input.provenance);
    if ok {
      ok := AllGood(GoodSurface, input.surfaces);
    }
    if ok {
      ok := AllGood(a => GoodAdjudication(w, a), input.adjudications);
    }
  }

  method BuildManifest(w: World, input: Input) returns (r: Option<Manifest>)
    ensures r.Some? ==> Admissible(w, input) && Builds(input, r.value) && w.encodes(r.value)
    ensures r.None? ==> !Admissible(w, input) || exists m :: Builds(input, m) && !w.encodes(m)
  {
    if !GoodHeader(w, input) {
      return None;
    }
    var ok, gaps := CollectPackages(GoodPackage, input.packages);
    if !ok {
      return None;
    }
    ok := CheckRecords(w, input);
    if !ok || Unstated(w, input.log.earliest) || Unstated(w, input.log.latest) {
      return None;
    }
    var m := Arrange(input, input.gaps + gaps + LogGaps(input.log));
    if !w.encodes(m) {
      return None;
    }
    return Some(m);
  }

  method Arrange(input: Input, gaps: seq<Gap>) returns (m: Manifest)
    requires gaps == AllGaps(input)
    ensures Builds(input, m)
  {
    var packages := SortBy(PackageKey, input.packages);
    var provenance := SortBy(ProvenanceKey, input.provenance);
    var surfaces := SortBy(SurfaceKey, input.surfaces);
    var adjudications := SortBy(AdjudicationKey, input.adjudications);
    var files := SortBy(FileKey, input.log.files);
    var sorted := SortBy(GapKey, gaps);
    m := Manifest(MANIFEST_SCHEMA, input.host, input.root, input.createdAt, input.tier, packages, provenance, surfaces, adjudications,
                  LogWindow(input.log.earliest, input.log.latest, files, input.log.bounded), |sorted| == 0, sorted);
  }

  // -- what the document says -----------------------------------------------

  /** A manifest is complete exactly when nothing was reported missing, every mtree
      was read, the log's beginning is known and the log was read to its end. */
  lemma CompleteExactly(input: Input, m: Manifest)
    requires Builds(input, m)
    ensures m.complete <==>
      && input.gaps == []
      && (forall p :: p in input.packages ==> p.mtree != "")
      && input.log.earliest != "" && !input.log.bounded
  {
    Order.SameElements(AllGaps(input), m.gaps);
    UnreadExactly(input.packages);
  }

  lemma {:induction false} UnreadExactly(packages: seq<Package>)
    ensures UnreadGaps(packages) == [] <==> forall p :: p in packages ==> p.mtree != ""
    decreases |packages|
  {
    if packages == [] {
    } else {
      var init, last := packages[..|packages| - 1], packages[|packages| - 1];
      UnreadExactly(init);
      assert packages == init + [last];
      assert forall p :: p in packages <==> p in init || p == last;
    }
  }

  /** No two different records of one list share the key it is sorted by. */
  ghost predicate NoTies(input: Input) {
    && Order.AntisymmetricOn(By(PackageKey), input.packages)
    && Order.AntisymmetricOn(By(ProvenanceKey), input.provenance)
    && Order.AntisymmetricOn(By(SurfaceKey), input.surfaces)
    && Order.AntisymmetricOn(By(AdjudicationKey), input.adjudications)
    && Order.AntisymmetricOn(By(FileKey), input.log.files)
    && Order.AntisymmetricOn(By(GapKey), AllGaps(input))
  }

  ghost predicate Determined(input: Input) {
    forall m, m' :: Builds(input, m) && Builds(input, m') ==> m == m'
  }

  /** The manifest is settled by what was measured exactly when no two different
      records of a list tie: the order things are supplied in, and the way they are
      sorted, then leave no trace, and otherwise they do. */
  lemma DeterminedExactly(input: Input)
    ensures Determined(input) <==> NoTies(input)
  {
    if NoTies(input) {
      forall m, m' | Builds(input, m) && Builds(input, m') ensures m == m' {
        SameLists(input, m, m');
      }
    } else {
      var m, m' := TwoManifests(input);
    }
  }

  lemma OneKeyTies<T(!new)>(key: T -> (string, string), s: seq<T>, x: T, y: T)
    requires x in s && y in s && x != y && key(x) == key(y)
    ensures !Order.AntisymmetricOn(By(key), s)
  {
    Order.PairLeqTotal(key(x), key(y));
    assert By(key)(x, y) && By(key)(y, x);
  }

  function Owned(owner: string): Surface {
    Surface("k", "p", owner, "s", "")
  }

  lemma TwoOwners(s: seq<Surface>)
    requires s == [Owned("one"), Owned("two")]
    ensures !Order.AntisymmetricOn(By(SurfaceKey), s)
  {
    assert s[0].owner[0] != s[1].owner[0];
    OneKeyTies(SurfaceKey, s, s[0], s[1]);
  }

  lemma OneLetter(c: char)
    requires 'a' <= c <= 'z'
    ensures !Text.Blank([c])
  {
  }

  lemma Bare(w: World, input: Input, surfaces: seq<Surface>)
    requires input == Input("h", "/", "t", "l", [], [], surfaces, [], LogWindow("", "", [], false), [])
    requires w.stamp("t").Some? && forall s :: s in surfaces ==> GoodSurface(s)
    ensures Admissible(w, input)
  {
    OneLetter('h');
    OneLetter('l');
  }

  /** There is an input it does not settle: one path of one kind, owned by each of two
      packages. */
  lemma SomeInputTies() returns (w: World, input: Input)
    ensures Admissible(w, input) && !Determined(input)
  {
    var surfaces := [Owned("one"), Owned("two")];
    w := World(s => Some(0), m => true);
    input := Input("h", "/", "t", "l", [], [], surfaces, [], LogWindow("", "", [], false), []);
    Bare(w, input, surfaces);
    Ties(input);
  }

  lemma Ties(input: Input)
    requires input.surfaces == [Owned("one"), Owned("two")]
    ensures !Determined(input)
  {
    TwoOwners(input.surfaces);
    DeterminedExactly(input);
  }

  lemma Unique<T(!new)>(key: T -> (string, string), s: seq<T>, t: seq<T>, t': seq<T>)
    requires Order.AntisymmetricOn(By(key), s)
    requires Order.SortedArrangement(By(key), s, t) && Order.SortedArrangement(By(key), s, t')
    ensures t == t'
  {
    KeysOrder(key, s);
    Order.ArrangementDeterminedExactly(By(key), s);
  }

  lemma SameLists(input: Input, m: Manifest, m': Manifest)
    requires NoTies(input) && Builds(input, m) && Builds(input, m')
    ensures m == m'
  {
    Unique(PackageKey, input.packages, m.packages, m'.packages);
    Unique(ProvenanceKey, input.provenance, m.provenance, m'.provenance);
    Unique(SurfaceKey, input.surfaces, m.surfaces, m'.surfaces);
    Unique(AdjudicationKey, input.adjudications, m.adjudications, m'.adjudications);
    Unique(FileKey, input.log.files, m.log.files, m'.log.files);
    Unique(GapKey, AllGaps(input), m.gaps, m'.gaps);
  }

  lemma SomeManifest(input: Input) returns (m: Manifest)
    ensures Builds(input, m)
  {
    SortArranges(PackageKey, input.packages);
    SortArranges(ProvenanceKey, input.provenance);
    SortArranges(SurfaceKey, input.surfaces);
    SortArranges(AdjudicationKey, input.adjudications);
    SortArranges(FileKey, input.log.files);
    SortArranges(GapKey, AllGaps(input));
    var gaps := Order.Sort(By(GapKey), AllGaps(input));
    m := Manifest(MANIFEST_SCHEMA, input.host, input.root, input.createdAt, input.tier,
                  Order.Sort(By(PackageKey), input.packages), Order.Sort(By(ProvenanceKey), input.provenance),
                  Order.Sort(By(SurfaceKey), input.surfaces), Order.Sort(By(AdjudicationKey), input.adjudications),
                  input.log.(files := Order.Sort(By(FileKey), input.log.files)), gaps == [], gaps);
  }

  lemma TwoArrangements<T(!new)>(key: T -> (string, string), s: seq<T>) returns (t: seq<T>, t': seq<T>)
    requires !Order.AntisymmetricOn(By(key), s)
    ensures Order.SortedArrangement(By(key), s, t) && Order.SortedArrangement(By(key), s, t') && t != t'
  {
    KeysOrder(key, s);
    Order.ArrangementDeterminedExactly(By(key), s);
    t, t' :| Order.SortedArrangement(By(key), s, t) && Order.SortedArrangement(By(key), s, t') && t != t';
  }

  lemma TwoManifests(input: Input) returns (m: Manifest, m': Manifest)
    requires !NoTies(input)
    ensures Builds(input, m) && Builds(input, m') && m != m'
  {
    m := SomeManifest(input);
    if !Order.AntisymmetricOn(By(PackageKey), input.packages) {
      var t, t' := TwoArrangements(PackageKey, input.packages);
      m, m' := m.(packages := t), m.(packages := t');
    } else if !Order.AntisymmetricOn(By(ProvenanceKey), input.provenance) {
      var t, t' := TwoArrangements(ProvenanceKey, input.provenance);
      m, m' := m.(provenance := t), m.(provenance := t');
    } else if !Order.AntisymmetricOn(By(SurfaceKey), input.surfaces) {
      var t, t' := TwoArrangements(SurfaceKey, input.surfaces);
      m, m' := m.(surfaces := t), m.(surfaces := t');
    } else if !Order.AntisymmetricOn(By(AdjudicationKey), input.adjudications) {
      var t, t' := TwoArrangements(AdjudicationKey, input.adjudications);
      m, m' := m.(adjudications := t), m.(adjudications := t');
    } else if !Order.AntisymmetricOn(By(FileKey), input.log.files) {
      var t, t' := TwoArrangements(FileKey, input.log.files);
      m, m' := m.(log := m.log.(files := t)), m.(log := m.log.(files := t'));
    } else {
      var t, t' := TwoArrangements(GapKey, AllGaps(input));
      Order.SameElements(t, t');
      m, m' := m.(gaps := t, complete := t == []), m.(gaps := t', complete := t' == []);
    }
  }

  /** One measurement, whatever order its lists came in. */
  ghost predicate SameMeasurement(a: Input, b: Input) {
    && a.host == b.host && a.root == b.root && a.createdAt == b.createdAt && a.tier == b.tier
    && multiset(a.packages) == multiset(b.packages) && multiset(a.provenance) == multiset(b.provenance)
    && multiset(a.surfaces) == multiset(b.surfaces) && multiset(a.adjudications) == multiset(b.adjudications)
    && multiset(a.log.files) == multiset(b.log.files) && a.log.(files := []) == b.log.(files := [])
    && multiset(a.gaps) == multiset(b.gaps)
  }

  lemma {:induction false} UnreadGapsPermute(s: seq<Package>, t: seq<Package>)
    requires multiset(s) == multiset(t)
    ensures multiset(UnreadGaps(s)) == multiset(UnreadGaps(t))
    decreases |s|
  {
    Order.SameElements(s, t);
    if s == [] {
    } else {
      var k := Order.PullOut(s, t);
      UnreadGapsPermute(s[1..], t[..k] + t[k + 1..]);
      assert s == [] + ([s[0]] + s[1..]) && [] + s[1..] == s[1..];
      UnreadGapsPull([], s[0], s[1..]);
      UnreadGapsPull(t[..k], s[0], t[k + 1..]);
    }
  }

  lemma {:induction false} UnreadGapsPull(a: seq<Package>, p: Package, b: seq<Package>)
    ensures multiset(UnreadGaps(a + ([p] + b))) == multiset(UnreadGaps(a + b)) + multiset(UnreadGap(p))
    decreases |b|
  {
    if b == [] {
      assert a + ([p] + b) == a + [p] && a + b == a && (a + [p])[..|a|] == a;
    } else {
      var n := |b| - 1;
      assert a + ([p] + b) == (a + ([p] + b[..n])) + [b[n]] && a + b == (a + b[..n]) + [b[n]];
      assert ((a + ([p] + b[..n])) + [b[n]])[..|a| + |b|] == a + ([p] + b[..n]);
      assert ((a + b[..n]) + [b[n]])[..|a| + n] == a + b[..n];
      UnreadGapsPull(a, p, b[..n]);
    }
  }

  /** Two accounts of one measurement allow the same manifests: where no two records
      tie, there is the one document to sign. */
  lemma OrderLeavesNoTrace(a: Input, b: Input, m: Manifest)
    requires SameMeasurement(a, b)
    ensures Builds(a, m) <==> Builds(b, m)
  {
    UnreadGapsPermute(a.packages, b.packages);
    GapsPermute(a, b);
  }

  lemma GapsPermute(a: Input, b: Input)
    requires SameMeasurement(a, b) && multiset(UnreadGaps(a.packages)) == multiset(UnreadGaps(b.packages))
    ensures multiset(AllGaps(a)) == multiset(AllGaps(b))
  {
    assert a.log.earliest == a.log.(files := []).earliest && b.log.earliest == b.log.(files := []).earliest;
    assert a.log.bounded == a.log.(files := []).bounded && b.log.bounded == b.log.(files := []).bounded;
  }
}
