/** Two updaters at once: the lock keeps each save whole, and the floor from going
    back, and does not keep a version to one digest. */
module Forks {
  import opened Wrappers
  import opened Wire
  import opened Digest
  import opened Delegation
  import opened Floors
  import opened Bundles
  import opened BundleRuns
  import IndicatorSets
  import Text

  /** A run that takes a bundle, has a floor to record, and can spell the time. */
  ghost predicate Proposes(e: Env, i: Input, d: Document, b: Bundle) {
    Accepts(e, i, d, b) && Advances(i.floor, b, d.serial) && Spells(e, i.now)
  }

  ghost predicate Hashes(e: Env) {
    forall s :: |e.sha256(s)| == 32
  }

  /** What such a run proposes is its own bundle's version, digest and serial, and a
      save against the floor it loaded takes it. */
  lemma ProposedFloor(e: Env, disk: Disk, i: Input, d: Document, b: Bundle) returns (f: Floor)
    requires Hashes(e) && LoadFloor(e.w.stamp, disk) == Ok(i.floor) && Proposes(e, i, d, b)
    ensures Judge(e, i).state == Active && Judge(e, i).nextFloor == Some(f)
    ensures f.minVersion == b.version && f.headDigest == DigestOf(e, i.bundleRaw) && f.minSerial == d.serial
    ensures ValidFloor(e.w.stamp, f) && Encodes(f) && SaveFloor(e.w.stamp, disk, f) == Some(Stored(f))
  {
    AcceptedIsActive(e, i, d, b);
    AcceptedSettlesTheFloor(e, i, d, b);
    NextFloorPasses(e, i, disk);
    f := Judge(e, i).nextFloor.value;
  }

  /** Of two runs that loaded one floor, whatever each was served, the first always
      saves; the second exactly when neither its version nor its serial is below the
      first one's. No digest is looked at: the disk ends with another digest for the
      version it had exactly when the two bundles are of one version, the serials are
      in order and the raw bundles hash differently. */
  lemma RaceForksExactly(e: Env, disk: Disk, i: Input, d1: Document, b1: Bundle, j: Input, d2: Document, b2: Bundle)
    returns (f: Floor, g: Floor)
    requires Hashes(e) && LoadFloor(e.w.stamp, disk) == Ok(i.floor) && j.floor == i.floor
    requires Proposes(e, i, d1, b1) && Proposes(e, j, d2, b2)
    ensures Judge(e, i).state == Judge(e, j).state == Active
    ensures Judge(e, i).nextFloor == Some(f) && Judge(e, j).nextFloor == Some(g)
    ensures f.minVersion == b1.version && g.minVersion == b2.version
    ensures AfterSaves(e.w.stamp, disk, [Proposal(f, Synced)]) == Stored(f)
    ensures AfterSaves(e.w.stamp, disk, [Proposal(f, Synced), Proposal(g, Synced)])
         == Stored(if b2.version >= b1.version && d2.serial >= d1.serial then g else f)
    ensures b2.version >= b1.version && d2.serial >= d1.serial <==> SaveFloor(e.w.stamp, Stored(f), g).Some?
    ensures var end := AfterSaves(e.w.stamp, disk, [Proposal(f, Synced), Proposal(g, Synced)]).floor;
      end.minVersion == f.minVersion && end.headDigest != f.headDigest
      <==> b2.version == b1.version && d2.serial >= d1.serial && e.sha256(j.bundleRaw) != e.sha256(i.bundleRaw)
  {
    f := ProposedFloor(e, disk, i, d1, b1);
    g := ProposedFloor(e, disk, j, d2, b2);
    SecondSaveExactly(e.w.stamp, disk, f, g);
    ReplacesDigestExactly(e.w.stamp, f, g);
    DigestsTell(e, i.bundleRaw, j.bundleRaw);
  }

  lemma DigestsTell(e: Env, x: string, y: string)
    ensures DigestOf(e, x) == DigestOf(e, y) <==> e.sha256(x) == e.sha256(y)
  {
    if DigestOf(e, x) == DigestOf(e, y) {
      HexInjective(e.sha256(x), e.sha256(y));
    }
  }

  // -- such a pair ----------------------------------------------------------

  function Fill(b: byte): bytes {
    seq(32, _ => b)
  }

  const UNTIL := "until"

  function Reads(s: string): Option<int> {
    if s == UNTIL then Some(100) else Some(0)
  }

  /** A delegation of two roots to one online key, good from 0 to 100. */
  function Root(): Document {
    Document(SPEC_VERSION, 1, 1, "from", UNTIL, [SigningKey("online", "from", UNTIL)], false, "")
  }

  /** The first bundle of a channel, naming one bad package. */
  function First(name: string): Bundle {
    Bundle(SPEC_VERSION, 1, "from", UNTIL, GENESIS_PREV,
           IndicatorSets.Indicators([], [IndicatorSets.Name(name, "")], [], [], []))
  }

  function RootSigner(sig: bytes, raw: string, keys: seq<Key>): Option<Key> {
    if sig == [0] then Some("one") else Some("two")
  }

  /** Two published bundles, told apart by their length. */
  function Published(raw: string): Option<Bundle> {
    if |raw| == 1 then Some(First("a")) else Some(First("b"))
  }

  function SomeWorld(): World {
    World(Reads, s => Some(s), k => k, RootSigner, _ => Some(Root()))
  }

  function SomeEnv(): Env {
    Env(SomeWorld(), s => if |s| == 1 then Fill(0) else Fill(1), _ => "now", _ => true, (sig, raw, keys) => Some("online"), Published)
  }

  function Served(raw: string): Input {
    Input(RootSet(1, 2, ["one", "two"]), "d", [[0], [1]], raw, [], None, 50, 0)
  }

  lemma BothRootsSign()
    ensures DelegationOf(SomeWorld(), "d", [[0], [1]], RootSet(1, 2, ["one", "two"])) == Some(Root())
  {
    var w, r, sigs := SomeWorld(), RootSet(1, 2, ["one", "two"]), [[0], [1]];
    assert SignerOf(w, "d", r, sigs[0]) == Some("one") && SignerOf(w, "d", r, sigs[1]) == Some("two");
    assert "one"[0] != "two"[0];
    assert Signers(w, "d", r, sigs) == {"one", "two"};
    assert ThresholdMet(w, "d", r, sigs);
    assert ValidSigningKey(w, Root().signingKeys[0], 100);
    assert ValidDelegation(w, Root());
  }

  lemma FirstIsValid(name: string)
    requires name == "a" || name == "b"
    ensures ValidBundle(SomeEnv(), First(name)) && ActiveCount(First(name)) == 1
  {
    ZeroDigest();
    assert First(name).indicators.names[0].name == name;
    assert IndicatorSets.Valid(First(name).indicators);
  }

  lemma ServedIsTaken(raw: string)
    requires raw == "x" || raw == "yz"
    ensures Proposes(SomeEnv(), Served(raw), Root(), Published(raw).value)
  {
    Text.AsciiIsUtf8("now");
    BothRootsSign();
    FirstIsValid("a");
    FirstIsValid("b");
    var e, i := SomeEnv(), Served(raw);
    assert ActiveKeys(e.w, Root().signingKeys, 50) == ["online"];
    assert BundleOf(e, i.bundleRaw, i.bundleSig, ["online"]) == Published(raw);
  }

  /** There is such a pair: two updaters on a fresh host, each served one of two
      genuine first bundles, both take theirs and both record it, and version 1 has
      another digest than it had. */
  lemma TwoUpdatersFork() returns (e: Env, i: Input, j: Input, f: Floor, g: Floor)
    ensures Hashes(e) && i.floor == j.floor == None && i.roots == j.roots
    ensures Judge(e, i).state == Judge(e, j).state == Active
    ensures Judge(e, i).nextFloor == Some(f) && Judge(e, j).nextFloor == Some(g)
    ensures AfterSaves(e.w.stamp, Missing, [Proposal(f, Synced)]) == Stored(f)
    ensures AfterSaves(e.w.stamp, Missing, [Proposal(f, Synced), Proposal(g, Synced)]) == Stored(g)
    ensures f.minVersion == g.minVersion == 1 && f.headDigest != g.headDigest
  {
    e, i, j := SomeEnv(), Served("x"), Served("yz");
    ServedIsTaken("x");
    ServedIsTaken("yz");
    HashedApart();
    f, g := RaceForks(e, i, j, First("a"), First("b"));
  }

  lemma HashedApart()
    ensures Hashes(SomeEnv()) && SomeEnv().sha256("x") != SomeEnv().sha256("yz")
  {
    assert Fill(0)[0] != Fill(1)[0];
  }

  lemma RaceForks(e: Env, i: Input, j: Input, b1: Bundle, b2: Bundle) returns (f: Floor, g: Floor)
    requires Hashes(e) && i.floor == j.floor == None && e.sha256(i.bundleRaw) != e.sha256(j.bundleRaw)
    requires Proposes(e, i, Root(), b1) && Proposes(e, j, Root(), b2) && b1.version == b2.version == 1
    ensures Judge(e, i).state == Judge(e, j).state == Active
    ensures Judge(e, i).nextFloor == Some(f) && Judge(e, j).nextFloor == Some(g)
    ensures AfterSaves(e.w.stamp, Missing, [Proposal(f, Synced)]) == Stored(f)
    ensures AfterSaves(e.w.stamp, Missing, [Proposal(f, Synced), Proposal(g, Synced)]) == Stored(g)
    ensures f.minVersion == g.minVersion == 1 && f.headDigest != g.headDigest
  {
    f, g := RaceForksExactly(e, Missing, i, Root(), b1, j, Root(), b2);
  }

  // -- a floor that a power cut takes back ----------------------------------

  function TakenBy(e: Env, a: Attempt, d: Document, b: Bundle, reported: bool): Taken {
    Taken(a.bundleRaw, b, DigestOf(e, a.bundleRaw), d.serial, reported)
  }

  lemma RunRecords(e: Env, h: Host, a: Attempt, floor: Option<Floor>, d: Document, b: Bundle) returns (f: Floor)
    requires Hashes(e) && LoadFloor(e.w.stamp, Visible(h)) == Ok(floor) && Proposes(e, InputOf(a, floor), d, b)
    requires !a.write.NotRenamed?
    ensures AfterRun(e, h, a)
         == Placed(h, Stored(f), a.write).(taken := h.taken + [TakenBy(e, a, d, b, a.reports && a.write.Synced?)])
    ensures f.minVersion == b.version && f.headDigest == DigestOf(e, a.bundleRaw) && f.minSerial == d.serial
    ensures ValidFloor(e.w.stamp, f)
  {
    var i := InputOf(a, floor);
    AcceptedIsActive(e, i, d, b);
    f := ProposedFloor(e, Visible(h), i, d, b);
  }

  /** A bundle the floor is already at is taken again, and nothing is written. */
  lemma RunRepeats(e: Env, h: Host, a: Attempt, floor: Option<Floor>, f: Floor, d: Document, b: Bundle)
    requires Accepts(e, InputOf(a, floor), d, b)
    requires Visible(h) == Stored(f) && ValidFloor(e.w.stamp, f)
    requires f.minVersion == b.version && f.headDigest == DigestOf(e, a.bundleRaw) && f.minSerial == d.serial
    ensures AfterRun(e, h, a) == h.(taken := h.taken + [TakenBy(e, a, d, b, a.reports)])
  {
    AcceptedIsActive(e, InputOf(a, Some(f)), d, b);
  }

  /** A floor is put in place and not synced, a run finds it there and reports its
      bundle, the power goes, and a run against the floor that was there before takes
      and reports another. */
  function LossOf(h: Host, a: Attempt, c: Attempt): seq<Event> {
    [Ran(a), Ran(a), PowerCut(|h.later|), Ran(c)]
  }

  lemma FirstTwoRuns(e: Env, h: Host, floor: Option<Floor>, a: Attempt, d: Document, b: Bundle) returns (f: Floor)
    requires Hashes(e) && LoadFloor(e.w.stamp, Visible(h)) == Ok(floor) && Proposes(e, InputOf(a, floor), d, b)
    requires a.reports && a.write.Unsynced?
    ensures AfterRun(e, AfterRun(e, h, a), a)
         == Host(h.durable, h.later + [Stored(f)], h.taken + [TakenBy(e, a, d, b, false)] + [TakenBy(e, a, d, b, true)])
  {
    f := RunRecords(e, h, a, floor, d, b);
    RunRepeats(e, AfterRun(e, h, a), a, floor, f, d, b);
  }

  lemma LossIs(e: Env, h: Host, a: Attempt, c: Attempt)
    ensures AfterEvents(e, h, LossOf(h, a, c)) == AfterRun(e, AfterCut(AfterRun(e, AfterRun(e, h, a), a), |h.later|), c)
  {
    FourEvents(e, h, Ran(a), Ran(a), PowerCut(|h.later|), Ran(c));
  }

  lemma LostHost(h: Host, d: Disk, taken: seq<Taken>)
    ensures AfterCut(Host(h.durable, h.later + [d], taken), |h.later|) == Host(Visible(h), [], taken)
  {
  }

  lemma LossTakes(e: Env, h: Host, floor: Option<Floor>, a: Attempt, d1: Document, b1: Bundle, c: Attempt, d2: Document, b2: Bundle)
    requires Hashes(e) && LoadFloor(e.w.stamp, Visible(h)) == Ok(floor)
    requires Proposes(e, InputOf(a, floor), d1, b1) && Proposes(e, InputOf(c, floor), d2, b2)
    requires a.reports && a.write.Unsynced? && c.reports && c.write.Synced?
    ensures AfterEvents(e, h, LossOf(h, a, c)).taken
         == h.taken + [TakenBy(e, a, d1, b1, false)] + [TakenBy(e, a, d1, b1, true)] + [TakenBy(e, c, d2, b2, true)]
  {
    LossIs(e, h, a, c);
    var f := FirstTwoRuns(e, h, floor, a, d1, b1);
    var taken := h.taken + [TakenBy(e, a, d1, b1, false)] + [TakenBy(e, a, d1, b1, true)];
    LostHost(h, Stored(f), taken);
    var g := RunRecords(e, Host(Visible(h), [], taken), c, floor, d2, b2);
  }

  /** One digest for a version is a promise up to such a loss, and the loss breaks it
      exactly when the two bundles are of one version and hash differently. */
  lemma LostFloorForksExactly(e: Env, h: Host, floor: Option<Floor>, a: Attempt, d1: Document, b1: Bundle, c: Attempt, d2: Document,
                              b2: Bundle)
    requires Hashes(e) && LoadFloor(e.w.stamp, Visible(h)) == Ok(floor)
    requires Proposes(e, InputOf(a, floor), d1, b1) && Proposes(e, InputOf(c, floor), d2, b2)
    requires a.reports && a.write.Unsynced? && c.reports && c.write.Synced?
    ensures var after, n := AfterEvents(e, h, LossOf(h, a, c)).taken, |h.taken|;
      && |after| == n + 3 && h.taken <= after
      && var x, y := after[n + 1], after[n + 2];
         && x.reported && y.reported && x.bundle == b1 && y.bundle == b2
         && (x.bundle.version == y.bundle.version && x.digest != y.digest
             <==> b1.version == b2.version && e.sha256(a.bundleRaw) != e.sha256(c.bundleRaw))
  {
    LossTakes(e, h, floor, a, d1, b1, c, d2, b2);
    DigestsTell(e, a.bundleRaw, c.bundleRaw);
  }

  lemma FourEvents(e: Env, h: Host, p: Event, q: Event, r: Event, s: Event)
    ensures AfterEvents(e, h, [p, q, r, s]) == AfterEvent(e, AfterEvent(e, AfterEvent(e, AfterEvent(e, h, p), q), r), s)
  {
    OneEvent(e, h, [], p);
    OneEvent(e, h, [p], q);
    OneEvent(e, h, [p, q], r);
    OneEvent(e, h, [p, q, r], s);
    assert [] + [p] == [p] && [p] + [q] == [p, q] && [p, q] + [r] == [p, q, r] && [p, q, r] + [s] == [p, q, r, s];
  }

  lemma OneEvent(e: Env, h: Host, events: seq<Event>, ev: Event)
    ensures AfterEvents(e, h, events + [ev]) == AfterEvent(e, AfterEvents(e, h, events), ev)
  {
    assert (events + [ev])[..|events|] == events;
  }

  function Run(raw: string, write: Write): Attempt {
    Attempt(RootSet(1, 2, ["one", "two"]), "d", [[0], [1]], raw, [], 50, 0, write, true)
  }

  ghost predicate TwoDigests(taken: seq<Taken>) {
    && |taken| == 3 && taken[1].reported && taken[2].reported
    && taken[1].bundle.version == taken[2].bundle.version == 1 && taken[1].digest != taken[2].digest
  }

  lemma LossForks(e: Env, h: Host, a: Attempt, c: Attempt, b1: Bundle, b2: Bundle)
    requires Hashes(e) && h == Host(Missing, [], []) && e.sha256(a.bundleRaw) != e.sha256(c.bundleRaw)
    requires Proposes(e, InputOf(a, None), Root(), b1) && Proposes(e, InputOf(c, None), Root(), b2)
    requires b1.version == b2.version == 1 && a.reports && a.write.Unsynced? && c.reports && c.write.Synced?
    ensures TwoDigests(AfterEvents(e, h, LossOf(h, a, c)).taken)
  {
    LostFloorForksExactly(e, h, None, a, Root(), b1, c, Root(), b2);
  }

  lemma TwoDigestsHarm(e: Env, h: Host, events: seq<Event>)
    requires Fresh(e, h) && TwoDigests(AfterEvents(e, h, events).taken)
    ensures !HarmlessCuts(e, h, events)
  {
    if HarmlessCuts(e, h, events) {
      OneDigestPerVersion(e, h, events, 1, 2);
    }
  }

  /** There is such a history, on a fresh host: a cut brings back its having no floor,
      and two bundles of version 1 have been taken and reported. */
  lemma PowerCutForks() returns (e: Env, h: Host, events: seq<Event>)
    ensures h == Host(Missing, [], []) && Fresh(e, h)
    ensures |events| == 4 && events[2] == PowerCut(0) && !HarmlessCuts(e, h, events)
    ensures TwoDigests(AfterEvents(e, h, events).taken)
  {
    e, h := SomeEnv(), Host(Missing, [], []);
    events := LossOf(h, Run("x", Unsynced), Run("yz", Synced));
    ServedIsTaken("x");
    ServedIsTaken("yz");
    HashedApart();
    LossForks(e, h, Run("x", Unsynced), Run("yz", Synced), First("a"), First("b"));
    TwoDigestsHarm(e, h, events);
  }
}
