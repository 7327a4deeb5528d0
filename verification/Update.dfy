/** Verifying an indicator bundle, and what a host's runs of it add up to. */
module Bundles {
  import opened Times
  import opened Wrappers
  import opened Wire
  import opened Digest
  import opened Delegation
  import opened Floors
  import IndicatorSets
  import Text

  const MAX_BUNDLE_BYTES := 0x40_0000
  const GENESIS_PREV := ZEROS + ZEROS + ZEROS + ZEROS
  const DEFAULT_MAX_SILENCE := 14 * DAY

  datatype Bundle = Bundle(specVersion: int, version: int, issuedAt: string, validUntil: string, prevDigest: string,
                           indicators: IndicatorSets.Indicators)

  /** What the bundle is checked with, beside what a delegation is. */
  datatype Env = Env(
    w: World,
    sha256: string -> bytes,
    format: int -> string,
    hardware: Key -> bool,
    bundleSigner: (bytes, string, seq<Key>) -> Option<Key>,
    decodeBundle: string -> Option<Bundle>)

  datatype Input = Input(roots: RootSet, delegationRaw: string, delegationSigs: seq<bytes>, bundleRaw: string,
                         bundleSig: bytes, floor: Option<Floor>, now: int, maxSilence: int)

  datatype State = Unavailable | RefusedState | ExpiredState | Active

  datatype Reason = NoRoots | NoDelegation | BadDelegation | StaleDelegation | Retired | DelegationExpired | NoOnlineKey
                  | BadBundle | Rollback | ForkedVersion | ForkedLink | EmptyBundle | UnreadableExpiry

  datatype Gap = SoftwareRoots | Refusal(why: Reason) | NoBundleCached | SkippedVersions | InertIndicator | CountDropped
               | BundleExpired | Silence

  datatype Status = Status(state: State, refusal: Option<Reason>, upgradeMessage: string, bundle: Option<Bundle>,
                           digest: string, serial: int, gaps: seq<Gap>, nextFloor: Option<Floor>)

  predicate UsableIndicators(s: State) {
    s == Active || s == ExpiredState
  }

  predicate CoverageComplete(s: State) {
    s == Active
  }

  /** What this build can act on in a bundle, and what it can only carry. */
  function ActiveCount(b: Bundle): nat {
    IndicatorSets.ActiveIn(b.indicators)
  }

  function InertCount(b: Bundle): nat {
    IndicatorSets.InertIn(b.indicators)
  }

  predicate ValidHeader(e: Env, b: Bundle) {
    && b.specVersion == SPEC_VERSION && b.version >= 1
    && e.w.stamp(b.issuedAt).Some? && e.w.stamp(b.validUntil).Some?
    && e.w.stamp(b.issuedAt).value < e.w.stamp(b.validUntil).value
    && ValidDigest(b.prevDigest)
    && (b.version == 1 <==> b.prevDigest == GENESIS_PREV)
  }

  ghost predicate ValidBundle(e: Env, b: Bundle) {
    ValidHeader(e, b) && IndicatorSets.Valid(b.indicators)
  }

  /** The bundle some bytes are, once an online key has signed them. */
  ghost function BundleOf(e: Env, raw: string, sig: bytes, online: seq<Key>): Option<Bundle> {
    if |raw| > MAX_BUNDLE_BYTES || e.bundleSigner(sig, raw, online).None? then None
    else
      match e.decodeBundle(raw)
      case None => None
      case Some(b) => if ValidBundle(e, b) then Some(b) else None
  }

  method ParseBundle(e: Env, raw: string, sig: bytes, online: seq<Key>) returns (b: Option<Bundle>)
    ensures b == BundleOf(e, raw, sig, online)
  {
    if |raw| > MAX_BUNDLE_BYTES || e.bundleSigner(sig, raw, online).None? {
      return None;
    }
    b := e.decodeBundle(raw);
    if b.None? || !ValidHeader(e, b.value) {
      return None;
    }
    var valid := IndicatorSets.ValidateIndicators(b.value.indicators);
    return if valid then b else None;
  }

  function DigestOf(e: Env, raw: string): string {
    Hex(e.sha256(raw))
  }

  predicate HasSoftwareKey(e: Env, keys: seq<Key>) {
    exists i :: 0 <= i < |keys| && !e.hardware(keys[i])
  }

  /** How a bundle disagrees with the floor: below it, another at its version, or
      next after it without naming it. */
  function FloorFault(floor: Option<Floor>, b: Bundle, digest: string): Option<Reason> {
    if floor.None? || floor.value.minVersion <= 0 then None
    else if b.version < floor.value.minVersion then Some(Rollback)
    else if b.version == floor.value.minVersion then if digest != floor.value.headDigest then Some(ForkedVersion) else None
    else if b.version == floor.value.minVersion + 1 && b.prevDigest != floor.value.headDigest then Some(ForkedLink)
    else None
  }

  predicate Skips(floor: Option<Floor>, b: Bundle) {
    floor.Some? && floor.value.minVersion > 0 && b.version > floor.value.minVersion + 1
  }

  function FloorVersion(floor: Option<Floor>): int {
    match floor case None => 0 case Some(f) => f.minVersion
  }

  function FloorSerial(floor: Option<Floor>): int {
    match floor case None => 0 case Some(f) => f.minSerial
  }

  function MaxInt(a: int, b: int): int {
    if a > b then a else b
  }

  predicate Silent(e: Env, i: Input) {
    i.floor.Some? && i.floor.value.acceptedAt != "" &&
    match e.w.stamp(i.floor.value.acceptedAt)
    case None => false
    case Some(accepted) => i.now - accepted > if i.maxSilence <= 0 then DEFAULT_MAX_SILENCE else i.maxSilence
  }

  predicate Advances(floor: Option<Floor>, b: Bundle, serial: int) {
    floor.None? || b.version > floor.value.minVersion || serial > floor.value.minSerial
  }

  function NextFloor(e: Env, i: Input, b: Bundle, serial: int): Floor {
    Floor(FLOOR_SCHEMA, MaxInt(b.version, FloorVersion(i.floor)), DigestOf(e, i.bundleRaw),
          MaxInt(serial, FloorSerial(i.floor)), ActiveCount(b), i.roots.generation, e.format(i.now), e.format(i.now))
  }

  // -- the pipeline, as a value ---------------------------------------------

  function WithGap(st: Status, g: Gap): Status {
    st.(gaps := st.gaps + [g])
  }

  function Refuse(st: Status, why: Reason): Status {
    WithGap(st.(state := RefusedState, refusal := Some(why)), Refusal(why))
  }

  function WithSilence(e: Env, i: Input, st: Status): Status {
    if Silent(e, i) then WithGap(st, Silence) else st
  }

  function Repeat(g: Gap, n: nat): seq<Gap> {
    seq(n, _ => g)
  }

  function Begin(e: Env, i: Input): Status {
    var st := Status(Unavailable, None, "", None, "", 0, [], None);
    if !Empty(i.roots) && HasSoftwareKey(e, i.roots.keys) then WithGap(st, SoftwareRoots) else st
  }

  ghost function Judge(e: Env, i: Input): Status {
    var st := Begin(e, i);
    if Empty(i.roots) then Refuse(st, NoRoots)
    else if i.bundleRaw == "" && i.delegationRaw == "" then WithSilence(e, i, WithGap(st, NoBundleCached))
    else if i.delegationRaw == "" then Refuse(st, NoDelegation)
    else
      match DelegationOf(e.w, i.delegationRaw, i.delegationSigs, i.roots)
      case None => Refuse(st, BadDelegation)
      case Some(d) => JudgeDelegated(e, i, st.(serial := d.serial), d)
  }

  ghost function JudgeDelegated(e: Env, i: Input, st: Status, d: Document): Status {
    var online := ActiveKeys(e.w, d.signingKeys, i.now);
    if i.floor.Some? && d.serial < i.floor.value.minSerial then Refuse(st, StaleDelegation)
    else if d.rootSetRetired then Refuse(st.(upgradeMessage := d.upgradeMessage), Retired)
    else if Expired(e.w, d, i.now) then Refuse(st, DelegationExpired)
    else if online == [] then Refuse(st, NoOnlineKey)
    else if i.bundleRaw == "" then WithSilence(e, i, WithGap(st, NoBundleCached))
    else
      match BundleOf(e, i.bundleRaw, i.bundleSig, online)
      case None => Refuse(st, BadBundle)
      case Some(b) => JudgeBundle(e, i, st.(bundle := Some(b), digest := DigestOf(e, i.bundleRaw)), d.serial, b)
  }

  function JudgeBundle(e: Env, i: Input, st: Status, serial: int, b: Bundle): Status {
    var fault := FloorFault(i.floor, b, DigestOf(e, i.bundleRaw));
    if fault.Some? then Refuse(st, fault.value)
    else
      var st1 := if Skips(i.floor, b) then WithGap(st, SkippedVersions) else st;
      if ActiveCount(b) == 0 then Refuse(st1, EmptyBundle)
      else
        var st2 := st1.(gaps := st1.gaps + Repeat(InertIndicator, InertCount(b)));
        var st3 := if i.floor.Some? && i.floor.value.indicatorCount > ActiveCount(b) then WithGap(st2, CountDropped) else st2;
        match e.w.stamp(b.validUntil)
        case None => Refuse(st3, UnreadableExpiry)
        case Some(until) =>
          if i.now >= until then WithSilence(e, i, WithGap(st3.(state := ExpiredState), BundleExpired))
          else
            var st4 := WithSilence(e, i, st3.(state := Active));
            if Advances(i.floor, b, serial) then st4.(nextFloor := Some(NextFloor(e, i, b, serial))) else st4
  }

  // -- the pipeline, as it runs ---------------------------------------------

  method Verify(e: Env, i: Input) returns (st: Status)
    requires PairwiseDistinct(i.roots.keys)
    ensures st == Judge(e, i)
  {
    st := Status(Unavailable, None, "", None, "", 0, [], None);
    if Empty(i.roots) {
      return Refuse(st, NoRoots);
    }
    if HasSoftwareKey(e, i.roots.keys) {
      st := WithGap(st, SoftwareRoots);
    }
    if i.bundleRaw == "" && i.delegationRaw == "" {
      st := WithGap(st, NoBundleCached);
      return WithSilence(e, i, st);
    }
    if i.delegationRaw == "" {
      return Refuse(st, NoDelegation);
    }
    var d := VerifyDelegation(e.w, i.delegationRaw, i.delegationSigs, i.roots);
    if d.None? {
      return Refuse(st, BadDelegation);
    }
    st := st.(serial := d.value.serial);
    st := CheckDelegated(e, i, st, d.value);
  }

  method CheckDelegated(e: Env, i: Input, st0: Status, d: Document) returns (st: Status)
    ensures st == JudgeDelegated(e, i, st0, d)
  {
    st := st0;
    if i.floor.Some? && d.serial < i.floor.value.minSerial {
      return Refuse(st, StaleDelegation);
    }
    if d.rootSetRetired {
      st := st.(upgradeMessage := d.upgradeMessage);
      return Refuse(st, Retired);
    }
    if Expired(e.w, d, i.now) {
      return Refuse(st, DelegationExpired);
    }
    var online := SelectActiveKeys(e.w, d.signingKeys, i.now);
    if online == [] {
      return Refuse(st, NoOnlineKey);
    }
    if i.bundleRaw == "" {
      st := WithGap(st, NoBundleCached);
      return WithSilence(e, i, st);
    }
    var b := ParseBundle(e, i.bundleRaw, i.bundleSig, online);
    if b.None? {
      return Refuse(st, BadBundle);
    }
    st := st.(bundle := b, digest := DigestOf(e, i.bundleRaw));
    st := CheckBundle(e, i, st, d.serial, b.value);
  }

  method CheckBundle(e: Env, i: Input, st0: Status, serial: int, b: Bundle) returns (st: Status)
    requires st0.digest == DigestOf(e, i.bundleRaw)
    ensures st == JudgeBundle(e, i, st0, serial, b)
  {
    st := st0;
    if i.floor.Some? && i.floor.value.minVersion > 0 {
      var f := i.floor.value;
      if b.version < f.minVersion {
        return Refuse(st, Rollback);
      } else if b.version == f.minVersion {
        if st.digest != f.headDigest {
          return Refuse(st, ForkedVersion);
        }
      } else if b.version == f.minVersion + 1 {
        if b.prevDigest != f.headDigest {
          return Refuse(st, ForkedLink);
        }
      } else {
        st := WithGap(st, SkippedVersions);
      }
    }
    var active, inert := IndicatorSets.Count(b.indicators);
    if active == 0 {
      return Refuse(st, EmptyBundle);
    }
    ghost var before := st.gaps;
    for k := 0 to inert
      invariant st == st0.(gaps := before + Repeat(InertIndicator, k))
    {
      st := WithGap(st, InertIndicator);
      assert before + Repeat(InertIndicator, k) + [InertIndicator] == before + Repeat(InertIndicator, k + 1);
    }
    if i.floor.Some? && i.floor.value.indicatorCount > active {
      st := WithGap(st, CountDropped);
    }
    var until := e.w.stamp(b.validUntil);
    if until.None? {
      return Refuse(st, UnreadableExpiry);
    }
    if i.now >= until.value {
      st := WithGap(st.(state := ExpiredState), BundleExpired);
      return WithSilence(e, i, st);
    }
    st := WithSilence(e, i, st.(state := Active));
    if Advances(i.floor, b, serial) {
      st := st.(nextFloor := Some(NextFloor(e, i, b, serial)));
    }
  }

  // -- what a status means --------------------------------------------------

  /** Everything that must hold for a bundle to be taken as current. */
  ghost predicate Accepts(e: Env, i: Input, d: Document, b: Bundle) {
    && !Empty(i.roots)
    && i.delegationRaw != "" && DelegationOf(e.w, i.delegationRaw, i.delegationSigs, i.roots) == Some(d)
    && d.serial >= FloorSerial(i.floor)
    && !d.rootSetRetired && !Expired(e.w, d, i.now)
    && i.bundleRaw != "" && ActiveKeys(e.w, d.signingKeys, i.now) != []
    && BundleOf(e, i.bundleRaw, i.bundleSig, ActiveKeys(e.w, d.signingKeys, i.now)) == Some(b)
    && FloorFault(i.floor, b, DigestOf(e, i.bundleRaw)) == None
    && ActiveCount(b) > 0
    && i.now < e.w.stamp(b.validUntil).value
  }

  /** What passes every check is Active, with that bundle, its digest and the floor
      to record. */
  lemma AcceptedIsActive(e: Env, i: Input, d: Document, b: Bundle)
    ensures Accepts(e, i, d, b) ==>
      var st := Judge(e, i);
      && st.state == Active && st.bundle == Some(b) && st.serial == d.serial && st.digest == DigestOf(e, i.bundleRaw)
      && st.nextFloor == if Advances(i.floor, b, d.serial) then Some(NextFloor(e, i, b, d.serial)) else None
  {
    if Accepts(e, i, d, b) {
      PassedBundle(e, i, Begin(e, i).(serial := d.serial, bundle := Some(b), digest := DigestOf(e, i.bundleRaw)), d.serial, b);
    }
  }

  lemma PassedBundle(e: Env, i: Input, st: Status, serial: int, b: Bundle)
    requires st.nextFloor == None && FloorFault(i.floor, b, DigestOf(e, i.bundleRaw)) == None && ActiveCount(b) > 0
    requires e.w.stamp(b.validUntil).Some? && i.now < e.w.stamp(b.validUntil).value
    ensures var r := JudgeBundle(e, i, st, serial, b);
      && r.state == Active && r.bundle == st.bundle && r.serial == st.serial && r.digest == st.digest
      && r.nextFloor == if Advances(i.floor, b, serial) then Some(NextFloor(e, i, b, serial)) else None
  {
  }

  lemma ActiveOnlyIf(e: Env, i: Input) returns (d: Document, b: Bundle)
    requires Judge(e, i).state == Active && (i.floor.Some? ==> i.floor.value.minSerial >= 0)
    ensures Accepts(e, i, d, b)
  {
    d := DelegationOf(e.w, i.delegationRaw, i.delegationSigs, i.roots).value;
    b := BundleOf(e, i.bundleRaw, i.bundleSig, ActiveKeys(e.w, d.signingKeys, i.now)).value;
  }

  /** A status is Active exactly when some delegation and bundle pass every check. */
  lemma ActiveExactly(e: Env, i: Input)
    requires i.floor.Some? ==> ValidFloor(e.w.stamp, i.floor.value)
    ensures Judge(e, i).state == Active <==> exists d, b :: Accepts(e, i, d, b)
  {
    if Judge(e, i).state == Active {
      var d, b := ActiveOnlyIf(e, i);
    }
    forall d, b | Accepts(e, i, d, b) ensures Judge(e, i).state == Active {
      AcceptedIsActive(e, i, d, b);
    }
  }

  /** A status nothing has been decided about yet. */
  predicate Undecided(st: Status) {
    st.state == Unavailable && st.refusal == None && st.nextFloor == None
  }

  /** A refusal is a reason, anything short of Active leaves a gap, and only Active
      proposes a floor. */
  predicate WellShaped(st: Status) {
    && (st.state == RefusedState <==> st.refusal.Some?)
    && (st.gaps == [] ==> CoverageComplete(st.state))
    && (st.nextFloor.Some? ==> st.state == Active)
    && (UsableIndicators(st.state) ==> st.bundle.Some?)
  }

  lemma BundleShape(e: Env, i: Input, st: Status, serial: int, b: Bundle)
    requires Undecided(st) && st.bundle == Some(b)
    ensures var r := JudgeBundle(e, i, st, serial, b); WellShaped(r) && r.bundle == Some(b)
  {
  }

  lemma DelegatedShape(e: Env, i: Input, st: Status, d: Document)
    requires Undecided(st) && st.bundle == None
    ensures WellShaped(JudgeDelegated(e, i, st, d))
    ensures var r := JudgeDelegated(e, i, st, d);
      r.bundle.Some? ==> BundleOf(e, i.bundleRaw, i.bundleSig, ActiveKeys(e.w, d.signingKeys, i.now)) == r.bundle
  {
    ghost var read := BundleOf(e, i.bundleRaw, i.bundleSig, ActiveKeys(e.w, d.signingKeys, i.now));
    if read.Some? {
      BundleShape(e, i, st.(bundle := read, digest := DigestOf(e, i.bundleRaw)), d.serial, read.value);
    }
  }

  /** Every status is well shaped, and no bundle is handed back that an active key
      of an authenticated delegation did not sign. */
  lemma StatusShape(e: Env, i: Input)
    ensures WellShaped(Judge(e, i))
    ensures Judge(e, i).bundle.Some? ==>
      var delegated := DelegationOf(e.w, i.delegationRaw, i.delegationSigs, i.roots);
      && delegated.Some?
      && BundleOf(e, i.bundleRaw, i.bundleSig, ActiveKeys(e.w, delegated.value.signingKeys, i.now)) == Judge(e, i).bundle
  {
    ghost var delegated := DelegationOf(e.w, i.delegationRaw, i.delegationSigs, i.roots);
    if !Empty(i.roots) && i.delegationRaw != "" && delegated.Some? {
      DelegatedShape(e, i, Begin(e, i).(serial := delegated.value.serial), delegated.value);
    }
  }

  // -- the floor it proposes ------------------------------------------------

  /** What an accepted bundle leaves the floor at: its own version, digest and
      serial, whether or not they had to be recorded anew. */
  lemma AcceptedSettlesTheFloor(e: Env, i: Input, d: Document, b: Bundle)
    requires i.floor.Some? ==> ValidFloor(e.w.stamp, i.floor.value)
    requires Accepts(e, i, d, b)
    ensures b.version >= FloorVersion(i.floor) && d.serial >= FloorSerial(i.floor)
    ensures var f := NextFloor(e, i, b, d.serial);
      f.minVersion == b.version && f.headDigest == DigestOf(e, i.bundleRaw) && f.minSerial == d.serial
    ensures !Advances(i.floor, b, d.serial) ==>
      var f := i.floor.value;
      f.minVersion == b.version && f.headDigest == DigestOf(e, i.bundleRaw) && f.minSerial == d.serial
  {
  }

  /** The clock's spelling of now is text, and reads back as a time. */
  predicate Spells(e: Env, now: int) {
    e.w.stamp(e.format(now)).Some? && Text.ValidUtf8(e.format(now))
  }

  /** A proposed floor is well formed exactly when the clock's spelling of now reads
      back as a time, and a save against the floor it was computed from takes it
      exactly when that spelling is text besides. */
  lemma NextFloorPasses(e: Env, i: Input, disk: Disk)
    requires forall s :: |e.sha256(s)| == 32
    requires LoadFloor(e.w.stamp, disk) == Ok(i.floor)
    requires Judge(e, i).nextFloor.Some?
    ensures var f := Judge(e, i).nextFloor.value;
      && (ValidFloor(e.w.stamp, f) <==> e.w.stamp(e.format(i.now)).Some?)
      && SaveFloor(e.w.stamp, disk, f) == if Spells(e, i.now) then Some(Stored(f)) else None
  {
    StatusShape(e, i);
    var d, b := ActiveOnlyIf(e, i);
    AcceptedIsActive(e, i, d, b);
    AcceptedSettlesTheFloor(e, i, d, b);
    FloorPasses(e, disk, i.floor, NextFloor(e, i, b, d.serial), i.now);
    HexOfDigest(e.sha256(i.bundleRaw));
    HexIsUtf8(e.sha256(i.bundleRaw));
  }

  lemma FloorPasses(e: Env, disk: Disk, floor: Option<Floor>, f: Floor, now: int)
    requires LoadFloor(e.w.stamp, disk) == Ok(floor)
    requires f.schema == FLOOR_SCHEMA && f.minVersion >= 1 && f.minVersion >= FloorVersion(floor) && f.minSerial >= FloorSerial(floor)
    requires f.minSerial >= 0 && f.indicatorCount >= 0
    requires f.acceptedAt == f.checkedAt == e.format(now)
    ensures ValidDigest(f.headDigest) ==> (ValidFloor(e.w.stamp, f) <==> e.w.stamp(e.format(now)).Some?)
    ensures ValidDigest(f.headDigest) && Text.ValidUtf8(f.headDigest) ==>
      SaveFloor(e.w.stamp, disk, f) == if Spells(e, now) then Some(Stored(f)) else None
  {
  }
}
