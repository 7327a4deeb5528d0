/** When a bundle's status is what it is: each state, each refusal and each gap, by what
    was supplied, what it says and when. */
module BundleVerdicts {
  import opened Times
  import opened Wrappers
  import opened Wire
  import opened Digest
  import opened Delegation
  import opened Floors
  import opened Bundles
  import IndicatorSets

  // -- how far an input gets ------------------------------------------------

  predicate Rooted(i: Input) {
    i.roots.keys != [] && i.roots.threshold >= 2
  }

  ghost predicate Delegated(e: Env, i: Input, d: Document) {
    Rooted(i) && i.delegationRaw != "" && DelegationOf(e.w, i.delegationRaw, i.delegationSigs, i.roots) == Some(d)
  }

  /** The delegation is no older than one seen before. */
  predicate Current(i: Input, d: Document) {
    i.floor.Some? ==> i.floor.value.minSerial <= d.serial
  }

  predicate InDate(e: Env, i: Input, d: Document) {
    e.w.stamp(d.validUntil).Some? && i.now < e.w.stamp(d.validUntil).value
  }

  /** Some key it names can be read and may sign now. */
  ghost predicate Staffed(e: Env, i: Input, d: Document) {
    exists k :: k in d.signingKeys && MaySign(e.w, k, i.now)
  }

  predicate MaySign(w: World, k: SigningKey, now: int) {
    && w.parseKey(k.publicKey).Some?
    && w.stamp(k.notBefore).Some? && w.stamp(k.notBefore).value <= now
    && w.stamp(k.notAfter).Some? && now < w.stamp(k.notAfter).value
  }

  ghost predicate Mandated(e: Env, i: Input, d: Document) {
    Delegated(e, i, d) && Current(i, d) && !d.rootSetRetired && InDate(e, i, d) && Staffed(e, i, d)
  }

  ghost predicate Held(e: Env, i: Input, d: Document, b: Bundle) {
    && Mandated(e, i, d) && i.bundleRaw != ""
    && BundleOf(e, i.bundleRaw, i.bundleSig, ActiveKeys(e.w, d.signingKeys, i.now)) == Some(b)
  }

  predicate FloorAt(i: Input, version: int) {
    i.floor.Some? && i.floor.value.minVersion > 0 && i.floor.value.minVersion == version
  }

  predicate Older(i: Input, b: Bundle) {
    i.floor.Some? && i.floor.value.minVersion > 0 && b.version < i.floor.value.minVersion
  }

  predicate Another(e: Env, i: Input, b: Bundle) {
    FloorAt(i, b.version) && Hex(e.sha256(i.bundleRaw)) != i.floor.value.headDigest
  }

  predicate Unlinked(i: Input, b: Bundle) {
    FloorAt(i, b.version - 1) && b.prevDigest != i.floor.value.headDigest
  }

  predicate Beyond(i: Input, b: Bundle) {
    i.floor.Some? && i.floor.value.minVersion > 0 && b.version > i.floor.value.minVersion + 1
  }

  /** Nothing was accepted for longer than the silence allowed, a fortnight unless
      another was asked for. */
  predicate Overdue(e: Env, i: Input) {
    && i.floor.Some? && i.floor.value.acceptedAt != "" && e.w.stamp(i.floor.value.acceptedAt).Some?
    && i.now - e.w.stamp(i.floor.value.acceptedAt).value
       > if i.maxSilence > 0 then i.maxSilence else 14 * 24 * 60 * 60 * 1_000_000_000
  }

  predicate Fewer(i: Input, b: Bundle) {
    i.floor.Some? && i.floor.value.indicatorCount > IndicatorSets.ActiveIn(b.indicators)
  }

  // -- the last stage -------------------------------------------------------

  /** Why a bundle in hand is refused, if it is. */
  function BundleRefusal(e: Env, i: Input, b: Bundle): Option<Reason> {
    if Older(i, b) then Some(Rollback)
    else if Another(e, i, b) then Some(ForkedVersion)
    else if Unlinked(i, b) then Some(ForkedLink)
    else if IndicatorSets.ActiveIn(b.indicators) == 0 then Some(EmptyBundle)
    else None
  }

  predicate Agrees(e: Env, i: Input, b: Bundle) {
    !Older(i, b) && !Another(e, i, b) && !Unlinked(i, b)
  }

  lemma FloorFaultExactly(e: Env, i: Input, b: Bundle)
    ensures FloorFault(i.floor, b, DigestOf(e, i.bundleRaw))
         == if Older(i, b) then Some(Rollback)
            else if Another(e, i, b) then Some(ForkedVersion)
            else if Unlinked(i, b) then Some(ForkedLink) else None
    ensures Skips(i.floor, b) <==> Beyond(i, b)
    ensures Silent(e, i) <==> Overdue(e, i)
  {
  }

  lemma BundleStage(e: Env, i: Input, st: Status, serial: int, b: Bundle)
    requires Undecided(st) && e.w.stamp(b.validUntil).Some?
    ensures var r, until := JudgeBundle(e, i, st, serial, b), e.w.stamp(b.validUntil).value;
      && r.refusal == BundleRefusal(e, i, b)
      && r.state == (if r.refusal.Some? then RefusedState else if until <= i.now then ExpiredState else State.Active)
      && r.serial == st.serial && r.digest == st.digest && r.bundle == st.bundle && r.upgradeMessage == st.upgradeMessage
  {
    FloorFaultExactly(e, i, b);
  }

  function Only(c: bool, g: Gap): seq<Gap> {
    if c then [g] else []
  }

  /** The gaps a bundle in hand adds, in order. */
  function BundleGaps(e: Env, i: Input, b: Bundle, until: int): seq<Gap> {
    if !Agrees(e, i, b) then [Refusal(BundleRefusal(e, i, b).value)]
    else if IndicatorSets.ActiveIn(b.indicators) == 0 then Only(Beyond(i, b), SkippedVersions) + [Refusal(EmptyBundle)]
    else
      Only(Beyond(i, b), SkippedVersions) + Repeat(InertIndicator, IndicatorSets.InertIn(b.indicators))
      + Only(Fewer(i, b), CountDropped) + Only(until <= i.now, BundleExpired) + Only(Overdue(e, i), Silence)
  }

  lemma BundleGapsAre(e: Env, i: Input, st: Status, serial: int, b: Bundle)
    requires e.w.stamp(b.validUntil).Some?
    ensures JudgeBundle(e, i, st, serial, b).gaps == st.gaps + BundleGaps(e, i, b, e.w.stamp(b.validUntil).value)
  {
    if Agrees(e, i, b) && IndicatorSets.ActiveIn(b.indicators) > 0 {
      LateGapsAre(e, i, st, serial, b);
    } else {
      EarlyGapsAre(e, i, st, serial, b);
    }
  }

  /** The gaps of a bundle that is refused. */
  lemma EarlyGapsAre(e: Env, i: Input, st: Status, serial: int, b: Bundle)
    requires e.w.stamp(b.validUntil).Some? && !(Agrees(e, i, b) && IndicatorSets.ActiveIn(b.indicators) > 0)
    ensures JudgeBundle(e, i, st, serial, b).gaps == st.gaps + BundleGaps(e, i, b, e.w.stamp(b.validUntil).value)
  {
    FloorFaultExactly(e, i, b);
  }

  /** The gaps of one that is not. */
  lemma LateGapsAre(e: Env, i: Input, st: Status, serial: int, b: Bundle)
    requires e.w.stamp(b.validUntil).Some? && Agrees(e, i, b) && IndicatorSets.ActiveIn(b.indicators) > 0
    ensures JudgeBundle(e, i, st, serial, b).gaps == st.gaps + BundleGaps(e, i, b, e.w.stamp(b.validUntil).value)
  {
    FloorFaultExactly(e, i, b);
    var until := e.w.stamp(b.validUntil).value;
    Appended(st.gaps, Only(Beyond(i, b), SkippedVersions), Repeat(InertIndicator, IndicatorSets.InertIn(b.indicators)),
             Only(Fewer(i, b), CountDropped), Only(until <= i.now, BundleExpired), Only(Overdue(e, i), Silence));
  }

  lemma Appended(s: seq<Gap>, a: seq<Gap>, b: seq<Gap>, c: seq<Gap>, d: seq<Gap>, f: seq<Gap>)
    ensures s + (a + b + c + d + f) == s + a + b + c + d + f
  {
  }

  // -- the stages before it -------------------------------------------------

  /** Why a delegation that authenticates is refused, if it is. */
  ghost function MandateRefusal(e: Env, i: Input, d: Document): Option<Reason> {
    if !Current(i, d) then Some(StaleDelegation)
    else if d.rootSetRetired then Some(Retired)
    else if !InDate(e, i, d) then Some(DelegationExpired)
    else if !Staffed(e, i, d) then Some(NoOnlineKey)
    else None
  }

  lemma StaffedExactly(e: Env, i: Input, d: Document)
    ensures Staffed(e, i, d) <==> ActiveKeys(e.w, d.signingKeys, i.now) != []
  {
    var keys := ActiveKeys(e.w, d.signingKeys, i.now);
    if keys != [] {
      Delegation.ActiveExactly(e.w, d.signingKeys, i.now, keys[0]);
    }
    if Staffed(e, i, d) {
      var k :| k in d.signingKeys && MaySign(e.w, k, i.now);
      Delegation.ActiveExactly(e.w, d.signingKeys, i.now, e.w.parseKey(k.publicKey).value);
    }
  }

  /** What a status comes to. */
  datatype Verdict = Verdict(state: State, refusal: Option<Reason>, gaps: seq<Gap>)

  function Refused(gaps: seq<Gap>, why: Reason): Verdict {
    Verdict(RefusedState, Some(why), gaps + [Refusal(why)])
  }

  function VerdictOf(st: Status): Verdict {
    Verdict(st.state, st.refusal, st.gaps)
  }

  /** The verdict on a bundle in hand. */
  function BundleVerdict(e: Env, i: Input, gaps: seq<Gap>, b: Bundle, until: int): Verdict {
    var why := BundleRefusal(e, i, b);
    Verdict(if why.Some? then RefusedState else if until <= i.now then ExpiredState else State.Active, why,
            gaps + BundleGaps(e, i, b, until))
  }

  ghost function DelegatedVerdict(e: Env, i: Input, gaps: seq<Gap>, d: Document): Verdict {
    var why := MandateRefusal(e, i, d);
    if why.Some? then Refused(gaps, why.value)
    else if i.bundleRaw == "" then Verdict(Unavailable, None, gaps + [NoBundleCached] + Only(Overdue(e, i), Silence))
    else
      match BundleOf(e, i.bundleRaw, i.bundleSig, ActiveKeys(e.w, d.signingKeys, i.now))
      case None => Refused(gaps, BadBundle)
      case Some(b) => BundleVerdict(e, i, gaps, b, e.w.stamp(b.validUntil).value)
  }

  lemma DelegatedStage(e: Env, i: Input, st: Status, d: Document)
    requires Undecided(st)
    ensures VerdictOf(JudgeDelegated(e, i, st, d)) == DelegatedVerdict(e, i, st.gaps, d)
  {
    StaffedExactly(e, i, d);
    SilenceStage(e, i);
    var read := BundleOf(e, i.bundleRaw, i.bundleSig, ActiveKeys(e.w, d.signingKeys, i.now));
    if read.Some? {
      var st' := st.(bundle := read, digest := DigestOf(e, i.bundleRaw));
      BundleStage(e, i, st', d.serial, read.value);
      BundleGapsAre(e, i, st', d.serial, read.value);
    }
  }

  lemma SilenceStage(e: Env, i: Input)
    ensures Silent(e, i) <==> Overdue(e, i)
  {
  }

  predicate SoftwareHeld(e: Env, i: Input) {
    exists k :: k in i.roots.keys && !e.hardware(k)
  }

  /** The whole verdict, from nothing supplied to a bundle in hand. */
  ghost function Expected(e: Env, i: Input): Verdict {
    var soft := Only(SoftwareHeld(e, i), SoftwareRoots);
    if !Rooted(i) then Refused([], NoRoots)
    else if i.delegationRaw == "" && i.bundleRaw == "" then Verdict(Unavailable, None, soft + [NoBundleCached] + Only(Overdue(e, i), Silence))
    else if i.delegationRaw == "" then Refused(soft, NoDelegation)
    else
      match DelegationOf(e.w, i.delegationRaw, i.delegationSigs, i.roots)
      case None => Refused(soft, BadDelegation)
      case Some(d) => DelegatedVerdict(e, i, soft, d)
  }

  lemma SoftwareExactly(e: Env, i: Input)
    ensures HasSoftwareKey(e, i.roots.keys) <==> SoftwareHeld(e, i)
    ensures Empty(i.roots) <==> !Rooted(i)
  {
  }

  lemma VerdictExactly(e: Env, i: Input)
    ensures VerdictOf(Judge(e, i)) == Expected(e, i)
  {
    SoftwareExactly(e, i);
    SilenceStage(e, i);
    var st := Begin(e, i);
    assert Rooted(i) ==> st.gaps == Only(SoftwareHeld(e, i), SoftwareRoots);
    if Rooted(i) && i.delegationRaw != "" {
      var d := DelegationOf(e.w, i.delegationRaw, i.delegationSigs, i.roots);
      if d.Some? {
        DelegatedStage(e, i, st.(serial := d.value.serial), d.value);
      }
    }
  }

  // -- where an input ends up -----------------------------------------------

  /** All a verdict depends on: whether there are roots, a delegation's bytes and a
      bundle's; the delegation, if one authenticates, and why it is refused; and the
      bundle in hand. */
  datatype Facts = Facts(rooted: bool, delegation: bool, bundle: bool, document: Option<Document>, mandate: Option<Reason>,
                         held: Option<Bundle>)

  ghost function FactsOf(e: Env, i: Input): Facts {
    var d := if Rooted(i) && i.delegationRaw != "" then DelegationOf(e.w, i.delegationRaw, i.delegationSigs, i.roots) else None;
    var why := match d case None => None case Some(x) => MandateRefusal(e, i, x);
    var b := if d.Some? && why.None? && i.bundleRaw != ""
             then BundleOf(e, i.bundleRaw, i.bundleSig, ActiveKeys(e.w, d.value.signingKeys, i.now)) else None;
    Facts(Rooted(i), i.delegationRaw != "", i.bundleRaw != "", d, why, b)
  }

  function VerdictFrom(e: Env, i: Input, f: Facts): Verdict {
    var soft := Only(SoftwareHeld(e, i), SoftwareRoots);
    if !f.rooted then Refused([], NoRoots)
    else if !f.bundle && (!f.delegation || (f.document.Some? && f.mandate.None?)) then
      Verdict(Unavailable, None, soft + [NoBundleCached] + Only(Overdue(e, i), Silence))
    else if !f.delegation then Refused(soft, NoDelegation)
    else if f.document.None? then Refused(soft, BadDelegation)
    else if f.mandate.Some? then Refused(soft, f.mandate.value)
    else if f.held.None? || e.w.stamp(f.held.value.validUntil).None? then Refused(soft, BadBundle)
    else BundleVerdict(e, i, soft, f.held.value, e.w.stamp(f.held.value.validUntil).value)
  }

  lemma VerdictIsFrom(e: Env, i: Input)
    ensures VerdictOf(Judge(e, i)) == VerdictFrom(e, i, FactsOf(e, i))
  {
    VerdictExactly(e, i);
  }

  lemma MandatedIs(e: Env, i: Input, d: Document)
    ensures Mandated(e, i, d) <==> FactsOf(e, i).document == Some(d) && FactsOf(e, i).mandate == None
    ensures Delegated(e, i, d) <==> FactsOf(e, i).document == Some(d)
    ensures FactsOf(e, i).document == Some(d) ==> FactsOf(e, i).mandate == MandateRefusal(e, i, d)
  {
  }

  lemma HeldIs(e: Env, i: Input, d: Document, b: Bundle)
    ensures Held(e, i, d, b) <==> FactsOf(e, i).document == Some(d) && FactsOf(e, i).held == Some(b)
  {
    MandatedIs(e, i, d);
  }

  /** What facts there can be together. */
  predicate Fit(e: Env, f: Facts) {
    && (f.held.Some? ==> f.rooted && f.delegation && f.bundle && f.document.Some? && f.mandate.None?
                         && e.w.stamp(f.held.value.validUntil).Some?)
    && (f.document.Some? ==> f.rooted && f.delegation)
    && (f.document.None? ==> f.mandate.None? && f.held.None?)
    && (f.mandate.Some? ==> f.mandate.value == StaleDelegation || f.mandate.value == Retired
                            || f.mandate.value == DelegationExpired || f.mandate.value == NoOnlineKey)
  }

  lemma FactsFit(e: Env, i: Input)
    ensures Fit(e, FactsOf(e, i))
    ensures FactsOf(e, i).rooted == Rooted(i) && FactsOf(e, i).delegation == (i.delegationRaw != "")
    ensures FactsOf(e, i).bundle == (i.bundleRaw != "")
  {
  }

  /** Some bundle in hand has a property exactly when the one there is has it. */
  lemma SomeHeld(e: Env, i: Input, p: Bundle -> bool)
    ensures (exists d, b :: Held(e, i, d, b) && p(b)) <==> FactsOf(e, i).held.Some? && p(FactsOf(e, i).held.value)
  {
    var f := FactsOf(e, i);
    FactsFit(e, i);
    forall d, b ensures Held(e, i, d, b) <==> f.document == Some(d) && f.held == Some(b) {
      HeldIs(e, i, d, b);
    }
    if f.held.Some? && p(f.held.value) {
      assert Held(e, i, f.document.value, f.held.value);
    }
  }

  lemma SomeDelegated(e: Env, i: Input, p: Document -> bool)
    ensures (exists d :: Delegated(e, i, d) && p(d)) <==> FactsOf(e, i).document.Some? && p(FactsOf(e, i).document.value)
  {
    forall d ensures Delegated(e, i, d) <==> FactsOf(e, i).document == Some(d) {
      MandatedIs(e, i, d);
    }
  }

  // -- each state and each refusal ------------------------------------------

  lemma StatesFrom(e: Env, i: Input, f: Facts)
    requires Fit(e, f)
    ensures var v := VerdictFrom(e, i, f);
      && (v.state == ExpiredState <==>
            f.held.Some? && BundleRefusal(e, i, f.held.value).None? && e.w.stamp(f.held.value.validUntil).value <= i.now)
      && (v.state == State.Active <==>
            f.held.Some? && BundleRefusal(e, i, f.held.value).None? && i.now < e.w.stamp(f.held.value.validUntil).value)
      && (v.state == Unavailable <==> f.rooted && !f.bundle && (!f.delegation || (f.document.Some? && f.mandate.None?)))
      && (v.state == RefusedState <==> v.refusal.Some?)
  {
  }

  predicate Lapsed(e: Env, i: Input, b: Bundle) {
    e.w.stamp(b.validUntil).Some? && e.w.stamp(b.validUntil).value <= i.now
  }

  predicate Usable(e: Env, i: Input, b: Bundle) {
    !Older(i, b) && !Another(e, i, b) && !Unlinked(i, b) && IndicatorSets.ActiveIn(b.indicators) > 0
  }

  /** Expired: some delegation and bundle pass every check but the bundle's own date. */
  lemma ExpiredExactly(e: Env, i: Input)
    ensures Judge(e, i).state == ExpiredState <==> exists d, b :: Held(e, i, d, b) && Usable(e, i, b) && Lapsed(e, i, b)
  {
    VerdictIsFrom(e, i);
    FactsFit(e, i);
    StatesFrom(e, i, FactsOf(e, i));
    SomeHeld(e, i, b => Usable(e, i, b) && Lapsed(e, i, b));
  }

  /** Active: and that one too. */
  lemma CurrentExactly(e: Env, i: Input)
    ensures Judge(e, i).state == State.Active
            <==> exists d, b :: Held(e, i, d, b) && Usable(e, i, b) && i.now < e.w.stamp(b.validUntil).value
  {
    VerdictIsFrom(e, i);
    FactsFit(e, i);
    StatesFrom(e, i, FactsOf(e, i));
    SomeHeld(e, i, b => Usable(e, i, b) && (e.w.stamp(b.validUntil).Some? ==> i.now < e.w.stamp(b.validUntil).value));
  }

  /** Unavailable: this build has roots, and nothing was supplied, or a delegation that
      passes every check and no bundle. */
  lemma UnavailableExactly(e: Env, i: Input)
    ensures Judge(e, i).state == Unavailable
            <==> Rooted(i) && i.bundleRaw == "" && (i.delegationRaw == "" || exists d :: Mandated(e, i, d))
  {
    VerdictIsFrom(e, i);
    FactsFit(e, i);
    StatesFrom(e, i, FactsOf(e, i));
    SomeMandate(e, i);
  }

  lemma SomeMandate(e: Env, i: Input)
    ensures (exists d :: Mandated(e, i, d)) <==> FactsOf(e, i).document.Some? && FactsOf(e, i).mandate == None
  {
    forall d ensures Mandated(e, i, d) <==> FactsOf(e, i).document == Some(d) && FactsOf(e, i).mandate == None {
      MandatedIs(e, i, d);
    }
  }

  /** What a refusal is, on the facts alone. */
  lemma RefusalsFrom(e: Env, i: Input, f: Facts)
    requires Fit(e, f)
    ensures var refusal := VerdictFrom(e, i, f).refusal;
      && (refusal == Some(NoRoots) <==> !f.rooted)
      && (refusal == Some(NoDelegation) <==> f.rooted && !f.delegation && f.bundle)
      && (refusal == Some(BadDelegation) <==> f.rooted && f.delegation && f.document.None?)
      && (refusal == Some(BadBundle) <==> f.document.Some? && f.mandate.None? && f.bundle && f.held.None?)
      && refusal != Some(UnreadableExpiry)
  {
  }

  lemma MandatesFrom(e: Env, i: Input, f: Facts, why: Reason)
    requires Fit(e, f) && (why == StaleDelegation || why == Retired || why == DelegationExpired || why == NoOnlineKey)
    ensures VerdictFrom(e, i, f).refusal == Some(why) <==> f.mandate == Some(why)
  {
  }

  lemma LateFrom(e: Env, i: Input, f: Facts, why: Reason)
    requires Fit(e, f) && (why == Rollback || why == ForkedVersion || why == ForkedLink || why == EmptyBundle)
    ensures VerdictFrom(e, i, f).refusal == Some(why) <==> f.held.Some? && BundleRefusal(e, i, f.held.value) == Some(why)
  {
  }

  lemma MandateIs(e: Env, i: Input)
    ensures FactsOf(e, i).mandate
         == match FactsOf(e, i).document case None => None case Some(d) => MandateRefusal(e, i, d)
  {
  }

  /** Refused for what was supplied: no roots in this build, or a bundle and no
      delegation. */
  lemma UnsuppliedRefused(e: Env, i: Input)
    ensures Judge(e, i).refusal == Some(NoRoots) <==> !Rooted(i)
    ensures Judge(e, i).refusal == Some(NoDelegation) <==> Rooted(i) && i.delegationRaw == "" && i.bundleRaw != ""
  {
    VerdictIsFrom(e, i);
    FactsFit(e, i);
    RefusalsFrom(e, i, FactsOf(e, i));
  }

  /** Refused for a delegation that does not authenticate. */
  lemma UnauthenticRefused(e: Env, i: Input)
    ensures Judge(e, i).refusal == Some(BadDelegation) <==> Rooted(i) && i.delegationRaw != "" && !exists d :: Delegated(e, i, d)
  {
    VerdictIsFrom(e, i);
    FactsFit(e, i);
    RefusalsFrom(e, i, FactsOf(e, i));
    SomeDelegated(e, i, d => true);
  }

  /** Refused for a delegation that does: the refusal is the one the delegation itself
      calls for. */
  lemma MandateRefused(e: Env, i: Input, why: Reason)
    requires why == StaleDelegation || why == Retired || why == DelegationExpired || why == NoOnlineKey
    ensures Judge(e, i).refusal == Some(why) <==> exists d :: Delegated(e, i, d) && MandateRefusal(e, i, d) == Some(why)
  {
    VerdictIsFrom(e, i);
    FactsFit(e, i);
    MandatesFrom(e, i, FactsOf(e, i), why);
    MandateIs(e, i);
    SomeDelegated(e, i, d => MandateRefusal(e, i, d) == Some(why));
  }

  /** ... older than one seen; retired; out of date; or with no key that may sign now, the
      first of these. */
  lemma MandateRefusalExactly(e: Env, i: Input, d: Document)
    ensures MandateRefusal(e, i, d) == Some(StaleDelegation) <==> !Current(i, d)
    ensures MandateRefusal(e, i, d) == Some(Retired) <==> Current(i, d) && d.rootSetRetired
    ensures MandateRefusal(e, i, d) == Some(DelegationExpired) <==> Current(i, d) && !d.rootSetRetired && !InDate(e, i, d)
    ensures MandateRefusal(e, i, d) == Some(NoOnlineKey)
            <==> Current(i, d) && !d.rootSetRetired && InDate(e, i, d) && !Staffed(e, i, d)
  {
  }

  /** Refused for a bundle that is not signed or not well formed, once the delegation
      passed. */
  lemma UnreadRefused(e: Env, i: Input)
    ensures Judge(e, i).refusal == Some(BadBundle)
            <==> i.bundleRaw != "" && (exists d :: Mandated(e, i, d)) && !exists d, b :: Held(e, i, d, b)
    ensures Judge(e, i).refusal != Some(UnreadableExpiry)
  {
    VerdictIsFrom(e, i);
    FactsFit(e, i);
    RefusalsFrom(e, i, FactsOf(e, i));
    SomeMandate(e, i);
    SomeHeld(e, i, b => true);
  }

  /** Refused for a bundle in hand: older than the floor's version; another bundle of that
      version; the next version, naming another predecessor; or with nothing in it to act
      on, the first of these. */
  lemma HeldRefused(e: Env, i: Input, why: Reason)
    requires why == Rollback || why == ForkedVersion || why == ForkedLink || why == EmptyBundle
    ensures Judge(e, i).refusal == Some(why) <==> exists d, b :: Held(e, i, d, b) && BundleRefusal(e, i, b) == Some(why)
  {
    VerdictIsFrom(e, i);
    FactsFit(e, i);
    LateFrom(e, i, FactsOf(e, i), why);
    SomeHeld(e, i, b => BundleRefusal(e, i, b) == Some(why));
  }

  lemma BundleRefusalExactly(e: Env, i: Input, b: Bundle)
    ensures BundleRefusal(e, i, b) == Some(Rollback) <==> Older(i, b)
    ensures BundleRefusal(e, i, b) == Some(ForkedVersion) <==> Another(e, i, b)
    ensures BundleRefusal(e, i, b) == Some(ForkedLink) <==> Unlinked(i, b)
    ensures BundleRefusal(e, i, b) == Some(EmptyBundle)
            <==> !Older(i, b) && !Another(e, i, b) && !Unlinked(i, b) && IndicatorSets.ActiveIn(b.indicators) == 0
  {
  }

  // -- the gaps -------------------------------------------------------------

  lemma RepeatOnly(g: Gap, n: nat)
    ensures forall x :: x in Repeat(g, n) ==> x == g
  {
  }

  lemma BundleGapsHold(e: Env, i: Input, b: Bundle, until: int)
    ensures Silence in BundleGaps(e, i, b, until) <==> BundleRefusal(e, i, b).None? && Overdue(e, i)
    ensures CountDropped in BundleGaps(e, i, b, until) <==> Usable(e, i, b) && Fewer(i, b)
    ensures SkippedVersions in BundleGaps(e, i, b, until) <==> Beyond(i, b)
  {
    RepeatOnly(InertIndicator, IndicatorSets.InertIn(b.indicators));
  }

  /** Which of these gaps are noted, on the facts alone. */
  lemma GapsFrom(e: Env, i: Input, f: Facts)
    requires Fit(e, f)
    ensures var v := VerdictFrom(e, i, f);
      && (Silence in v.gaps <==> v.refusal.None? && Overdue(e, i))
      && (CountDropped in v.gaps <==> f.held.Some? && Usable(e, i, f.held.value) && Fewer(i, f.held.value))
      && (SkippedVersions in v.gaps <==> f.held.Some? && Beyond(i, f.held.value))
  {
    if f.held.Some? {
      BundleGapsHold(e, i, f.held.value, e.w.stamp(f.held.value.validUntil).value);
    }
  }

  /** Silence is noted where the input was not refused and nothing has been accepted for
      too long; a drop in what can be acted on, of a bundle in hand that is not refused;
      versions skipped, of any bundle in hand beyond the next one. */
  lemma NotedExactly(e: Env, i: Input)
    ensures Silence in Judge(e, i).gaps <==> Judge(e, i).refusal == None && Overdue(e, i)
    ensures CountDropped in Judge(e, i).gaps <==> exists d, b :: Held(e, i, d, b) && Usable(e, i, b) && Fewer(i, b)
    ensures SkippedVersions in Judge(e, i).gaps <==> exists d, b :: Held(e, i, d, b) && Beyond(i, b)
  {
    VerdictIsFrom(e, i);
    FactsFit(e, i);
    GapsFrom(e, i, FactsOf(e, i));
    SomeHeld(e, i, b => Usable(e, i, b) && Fewer(i, b));
    SomeHeld(e, i, b => Beyond(i, b));
  }

  // -- what a status carries ------------------------------------------------

  lemma DelegatedCarries(e: Env, i: Input, st: Status, d: Document)
    requires Undecided(st) && st.bundle == None && st.digest == "" && st.upgradeMessage == ""
    ensures var r, why := JudgeDelegated(e, i, st, d), MandateRefusal(e, i, d);
      && r.serial == st.serial
      && r.bundle == (if why.None? && i.bundleRaw != ""
                      then BundleOf(e, i.bundleRaw, i.bundleSig, ActiveKeys(e.w, d.signingKeys, i.now)) else None)
      && r.digest == (if r.bundle.Some? then Hex(e.sha256(i.bundleRaw)) else "")
      && r.upgradeMessage == (if why == Some(Retired) then d.upgradeMessage else "")
  {
    StaffedExactly(e, i, d);
    var read := BundleOf(e, i.bundleRaw, i.bundleSig, ActiveKeys(e.w, d.signingKeys, i.now));
    if read.Some? {
      BundleStage(e, i, st.(bundle := read, digest := DigestOf(e, i.bundleRaw)), d.serial, read.value);
    }
  }

  /** A status carries the bundle in hand and its digest, the serial of the delegation
      that authenticated, and a message where that delegation retires the roots. */
  lemma CarriesExactly(e: Env, i: Input)
    ensures var st, f := Judge(e, i), FactsOf(e, i);
      && st.bundle == f.held
      && st.digest == (if f.held.Some? then Hex(e.sha256(i.bundleRaw)) else "")
      && st.serial == (if f.document.Some? then f.document.value.serial else 0)
      && st.upgradeMessage == (if f.mandate == Some(Retired) then f.document.value.upgradeMessage else "")
  {
    var f := FactsOf(e, i);
    if f.document.Some? {
      DelegatedCarries(e, i, Begin(e, i).(serial := f.document.value.serial), f.document.value);
    }
  }

  lemma HeldAccepts(e: Env, i: Input, d: Document, b: Bundle)
    requires Held(e, i, d, b) && Usable(e, i, b) && i.now < e.w.stamp(b.validUntil).value
    requires i.floor.Some? ==> ValidFloor(e.w.stamp, i.floor.value)
    ensures Accepts(e, i, d, b)
  {
    StaffedExactly(e, i, d);
    FloorFaultExactly(e, i, b);
    DelegationIsValid(e.w, i.delegationRaw, i.delegationSigs, i.roots, d);
  }

  lemma DelegationIsValid(w: World, raw: string, sigs: seq<bytes>, r: RootSet, d: Document)
    requires DelegationOf(w, raw, sigs, r) == Some(d)
    ensures d.serial >= 1
  {
  }

  /** The floor a current bundle proposes, where it moves either counter: its version,
      digest and serial, how much of it can be acted on, the roots' generation and the
      time, twice. */
  lemma ProposedExactly(e: Env, i: Input, d: Document, b: Bundle)
    requires Held(e, i, d, b) && Usable(e, i, b) && i.now < e.w.stamp(b.validUntil).value
    requires i.floor.Some? ==> ValidFloor(e.w.stamp, i.floor.value)
    ensures Judge(e, i).nextFloor
         == if i.floor.None? || i.floor.value.minVersion < b.version || i.floor.value.minSerial < d.serial
            then Some(Floor(1, b.version, Hex(e.sha256(i.bundleRaw)), d.serial, IndicatorSets.ActiveIn(b.indicators),
                            i.roots.generation, e.format(i.now), e.format(i.now)))
            else None
  {
    HeldAccepts(e, i, d, b);
    AcceptedIsActive(e, i, d, b);
    AcceptedSettlesTheFloor(e, i, d, b);
  }
}
