/** A host's whole history of updates: whatever is served to it, and whatever
    order it is served in, the channel only moves forward and never splits. */
module BundleRuns {
  import opened Wrappers
  import opened Wire
  import opened Digest
  import opened Delegation
  import opened Floors
  import opened Bundles

  /** One run of the updater. Everything in it is an adversary's to choose; `write` is
      what becomes of the floor's file, `reports` whether the run lives to report. */
  datatype Attempt = Attempt(roots: RootSet, delegationRaw: string, delegationSigs: seq<bytes>, bundleRaw: string,
                             bundleSig: bytes, now: int, maxSilence: int, write: Write, reports: bool)

  /** A bundle a run brought the floor to, or found it at. `reported` is whether the
      run said so: one whose sync failed, or that died after the rename, did not. */
  datatype Taken = Taken(raw: string, bundle: Bundle, digest: string, serial: int, reported: bool)

  /** The floor that is on disk to stay, those put in its place since and not synced,
      oldest first, and every bundle the floor has been at. */
  datatype Host = Host(durable: Disk, later: seq<Disk>, taken: seq<Taken>)

  /** What the next run finds: the newest floor. */
  function Visible(h: Host): Disk {
    if h.later == [] then h.durable else h.later[|h.later| - 1]
  }

  /** What happens to a host: a run of the updater, or a power cut and which of the
      floors it brings back. */
  datatype Event = Ran(attempt: Attempt) | PowerCut(back: nat)

  /** The floor a power cut brings back: the durable one, or one put in place since. */
  function Back(h: Host, k: nat): Disk {
    if k == 0 then h.durable else if k <= |h.later| then h.later[k - 1] else Visible(h)
  }

  function AfterCut(h: Host, k: nat): Host {
    Host(Back(h, k), [], h.taken)
  }

  /** A floor put in place: there to stay once its directory is synced. */
  function Placed(h: Host, d: Disk, write: Write): Host {
    match write
    case NotRenamed => h
    case Unsynced => h.(later := h.later + [d])
    case Synced => h.(durable := d, later := [])
  }

  function InputOf(a: Attempt, floor: Option<Floor>): Input {
    Input(a.roots, a.delegationRaw, a.delegationSigs, a.bundleRaw, a.bundleSig, floor, a.now, a.maxSilence)
  }

  /** One run: an unreadable floor stops it, and a bundle whose floor was not put in
      place is not taken. */
  ghost function AfterRun(e: Env, h: Host, a: Attempt): Host {
    match LoadFloor(e.w.stamp, Visible(h))
    case Err(_) => h
    case Ok(floor) => AfterVerdict(e, h, a, Judge(e, InputOf(a, floor)))
  }

  function AfterVerdict(e: Env, h: Host, a: Attempt, st: Status): Host {
    if st.state != Active || st.bundle.None? then h
    else
      var next := Taken(a.bundleRaw, st.bundle.value, st.digest, st.serial, a.reports);
      if st.nextFloor.None? then h.(taken := h.taken + [next])
      else
        match SaveFloor(e.w.stamp, Visible(h), st.nextFloor.value)
        case None => h
        case Some(d) =>
          if a.write.NotRenamed? then h
          else Placed(h, d, a.write).(taken := h.taken + [next.(reported := a.reports && a.write.Synced?)])
  }

  ghost function AfterEvent(e: Env, h: Host, ev: Event): Host {
    match ev
    case Ran(a) => AfterRun(e, h, a)
    case PowerCut(k) => AfterCut(h, k)
  }

  /** A whole history: runs, and power cuts between them. */
  ghost function AfterEvents(e: Env, h: Host, events: seq<Event>): Host
    decreases |events|
  {
    if events == [] then h
    else AfterEvent(e, AfterEvents(e, h, events[..|events| - 1]), events[|events| - 1])
  }

  // -- what every run keeps -------------------------------------------------

  function LoadedVersion(disk: Disk): int {
    if disk.Stored? then disk.floor.minVersion else 0
  }

  function LoadedSerial(disk: Disk): int {
    if disk.Stored? then disk.floor.minSerial else 0
  }

  /** A floor on disk is at the last bundle taken. */
  predicate AtHead(disk: Disk, taken: seq<Taken>) {
    taken != [] ==>
      var last := taken[|taken| - 1];
      && disk.Stored?
      && disk.floor.minVersion == last.bundle.version
      && disk.floor.headDigest == last.digest
      && disk.floor.minSerial == last.serial
  }

  predicate Forward(a: Taken, b: Taken) {
    && a.bundle.version <= b.bundle.version && a.serial <= b.serial
    && (a.bundle.version == b.bundle.version ==> a.digest == b.digest)
  }

  ghost predicate NeverBack(taken: seq<Taken>) {
    forall i, j :: 0 <= i < j < |taken| ==> Forward(taken[i], taken[j])
  }

  /** Nothing of this version was taken before position j. */
  ghost predicate FirstOfVersion(taken: seq<Taken>, j: nat)
    requires j < |taken|
  {
    forall k :: 0 <= k < j ==> taken[k].bundle.version != taken[j].bundle.version
  }

  /** Where a version is first taken, it names every taking of the version before
      it. */
  ghost predicate Linked(taken: seq<Taken>) {
    forall i, j :: 0 <= i < j < |taken| && FirstOfVersion(taken, j)
                   && taken[j].bundle.version == taken[i].bundle.version + 1 ==>
      taken[j].bundle.prevDigest == taken[i].digest
  }

  ghost predicate Authentic(e: Env, taken: seq<Taken>) {
    forall i :: 0 <= i < |taken| ==>
      && e.decodeBundle(taken[i].raw) == Some(taken[i].bundle) && taken[i].bundle.version >= 1
      && taken[i].digest == DigestOf(e, taken[i].raw)
  }

  ghost predicate Inv(e: Env, h: Host) {
    && LoadFloor(e.w.stamp, Visible(h)).Ok?
    && AtHead(Visible(h), h.taken) && NeverBack(h.taken) && Linked(h.taken) && Authentic(e, h.taken)
  }

  /** What one run does to a host: nothing, or one more bundle taken that the floor
      it read allowed, and the floor at it. */
  ghost predicate Step(e: Env, h: Host, h': Host) {
    h' == h ||
    (&& LoadFloor(e.w.stamp, Visible(h')).Ok?
     && h'.taken != [] && h'.taken[..|h'.taken| - 1] == h.taken
     && Allowed(e, Visible(h), h'.taken[|h'.taken| - 1])
     && AtHead(Visible(h'), h'.taken))
  }

  ghost predicate Allowed(e: Env, disk: Disk, a: Taken) {
    && e.decodeBundle(a.raw) == Some(a.bundle) && a.bundle.version >= 1 && a.digest == DigestOf(e, a.raw)
    && a.bundle.version >= LoadedVersion(disk) && a.serial >= LoadedSerial(disk)
    && (disk.Stored? && disk.floor.minVersion > 0 ==>
          && (a.bundle.version == disk.floor.minVersion ==> a.digest == disk.floor.headDigest)
          && (a.bundle.version == disk.floor.minVersion + 1 ==> a.bundle.prevDigest == disk.floor.headDigest))
  }

  lemma RunIsStep(e: Env, h: Host, a: Attempt)
    ensures Step(e, h, AfterRun(e, h, a))
  {
    var loaded := LoadFloor(e.w.stamp, Visible(h));
    if loaded.Ok? {
      var i := InputOf(a, loaded.value);
      if Judge(e, i).state == Active {
        var d, b := ActiveOnlyIf(e, i);
        AcceptedIsActive(e, i, d, b);
        AcceptedSettlesTheFloor(e, i, d, b);
        AllowedByVerify(e, h, i, d, b, a.reports);
        VerdictIsStep(e, h, a, Judge(e, i));
      }
    }
  }

  lemma AllowedByVerify(e: Env, h: Host, i: Input, d: Document, b: Bundle, reported: bool)
    requires LoadFloor(e.w.stamp, Visible(h)) == Ok(i.floor) && Accepts(e, i, d, b)
    ensures Allowed(e, Visible(h), Taken(i.bundleRaw, b, DigestOf(e, i.bundleRaw), d.serial, reported))
  {
  }

  lemma VerdictIsStep(e: Env, h: Host, a: Attempt, st: Status)
    requires LoadFloor(e.w.stamp, Visible(h)).Ok? && st.bundle.Some?
    requires Allowed(e, Visible(h), Taken(a.bundleRaw, st.bundle.value, st.digest, st.serial, a.reports))
    requires st.nextFloor.Some? ==>
      var f := st.nextFloor.value; f.minVersion == st.bundle.value.version && f.headDigest == st.digest && f.minSerial == st.serial
    requires st.nextFloor.None? ==>
      && Visible(h).Stored?
      && var f := Visible(h).floor; f.minVersion == st.bundle.value.version && f.headDigest == st.digest && f.minSerial == st.serial
    ensures Step(e, h, AfterVerdict(e, h, a, st))
  {
    var next := Taken(a.bundleRaw, st.bundle.value, st.digest, st.serial, a.reports);
    var quiet := next.(reported := a.reports && a.write.Synced?);
    assert (h.taken + [next])[..|h.taken|] == h.taken && (h.taken + [quiet])[..|h.taken|] == h.taken;
  }

  lemma Extends(h: Host, h': Host)
    requires h'.taken != [] && h'.taken[..|h'.taken| - 1] == h.taken
    ensures |h'.taken| == |h.taken| + 1
    ensures forall k :: 0 <= k < |h.taken| ==> h'.taken[k] == h.taken[k]
  {
    assert forall k :: 0 <= k < |h.taken| ==> h'.taken[..|h'.taken| - 1][k] == h.taken[k];
  }

  lemma StepKeepsOrder(e: Env, h: Host, h': Host)
    requires Inv(e, h) && Step(e, h, h') && h' != h
    ensures NeverBack(h'.taken) && Authentic(e, h'.taken)
  {
    var n := |h.taken|;
    Extends(h, h');
    forall i, j | 0 <= i < j < n + 1 ensures Forward(h'.taken[i], h'.taken[j]) {
      if j < n {
        assert Forward(h.taken[i], h.taken[j]);
      } else {
        assert i < n - 1 ==> Forward(h.taken[i], h.taken[n - 1]);
      }
    }
  }

  lemma StepKeepsLinks(e: Env, h: Host, h': Host)
    requires Inv(e, h) && Step(e, h, h') && h' != h
    ensures Linked(h'.taken)
  {
    var n := |h.taken|;
    Extends(h, h');
    forall i, j | 0 <= i < j < n + 1 && FirstOfVersion(h'.taken, j)
                  && h'.taken[j].bundle.version == h'.taken[i].bundle.version + 1
      ensures h'.taken[j].bundle.prevDigest == h'.taken[i].digest
    {
      if j < n {
        assert FirstOfVersion(h.taken, j);
      } else {
        assert i < n - 1 ==> Forward(h.taken[i], h.taken[n - 1]);
        assert h'.taken[n - 1].bundle.version != h'.taken[n].bundle.version;
      }
    }
  }

  lemma StepKeepsInv(e: Env, h: Host, h': Host)
    requires Inv(e, h) && Step(e, h, h')
    ensures Inv(e, h')
  {
    if h' != h {
      StepKeepsOrder(e, h, h');
      StepKeepsLinks(e, h, h');
    }
  }

  // -- runs and power cuts --------------------------------------------------

  /** The floor a cut brings back can be read and is at the last bundle taken. */
  predicate Harmless(e: Env, h: Host, k: nat) {
    LoadFloor(e.w.stamp, Back(h, k)).Ok? && AtHead(Back(h, k), h.taken)
  }

  /** One cut keeps the invariant exactly when it is harmless. */
  lemma CutKeepsInvExactly(e: Env, h: Host, k: nat)
    requires Inv(e, h)
    ensures Inv(e, AfterCut(h, k)) <==> Harmless(e, h, k)
  {
  }

  ghost predicate HarmlessCuts(e: Env, h: Host, events: seq<Event>)
    decreases |events|
  {
    events == [] ||
    var init, last := events[..|events| - 1], events[|events| - 1];
    HarmlessCuts(e, h, init) && (last.PowerCut? ==> Harmless(e, AfterEvents(e, h, init), last.back))
  }

  /** The invariant holds from the start to the end of a history. */
  ghost predicate InvThroughout(e: Env, h: Host, events: seq<Event>)
    decreases |events|
  {
    Inv(e, AfterEvents(e, h, events)) && (events == [] || InvThroughout(e, h, events[..|events| - 1]))
  }

  lemma RunKeepsInv(e: Env, h: Host, a: Attempt)
    requires Inv(e, h)
    ensures Inv(e, AfterRun(e, h, a))
  {
    RunIsStep(e, h, a);
    StepKeepsInv(e, h, AfterRun(e, h, a));
  }

  /** Over any history of runs and cuts, on any inputs and whatever became of the
      writes, the invariant holds throughout exactly when every cut was harmless. */
  lemma {:induction false} EventsKeepInvExactly(e: Env, h: Host, events: seq<Event>)
    requires Inv(e, h)
    ensures InvThroughout(e, h, events) <==> HarmlessCuts(e, h, events)
    decreases |events|
  {
    if events == [] {
    } else {
      var init, last := events[..|events| - 1], events[|events| - 1];
      EventsKeepInvExactly(e, h, init);
      var mid := AfterEvents(e, h, init);
      if InvThroughout(e, h, init) {
        InvAtTheEnd(e, h, init);
        match last {
          case Ran(a) => RunKeepsInv(e, mid, a);
          case PowerCut(k) => CutKeepsInvExactly(e, mid, k);
        }
      }
    }
  }

  lemma InvAtTheEnd(e: Env, h: Host, events: seq<Event>)
    requires InvThroughout(e, h, events)
    ensures Inv(e, AfterEvents(e, h, events))
  {
  }

  lemma HarmlessKeepsInv(e: Env, h: Host, events: seq<Event>)
    requires Inv(e, h) && HarmlessCuts(e, h, events)
    ensures Inv(e, AfterEvents(e, h, events))
  {
    EventsKeepInvExactly(e, h, events);
  }

  predicate NoUnsynced(events: seq<Event>) {
    forall i :: 0 <= i < |events| && events[i].Ran? ==> !events[i].attempt.write.Unsynced?
  }

  /** Where every write that was put in place was synced, what is visible is durable,
      and so every cut is harmless, wherever and however often the power goes. */
  lemma {:induction false} SyncedWritesSurviveCuts(e: Env, h: Host, events: seq<Event>)
    requires Inv(e, h) && h.later == [] && NoUnsynced(events)
    ensures AfterEvents(e, h, events).later == [] && HarmlessCuts(e, h, events) && Inv(e, AfterEvents(e, h, events))
    decreases |events|
  {
    if events == [] {
    } else {
      var init, last := events[..|events| - 1], events[|events| - 1];
      assert forall i :: 0 <= i < |init| ==> init[i] == events[i];
      SyncedWritesSurviveCuts(e, h, init);
      var mid := AfterEvents(e, h, init);
      if last.Ran? {
        RunStaysDurable(e, mid, last.attempt);
      }
      HarmlessKeepsInv(e, h, events);
    }
  }

  lemma RunStaysDurable(e: Env, h: Host, a: Attempt)
    requires h.later == [] && !a.write.Unsynced?
    ensures AfterRun(e, h, a).later == []
  {
  }

  /** A bundle goes forward from the last one taken, if there is one. */
  predicate Follows(taken: seq<Taken>, next: Taken) {
    taken == [] || Forward(taken[|taken| - 1], next)
  }

  lemma NeverBackSnoc(taken: seq<Taken>, next: Taken)
    requires NeverBack(taken)
    ensures NeverBack(taken + [next]) <==> Follows(taken, next)
  {
    var n, all := |taken|, taken + [next];
    if n > 0 && Forward(taken[n - 1], next) {
      forall i, j | 0 <= i < j < n + 1 ensures Forward(all[i], all[j]) {
        if j < n {
          assert Forward(taken[i], taken[j]);
        } else {
          assert i < n - 1 ==> Forward(taken[i], taken[n - 1]);
        }
      }
    } else if n > 0 {
      assert all[n - 1] == taken[n - 1] && all[n] == next;
    }
  }

  lemma RunAddsOne(e: Env, h: Host, a: Attempt) returns (next: Taken)
    requires |AfterRun(e, h, a).taken| > |h.taken|
    ensures AfterRun(e, h, a).taken == h.taken + [next]
  {
    RunIsStep(e, h, a);
    AddedOne(e, h, AfterRun(e, h, a));
    next := AfterRun(e, h, a).taken[|h.taken|];
  }

  lemma AddedOne(e: Env, h: Host, h': Host)
    requires Step(e, h, h') && h'.taken != h.taken
    ensures |h'.taken| == |h.taken| + 1 && h'.taken == h.taken + [h'.taken[|h.taken|]]
  {
    assert h'.taken == h'.taken[..|h'.taken| - 1] + [h'.taken[|h'.taken| - 1]];
  }

  /** What one cut costs: after it, a run that takes a bundle keeps the channel's
      history going forward exactly when that bundle goes forward from the last one
      taken, which the floor that came back may no longer say. */
  lemma CutCostsExactly(e: Env, h: Host, k: nat, a: Attempt) returns (next: Taken)
    requires NeverBack(h.taken) && |AfterRun(e, AfterCut(h, k), a).taken| > |h.taken|
    ensures AfterRun(e, AfterCut(h, k), a).taken == h.taken + [next]
    ensures NeverBack(h.taken + [next]) <==> Follows(h.taken, next)
  {
    next := RunAddsOne(e, AfterCut(h, k), a);
    NeverBackSnoc(h.taken, next);
  }

  // -- what a history promises ----------------------------------------------

  predicate PowerOn(events: seq<Event>) {
    forall i :: 0 <= i < |events| ==> events[i].Ran?
  }

  /** While the power is on, over any runs on any inputs: what was taken stays taken,
      neither counter of the recorded floor falls, and no run turns a readable floor
      unreadable. */
  lemma {:induction false} FloorNeverFalls(e: Env, h: Host, events: seq<Event>)
    requires Inv(e, h) && PowerOn(events)
    ensures var after := AfterEvents(e, h, events);
      && Inv(e, after)
      && h.taken <= after.taken
      && (Visible(h).Stored? ==> Visible(after).Stored?)
      && LoadedVersion(Visible(after)) >= LoadedVersion(Visible(h))
      && LoadedSerial(Visible(after)) >= LoadedSerial(Visible(h))
    decreases |events|
  {
    if events == [] {
    } else {
      var init, last := events[..|events| - 1], events[|events| - 1];
      assert forall i :: 0 <= i < |init| ==> init[i] == events[i];
      FloorNeverFalls(e, h, init);
      var mid := AfterEvents(e, h, init);
      RunIsStep(e, mid, last.attempt);
      StepNeverFalls(e, mid, AfterEvents(e, h, events));
      RunKeepsInv(e, mid, last.attempt);
    }
  }

  lemma StepNeverFalls(e: Env, h: Host, h': Host)
    requires Inv(e, h) && Step(e, h, h')
    ensures h.taken <= h'.taken
    ensures Visible(h).Stored? ==> Visible(h').Stored?
    ensures LoadedVersion(Visible(h')) >= LoadedVersion(Visible(h)) && LoadedSerial(Visible(h')) >= LoadedSerial(Visible(h))
  {
  }

  /** A host that has taken nothing yet and can read its floor, if it has one. */
  predicate Fresh(e: Env, h: Host) {
    h.taken == [] && LoadFloor(e.w.stamp, Visible(h)).Ok?
  }

  /** One version has one digest for ever, reported or not, and nothing later is of an
      earlier version or serial, across every cut that was harmless. */
  lemma OneDigestPerVersion(e: Env, h: Host, events: seq<Event>, i: nat, j: nat)
    requires Fresh(e, h) && HarmlessCuts(e, h, events) && i < j < |AfterEvents(e, h, events).taken|
    ensures var all := AfterEvents(e, h, events).taken;
      && all[i].bundle.version <= all[j].bundle.version && all[i].serial <= all[j].serial
      && (all[i].bundle.version == all[j].bundle.version ==> all[i].digest == all[j].digest)
  {
    HarmlessKeepsInv(e, h, events);
    assert Forward(AfterEvents(e, h, events).taken[i], AfterEvents(e, h, events).taken[j]);
  }

  /** ... and so across every cut there is, where no sync failed. */
  lemma SyncedKeepOneDigest(e: Env, h: Host, events: seq<Event>, i: nat, j: nat)
    requires Fresh(e, h) && h.later == [] && NoUnsynced(events) && i < j < |AfterEvents(e, h, events).taken|
    ensures var all := AfterEvents(e, h, events).taken;
      && all[i].bundle.version <= all[j].bundle.version && all[i].serial <= all[j].serial
      && (all[i].bundle.version == all[j].bundle.version ==> all[i].digest == all[j].digest)
  {
    SyncedWritesSurviveCuts(e, h, events);
    OneDigestPerVersion(e, h, events, i, j);
  }

  ghost predicate Collides(e: Env, x: string, y: string) {
    x != y && e.sha256(x) == e.sha256(y)
  }

  lemma {:induction false} FirstTaking(taken: seq<Taken>, j: nat) returns (k: nat)
    requires j < |taken|
    ensures k <= j && taken[k].bundle.version == taken[j].bundle.version && FirstOfVersion(taken, k)
  {
    k := j;
    if FirstOfVersion(taken, j) {
    } else {
      var i :| 0 <= i < j && taken[i].bundle.version == taken[j].bundle.version;
      k := FirstTaking(taken, i);
    }
  }

  /** Taken versions v and v+1 are joined: the later bundle names the earlier one,
      unless two different bundles with one hash are at hand. */
  lemma ConsecutiveVersionsJoin(e: Env, h: Host, events: seq<Event>, i: nat, j: nat) returns (k: nat)
    requires Fresh(e, h) && HarmlessCuts(e, h, events) && i < j < |AfterEvents(e, h, events).taken|
    requires var all := AfterEvents(e, h, events).taken; all[j].bundle.version == all[i].bundle.version + 1
    ensures var all := AfterEvents(e, h, events).taken;
      && k <= j
      && (all[j].bundle.prevDigest == all[i].digest || Collides(e, all[k].raw, all[j].raw))
  {
    HarmlessKeepsInv(e, h, events);
    k := JoinedOrCollides(e, AfterEvents(e, h, events), i, j);
  }

  lemma JoinedOrCollides(e: Env, h: Host, i: nat, j: nat) returns (k: nat)
    requires Inv(e, h) && i < j < |h.taken| && h.taken[j].bundle.version == h.taken[i].bundle.version + 1
    ensures k <= j
    ensures h.taken[j].bundle.prevDigest == h.taken[i].digest || Collides(e, h.taken[k].raw, h.taken[j].raw)
  {
    k := FirstTaking(h.taken, j);
    if k < j {
      assert Forward(h.taken[k], h.taken[j]);
      HexInjective(e.sha256(h.taken[k].raw), e.sha256(h.taken[j].raw));
    }
  }
}
