/** What has been pushed where this machine cannot rewrite it, and how that
    report stands to the chain verifier. */
module Replication {
  import opened Wrappers
  import opened ChainEntry
  import opened Fields
  import opened Chain
  import opened Text
  import opened Digest
  import Canon
  import F = Findings

  datatype State = State(remote: string, length: Int64, head: string, confirmedAt: string, protectedRemote: bool, note: string)

  /** A load either authenticates a usable state or reads as absent. */
  datatype Loaded = Absent | Present(state: State)

  datatype EntryStatus = EntryStatus(position: int, hash: string, time: string, kind: string, pushed: bool)

  datatype Status = Status(
    length: nat, pushedLength: nat, claimedLength: int, head: string, pushedHead: string,
    entries: seq<EntryStatus>, unpushed: seq<EntryStatus>, anchored: bool, conflict: Option<Error>)

  function StateMembers(r: State): seq<Canon.Member> {
    [ Canon.Member("schema", Canon.Int(1)),
      Canon.Member("remote", Canon.Str(r.remote)),
      Canon.Member("length", Canon.Int(r.length)),
      Canon.Member("head", Canon.Str(r.head)),
      Canon.Member("confirmed_at", Canon.Str(r.confirmedAt)),
      Canon.Member("protected_remote", Canon.Bool(r.protectedRemote)),
      Canon.Member("note", Canon.Str(r.note)) ]
  }

  /** A state that can work as an anchor: anything else must not be signed. */
  predicate BuildReplication(t: Trust, r: State) {
    && !Blank(r.remote)
    && r.length > 0
    && ValidDigest(r.head)
    && t.stamp(r.confirmedAt).Some?
    && Canon.Marshal(Canon.Object(StateMembers(r)), Canon.Typed).Ok?
  }

  /** What the loader guarantees of a state it hands over. */
  predicate Usable(loaded: Loaded) {
    loaded.Present? ==> loaded.state.length > 0
  }

  /** Only a state that still builds is handed over after authentication. */
  function Load(t: Trust, authentic: Option<State>): (loaded: Loaded)
    ensures Usable(loaded)
    ensures loaded.Present? <==> authentic.Some? && BuildReplication(t, authentic.value)
  {
    match authentic
    case None => Absent
    case Some(r) => if BuildReplication(t, r) then Present(r) else Absent
  }

  function StatusOf(r: Record, pushed: bool): EntryStatus {
    EntryStatus(r.entry.position, r.hash, r.entry.time, r.entry.kind, pushed)
  }

  /** The anchor a status gives the verifier. */
  function AnchorOption(st: Status): Option<Anchor> {
    if st.anchored then Some(Anchor(st.claimedLength, st.pushedHead)) else None
  }

  lemma SliceSnoc(es: seq<EntryStatus>, k: nat, i: nat)
    requires k <= i < |es|
    ensures es[k..i + 1] == es[k..i] + [es[i]]
  {
  }

  method ReplicationReport(rs: seq<Record>, loaded: Loaded) returns (st: Status)
    requires Usable(loaded)
    ensures st == Report(rs, loaded)
  {
    st := Status(|rs|, 0, 0, if rs == [] then "" else rs[|rs| - 1].hash, "", [], [], false, None);
    if loaded.Present? {
      var r := loaded.state;
      st := st.(anchored := true, pushedHead := r.head, pushedLength := r.length, claimedLength := r.length);
      if r.length > |rs| {
        st := st.(conflict := Some(Truncated), pushedLength := |rs|);
      } else if rs[r.length - 1].hash != r.head {
        st := st.(conflict := Some(Fork), pushedLength := 0);
      }
    }
    var k := if st.conflict == None then st.pushedLength else 0;
    var start := st;
    for i := 0 to |rs|
      invariant st == start.(entries := st.entries, unpushed := st.unpushed)
      invariant st.entries == Statuses(rs, k)[0..i]
      invariant st.unpushed == if i < k then [] else Statuses(rs, k)[k..i]
    {
      var e := StatusOf(rs[i], i < st.pushedLength && st.conflict == None);
      assert e == Statuses(rs, k)[i];
      SliceSnoc(Statuses(rs, k), 0, i);
      if k <= i {
        SliceSnoc(Statuses(rs, k), k, i);
      }
      st := st.(entries := st.entries + [e]);
      if !e.pushed {
        st := st.(unpushed := st.unpushed + [e]);
      }
    }
    assert Statuses(rs, k)[0..|rs|] == Statuses(rs, k);
  }

  /** Entry by entry, with the first `k` confirmed. */
  function Statuses(rs: seq<Record>, k: nat): (es: seq<EntryStatus>)
    ensures |es| == |rs|
  {
    seq(|rs|, i requires 0 <= i < |rs| => StatusOf(rs[i], i < k))
  }

  function ClaimOf(loaded: Loaded): Option<Anchor> {
    match loaded
    case Absent => None
    case Present(r) => Some(Anchor(r.length, r.head))
  }

  /** How many entries the load confirms: all it claims, or none. */
  function Confirmed(rs: seq<Record>, loaded: Loaded): (k: nat)
    requires Usable(loaded)
    ensures k <= |rs|
  {
    if loaded.Present? && AnchorFault(rs, ClaimOf(loaded)) == None then loaded.state.length else 0
  }

  /** The report, from the verifier's own judgement of the claimed anchor. */
  function Report(rs: seq<Record>, loaded: Loaded): Status
    requires Usable(loaded)
  {
    var conflict := AnchorFault(rs, ClaimOf(loaded));
    var k := Confirmed(rs, loaded);
    var claimed := if loaded.Present? then loaded.state.length else 0;
    var pushed := if conflict == Some(Truncated) then |rs| else k;
    Status(|rs|, pushed, claimed, HeadAnchor(rs).head, if loaded.Present? then loaded.state.head else "",
           Statuses(rs, k), Statuses(rs, k)[k..], loaded.Present?, conflict)
  }

  /** Severities of the findings a run gets, and whether it has a coverage gap. */
  function Findings(st: Status): (seq<F.Severity>, bool) {
    if st.length == 0 then ([], false)
    else ((if st.conflict.Some? then [F.Critical] else []) + (if st.unpushed != [] then [F.Suspicious] else []), !st.anchored)
  }

  /** The report conflicts exactly when the verifier refuses its anchor, and for
      the same reason. */
  lemma ConflictIsRefusal(t: Trust, rs: seq<Record>, loaded: Loaded)
    requires Usable(loaded) && Outcome(t, rs, None) == None
    ensures Report(rs, loaded).conflict == Outcome(t, rs, AnchorOption(Report(rs, loaded)))
  {
    VerifyExact(t, rs, None);
    VerifyExact(t, rs, AnchorOption(Report(rs, loaded)));
  }

  /** Pushed entries are a prefix and unpushed ones the rest; a conflict leaves
      nothing confirmed. */
  lemma PushedIsPrefix(rs: seq<Record>, loaded: Loaded)
    requires Usable(loaded)
    ensures var st := Report(rs, loaded);
            && (exists k :: 0 <= k <= |st.entries| && st.unpushed == st.entries[k..] && forall i :: 0 <= i < |st.entries| ==> st.entries[i].pushed == (i < k))
            && (st.conflict.Some? && rs != [] ==> st.unpushed == st.entries != [])
  {
    var st, k := Report(rs, loaded), Confirmed(rs, loaded);
    assert st.unpushed == st.entries[k..];
  }

  /** Rolling the anchor back, while it still agrees with the chain, only ever
      adds to what is reported unpushed. */
  lemma RollingBackAddsUnpushed(rs: seq<Record>, newer: Loaded, older: Loaded)
    requires newer.Present? && older.Present? && 0 < older.state.length <= newer.state.length
    requires Report(rs, newer).conflict == None && Report(rs, older).conflict == None
    ensures var more, fewer := Report(rs, older).unpushed, Report(rs, newer).unpushed;
            |more| - |fewer| == newer.state.length - older.state.length && more[|more| - |fewer|..] == fewer
  {
    var k, l := older.state.length, newer.state.length;
    assert Statuses(rs, k)[k..][l - k..] == Statuses(rs, k)[l..];
    assert Statuses(rs, k)[l..] == Statuses(rs, l)[l..];
  }

  /** A non-empty chain draws no finding and no gap exactly when the anchor is
      that chain's own head. */
  lemma QuietExactly(rs: seq<Record>, loaded: Loaded)
    requires Usable(loaded) && rs != []
    ensures Findings(Report(rs, loaded)) == ([], false) <==> ClaimOf(loaded) == Some(HeadAnchor(rs))
  {
    var st, k := Report(rs, loaded), Confirmed(rs, loaded);
    assert |st.unpushed| == |rs| - k;
    assert |Findings(st).0| == (if st.conflict.Some? then 1 else 0) + if st.unpushed != [] then 1 else 0;
    assert Findings(st).1 <==> loaded.Absent?;
    assert st.conflict == AnchorFault(rs, ClaimOf(loaded));
  }

  /** The file's header says that no edit of this state makes a truncated chain
      look complete. One does: the state recorded when the chain was that short.
      By `QuietExactly` it is the only one. */
  lemma ShorterStateHidesTruncation(t: Trust, rs: seq<Record>, k: nat, r: State)
    requires Outcome(t, rs, None) == None && 0 < k < |rs| && k < 0x8000_0000_0000_0000
    requires r.length == k && r.head == rs[k - 1].hash
    ensures Outcome(t, rs[..k], None) == None
    ensures Findings(Report(rs[..k], Present(r))) == ([], false)
  {
    VerifyExact(t, rs, None);
    TruncationNeedsAnAnchor(t, rs, k);
    QuietExactly(rs[..k], Present(r));
  }
}
