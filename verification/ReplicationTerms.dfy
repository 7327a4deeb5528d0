/** The replication report in the terms of the records and the recorded anchor. */
module ReplicationTerms {
  import opened Wrappers
  import opened ChainEntry
  import opened Replication
  import BundleTerms
  import Documents
  import Canon
  import F = Findings
  import Text

  /** How the recorded anchor stands to the records: it claims more of them than there
      are, or another one than the one in its place, or nothing is wrong with it. */
  function Disagreement(rs: seq<Record>, loaded: Loaded): Option<Error>
    requires Usable(loaded)
  {
    match loaded
    case Absent => None
    case Present(r) =>
      if r.length > |rs| then Some(Truncated)
      else if rs[r.length - 1].hash != r.head then Some(Error.Fork)
      else None
  }

  /** The records a report says are pushed: all the anchor claims, unless it disagrees. */
  function PushedCount(rs: seq<Record>, loaded: Loaded): nat
    requires Usable(loaded)
  {
    if loaded.Present? && Disagreement(rs, loaded) == None then loaded.state.length else 0
  }

  /** What is reported, field by field. */
  lemma ReportExactly(rs: seq<Record>, loaded: Loaded)
    requires Usable(loaded)
    ensures var st, k := Report(rs, loaded), PushedCount(rs, loaded);
      && st.length == |rs| && st.anchored == loaded.Present?
      && st.head == (if rs == [] then "" else rs[|rs| - 1].hash)
      && st.pushedHead == (if loaded.Present? then loaded.state.head else "")
      && st.claimedLength == (if loaded.Present? then loaded.state.length else 0)
      && st.pushedLength == (if Disagreement(rs, loaded) == Some(Truncated) then |rs| else k)
      && st.conflict == Disagreement(rs, loaded)
      && |st.entries| == |rs| && k <= |rs| && st.unpushed == st.entries[k..]
      && forall i :: 0 <= i < |rs| ==>
           st.entries[i] == EntryStatus(rs[i].entry.position, rs[i].hash, rs[i].entry.time, rs[i].entry.kind, i < k)
  {
  }

  /** What a run makes of it, when there is a chain at all: a critical finding for an
      anchor that disagrees, a suspicious one for records that are not pushed, and a gap
      where there is no anchor. */
  lemma FindingsExactly(rs: seq<Record>, loaded: Loaded)
    requires Usable(loaded)
    ensures var (found, gap) := Findings(Report(rs, loaded));
      && (F.Critical in found <==> Disagreement(rs, loaded).Some? && rs != [])
      && (F.Suspicious in found <==> PushedCount(rs, loaded) < |rs|)
      && F.Info !in found && |found| <= 2
      && (gap <==> loaded.Absent? && rs != [])
  {
    ReportExactly(rs, loaded);
    var st := Report(rs, loaded);
    assert |st.unpushed| == |rs| - PushedCount(rs, loaded);
    FoundExactly(st);
  }

  lemma FoundExactly(st: Status)
    ensures var (found, gap) := Findings(st);
      && (F.Critical in found <==> st.conflict.Some? && st.length > 0)
      && (F.Suspicious in found <==> st.unpushed != [] && st.length > 0)
      && F.Info !in found && |found| <= 2
      && (gap <==> !st.anchored && st.length > 0)
  {
  }

  /** An anchor is signed, and one that was signed is used, only if it names its remote,
      confirms at least one record by a digest and can be dated and written. */
  lemma AnchorExactly(t: Trust, r: State)
    ensures BuildReplication(t, r) <==>
      && !Text.Blank(r.remote) && r.length > 0 && BundleTerms.Hexadecimal(r.head) && t.stamp(r.confirmedAt).Some?
      && Canon.Marshal(Documents.AnchorValue(r), Canon.Typed).Ok?
  {
    BundleTerms.HexadecimalExactly(r.head);
  }
}
