/** What the chain verifier accepts and how it refuses, on the records themselves. */
module ChainAcceptance {
  import opened Wrappers
  import opened ChainEntry
  import opened Chain
  import opened Fields
  import Digest
  import Text

  /** Sixty-four zeros. */
  lemma GenesisIsZeros(s: string)
    ensures s == GENESIS_PREV <==> |s| == 64 && forall i :: 0 <= i < 64 ==> s[i] == '0'
  {
    var z := Digest.ZEROS;
    assert forall i :: 0 <= i < 16 ==> z[i] == '0';
    if |s| == 64 && forall i :: 0 <= i < 64 ==> s[i] == '0' {
      assert s == GENESIS_PREV;
    }
  }

  /** A record that stands on its own: signed under a key in force, and nothing in its
      entry malformed. */
  ghost predicate Stands(t: Trust, r: Record) {
    var e := r.entry;
    && t.signer(r.sig, r.raw).Some?
    && e.schema == 1 && e.position >= 0 && (e.kind == "baseline" || e.kind == "append")
    && t.stamp(e.time).Some? && !Text.Blank(e.host) && !Text.Blank(e.payload.kind) && !Text.Blank(e.payload.namespace)
    && Digest.ValidDigest(e.prevHash) && Digest.ValidDigest(e.payload.sha256) && e.payload.size >= 0
  }

  lemma StandsExactly(t: Trust, r: Record)
    ensures Stands(t, r) <==> RecordFault(t, r) == None
    ensures RecordFault(t, r) == Some(BadSignature) <==> t.signer(r.sig, r.raw).None?
    ensures RecordFault(t, r) == Some(Malformed) <==> t.signer(r.sig, r.raw).Some? && !Stands(t, r)
  {
  }

  /** Both stamps can be read, and the second is no earlier. */
  predicate NoEarlier(t: Trust, a: Entry, b: Entry) {
    t.stamp(a.time).Some? && t.stamp(b.time).Some? && t.stamp(a.time).value <= t.stamp(b.time).value
  }

  /** Time never goes back, between any two records. */
  ghost predicate InTime(t: Trust, rs: seq<Record>) {
    forall i, j :: 0 <= i < j < |rs| ==> NoEarlier(t, rs[i].entry, rs[j].entry)
  }

  lemma {:induction false} NeighboursOrder(t: Trust, rs: seq<Record>, i: nat, j: nat)
    requires TimeOrdered(t, rs) && i < j < |rs|
    ensures NoEarlier(t, rs[i].entry, rs[j].entry)
    decreases j - i
  {
    assert NotBackwards(t, rs, j);
    if i == j - 1 {
    } else {
      NeighboursOrder(t, rs, i, j - 1);
    }
  }

  /** Comparing neighbours orders all the records. */
  lemma InTimeExactly(t: Trust, rs: seq<Record>)
    ensures TimeOrdered(t, rs) <==> InTime(t, rs)
  {
    if TimeOrdered(t, rs) {
      forall i, j | 0 <= i < j < |rs| ensures NoEarlier(t, rs[i].entry, rs[j].entry) {
        NeighboursOrder(t, rs, i, j);
      }
    }
    if InTime(t, rs) {
      forall i {:trigger NotBackwards(t, rs, i)} | 0 < i < |rs| ensures NotBackwards(t, rs, i) {
        assert NoEarlier(t, rs[i - 1].entry, rs[i].entry);
      }
    }
  }

  predicate NamesTheOneBefore(rs: seq<Record>, i: nat)
    requires i < |rs|
  {
    if i == 0 then rs[i].entry.prevHash == GENESIS_PREV else rs[i].entry.prevHash == rs[i - 1].hash
  }

  /** Each record names the one before it, and the first names none. */
  ghost predicate Follows(rs: seq<Record>) {
    forall i :: 0 <= i < |rs| ==> NamesTheOneBefore(rs, i)
  }

  lemma FollowsExactly(rs: seq<Record>)
    ensures Linked(rs) <==> Follows(rs)
  {
    if Linked(rs) {
      forall i | 0 <= i < |rs| ensures NamesTheOneBefore(rs, i) {
        assert rs[i].entry.prevHash == Predecessor(rs, i);
      }
    }
    if Follows(rs) {
      forall i {:trigger Predecessor(rs, i)} | 0 <= i < |rs| ensures rs[i].entry.prevHash == Predecessor(rs, i) {
        assert NamesTheOneBefore(rs, i);
      }
    }
  }

  ghost predicate NewHashes(rs: seq<Record>) {
    forall i, j :: 0 <= i < j < |rs| ==> rs[i].hash != rs[j].hash
  }

  ghost predicate NewPredecessors(rs: seq<Record>) {
    forall i, j :: 0 <= i < j < |rs| ==> rs[i].entry.prevHash != rs[j].entry.prevHash
  }

  ghost predicate NewPayloads(rs: seq<Record>) {
    forall i, j :: 0 <= i < j < |rs| ==> rs[i].entry.payload.sha256 != rs[j].entry.payload.sha256
  }

  ghost predicate InPlace(rs: seq<Record>) {
    forall i :: 0 <= i < |rs| ==> rs[i].entry.position == i
  }

  lemma DistinctsExactly(rs: seq<Record>)
    ensures Distinct(Hashes(rs)) <==> NewHashes(rs)
    ensures Distinct(Predecessors(rs)) <==> NewPredecessors(rs)
    ensures Distinct(PayloadDigests(rs)) <==> NewPayloads(rs)
    ensures Positioned(rs) <==> InPlace(rs)
  {
    var h, p, d := Hashes(rs), Predecessors(rs), PayloadDigests(rs);
    assert forall i :: 0 <= i < |rs| ==> h[i] == rs[i].hash && p[i] == rs[i].entry.prevHash && d[i] == rs[i].entry.payload.sha256;
    if Distinct(h) {
      forall i, j | 0 <= i < j < |rs| ensures rs[i].hash != rs[j].hash { assert h[i] != h[j]; }
    }
    if Distinct(p) {
      forall i, j | 0 <= i < j < |rs| ensures rs[i].entry.prevHash != rs[j].entry.prevHash { assert p[i] != p[j]; }
    }
    if Distinct(d) {
      forall i, j | 0 <= i < j < |rs| ensures rs[i].entry.payload.sha256 != rs[j].entry.payload.sha256 { assert d[i] != d[j]; }
    }
  }

  ghost predicate AllStand(t: Trust, rs: seq<Record>) {
    forall i :: 0 <= i < |rs| ==> Stands(t, rs[i])
  }

  lemma AllStandExactly(t: Trust, rs: seq<Record>)
    ensures FirstRecordFault(t, rs) == None <==> AllStand(t, rs)
  {
    NoRecordFault(t, rs);
    forall i | 0 <= i < |rs| ensures Stands(t, rs[i]) <==> RecordFault(t, rs[i]) == None {
      StandsExactly(t, rs[i]);
    }
  }

  /** A chain is accepted exactly when every record stands, is in its place and names
      the one before it, no hash, predecessor or payload comes twice, no record is
      earlier than one before it, and the anchor, if there is one, is met. */
  lemma AcceptedExactly(t: Trust, rs: seq<Record>, anchor: Option<Anchor>)
    ensures Outcome(t, rs, anchor) == None <==>
      && AllStand(t, rs) && InPlace(rs) && Follows(rs) && InTime(t, rs)
      && NewHashes(rs) && NewPredecessors(rs) && NewPayloads(rs)
      && (anchor.Some? ==> anchor.value.length <= |rs|
                           && (anchor.value.length > 0 ==> rs[anchor.value.length - 1].hash == anchor.value.head))
  {
    AllStandExactly(t, rs);
    LinkageExactly(t, rs);
  }

  /** What the records that stand are refused for when they do not join up, the worst
      first. */
  lemma LinkageExactly(t: Trust, rs: seq<Record>)
    ensures LinkageFault(t, rs)
         == if !NewHashes(rs) then Some(Replay)
            else if !NewPredecessors(rs) then Some(Fork)
            else if !InPlace(rs) then Some(Sequence)
            else if !Follows(rs) then Some(PrevHash)
            else if !NewPayloads(rs) then Some(Replay)
            else if !InTime(t, rs) then Some(Time)
            else None
  {
    DistinctsExactly(rs);
    FollowsExactly(rs);
    InTimeExactly(t, rs);
  }

  lemma {:induction false} FirstFaultIs(t: Trust, rs: seq<Record>) returns (k: nat)
    requires !AllStand(t, rs)
    ensures k < |rs| && !Stands(t, rs[k]) && forall i :: 0 <= i < k ==> Stands(t, rs[i])
    ensures FirstRecordFault(t, rs) == Some(if t.signer(rs[k].sig, rs[k].raw).None? then BadSignature else Malformed)
    decreases |rs|
  {
    StandsExactly(t, rs[0]);
    if !Stands(t, rs[0]) {
      k := 0;
    } else {
      assert !AllStand(t, rs[1..]) by {
        var i :| 0 <= i < |rs| && !Stands(t, rs[i]);
        assert rs[1..][i - 1] == rs[i];
      }
      k := FirstFaultIs(t, rs[1..]);
      assert rs[1..][k] == rs[k + 1];
      forall i | 0 <= i < k + 1 ensures Stands(t, rs[i]) {
        if i > 0 {
          assert Stands(t, rs[1..][i - 1]);
        }
      }
      k := k + 1;
    }
  }

  /** The refusal a chain gets: the fault of its first record that does not stand, else
      how its records fail to join up, else how it disagrees with the anchor. */
  lemma RefusedExactly(t: Trust, rs: seq<Record>, anchor: Option<Anchor>) returns (k: nat)
    ensures !AllStand(t, rs) ==>
      && k < |rs| && !Stands(t, rs[k]) && (forall i :: 0 <= i < k ==> Stands(t, rs[i]))
      && Outcome(t, rs, anchor) == Some(if t.signer(rs[k].sig, rs[k].raw).None? then BadSignature else Malformed)
    ensures AllStand(t, rs) ==>
      Outcome(t, rs, anchor)
      == if !NewHashes(rs) then Some(Replay)
         else if !NewPredecessors(rs) then Some(Fork)
         else if !InPlace(rs) then Some(Sequence)
         else if !Follows(rs) then Some(PrevHash)
         else if !NewPayloads(rs) then Some(Replay)
         else if !InTime(t, rs) then Some(Time)
         else if anchor.None? || anchor.value.length <= 0 then None
         else if anchor.value.length > |rs| then Some(Truncated)
         else if rs[anchor.value.length - 1].hash != anchor.value.head then Some(Fork)
         else None
  {
    k := 0;
    AllStandExactly(t, rs);
    if AllStand(t, rs) {
      LinkageExactly(t, rs);
    } else {
      k := FirstFaultIs(t, rs);
    }
  }
}
