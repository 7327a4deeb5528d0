/** The verifier of a whole chain, and what a verified chain proves. */
module Chain {
  import opened Wrappers
  import opened ChainEntry
  import opened Fields
  import Digest

  /** A length and head hash kept where the monitored host cannot rewrite them. */
  datatype Anchor = Anchor(length: int, head: string)

  datatype Report = Report(length: nat, head: string, truncationChecked: bool, signers: seq<string>)

  function HeadAnchor(rs: seq<Record>): Anchor {
    if rs == [] then Anchor(0, "") else Anchor(|rs|, rs[|rs| - 1].hash)
  }

  /** The position after `n`, which wraps as an int64 does. */
  function NextPosition(n: Int64): Int64 {
    if n == 0x7FFF_FFFF_FFFF_FFFF then -0x8000_0000_0000_0000 else n + 1
  }

  /** Position an entry after `head`, or at the start. */
  function Link(head: Option<Record>, e: Entry): Entry {
    match head
    case None => e.(position := 0, prevHash := GENESIS_PREV)
    case Some(h) => e.(position := NextPosition(h.entry.position), prevHash := h.hash)
  }

  // -- what a chain must be -------------------------------------------------

  function RecordFault(t: Trust, r: Record): Option<Error> {
    if t.signer(r.sig, r.raw).None? then Some(BadSignature)
    else if !ValidEntry(t, r.entry) then Some(Malformed)
    else None
  }

  /** The fault of the first record that has one. */
  function FirstRecordFault(t: Trust, rs: seq<Record>): Option<Error> {
    if rs == [] then None
    else if RecordFault(t, rs[0]).Some? then RecordFault(t, rs[0])
    else FirstRecordFault(t, rs[1..])
  }

  function Hashes(rs: seq<Record>): seq<string> {
    seq(|rs|, i requires 0 <= i < |rs| => rs[i].hash)
  }

  function Predecessors(rs: seq<Record>): seq<string> {
    seq(|rs|, i requires 0 <= i < |rs| => rs[i].entry.prevHash)
  }

  function PayloadDigests(rs: seq<Record>): seq<string> {
    seq(|rs|, i requires 0 <= i < |rs| => rs[i].entry.payload.sha256)
  }

  ghost predicate Distinct(xs: seq<string>) {
    forall i, j :: 0 <= i < j < |xs| ==> xs[i] != xs[j]
  }

  ghost predicate Positioned(rs: seq<Record>) {
    forall i :: 0 <= i < |rs| ==> rs[i].entry.position == i
  }

  function Predecessor(rs: seq<Record>, i: nat): string
    requires i < |rs|
  {
    if i == 0 then GENESIS_PREV else rs[i - 1].hash
  }

  ghost predicate Linked(rs: seq<Record>) {
    forall i {:trigger Predecessor(rs, i)} :: 0 <= i < |rs| ==> rs[i].entry.prevHash == Predecessor(rs, i)
  }

  predicate NotBackwards(t: Trust, rs: seq<Record>, i: nat)
    requires 0 < i < |rs|
  {
    match (t.stamp(rs[i - 1].entry.time), t.stamp(rs[i].entry.time))
    case (Some(a), Some(b)) => a <= b
    case _ => false
  }

  ghost predicate TimeOrdered(t: Trust, rs: seq<Record>) {
    forall i {:trigger NotBackwards(t, rs, i)} :: 0 < i < |rs| ==> NotBackwards(t, rs, i)
  }

  /** Every record stands on its own. */
  ghost predicate AllSigned(t: Trust, rs: seq<Record>) {
    forall i :: 0 <= i < |rs| ==> RecordFault(t, rs[i]) == None
  }

  /** A verified chain, said without saying how it is checked. */
  ghost predicate Sound(t: Trust, rs: seq<Record>) {
    && AllSigned(t, rs)
    && Distinct(Hashes(rs))
    && Distinct(Predecessors(rs))
    && Positioned(rs)
    && Linked(rs)
    && Distinct(PayloadDigests(rs))
    && TimeOrdered(t, rs)
  }

  function AnchorFault(rs: seq<Record>, anchor: Option<Anchor>): Option<Error> {
    match anchor
    case None => None
    case Some(a) =>
      if a.length > |rs| then Some(Truncated)
      else if a.length > 0 && rs[a.length - 1].hash != a.head then Some(Fork)
      else None
  }

  /** How the records fail to join up. */
  ghost function LinkageFault(t: Trust, rs: seq<Record>): Option<Error> {
    if !Distinct(Hashes(rs)) then Some(Replay)
    else if !Distinct(Predecessors(rs)) then Some(Fork)
    else if !Positioned(rs) then Some(Sequence)
    else if !Linked(rs) then Some(PrevHash)
    else if !Distinct(PayloadDigests(rs)) then Some(Replay)
    else if !TimeOrdered(t, rs) then Some(Time)
    else None
  }

  /** The one refusal a chain gets: the first check it fails, in the order of
      how badly each failure would mislead. */
  ghost function Outcome(t: Trust, rs: seq<Record>, anchor: Option<Anchor>): Option<Error> {
    if FirstRecordFault(t, rs).Some? then FirstRecordFault(t, rs)
    else if LinkageFault(t, rs).Some? then LinkageFault(t, rs)
    else AnchorFault(rs, anchor)
  }

  lemma {:induction false} NoRecordFault(t: Trust, rs: seq<Record>)
    ensures FirstRecordFault(t, rs) == None <==> AllSigned(t, rs)
    decreases |rs|
  {
    if rs == [] {
    } else {
      NoRecordFault(t, rs[1..]);
      assert forall i :: 0 < i < |rs| ==> rs[i] == rs[1..][i - 1];
      if AllSigned(t, rs) {
        assert AllSigned(t, rs[1..]);
      } else if AllSigned(t, rs[1..]) {
        assert RecordFault(t, rs[0]).Some?;
      }
    }
  }

  // -- the verifier ---------------------------------------------------------

  /** `chain.Verify`: one pass per check, each with its own refusal. */
  method Verify(t: Trust, rs: seq<Record>, anchor: Option<Anchor>) returns (rep: Report, failure: Option<Error>)
    ensures failure == Outcome(t, rs, anchor)
    ensures rep.length == |rs| && rep.head == HeadAnchor(rs).head && rep.truncationChecked == anchor.Some?
    ensures failure == None ==>
      && (forall i, j :: 0 <= i < j < |rep.signers| ==> rep.signers[i] != rep.signers[j])
      && (forall fp :: fp in rep.signers <==> exists i :: 0 <= i < |rs| && t.signer(rs[i].sig, rs[i].raw) == Some(fp))
  {
    rep := Report(|rs|, if |rs| > 0 then rs[|rs| - 1].hash else "", anchor.Some?, []);
    var signers, fault := CheckSignatures(t, rs);
    rep := rep.(signers := signers);
    if fault.Some? {
      return rep, fault;
    }
    fault := CheckLinkage(t, rs);
    if fault.Some? {
      return rep, fault;
    }
    return rep, AnchorFault(rs, anchor);
  }

  method CheckSignatures(t: Trust, rs: seq<Record>) returns (signers: seq<string>, fault: Option<Error>)
    ensures fault == FirstRecordFault(t, rs)
    ensures forall i, j :: 0 <= i < j < |signers| ==> signers[i] != signers[j]
    ensures fault == None ==>
      forall fp :: fp in signers <==> exists i :: 0 <= i < |rs| && t.signer(rs[i].sig, rs[i].raw) == Some(fp)
  {
    signers := [];
    assert rs[0..] == rs;
    for k := 0 to |rs|
      invariant FirstRecordFault(t, rs) == FirstRecordFault(t, rs[k..])
      invariant forall i, j :: 0 <= i < j < |signers| ==> signers[i] != signers[j]
      invariant forall fp :: fp in signers ==> exists i :: 0 <= i < k && t.signer(rs[i].sig, rs[i].raw) == Some(fp)
      invariant forall i :: 0 <= i < k ==> t.signer(rs[i].sig, rs[i].raw).Some? && t.signer(rs[i].sig, rs[i].raw).value in signers
    {
      assert rs[k..][0] == rs[k] && rs[k..][1..] == rs[k + 1..];
      var key := t.signer(rs[k].sig, rs[k].raw);
      if key.None? {
        return signers, Some(BadSignature);
      }
      if key.value !in signers {
        signers := signers + [key.value];
      }
      if !ValidEntry(t, rs[k].entry) {
        return signers, Some(Malformed);
      }
    }
    return signers, None;
  }

  /** The scan all three replay and fork checks are: a map from value to the
      place it was first seen. */
  method AllDistinct(xs: seq<string>) returns (ok: bool)
    ensures ok <==> Distinct(xs)
  {
    var place: map<string, nat> := map[];
    for k := 0 to |xs|
      invariant forall x :: x in place ==> place[x] < k && xs[place[x]] == x
      invariant forall i :: 0 <= i < k ==> xs[i] in place
      invariant forall i, j :: 0 <= i < j < k ==> xs[i] != xs[j]
    {
      if xs[k] in place {
        return false;
      }
      place := place[xs[k] := k];
    }
    return true;
  }

  method CheckLinkage(t: Trust, rs: seq<Record>) returns (fault: Option<Error>)
    ensures fault == LinkageFault(t, rs)
  {
    var ok := AllDistinct(Hashes(rs));
    if !ok {
      return Some(Replay);
    }
    ok := AllDistinct(Predecessors(rs));
    if !ok {
      return Some(Fork);
    }
    for i := 0 to |rs|
      invariant forall j :: 0 <= j < i ==> rs[j].entry.position == j
    {
      if i != rs[i].entry.position {
        return Some(Sequence);
      }
    }
    for i := 0 to |rs|
      invariant forall j {:trigger Predecessor(rs, j)} :: 0 <= j < i ==> rs[j].entry.prevHash == Predecessor(rs, j)
    {
      var want := if i > 0 then rs[i - 1].hash else GENESIS_PREV;
      assert want == Predecessor(rs, i);
      if rs[i].entry.prevHash != want {
        return Some(PrevHash);
      }
    }
    ok := AllDistinct(PayloadDigests(rs));
    if !ok {
      return Some(Replay);
    }
    ok := CheckTimes(t, rs);
    return if ok then None else Some(Time);
  }

  method CheckTimes(t: Trust, rs: seq<Record>) returns (ok: bool)
    ensures ok <==> TimeOrdered(t, rs)
  {
    var i := 1;
    while i < |rs|
      invariant 1 <= i
      invariant forall j {:trigger NotBackwards(t, rs, j)} :: 0 < j < i && j < |rs| ==> NotBackwards(t, rs, j)
    {
      var prev, cur := t.stamp(rs[i - 1].entry.time), t.stamp(rs[i].entry.time);
      if prev.None? || cur.None? || cur.value < prev.value {
        assert !NotBackwards(t, rs, i);
        return false;
      }
      i := i + 1;
    }
    return true;
  }

  // -- what a verified chain proves -----------------------------------------

  /** The verifier accepts exactly the sound chains the anchor agrees with. */
  lemma VerifyExact(t: Trust, rs: seq<Record>, anchor: Option<Anchor>)
    ensures Outcome(t, rs, anchor) == None <==> Sound(t, rs) && AnchorFault(rs, anchor) == None
    ensures Sound(t, rs) ==> Outcome(t, rs, anchor) == AnchorFault(rs, anchor)
  {
    NoRecordFault(t, rs);
  }

  lemma PrefixDistinct(xs: seq<string>, k: nat)
    requires Distinct(xs) && k <= |xs|
    ensures Distinct(xs[..k])
  {
  }

  lemma PrefixSigned(t: Trust, rs: seq<Record>, k: nat)
    requires AllSigned(t, rs) && k <= |rs|
    ensures AllSigned(t, rs[..k])
  {
  }

  lemma PrefixLinked(t: Trust, rs: seq<Record>, k: nat)
    requires Positioned(rs) && Linked(rs) && TimeOrdered(t, rs) && k <= |rs|
    ensures Positioned(rs[..k]) && Linked(rs[..k]) && TimeOrdered(t, rs[..k])
  {
    var p := rs[..k];
    forall i | 0 <= i < |p| ensures p[i].entry.prevHash == Predecessor(p, i) {
      assert rs[i].entry.prevHash == Predecessor(rs, i);
    }
    forall i | 0 < i < |p| ensures NotBackwards(t, p, i) {
      assert NotBackwards(t, rs, i);
    }
  }

  /** Any beginning of a sound chain is a sound chain. */
  lemma PrefixSound(t: Trust, rs: seq<Record>, k: nat)
    requires Sound(t, rs) && k <= |rs|
    ensures Sound(t, rs[..k])
  {
    PrefixSigned(t, rs, k);
    PrefixLinked(t, rs, k);
    PrefixDistinct(Hashes(rs), k);
    PrefixDistinct(Predecessors(rs), k);
    PrefixDistinct(PayloadDigests(rs), k);
    assert Hashes(rs[..k]) == Hashes(rs)[..k];
    assert Predecessors(rs[..k]) == Predecessors(rs)[..k];
    assert PayloadDigests(rs[..k]) == PayloadDigests(rs)[..k];
  }

  /** The limit of the construction: with no anchor, removing entries from the
      end leaves a chain that verifies; against the full chain's anchor every
      such removal is refused, and as a truncation. */
  lemma TruncationNeedsAnAnchor(t: Trust, rs: seq<Record>, k: nat)
    requires Sound(t, rs) && k < |rs|
    ensures Outcome(t, rs[..k], None) == None
    ensures Outcome(t, rs[..k], Some(HeadAnchor(rs))) == Some(Truncated)
  {
    PrefixSound(t, rs, k);
    VerifyExact(t, rs[..k], None);
    VerifyExact(t, rs[..k], Some(HeadAnchor(rs)));
  }

  /** `b` is where `a` began: same entries, same signed bytes. */
  ghost predicate SameHistory(b: seq<Record>, a: seq<Record>) {
    |b| <= |a| && forall i :: 0 <= i < |b| ==> a[i].entry == b[i].entry && a[i].raw == b[i].raw
  }

  ghost predicate Collision(t: Trust, x: string, y: string) {
    x != y && t.sha256(x) == t.sha256(y)
  }

  ghost predicate AllAuthentic(t: Trust, rs: seq<Record>) {
    forall i :: 0 <= i < |rs| ==> Authentic(t, rs[i])
  }

  /** Every record's hash is its bytes'. */
  ghost predicate AllHashed(t: Trust, rs: seq<Record>) {
    forall i :: 0 <= i < |rs| ==> rs[i].hash == Hash(t, rs[i].raw)
  }

  /** Where the two chains carry the same bytes they carry the same entries. */
  ghost predicate BytesTell(a: seq<Record>, b: seq<Record>) {
    forall i :: 0 <= i < |a| && i < |b| && a[i].raw == b[i].raw ==> a[i].entry == b[i].entry
  }

  /** Where the two chains carry the same hash, SHA-256 gave the same digest. */
  ghost predicate HashesTell(t: Trust, a: seq<Record>, b: seq<Record>) {
    forall i :: 0 <= i < |a| && i < |b| && a[i].hash == b[i].hash ==> t.sha256(a[i].raw) == t.sha256(b[i].raw)
  }

  lemma HashedChains(t: Trust, a: seq<Record>, b: seq<Record>)
    requires AllHashed(t, a) && AllHashed(t, b)
    ensures HashesTell(t, a, b)
  {
    forall i | 0 <= i < |a| && i < |b| && a[i].hash == b[i].hash ensures t.sha256(a[i].raw) == t.sha256(b[i].raw) {
      Digest.HexInjective(t.sha256(a[i].raw), t.sha256(b[i].raw));
    }
  }

  lemma AuthenticChains(t: Trust, a: seq<Record>, b: seq<Record>)
    requires AllAuthentic(t, a) && AllAuthentic(t, b)
    ensures HashesTell(t, a, b) && BytesTell(a, b)
  {
    AuthenticIsHashed(t, a);
    AuthenticIsHashed(t, b);
    HashedChains(t, a, b);
    forall i | 0 <= i < |a| && i < |b| && a[i].raw == b[i].raw ensures a[i].entry == b[i].entry {
      SameBytesSameEntry(t, a[i], b[i]);
    }
  }

  lemma AuthenticIsHashed(t: Trust, a: seq<Record>)
    requires AllAuthentic(t, a)
    ensures AllHashed(t, a)
  {
    forall i | 0 <= i < |a| ensures a[i].hash == Hash(t, a[i].raw) {
      assert Authentic(t, a[i]);
    }
  }

  lemma SameBytesSameEntry(t: Trust, r: Record, s: Record)
    requires Authentic(t, r) && Authentic(t, s) && r.raw == s.raw
    ensures r.entry == s.entry
  {
    MarshalEntryInjective(r.entry, s.entry);
  }

  /** Two linked chains that agree at place `n` agree at every place before it,
      unless two byte strings with one hash are in hand. */
  lemma {:induction false} AgreeBackwards(t: Trust, a: seq<Record>, b: seq<Record>, n: nat) returns (x: string, y: string)
    requires n <= |a| && n <= |b| && HashesTell(t, a, b) && BytesTell(a, b) && Linked(a) && Linked(b)
    requires n > 0 ==> a[n - 1].hash == b[n - 1].hash
    ensures Collision(t, x, y) || forall i :: 0 <= i < n ==> a[i].entry == b[i].entry && a[i].raw == b[i].raw
  {
    x, y := "", "";
    if n == 0 {
    } else {
      x, y := a[n - 1].raw, b[n - 1].raw;
      if x == y && n > 1 {
        assert a[n - 1].entry.prevHash == Predecessor(a, n - 1) && b[n - 1].entry.prevHash == Predecessor(b, n - 1);
        x, y := AgreeBackwards(t, a, b, n - 1);
      }
    }
  }

  /** Anchored history: a chain that verifies against the anchor of another
      verified chain has that chain, record for record, as its beginning. The
      only escape is a hash collision, and then it is exhibited. */
  lemma AnchoredHistory(t: Trust, a: seq<Record>, b: seq<Record>) returns (x: string, y: string)
    requires AllAuthentic(t, a) && AllAuthentic(t, b)
    requires Outcome(t, b, None) == None
    requires Outcome(t, a, Some(HeadAnchor(b))) == None
    ensures SameHistory(b, a) || Collision(t, x, y)
  {
    AuthenticChains(t, a, b);
    x, y := SharedHistory(t, a, b);
  }

  lemma VerifiedIsLinked(t: Trust, rs: seq<Record>, anchor: Option<Anchor>)
    requires Outcome(t, rs, anchor) == None
    ensures Linked(rs) && AnchorFault(rs, anchor) == None
  {
    VerifyExact(t, rs, anchor);
  }

  lemma SharedHistory(t: Trust, a: seq<Record>, b: seq<Record>) returns (x: string, y: string)
    requires HashesTell(t, a, b) && BytesTell(a, b)
    requires Outcome(t, b, None) == None
    requires Outcome(t, a, Some(HeadAnchor(b))) == None
    ensures SameHistory(b, a) || Collision(t, x, y)
  {
    VerifiedIsLinked(t, b, None);
    VerifiedIsLinked(t, a, Some(HeadAnchor(b)));
    x, y := AgreeBackwards(t, a, b, |b|);
  }

  /** ... and conversely, so the anchor accepts exactly the continuations. */
  lemma ContinuationMeetsAnchor(t: Trust, a: seq<Record>, b: seq<Record>)
    requires AllHashed(t, a) && AllHashed(t, b) && Sound(t, a) && SameHistory(b, a)
    ensures Outcome(t, a, Some(HeadAnchor(b))) == None
  {
    VerifyExact(t, a, Some(HeadAnchor(b)));
    if b != [] {
      assert a[|b| - 1].hash == b[|b| - 1].hash;
    }
  }

  /** Two copies that part company cannot both be believed: anchored to one, the
      other is refused, as truncated when it is the shorter and as forked
      otherwise. */
  lemma DivergedCopiesAreRefused(t: Trust, a: seq<Record>, b: seq<Record>)
    requires Sound(t, a) && AllHashed(t, a) && AllHashed(t, b) && b != []
    requires |a| < |b| || a[|b| - 1].raw != b[|b| - 1].raw
    requires |a| >= |b| ==> !Collision(t, a[|b| - 1].raw, b[|b| - 1].raw)
    ensures Outcome(t, a, Some(HeadAnchor(b))) == if |a| < |b| then Some(Truncated) else Some(Fork)
  {
    VerifyExact(t, a, Some(HeadAnchor(b)));
    if |a| >= |b| && a[|b| - 1].hash == b[|b| - 1].hash {
      Digest.HexInjective(t.sha256(a[|b| - 1].raw), t.sha256(b[|b| - 1].raw));
    }
  }
}
