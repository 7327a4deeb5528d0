/** The root-signed delegation: who may sign bundles, and how many roots must
    have said so. */
module Delegation {
  import opened Times
  import opened Wrappers
  import opened Wire
  import Order

  /** A public key, identified by its wire blob. */
  type Key = string

  const MAX_DELEGATION_BYTES := 0x1_0000
  const MAX_ONLINE_KEY_LIFETIME := 90 * DAY
  const MAX_DELEGATION_LIFETIME := 365 * DAY
  const MAX_SIGNING_KEYS := 4
  const SPEC_VERSION := 1

  datatype SigningKey = SigningKey(publicKey: string, notBefore: string, notAfter: string)

  datatype Document = Document(
    specVersion: int, rootGeneration: int, serial: int, issuedAt: string, validUntil: string,
    signingKeys: seq<SigningKey>, rootSetRetired: bool, upgradeMessage: string)

  datatype RootSet = RootSet(generation: int, threshold: int, keys: seq<Key>)

  /** What the documents are checked with: instants in nanoseconds, key lines, the
      key of a trusted set whose delegation signature over some bytes a blob is,
      and the canonical, strict reading of a delegation. */
  datatype World = World(
    stamp: Stamp,
    parseKey: string -> Option<Key>,
    fingerprint: Key -> string,
    signer: (bytes, string, seq<Key>) -> Option<Key>,
    decode: string -> Option<Document>)

  // -- root sets ------------------------------------------------------------

  predicate Empty(r: RootSet) {
    r.keys == [] || r.threshold < 2
  }

  ghost predicate PairwiseDistinct(keys: seq<Key>) {
    forall i, j :: 0 <= i < j < |keys| ==> keys[i] != keys[j]
  }

  /** A set whose threshold one holder cannot reach alone: no key is listed twice. */
  ghost predicate ValidRoots(r: RootSet) {
    r.generation >= 1 && 2 <= r.threshold <= |r.keys| && PairwiseDistinct(r.keys)
  }

  method NewRootSet(generation: int, threshold: int, keys: seq<Option<Key>>) returns (r: Option<RootSet>)
    ensures r.Some? <==>
      && generation >= 1 && 2 <= threshold <= |keys|
      && (forall i :: 0 <= i < |keys| ==> keys[i].Some?)
      && (forall i, j :: 0 <= i < j < |keys| ==> keys[i] != keys[j])
    ensures r.Some? ==> ValidRoots(r.value) && r.value.generation == generation && r.value.threshold == threshold
    ensures r.Some? ==> |r.value.keys| == |keys| && forall i :: 0 <= i < |keys| ==> keys[i] == Some(r.value.keys[i])
  {
    if generation < 1 || threshold < 2 || |keys| < threshold {
      return None;
    }
    var seen: seq<Key> := [];
    for i := 0 to |keys|
      invariant |seen| == i && forall j :: 0 <= j < i ==> keys[j] == Some(seen[j])
      invariant PairwiseDistinct(seen)
    {
      if keys[i].None? || keys[i].value in seen {
        return None;
      }
      seen := seen + [keys[i].value];
    }
    return Some(RootSet(generation, threshold, seen));
  }

  /** Position of a key in the set, -1 when it is not there. */
  method Index(r: RootSet, k: Key) returns (at: int)
    ensures -1 <= at < |r.keys|
    ensures at >= 0 ==> r.keys[at] == k
    ensures at < 0 ==> k !in r.keys
  {
    for i := 0 to |r.keys|
      invariant k !in r.keys[..i]
    {
      if r.keys[i] == k {
        return i;
      }
    }
    return -1;
  }

  // -- the threshold --------------------------------------------------------

  function SignerOf(w: World, raw: string, r: RootSet, sig: bytes): Option<Key> {
    match w.signer(sig, raw, r.keys)
    case None => None
    case Some(k) => if k in r.keys then Some(k) else None
  }

  ghost predicate AllValid(w: World, raw: string, r: RootSet, sigs: seq<bytes>) {
    forall i :: 0 <= i < |sigs| ==> SignerOf(w, raw, r, sigs[i]).Some?
  }

  /** The root keys that signed. */
  function Signers(w: World, raw: string, r: RootSet, sigs: seq<bytes>): set<Key> {
    set i | 0 <= i < |sigs| && SignerOf(w, raw, r, sigs[i]).Some? :: SignerOf(w, raw, r, sigs[i]).value
  }

  /** Every signature is a root's, no root's counts twice, and the signers, as a
      set of keys, reach the threshold. */
  ghost predicate ThresholdMet(w: World, raw: string, r: RootSet, sigs: seq<bytes>) {
    && |sigs| <= |r.keys|
    && AllValid(w, raw, r, sigs)
    && |Signers(w, raw, r, sigs)| == |sigs|
    && |Signers(w, raw, r, sigs)| >= r.threshold
  }

  lemma SignersSnoc(w: World, raw: string, r: RootSet, sigs: seq<bytes>, i: nat)
    requires i < |sigs|
    ensures Signers(w, raw, r, sigs[..i + 1])
         == Signers(w, raw, r, sigs[..i]) + (match SignerOf(w, raw, r, sigs[i]) case None => {} case Some(k) => {k})
  {
    var all, some := Signers(w, raw, r, sigs[..i + 1]), Signers(w, raw, r, sigs[..i]);
    assert forall j :: 0 <= j < i ==> sigs[..i + 1][j] == sigs[..i][j] == sigs[j];
    assert sigs[..i + 1][i] == sigs[i];
    forall k | k in some ensures k in all {
      var j :| 0 <= j < |sigs[..i]| && SignerOf(w, raw, r, sigs[..i][j]) == Some(k);
      assert SignerOf(w, raw, r, sigs[..i + 1][j]) == Some(k);
    }
    forall k | k in all ensures k in some || SignerOf(w, raw, r, sigs[i]) == Some(k) {
      var j :| 0 <= j < |sigs[..i + 1]| && SignerOf(w, raw, r, sigs[..i + 1][j]) == Some(k);
      if j < i {
        assert SignerOf(w, raw, r, sigs[..i][j]) == Some(k);
      }
    }
  }

  /** No more signers than signatures; once short, always short. */
  lemma {:induction false} SignersBound(w: World, raw: string, r: RootSet, sigs: seq<bytes>, i: nat)
    requires i <= |sigs|
    ensures |Signers(w, raw, r, sigs)| <= |Signers(w, raw, r, sigs[..i])| + (|sigs| - i)
    decreases |sigs| - i
  {
    if i == |sigs| {
      assert sigs[..i] == sigs;
    } else {
      SignersSnoc(w, raw, r, sigs, i);
      SignersBound(w, raw, r, sigs, i + 1);
    }
  }

  lemma RepeatedSignerFails(w: World, raw: string, r: RootSet, sigs: seq<bytes>, i: nat, k: Key)
    requires i < |sigs| && |Signers(w, raw, r, sigs[..i])| == i
    requires SignerOf(w, raw, r, sigs[i]) == Some(k) && k in Signers(w, raw, r, sigs[..i])
    ensures !ThresholdMet(w, raw, r, sigs)
  {
    SignersSnoc(w, raw, r, sigs, i);
    assert Signers(w, raw, r, sigs[..i + 1]) == Signers(w, raw, r, sigs[..i]);
    SignersBound(w, raw, r, sigs, i + 1);
  }

  /** The signature stage of the verifier: distinct keys are counted, not blobs. */
  method CountSigners(w: World, raw: string, r: RootSet, sigs: seq<bytes>) returns (ok: bool)
    requires PairwiseDistinct(r.keys)
    ensures ok <==> ThresholdMet(w, raw, r, sigs)
  {
    if |sigs| > |r.keys| {
      return false;
    }
    var seen := new bool[|r.keys|](_ => false);
    var distinct := 0;
    for i := 0 to |sigs|
      invariant distinct == i == |Signers(w, raw, r, sigs[..i])|
      invariant forall x :: 0 <= x < |r.keys| ==> (seen[x] <==> r.keys[x] in Signers(w, raw, r, sigs[..i]))
      invariant AllValid(w, raw, r, sigs[..i])
    {
      var key := w.signer(sigs[i], raw, r.keys);
      if key.None? {
        return false;
      }
      var at := Index(r, key.value);
      if at < 0 {
        return false;
      }
      if seen[at] {
        RepeatedSignerFails(w, raw, r, sigs, i, key.value);
        return false;
      }
      seen[at] := true;
      distinct := distinct + 1;
      SignersAfter(w, raw, r, sigs, i, at);
    }
    assert sigs[..|sigs|] == sigs;
    return distinct >= r.threshold;
  }

  lemma SignersAfter(w: World, raw: string, r: RootSet, sigs: seq<bytes>, i: nat, at: nat)
    requires PairwiseDistinct(r.keys) && i < |sigs| && at < |r.keys|
    requires SignerOf(w, raw, r, sigs[i]) == Some(r.keys[at]) && r.keys[at] !in Signers(w, raw, r, sigs[..i])
    requires AllValid(w, raw, r, sigs[..i])
    ensures |Signers(w, raw, r, sigs[..i + 1])| == |Signers(w, raw, r, sigs[..i])| + 1
    ensures forall x :: 0 <= x < |r.keys| ==>
      (r.keys[x] in Signers(w, raw, r, sigs[..i + 1]) <==> x == at || r.keys[x] in Signers(w, raw, r, sigs[..i]))
    ensures AllValid(w, raw, r, sigs[..i + 1])
  {
    SignersSnoc(w, raw, r, sigs, i);
    var prefix := sigs[..i + 1];
    forall j | 0 <= j < |prefix| ensures SignerOf(w, raw, r, prefix[j]).Some? {
      if j < i { assert SignerOf(w, raw, r, sigs[..i][j]).Some?; }
    }
  }

  /** The order the signatures come in does not matter. */
  lemma ThresholdIgnoresOrder(w: World, raw: string, r: RootSet, sigs: seq<bytes>, sigs': seq<bytes>)
    requires multiset(sigs) == multiset(sigs')
    ensures ThresholdMet(w, raw, r, sigs) <==> ThresholdMet(w, raw, r, sigs')
  {
    Order.SameElements(sigs, sigs');
    SameSigners(w, raw, r, sigs, sigs');
    SameSigners(w, raw, r, sigs', sigs);
    assert Signers(w, raw, r, sigs) == Signers(w, raw, r, sigs');
  }

  lemma SameSigners(w: World, raw: string, r: RootSet, sigs: seq<bytes>, sigs': seq<bytes>)
    requires forall s :: s in sigs ==> s in sigs'
    ensures Signers(w, raw, r, sigs) <= Signers(w, raw, r, sigs')
    ensures AllValid(w, raw, r, sigs') ==> AllValid(w, raw, r, sigs)
  {
    forall k | k in Signers(w, raw, r, sigs) ensures k in Signers(w, raw, r, sigs') {
      var i :| 0 <= i < |sigs| && SignerOf(w, raw, r, sigs[i]) == Some(k);
      assert sigs[i] in sigs';
      var j :| 0 <= j < |sigs'| && sigs'[j] == sigs[i];
      assert SignerOf(w, raw, r, sigs'[j]) == Some(k);
    }
    if AllValid(w, raw, r, sigs') {
      forall i | 0 <= i < |sigs| ensures SignerOf(w, raw, r, sigs[i]).Some? {
        assert sigs[i] in sigs';
        var j :| 0 <= j < |sigs'| && sigs'[j] == sigs[i];
        assert SignerOf(w, raw, r, sigs'[j]).Some?;
      }
    }
  }

  // -- the document ---------------------------------------------------------

  /** A key line with a window the delegation can vouch for. */
  predicate ValidSigningKey(w: World, k: SigningKey, until: int) {
    match (w.parseKey(k.publicKey), w.stamp(k.notBefore), w.stamp(k.notAfter))
    case (Some(key), Some(from), Some(to)) => from < to && to - from <= MAX_ONLINE_KEY_LIFETIME && to <= until
    case _ => false
  }

  function FingerprintOf(w: World, k: SigningKey): string {
    match w.parseKey(k.publicKey) case Some(key) => w.fingerprint(key) case None => ""
  }

  ghost predicate ValidSigningKeys(w: World, ks: seq<SigningKey>, until: int) {
    && (forall i :: 0 <= i < |ks| ==> ValidSigningKey(w, ks[i], until))
    && (forall i, j :: 0 <= i < j < |ks| ==> Order.Less(FingerprintOf(w, ks[i]), FingerprintOf(w, ks[j])))
  }

  /** Malformed on its face or not; expiry at an instant is a separate question. */
  ghost predicate ValidDelegation(w: World, d: Document) {
    && d.specVersion == SPEC_VERSION && d.rootGeneration >= 1 && d.serial >= 1
    && w.stamp(d.issuedAt).Some? && w.stamp(d.validUntil).Some?
    && 0 < w.stamp(d.validUntil).value - w.stamp(d.issuedAt).value <= MAX_DELEGATION_LIFETIME
    && if d.rootSetRetired then d.signingKeys == [] && |d.upgradeMessage| >= 16
       else d.upgradeMessage == "" && 0 < |d.signingKeys| <= MAX_SIGNING_KEYS
            && ValidSigningKeys(w, d.signingKeys, w.stamp(d.validUntil).value)
  }

  method CheckDelegation(w: World, d: Document) returns (ok: bool)
    ensures ok <==> ValidDelegation(w, d)
  {
    var issued, until := w.stamp(d.issuedAt), w.stamp(d.validUntil);
    if d.specVersion != SPEC_VERSION || d.rootGeneration < 1 || d.serial < 1 || issued.None? || until.None?
       || until.value <= issued.value || until.value - issued.value > MAX_DELEGATION_LIFETIME {
      return false;
    }
    if d.rootSetRetired {
      return d.signingKeys == [] && |d.upgradeMessage| >= 16;
    }
    if d.upgradeMessage != "" || d.signingKeys == [] || |d.signingKeys| > MAX_SIGNING_KEYS {
      return false;
    }
    ok := CheckSigningKeys(w, d.signingKeys, until.value);
  }

  /** Adjacent fingerprints are compared, which orders and separates them all. */
  method CheckSigningKeys(w: World, ks: seq<SigningKey>, until: int) returns (ok: bool)
    ensures ok <==> ValidSigningKeys(w, ks, until)
  {
    var previous := "";
    for i := 0 to |ks|
      invariant ValidSigningKeys(w, ks[..i], until)
      invariant i > 0 ==> previous == FingerprintOf(w, ks[i - 1])
    {
      if !ValidSigningKey(w, ks[i], until) {
        return false;
      }
      var fp := FingerprintOf(w, ks[i]);
      if i > 0 && !Order.Less(previous, fp) {
        return false;
      }
      ExtendSigningKeys(w, ks, i, until);
      previous := fp;
    }
    assert ks[..|ks|] == ks;
    return true;
  }

  lemma ExtendSigningKeys(w: World, ks: seq<SigningKey>, i: nat, until: int)
    requires i < |ks| && ValidSigningKeys(w, ks[..i], until) && ValidSigningKey(w, ks[i], until)
    requires i > 0 ==> Order.Less(FingerprintOf(w, ks[i - 1]), FingerprintOf(w, ks[i]))
    ensures ValidSigningKeys(w, ks[..i + 1], until)
  {
    var ks' := ks[..i + 1];
    forall x, y | 0 <= x < y < |ks'| ensures Order.Less(FingerprintOf(w, ks'[x]), FingerprintOf(w, ks'[y])) {
      if y < i {
        assert Order.Less(FingerprintOf(w, ks[..i][x]), FingerprintOf(w, ks[..i][y]));
      } else if x < i - 1 {
        assert Order.Less(FingerprintOf(w, ks[..i][x]), FingerprintOf(w, ks[..i][i - 1]));
        Order.LessTransitive(FingerprintOf(w, ks[x]), FingerprintOf(w, ks[i - 1]), FingerprintOf(w, ks[i]));
      }
    }
    forall x | 0 <= x < |ks'| ensures ValidSigningKey(w, ks'[x], until) {
      if x < i { assert ValidSigningKey(w, ks[..i][x], until); }
    }
  }

  /** An unreadable expiry is expired. */
  predicate Expired(w: World, d: Document, now: int) {
    match w.stamp(d.validUntil) case None => true case Some(until) => now >= until
  }

  predicate WindowHolds(w: World, k: SigningKey, now: int) {
    match (w.parseKey(k.publicKey), w.stamp(k.notBefore), w.stamp(k.notAfter))
    case (Some(_), Some(from), Some(to)) => from <= now < to
    case _ => false
  }

  /** The keys whose window holds now, in document order. */
  function ActiveKeys(w: World, ks: seq<SigningKey>, now: int): seq<Key> {
    if ks == [] then []
    else ActiveKeys(w, ks[..|ks| - 1], now)
         + if WindowHolds(w, ks[|ks| - 1], now) then [w.parseKey(ks[|ks| - 1].publicKey).value] else []
  }

  method SelectActiveKeys(w: World, ks: seq<SigningKey>, now: int) returns (keys: seq<Key>)
    ensures keys == ActiveKeys(w, ks, now)
  {
    keys := [];
    for i := 0 to |ks|
      invariant keys == ActiveKeys(w, ks[..i], now)
    {
      assert ks[..i + 1][..i] == ks[..i];
      var key, from, to := w.parseKey(ks[i].publicKey), w.stamp(ks[i].notBefore), w.stamp(ks[i].notAfter);
      if key.Some? && from.Some? && to.Some? && from.value <= now && now < to.value {
        keys := keys + [key.value];
      }
    }
    assert ks[..|ks|] == ks;
  }

  /** A key may sign now exactly when some signing key of the document parses to it and
      both its stamps can be read, the first at or before now and the second after. */
  lemma {:induction false} ActiveExactly(w: World, ks: seq<SigningKey>, now: int, key: Key)
    ensures key in ActiveKeys(w, ks, now) <==>
      exists k :: k in ks && w.parseKey(k.publicKey) == Some(key)
                  && w.stamp(k.notBefore).Some? && w.stamp(k.notBefore).value <= now
                  && w.stamp(k.notAfter).Some? && now < w.stamp(k.notAfter).value
    decreases |ks|
  {
    if ks == [] {
    } else {
      ActiveExactly(w, ks[..|ks| - 1], now, key);
      assert ks == ks[..|ks| - 1] + [ks[|ks| - 1]];
    }
  }

  /** No key outlives its delegation: once that has expired, none is active. */
  lemma {:induction false} ExpiredDelegatesNothing(w: World, d: Document, ks: seq<SigningKey>, now: int)
    requires ValidDelegation(w, d) && Expired(w, d, now) && !d.rootSetRetired
    requires forall k :: k in ks ==> k in d.signingKeys
    ensures ActiveKeys(w, ks, now) == []
    decreases |ks|
  {
    if ks == [] {
    } else {
      var last := ks[|ks| - 1];
      ExpiredDelegatesNothing(w, d, ks[..|ks| - 1], now);
      assert last in d.signingKeys;
      assert ValidSigningKey(w, last, w.stamp(d.validUntil).value);
    }
  }

  /** The delegation a set of bytes and signatures is, or None: authenticated
      against the roots before anything in it is read. */
  ghost function DelegationOf(w: World, raw: string, sigs: seq<bytes>, r: RootSet): Option<Document> {
    if Empty(r) || |raw| > MAX_DELEGATION_BYTES || !ThresholdMet(w, raw, r, sigs) then None
    else
      match w.decode(raw)
      case None => None
      case Some(d) => if ValidDelegation(w, d) && d.rootGeneration == r.generation then Some(d) else None
  }

  method VerifyDelegation(w: World, raw: string, sigs: seq<bytes>, r: RootSet) returns (d: Option<Document>)
    requires PairwiseDistinct(r.keys)
    ensures d == DelegationOf(w, raw, sigs, r)
  {
    if Empty(r) || |raw| > MAX_DELEGATION_BYTES {
      return None;
    }
    var met := CountSigners(w, raw, r, sigs);
    if !met {
      return None;
    }
    var doc := w.decode(raw);
    if doc.None? {
      return None;
    }
    var valid := CheckDelegation(w, doc.value);
    return if valid && doc.value.rootGeneration == r.generation then doc else None;
  }
}
