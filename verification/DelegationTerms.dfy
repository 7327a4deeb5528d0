/** When a delegation is taken, in the terms of its signatures, its bytes and its dates. */
module DelegationTerms {
  import opened Times
  import opened Wrappers
  import opened Wire
  import opened Delegation
  import Order

  /** The signature is by a root's key. */
  ghost predicate RootSigned(w: World, raw: string, r: RootSet, sig: bytes) {
    w.signer(sig, raw, r.keys).Some? && w.signer(sig, raw, r.keys).value in r.keys
  }

  /** Every signature is a root's, no two are one root's, and there are enough. */
  ghost predicate EnoughRoots(w: World, raw: string, r: RootSet, sigs: seq<bytes>) {
    && (forall i :: 0 <= i < |sigs| ==> RootSigned(w, raw, r, sigs[i]))
    && (forall i, j :: 0 <= i < j < |sigs| ==> w.signer(sigs[i], raw, r.keys) != w.signer(sigs[j], raw, r.keys))
    && r.threshold <= |sigs| <= |r.keys|
  }

  lemma {:induction false} DistinctSigners(w: World, raw: string, r: RootSet, sigs: seq<bytes>, n: nat)
    requires n <= |sigs| && forall i :: 0 <= i < |sigs| ==> RootSigned(w, raw, r, sigs[i])
    requires forall i, j :: 0 <= i < j < |sigs| ==> w.signer(sigs[i], raw, r.keys) != w.signer(sigs[j], raw, r.keys)
    ensures |Signers(w, raw, r, sigs[..n])| == n
    ensures forall k :: k in Signers(w, raw, r, sigs[..n]) ==> exists i :: 0 <= i < n && w.signer(sigs[i], raw, r.keys) == Some(k)
  {
    if n == 0 {
      assert Signers(w, raw, r, sigs[..0]) == {};
    } else {
      DistinctSigners(w, raw, r, sigs, n - 1);
      SignersSnoc(w, raw, r, sigs, n - 1);
    }
  }

  /** Two signatures of one root leave fewer signers than signatures. */
  lemma RepeatedSigners(w: World, raw: string, r: RootSet, sigs: seq<bytes>, i: nat, j: nat)
    requires i < j < |sigs| && RootSigned(w, raw, r, sigs[j])
    requires w.signer(sigs[i], raw, r.keys) == w.signer(sigs[j], raw, r.keys)
    ensures |Signers(w, raw, r, sigs)| < |sigs|
  {
    var k := w.signer(sigs[j], raw, r.keys).value;
    assert SignerOf(w, raw, r, sigs[i]) == Some(k) && SignerOf(w, raw, r, sigs[j]) == Some(k);
    SignersSnoc(w, raw, r, sigs, j);
    assert k in Signers(w, raw, r, sigs[..j]) by {
      assert sigs[..j][i] == sigs[i];
    }
    assert Signers(w, raw, r, sigs[..j + 1]) == Signers(w, raw, r, sigs[..j]);
    SignersAtMost(w, raw, r, sigs, j);
    SignersBound(w, raw, r, sigs, j + 1);
  }

  lemma SignersAtMost(w: World, raw: string, r: RootSet, sigs: seq<bytes>, n: nat)
    requires n <= |sigs|
    ensures |Signers(w, raw, r, sigs[..n])| <= n
  {
    assert sigs[..n][..0] == [] && Signers(w, raw, r, []) == {};
    SignersBound(w, raw, r, sigs[..n], 0);
  }

  /** The threshold is met exactly when enough roots signed, each once and no one else. */
  lemma ThresholdExactly(w: World, raw: string, r: RootSet, sigs: seq<bytes>)
    ensures ThresholdMet(w, raw, r, sigs) <==> EnoughRoots(w, raw, r, sigs)
  {
    forall i | 0 <= i < |sigs| ensures SignerOf(w, raw, r, sigs[i]).Some? <==> RootSigned(w, raw, r, sigs[i]) {
    }
    if EnoughRoots(w, raw, r, sigs) {
      DistinctSigners(w, raw, r, sigs, |sigs|);
      assert sigs[..|sigs|] == sigs;
    }
    if ThresholdMet(w, raw, r, sigs) {
      forall i, j | 0 <= i < j < |sigs| ensures w.signer(sigs[i], raw, r.keys) != w.signer(sigs[j], raw, r.keys) {
        if w.signer(sigs[i], raw, r.keys) == w.signer(sigs[j], raw, r.keys) {
          RepeatedSigners(w, raw, r, sigs, i, j);
        }
      }
    }
  }

  const SPAN_OF_A_DAY := 24 * 60 * 60 * 1_000_000_000

  /** Between two stamps that can be read lies more than nothing and no more than this. */
  predicate Lasts(w: World, from: string, to: string, most: int) {
    w.stamp(from).Some? && w.stamp(to).Some? && 0 < w.stamp(to).value - w.stamp(from).value <= most
  }

  function Print(w: World, k: SigningKey): string {
    if w.parseKey(k.publicKey).Some? then w.fingerprint(w.parseKey(k.publicKey).value) else ""
  }

  /** A key for at most ninety days, within the delegation's own time. */
  predicate GoodKey(w: World, k: SigningKey, d: Document) {
    && w.parseKey(k.publicKey).Some? && Lasts(w, k.notBefore, k.notAfter, 90 * SPAN_OF_A_DAY)
    && w.stamp(d.validUntil).Some? && w.stamp(k.notAfter).value <= w.stamp(d.validUntil).value
  }

  /** A delegation for at most a year, to one to four keys in the order of their
      fingerprints, or one that retires the roots and says what to do. */
  ghost predicate WellMade(w: World, d: Document) {
    && d.specVersion == 1 && d.rootGeneration >= 1 && d.serial >= 1 && Lasts(w, d.issuedAt, d.validUntil, 365 * SPAN_OF_A_DAY)
    && if d.rootSetRetired then d.signingKeys == [] && |d.upgradeMessage| >= 16
       else
         && d.upgradeMessage == "" && 1 <= |d.signingKeys| <= 4
         && (forall i :: 0 <= i < |d.signingKeys| ==> GoodKey(w, d.signingKeys[i], d))
         && (forall i, j :: 0 <= i < j < |d.signingKeys| ==> Order.Before(Print(w, d.signingKeys[i]), Print(w, d.signingKeys[j])))
  }

  lemma KeysExactly(w: World, d: Document)
    requires w.stamp(d.validUntil).Some?
    ensures ValidSigningKeys(w, d.signingKeys, w.stamp(d.validUntil).value) <==>
      && (forall i :: 0 <= i < |d.signingKeys| ==> GoodKey(w, d.signingKeys[i], d))
      && (forall i, j :: 0 <= i < j < |d.signingKeys| ==> Order.Before(Print(w, d.signingKeys[i]), Print(w, d.signingKeys[j])))
  {
    var until := w.stamp(d.validUntil).value;
    forall i | 0 <= i < |d.signingKeys| ensures ValidSigningKey(w, d.signingKeys[i], until) <==> GoodKey(w, d.signingKeys[i], d) {
    }
    forall i, j | 0 <= i < j < |d.signingKeys|
      ensures Order.Less(FingerprintOf(w, d.signingKeys[i]), FingerprintOf(w, d.signingKeys[j]))
              <==> Order.Before(Print(w, d.signingKeys[i]), Print(w, d.signingKeys[j]))
    {
      Order.LessExactly(Print(w, d.signingKeys[i]), Print(w, d.signingKeys[j]));
    }
  }

  lemma WellMadeExactly(w: World, d: Document)
    ensures ValidDelegation(w, d) <==> WellMade(w, d)
  {
    if w.stamp(d.validUntil).Some? {
      KeysExactly(w, d);
    }
  }

  /** A delegation is taken exactly when there are roots, its bytes are within the cap,
      enough roots signed them, and what they read as is well made and of these roots'
      generation. */
  lemma TakenExactly(w: World, raw: string, sigs: seq<bytes>, r: RootSet, d: Document)
    ensures DelegationOf(w, raw, sigs, r) == Some(d) <==>
      && r.keys != [] && r.threshold >= 2 && |raw| <= 0x1_0000
      && EnoughRoots(w, raw, r, sigs) && w.decode(raw) == Some(d) && WellMade(w, d) && d.rootGeneration == r.generation
  {
    ThresholdExactly(w, raw, r, sigs);
    WellMadeExactly(w, d);
  }
}
