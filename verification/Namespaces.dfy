/** The document types that are signed, each in a namespace of its own: what a
    chain entry, a delegation and a bundle are checked with, and that no signature
    on one is a signature on another. */
module Namespaces {
  import opened Wrappers
  import opened Wire
  import opened Sshsig
  import opened Delegation
  import Bundles
  import Chain
  import ChainEntry

  const CHAIN_ENTRY := "chain-entry.aurvet.dev"
  const DELEGATION := "delegation.aurvet.dev"
  const BUNDLE := "bundle.aurvet.dev"

  /** What a signature of one document type is checked with: the primitives, and the
      public key a key's text is. */
  datatype Verifier = Verifier(c: Crypto, known: Key -> PublicKey, fingerprint: PublicKey -> string)

  function PublicKeys(known: Key -> PublicKey, keys: seq<Key>): seq<PublicKey> {
    seq(|keys|, i requires 0 <= i < |keys| => known(keys[i]))
  }

  /** The first of the keys that is this public key. */
  function KeyOf(known: Key -> PublicKey, keys: seq<Key>, k: PublicKey): Option<Key> {
    if keys == [] then None
    else if known(keys[0]) == k then Some(keys[0])
    else KeyOf(known, keys[1..], k)
  }

  function SignerIn(v: Verifier, ns: string, body: bytes, raw: string, keys: seq<Key>): Option<Key> {
    match Sshsig.Verify(v.c, body, Ascii(ns), Ascii(raw), PublicKeys(v.known, keys))
    case None => None
    case Some(k) => KeyOf(v.known, keys, k)
  }

  /** Chain entries, delegations and bundles are checked with SSHSIG, each in its own
      namespace. */
  ghost predicate ChecksEntries(v: Verifier, trusted: seq<PublicKey>, t: ChainEntry.Trust) {
    forall body, raw :: t.signer(body, raw)
      == match Sshsig.Verify(v.c, body, Ascii(CHAIN_ENTRY), Ascii(raw), trusted) case None => None case Some(k) => Some(v.fingerprint(k))
  }

  ghost predicate ChecksDelegations(v: Verifier, w: World) {
    forall body, raw, keys :: w.signer(body, raw, keys) == SignerIn(v, DELEGATION, body, raw, keys)
  }

  ghost predicate ChecksBundles(v: Verifier, e: Bundles.Env) {
    forall body, raw, keys :: e.bundleSigner(body, raw, keys) == SignerIn(v, BUNDLE, body, raw, keys)
  }

  /** Some key's signature over some message, in this namespace. */
  ghost predicate Signs(v: Verifier, ns: bytes, body: bytes) {
    exists message, trusted :: Sshsig.Verify(v.c, body, ns, message, trusted).Some?
  }

  lemma SignsOneType(v: Verifier, body: bytes, n1: bytes, n2: bytes)
    requires Signs(v, n1, body) && Signs(v, n2, body)
    ensures n1 == n2
  {
    var m1, t1 :| Sshsig.Verify(v.c, body, n1, m1, t1).Some?;
    var m2, t2 :| Sshsig.Verify(v.c, body, n2, m2, t2).Some?;
    NoCrossNamespaceReplay(v.c, body, n1, m1, t1, n2, m2, t2);
  }

  lemma EntrySigns(v: Verifier, trusted: seq<PublicKey>, t: ChainEntry.Trust, rs: seq<ChainEntry.Record>, k: nat)
    requires ChecksEntries(v, trusted, t) && Chain.Sound(t, rs) && k < |rs|
    ensures Signs(v, Ascii(CHAIN_ENTRY), rs[k].sig)
  {
    assert Chain.RecordFault(t, rs[k]) == None;
    assert t.signer(rs[k].sig, rs[k].raw).Some?;
  }

  lemma DelegationSigns(v: Verifier, w: World, raw: string, sigs: seq<bytes>, roots: RootSet, sig: bytes)
    requires ChecksDelegations(v, w) && DelegationOf(w, raw, sigs, roots).Some? && sig in sigs
    ensures Signs(v, Ascii(DELEGATION), sig)
  {
    var i :| 0 <= i < |sigs| && sigs[i] == sig;
    assert SignerOf(w, raw, roots, sigs[i]).Some?;
  }

  lemma BundleSigns(v: Verifier, e: Bundles.Env, raw: string, sig: bytes, online: seq<Key>)
    requires ChecksBundles(v, e) && Bundles.BundleOf(e, raw, sig, online).Some?
    ensures Signs(v, Ascii(BUNDLE), sig)
  {
  }

  /** No signature does two jobs: the signature of a bundle that some run has in hand is
      in no delegation any run authenticates, its own included, and no signature of any
      verified chain is either one's. */
  lemma NoSignatureDoesTwoJobs(v: Verifier, trusted: seq<PublicKey>, t: ChainEntry.Trust, e: Bundles.Env, rs: seq<ChainEntry.Record>,
                               k: nat, i: Bundles.Input, j: Bundles.Input)
    requires ChecksEntries(v, trusted, t) && ChecksDelegations(v, e.w) && ChecksBundles(v, e)
    requires Chain.Sound(t, rs) && k < |rs|
    requires Bundles.Judge(e, i).bundle.Some?
    requires DelegationOf(e.w, j.delegationRaw, j.delegationSigs, j.roots).Some?
    ensures i.bundleSig !in j.delegationSigs
    ensures rs[k].sig !in j.delegationSigs && rs[k].sig != i.bundleSig
  {
    Bundles.StatusShape(e, i);
    var d := DelegationOf(e.w, i.delegationRaw, i.delegationSigs, i.roots).value;
    BundleSigns(v, e, i.bundleRaw, i.bundleSig, ActiveKeys(e.w, d.signingKeys, i.now));
    EntrySigns(v, trusted, t, rs, k);
    OneJobEach(v, e, j, i.bundleSig, Ascii(BUNDLE));
    OneJobEach(v, e, j, rs[k].sig, Ascii(CHAIN_ENTRY));
    if rs[k].sig == i.bundleSig {
      SignsOneType(v, i.bundleSig, Ascii(CHAIN_ENTRY), Ascii(BUNDLE));
    }
  }

  lemma OneJobEach(v: Verifier, e: Bundles.Env, i: Bundles.Input, sig: bytes, ns: bytes)
    requires ChecksDelegations(v, e.w) && DelegationOf(e.w, i.delegationRaw, i.delegationSigs, i.roots).Some?
    requires Signs(v, ns, sig) && ns != Ascii(DELEGATION)
    ensures sig !in i.delegationSigs
  {
    if sig in i.delegationSigs {
      DelegationSigns(v, e.w, i.delegationRaw, i.delegationSigs, i.roots, sig);
      SignsOneType(v, sig, ns, Ascii(DELEGATION));
    }
  }

  // -- the namespaces themselves --------------------------------------------

  /** The three namespaces are ones that signatures can be made and checked in. */
  lemma NamespacesAreValid()
    ensures ValidNamespace(Ascii(CHAIN_ENTRY)) && ValidNamespace(Ascii(DELEGATION)) && ValidNamespace(Ascii(BUNDLE))
  {
    PrintableIsValid(CHAIN_ENTRY);
    PrintableIsValid(DELEGATION);
    PrintableIsValid(BUNDLE);
  }

  lemma PrintableIsValid(s: string)
    requires 1 <= |s| <= 255 && forall i :: 0 <= i < |s| ==> '!' <= s[i] <= '~'
    ensures ValidNamespace(Ascii(s))
  {
    forall i | 0 <= i < |s| ensures 0x21 <= Ascii(s)[i] <= 0x7E {
    }
  }

  /** What a trusted key signs in one of them is taken there exactly when the key takes
      it: no namespace the program uses is refused for its name. */
  lemma EachTypeCanBeSigned(c: Crypto, key: PublicKey, ns: string, sigBlob: bytes, message: bytes, trusted: seq<PublicKey>)
    requires ns == CHAIN_ENTRY || ns == DELEGATION || ns == BUNDLE
    requires key in trusted && forall k :: k in trusted && k.blob == key.blob ==> k == key
    requires ParsePublicKeyBlob(key.blob) == Some(key) && |SignatureBody(key.blob, Ascii(ns), sigBlob)| <= MAX_SIGNATURE
    ensures Sshsig.Verify(c, SignatureBody(key.blob, Ascii(ns), sigBlob), Ascii(ns), message, trusted)
         == if VerifySigBlob(c, key, sigBlob, SignedBlob(Ascii(ns), SHA512, c.sha512(message))) then Some(key) else None
  {
    NamespacesAreValid();
    SignedBodyVerifies(c, key, Ascii(ns), sigBlob, message, trusted);
  }
}
