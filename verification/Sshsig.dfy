/** Detached signatures: the SSHSIG container, the blob that is really signed,
    and a verifier that authenticates without interpreting the message. */
module Sshsig {
  import opened Wrappers
  import opened Wire

  // -- constants ------------------------------------------------------------

  function Ascii(s: string): (b: bytes)
    ensures |b| == |s|
    ensures (forall i :: 0 <= i < |s| ==> s[i] as int < 256) ==> forall i :: 0 <= i < |s| ==> b[i] == s[i] as int
  {
    seq(|s|, i requires 0 <= i < |s| => s[i] as int % 256)
  }

  const MAGIC: bytes := Ascii("SSHSIG")
  const SHA512: bytes := Ascii("sha512")
  const VERSION := 1
  const MAX_SIGNATURE := 0x1_0000
  const MAX_KEY_BLOB := 0x1_0000
  const MAX_NAMESPACE := 255
  const ED25519: bytes := Ascii("ssh-ed25519")
  const SK_ED25519: bytes := Ascii("sk-ssh-ed25519@openssh.com")
  const KEY_SIZE := 32
  const SIGNATURE_SIZE := 64

  /** The primitives, which nothing below looks inside. */
  datatype Crypto = Crypto(
    sha512: bytes -> bytes,
    sha256: bytes -> bytes,
    ed25519: (bytes, bytes, bytes) -> bool)

  /** Digests have their standard lengths. */
  ghost predicate FixedLength(c: Crypto) {
    (forall m :: |c.sha512(m)| == 64) && (forall m :: |c.sha256(m)| == 32)
  }

  // -- the container --------------------------------------------------------

  datatype Parsed = Parsed(version: nat, keyBlob: bytes, namespace: bytes, hashAlgo: bytes, sigBlob: bytes)

  /** The container's bytes, as they are written. */
  function Frame(p: Parsed): bytes {
    MAGIC + Fields(p)
  }

  function Fields(p: Parsed): bytes {
    U32(p.version) + (String(p.keyBlob) + (String(p.namespace)
      + (String([]) + (String(p.hashAlgo) + String(p.sigBlob)))))
  }

  ghost predicate Framed(p: Parsed) {
    p.version < U32_LIMIT && |Frame(p)| <= MAX_SIGNATURE
  }

  method WriteFrame(p: Parsed) returns (body: bytes)
    ensures body == Frame(p)
  {
    var w := new Writer();
    w.WriteRaw(MAGIC);
    w.WriteUint32(p.version);
    w.WriteString(p.keyBlob);
    w.WriteString(p.namespace);
    w.WriteString([]);
    w.WriteString(p.hashAlgo);
    w.WriteString(p.sigBlob);
    body := w.buf;
  }

  function ParseFields(s: bytes): Option<Parsed> {
    match TakeU32(s)
    case None => None
    case Some((version, s1)) =>
      match TakeString(s1)
      case None => None
      case Some((keyBlob, s2)) =>
        match TakeString(s2)
        case None => None
        case Some((namespace, s3)) => ParseTrailer(Parsed(version, keyBlob, namespace, [], []), s3)
  }

  /** The reserved field must be empty and the signature must end the input. */
  function ParseTrailer(head: Parsed, s: bytes): Option<Parsed> {
    match TakeString(s)
    case None => None
    case Some((reserved, s1)) =>
      if reserved != [] then None
      else
        match TakeString(s1)
        case None => None
        case Some((hashAlgo, s2)) =>
          match TakeString(s2)
          case None => None
          case Some((sigBlob, s3)) => if s3 != [] then None else Some(head.(hashAlgo := hashAlgo, sigBlob := sigBlob))
  }

  function ParseSignature(body: bytes): Option<Parsed> {
    if |body| > MAX_SIGNATURE || !(MAGIC <= body) then None else ParseFields(body[|MAGIC|..])
  }

  /** The same parser, driving a cursor. */
  method ReadSignature(body: bytes) returns (p: Option<Parsed>)
    ensures p == ParseSignature(body)
  {
    if |body| > MAX_SIGNATURE || !(MAGIC <= body) {
      return None;
    }
    var r := new Reader(body[|MAGIC|..]);
    var version := r.ReadUint32();
    if version.None? { return None; }
    var keyBlob := r.ReadString();
    if keyBlob.None? { return None; }
    var namespace := r.ReadString();
    if namespace.None? { return None; }
    var reserved := r.ReadString();
    if reserved.None? || reserved.value != [] { return None; }
    var hashAlgo := r.ReadString();
    if hashAlgo.None? { return None; }
    var sigBlob := r.ReadString();
    if sigBlob.None? { return None; }
    var done := r.AtEnd();
    if !done { return None; }
    return Some(Parsed(version.value, keyBlob.value, namespace.value, hashAlgo.value, sigBlob.value));
  }

  lemma ParseWrittenTrailer(p: Parsed)
    requires |p.hashAlgo| < U32_LIMIT && |p.sigBlob| < U32_LIMIT
    ensures ParseTrailer(p.(hashAlgo := [], sigBlob := []), String([]) + (String(p.hashAlgo) + String(p.sigBlob))) == Some(p)
  {
    TakeWrittenString([], String(p.hashAlgo) + String(p.sigBlob));
    TakeWrittenString(p.hashAlgo, String(p.sigBlob));
    TakeWrittenString(p.sigBlob, []);
    assert String(p.sigBlob) + [] == String(p.sigBlob);
  }

  /** What was framed is parsed back field for field, and exactly the containers
      within the size bound are. */
  lemma ParseOfFrame(p: Parsed)
    requires p.version < U32_LIMIT
    ensures ParseSignature(Frame(p)) == if |Frame(p)| <= MAX_SIGNATURE then Some(p) else None
  {
    if |Frame(p)| <= MAX_SIGNATURE {
      assert Frame(p)[|MAGIC|..] == Fields(p);
      ParseOfFields(p);
    }
  }

  lemma ParseOfFields(p: Parsed)
    requires p.version < U32_LIMIT && |Fields(p)| < U32_LIMIT
    ensures ParseFields(Fields(p)) == Some(p)
  {
    var trailer := String([]) + (String(p.hashAlgo) + String(p.sigBlob));
    TakeWrittenU32(p.version, String(p.keyBlob) + (String(p.namespace) + trailer));
    TakeWrittenString(p.keyBlob, String(p.namespace) + trailer);
    TakeWrittenString(p.namespace, trailer);
    ParseWrittenTrailer(p);
  }

  lemma TrailerOfParsed(head: Parsed, s: bytes)
    requires ParseTrailer(head, s).Some?
    ensures var p := ParseTrailer(head, s).value; s == String([]) + (String(p.hashAlgo) + String(p.sigBlob))
  {
    TakenString(s);
    var s1 := TakeString(s).value.1;
    TakenString(s1);
    var s2 := TakeString(s1).value.1;
    TakenString(s2);
    assert String(TakeString(s2).value.0) + [] == String(TakeString(s2).value.0);
  }

  lemma FieldsOfParsed(s: bytes, p: Parsed)
    requires ParseFields(s) == Some(p)
    ensures p.version < U32_LIMIT && s == Fields(p)
  {
    TakenU32(s);
    var s1 := TakeU32(s).value.1;
    TakenString(s1);
    var (keyBlob, s2) := TakeString(s1).value;
    TakenString(s2);
    var (namespace, s3) := TakeString(s2).value;
    TrailerOfParsed(Parsed(TakeU32(s).value.0, keyBlob, namespace, [], []), s3);
  }

  lemma PrefixAndRest(prefix: bytes, body: bytes)
    requires prefix <= body
    ensures body == prefix + body[|prefix|..]
  {
  }

  /** Nothing is left over and nothing is ambiguous: a body parses to `p` only if
      it is exactly `p` framed. */
  lemma FrameOfParsed(body: bytes, p: Parsed)
    ensures ParseSignature(body) == Some(p) <==> Framed(p) && body == Frame(p)
  {
    if ParseSignature(body) == Some(p) {
      ParsedIsFramed(body, p);
    } else if Framed(p) && body == Frame(p) {
      ParseOfFrame(p);
    }
  }

  lemma ParsedIsFramed(body: bytes, p: Parsed)
    requires ParseSignature(body) == Some(p)
    ensures p.version < U32_LIMIT && body == Frame(p)
  {
    PrefixAndRest(MAGIC, body);
    FieldsOfParsed(body[|MAGIC|..], p);
  }

  // -- the signed blob ------------------------------------------------------

  /** The bytes a key signs: the namespace and the hash name are inside them. */
  function SignedBlob(namespace: bytes, hashAlgo: bytes, digest: bytes): bytes {
    MAGIC + (String(namespace) + (String([]) + (String(hashAlgo) + String(digest))))
  }

  /** Two signed blobs are equal only when everything in them is: a signature
      made for one document type says nothing about another. */
  lemma SignedBlobInjective(n1: bytes, h1: bytes, d1: bytes, n2: bytes, h2: bytes, d2: bytes)
    requires |n1| < U32_LIMIT && |h1| < U32_LIMIT && |d1| < U32_LIMIT
    requires |n2| < U32_LIMIT && |h2| < U32_LIMIT && |d2| < U32_LIMIT
    ensures SignedBlob(n1, h1, d1) == SignedBlob(n2, h2, d2) <==> n1 == n2 && h1 == h2 && d1 == d2
  {
    if SignedBlob(n1, h1, d1) == SignedBlob(n2, h2, d2) {
      var x1, x2 := String(h1) + String(d1), String(h2) + String(d2);
      assert SignedBlob(n1, h1, d1)[|MAGIC|..] == String(n1) + (String([]) + x1);
      assert SignedBlob(n2, h2, d2)[|MAGIC|..] == String(n2) + (String([]) + x2);
      StringPrefixFree(n1, String([]) + x1, n2, String([]) + x2);
      StringPrefixFree([], x1, [], x2);
      StringPrefixFree(h1, String(d1), h2, String(d2));
      assert String(d1) == String(d1) + [] && String(d2) == String(d2) + [];
      StringPrefixFree(d1, [], d2, []);
    }
  }

  // -- keys -----------------------------------------------------------------

  datatype PublicKey = PublicKey(algorithm: bytes, key: bytes, application: bytes, blob: bytes)

  function KeyBlob(algorithm: bytes, key: bytes, application: bytes): bytes {
    String(algorithm) + (String(key) + if algorithm == SK_ED25519 then String(application) else [])
  }

  function ParsePublicKeyBlob(blob: bytes): Option<PublicKey> {
    if |blob| > MAX_KEY_BLOB then None
    else
      match TakeString(blob)
      case None => None
      case Some((algorithm, s1)) =>
        if algorithm != ED25519 && algorithm != SK_ED25519 then None
        else
          match TakeString(s1)
          case None => None
          case Some((key, s2)) =>
            if |key| != KEY_SIZE then None
            else if algorithm == ED25519 then
              if s2 == [] then Some(PublicKey(algorithm, key, [], blob)) else None
            else
              match TakeString(s2)
              case None => None
              case Some((application, s3)) =>
                if s3 == [] then Some(PublicKey(algorithm, key, application, blob)) else None
  }

  /** A key's identity is its blob: what the blob says is all there is to it. */
  lemma BlobOfParsedKey(blob: bytes)
    requires ParsePublicKeyBlob(blob).Some?
    ensures var k := ParsePublicKeyBlob(blob).value;
            k.blob == blob == KeyBlob(k.algorithm, k.key, k.application) && |k.key| == KEY_SIZE
  {
    TakenString(blob);
    var (algorithm, s1) := TakeString(blob).value;
    TakenString(s1);
    var (key, s2) := TakeString(s1).value;
    if algorithm == ED25519 {
      assert ED25519[3] == '-' as int && |ED25519| != |SK_ED25519|;
    } else {
      TakenString(s2);
      var application := TakeString(s2).value.0;
      assert String(application) + [] == String(application);
    }
  }

  // -- verification ---------------------------------------------------------

  predicate ValidNamespace(ns: bytes) {
    ns != [] && |ns| <= MAX_NAMESPACE && forall i :: 0 <= i < |ns| ==> ' ' as int < ns[i] <= '~' as int
  }

  /** What a token signs around the message (the U2F framing of OpenSSH). */
  function TokenMessage(c: Crypto, application: bytes, flags: byte, counter: nat, signed: bytes): bytes {
    c.sha256(application) + [flags] + U32(counter) + c.sha256(signed)
  }

  /** The inner signature, checked against the trusted key and no other. */
  predicate VerifySigBlob(c: Crypto, key: PublicKey, sigBlob: bytes, signed: bytes) {
    match TakeString(sigBlob)
    case None => false
    case Some((algo, s1)) =>
      algo == key.algorithm &&
      match TakeString(s1)
      case None => false
      case Some((raw, s2)) =>
        |raw| == SIGNATURE_SIZE &&
        if key.algorithm == ED25519 then s2 == [] && c.ed25519(key.key, signed, raw)
        else key.algorithm == SK_ED25519 && VerifyToken(c, key, raw, s2, signed)
  }

  predicate VerifyToken(c: Crypto, key: PublicKey, raw: bytes, s: bytes, signed: bytes) {
    match TakeByte(s)
    case None => false
    case Some((flags, s1)) =>
      match TakeU32(s1)
      case None => false
      case Some((counter, s2)) =>
        s2 == [] && c.ed25519(key.key, TokenMessage(c, key.application, flags, counter, signed), raw)
  }

  /** The first trusted key with the claimed blob. */
  function FindKey(trusted: seq<PublicKey>, blob: bytes): (k: Option<PublicKey>)
    ensures k.Some? ==> k.value in trusted && k.value.blob == blob
    ensures k.None? ==> forall t :: t in trusted ==> t.blob != blob
  {
    if trusted == [] then None
    else if trusted[0].blob == blob then Some(trusted[0])
    else FindKey(trusted[1..], blob)
  }

  /** The key whose signature over `message` under `ns` the body is, or None.
      Every failure is the one failure. */
  function Verify(c: Crypto, body: bytes, ns: bytes, message: bytes, trusted: seq<PublicKey>): Option<PublicKey> {
    if trusted == [] || !ValidNamespace(ns) then None
    else
      match ParseSignature(body)
      case None => None
      case Some(p) =>
        if p.version != VERSION || p.namespace != ns || p.hashAlgo != SHA512 then None
        else
          match ParsePublicKeyBlob(p.keyBlob)
          case None => None
          case Some(claimed) =>
            match FindKey(trusted, claimed.blob)
            case None => None
            case Some(key) =>
              if VerifySigBlob(c, key, p.sigBlob, SignedBlob(ns, SHA512, c.sha512(message))) then Some(key) else None
  }

  /** The body `Sign` frames around a signer's answer. */
  function SignatureBody(blob: bytes, ns: bytes, sigBlob: bytes): bytes {
    Frame(Parsed(VERSION, blob, ns, SHA512, sigBlob))
  }

  /** A body that verifies is, byte for byte, one `Sign` frames for that key and
      namespace, and the trusted key's own signature is what was checked. */
  lemma VerifiedBodyIsSigned(c: Crypto, body: bytes, ns: bytes, message: bytes, trusted: seq<PublicKey>) returns (sigBlob: bytes)
    requires Verify(c, body, ns, message, trusted).Some?
    ensures var key := Verify(c, body, ns, message, trusted).value;
            && key in trusted && body == SignatureBody(key.blob, ns, sigBlob)
            && VerifySigBlob(c, key, sigBlob, SignedBlob(ns, SHA512, c.sha512(message)))
  {
    var p := ParseSignature(body).value;
    FrameOfParsed(body, p);
    BlobOfParsedKey(p.keyBlob);
    sigBlob := p.sigBlob;
  }

  lemma FindTrusted(trusted: seq<PublicKey>, key: PublicKey)
    requires key in trusted && forall t :: t in trusted && t.blob == key.blob ==> t == key
    ensures FindKey(trusted, key.blob) == Some(key)
  {
  }

  /** What `Sign` frames verifies exactly when the signer's answer does, for a
      well-formed trusted key and a body within the size bound. */
  lemma SignedBodyVerifies(c: Crypto, key: PublicKey, ns: bytes, sigBlob: bytes, message: bytes, trusted: seq<PublicKey>)
    requires key in trusted && forall t :: t in trusted && t.blob == key.blob ==> t == key
    requires ParsePublicKeyBlob(key.blob) == Some(key) && ValidNamespace(ns)
    requires |SignatureBody(key.blob, ns, sigBlob)| <= MAX_SIGNATURE
    ensures Verify(c, SignatureBody(key.blob, ns, sigBlob), ns, message, trusted)
         == if VerifySigBlob(c, key, sigBlob, SignedBlob(ns, SHA512, c.sha512(message))) then Some(key) else None
  {
    var p := Parsed(VERSION, key.blob, ns, SHA512, sigBlob);
    ParseOfFrame(p);
    FindTrusted(trusted, key);
    VerifyParsed(c, Frame(p), p, key, message, trusted);
  }

  lemma VerifyParsed(c: Crypto, body: bytes, p: Parsed, key: PublicKey, message: bytes, trusted: seq<PublicKey>)
    requires ParseSignature(body) == Some(p) && p.version == VERSION && p.hashAlgo == SHA512 && ValidNamespace(p.namespace)
    requires ParsePublicKeyBlob(p.keyBlob) == Some(key) && p.keyBlob == key.blob
    requires trusted != [] && FindKey(trusted, key.blob) == Some(key)
    ensures Verify(c, body, p.namespace, message, trusted)
         == if VerifySigBlob(c, key, p.sigBlob, SignedBlob(p.namespace, SHA512, c.sha512(message))) then Some(key) else None
  {
  }

  /** One signature answers to one namespace, whatever documents and trust sets
      it is tried against. */
  lemma NoCrossNamespaceReplay(c: Crypto, body: bytes, n1: bytes, m1: bytes, t1: seq<PublicKey>, n2: bytes, m2: bytes, t2: seq<PublicKey>)
    requires Verify(c, body, n1, m1, t1).Some? && Verify(c, body, n2, m2, t2).Some?
    ensures n1 == n2
  {
    var s1 := VerifiedBodyIsSigned(c, body, n1, m1, t1);
    var s2 := VerifiedBodyIsSigned(c, body, n2, m2, t2);
    var k1, k2 := Verify(c, body, n1, m1, t1).value, Verify(c, body, n2, m2, t2).value;
    FrameOfParsed(body, Parsed(VERSION, k1.blob, n1, SHA512, s1));
    FrameOfParsed(body, Parsed(VERSION, k2.blob, n2, SHA512, s2));
  }

  /** The token's flags, counter, application and message are all under its
      signature: equal token messages have equal parts, up to a hash collision. */
  lemma TokenMessageBinds(c: Crypto, a1: bytes, f1: byte, n1: nat, s1: bytes, a2: bytes, f2: byte, n2: nat, s2: bytes)
    requires FixedLength(c) && n1 < U32_LIMIT && n2 < U32_LIMIT
    requires TokenMessage(c, a1, f1, n1, s1) == TokenMessage(c, a2, f2, n2, s2)
    ensures f1 == f2 && n1 == n2 && c.sha256(a1) == c.sha256(a2) && c.sha256(s1) == c.sha256(s2)
  {
    var t1, t2 := TokenMessage(c, a1, f1, n1, s1), TokenMessage(c, a2, f2, n2, s2);
    assert c.sha256(a1) == t1[..32] == t2[..32] == c.sha256(a2);
    assert f1 == t1[32] && f2 == t2[32];
    assert U32(n1) == t1[33..37] && U32(n2) == t2[33..37];
    assert c.sha256(s1) == t1[37..] && c.sha256(s2) == t2[37..];
    U32RoundTrip(n1);
    U32RoundTrip(n2);
  }
}
