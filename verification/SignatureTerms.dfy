/** When a signature verifies, in bytes: the container, the key, the blob a key signs
    and the token's message, each spelled out. */
module SignatureTerms {
  import opened Wrappers
  import opened Wire
  import opened Sshsig

  /** Four bytes of a number, the most significant first. */
  function Be32(n: nat): bytes {
    [n / 0x100_0000 % 256, n / 0x1_0000 % 256, n / 0x100 % 256, n % 256]
  }

  /** A length and that many bytes. */
  function Field(b: bytes): bytes {
    Be32(|b|) + b
  }

  lemma FieldIsString(b: bytes)
    ensures Field(b) == String(b)
  {
    Be32IsU32(|b|);
  }

  lemma Be32IsU32(n: nat)
    ensures Be32(n) == U32(n)
  {
    assert n / 256 / 256 == n / 0x1_0000 && n / 256 / 256 / 256 == n / 0x100_0000;
  }

  const HEAD: bytes := [0x53, 0x53, 0x48, 0x53, 0x49, 0x47]
  const HASH_NAME: bytes := [0x73, 0x68, 0x61, 0x35, 0x31, 0x32]
  const PLAIN_KEY: bytes := [0x73, 0x73, 0x68, 0x2D, 0x65, 0x64, 0x32, 0x35, 0x35, 0x31, 0x39]
  const AT_OPENSSH: bytes := [0x40, 0x6F, 0x70, 0x65, 0x6E, 0x73, 0x73, 0x68, 0x2E, 0x63, 0x6F, 0x6D]

  /** The names on the wire: "SSHSIG", "sha512", "ssh-ed25519" and
      "sk-ssh-ed25519@openssh.com". */
  lemma NamesSpell()
    ensures HEAD == MAGIC && HASH_NAME == SHA512 && PLAIN_KEY == ED25519
    ensures SK_ED25519 == [0x73, 0x6B, 0x2D] + PLAIN_KEY + AT_OPENSSH
  {
    ShortNamesSpell();
    TokenNameSpells();
  }

  lemma ShortNamesSpell()
    ensures HEAD == MAGIC && HASH_NAME == SHA512 && PLAIN_KEY == ED25519
  {
  }

  lemma TokenNameSpells()
    ensures SK_ED25519 == [0x73, 0x6B, 0x2D] + PLAIN_KEY + AT_OPENSSH
  {
  }

  /** A namespace is one to two hundred and fifty-five printable bytes with no space. */
  lemma NamespaceExactly(ns: bytes)
    ensures ValidNamespace(ns) <==> 1 <= |ns| <= 255 && forall i :: 0 <= i < |ns| ==> 0x21 <= ns[i] <= 0x7E
  {
  }

  // -- keys -----------------------------------------------------------------

  /** What a key blob says, for the two algorithms there are. */
  predicate BlobSays(blob: bytes, k: PublicKey) {
    && |blob| <= 0x1_0000 && k.blob == blob && |k.key| == 32
    && ((k.algorithm == PLAIN_KEY && k.application == [] && blob == Field(k.algorithm) + Field(k.key))
        || (k.algorithm == SK_ED25519 && blob == Field(k.algorithm) + (Field(k.key) + Field(k.application))))
  }

  lemma AlgorithmsApart()
    ensures |ED25519| == 11 && |SK_ED25519| == 26 && ED25519 != SK_ED25519
  {
  }

  lemma KeyExactly(blob: bytes, k: PublicKey)
    ensures ParsePublicKeyBlob(blob) == Some(k) <==> BlobSays(blob, k)
  {
    NamesSpell();
    AlgorithmsApart();
    FieldIsString(k.algorithm);
    FieldIsString(k.key);
    FieldIsString(k.application);
    if BlobSays(blob, k) {
      WrittenKey(blob, k);
    }
    if ParsePublicKeyBlob(blob) == Some(k) {
      BlobOfParsedKey(blob);
      ParsedKey(blob, k);
      assert String(k.key) + [] == String(k.key);
    }
  }

  lemma ParsedKey(blob: bytes, k: PublicKey)
    requires ParsePublicKeyBlob(blob) == Some(k)
    ensures k.algorithm == ED25519 || k.algorithm == SK_ED25519
    ensures k.algorithm == ED25519 ==> k.application == []
  {
  }

  lemma WrittenKey(blob: bytes, k: PublicKey)
    requires |blob| <= 0x1_0000 && k.blob == blob && |k.key| == 32
    requires || (k.algorithm == ED25519 && k.application == [] && blob == String(k.algorithm) + String(k.key))
             || (k.algorithm == SK_ED25519 && blob == String(k.algorithm) + (String(k.key) + String(k.application)))
    ensures ParsePublicKeyBlob(blob) == Some(k)
  {
    AlgorithmsApart();
    if k.algorithm == ED25519 {
      WrittenPlainKey(blob, k.algorithm, k.key);
    } else {
      WrittenTokenKey(blob, k.algorithm, k.key, k.application);
    }
  }

  lemma WrittenPlainKey(blob: bytes, algorithm: bytes, key: bytes)
    requires |blob| <= 0x1_0000 && |key| == 32 && algorithm == ED25519 && blob == String(algorithm) + String(key)
    ensures ParsePublicKeyBlob(blob) == Some(PublicKey(algorithm, key, [], blob))
  {
    TakeWrittenString(algorithm, String(key));
    TakeWrittenString(key, []);
    assert String(key) + [] == String(key);
  }

  lemma WrittenTokenKey(blob: bytes, algorithm: bytes, key: bytes, application: bytes)
    requires |blob| <= 0x1_0000 && |key| == 32 && algorithm == SK_ED25519 && algorithm != ED25519
    requires blob == String(algorithm) + (String(key) + String(application))
    ensures ParsePublicKeyBlob(blob) == Some(PublicKey(algorithm, key, application, blob))
  {
    TakeWrittenString(algorithm, String(key) + String(application));
    TakeWrittenString(key, String(application));
    TakeWrittenString(application, []);
    assert String(application) + [] == String(application);
  }

  // -- the signature itself -------------------------------------------------

  /** What a key signs for a message in a namespace. */
  function Statement(c: Crypto, ns: bytes, message: bytes): bytes {
    HEAD + (Field(ns) + (Field([]) + (Field(HASH_NAME) + Field(c.sha512(message)))))
  }

  ghost predicate PlainSignature(c: Crypto, key: PublicKey, sigBlob: bytes, signed: bytes) {
    key.algorithm == PLAIN_KEY
    && exists s: bytes :: |s| == 64 && sigBlob == Field(PLAIN_KEY) + Field(s) && c.ed25519(key.key, signed, s)
  }

  /** A token signs around what it is given: its application's hash, its flags, its
      counter and the hash of the rest. */
  ghost predicate TokenSignature(c: Crypto, key: PublicKey, sigBlob: bytes, signed: bytes) {
    key.algorithm == SK_ED25519
    && exists s: bytes, flags: byte, counter: nat :: |s| == 64 && counter < 0x1_0000_0000
         && sigBlob == Field(SK_ED25519) + (Field(s) + ([flags] + Be32(counter)))
         && c.ed25519(key.key, c.sha256(key.application) + [flags] + Be32(counter) + c.sha256(signed), s)
  }

  lemma SignatureExactly(c: Crypto, key: PublicKey, sigBlob: bytes, signed: bytes)
    ensures VerifySigBlob(c, key, sigBlob, signed) <==> PlainSignature(c, key, sigBlob, signed) || TokenSignature(c, key, sigBlob, signed)
  {
    NamesSpell();
    AlgorithmsApart();
    if VerifySigBlob(c, key, sigBlob, signed) {
      VerifiedSpells(c, key, sigBlob, signed);
    }
    if PlainSignature(c, key, sigBlob, signed) {
      var s: bytes :| |s| == 64 && sigBlob == Field(PLAIN_KEY) + Field(s) && c.ed25519(key.key, signed, s);
      PlainVerifies(c, key, s, sigBlob, signed);
    }
    if TokenSignature(c, key, sigBlob, signed) {
      var s: bytes, flags: byte, counter: nat :| |s| == 64 && counter < 0x1_0000_0000
        && sigBlob == Field(SK_ED25519) + (Field(s) + ([flags] + Be32(counter)))
        && c.ed25519(key.key, c.sha256(key.application) + [flags] + Be32(counter) + c.sha256(signed), s);
      TokenVerifies(c, key, s, flags, counter, sigBlob, signed);
    }
  }

  lemma PlainVerifies(c: Crypto, key: PublicKey, s: bytes, sigBlob: bytes, signed: bytes)
    requires key.algorithm == ED25519 && |s| == 64 && sigBlob == Field(ED25519) + Field(s) && c.ed25519(key.key, signed, s)
    ensures VerifySigBlob(c, key, sigBlob, signed)
  {
    FieldIsString(ED25519);
    FieldIsString(s);
    TakeWrittenString(ED25519, String(s));
    TakeWrittenString(s, []);
    assert String(s) + [] == String(s);
  }

  lemma TokenVerifies(c: Crypto, key: PublicKey, s: bytes, flags: byte, counter: nat, sigBlob: bytes, signed: bytes)
    requires key.algorithm == SK_ED25519 && |s| == 64 && counter < 0x1_0000_0000
    requires sigBlob == Field(SK_ED25519) + (Field(s) + ([flags] + Be32(counter)))
    requires c.ed25519(key.key, c.sha256(key.application) + [flags] + Be32(counter) + c.sha256(signed), s)
    ensures VerifySigBlob(c, key, sigBlob, signed)
  {
    AlgorithmsApart();
    FieldIsString(SK_ED25519);
    FieldIsString(s);
    Be32IsU32(counter);
    var tail := [flags] + U32(counter);
    TakeWrittenString(SK_ED25519, String(s) + tail);
    TakeWrittenString(s, tail);
    assert tail[1..] == U32(counter) && tail[1..] + [] == U32(counter);
    TakeWrittenU32(counter, []);
    assert U32(counter) + [] == U32(counter);
  }

  lemma VerifiedSpells(c: Crypto, key: PublicKey, sigBlob: bytes, signed: bytes)
    requires VerifySigBlob(c, key, sigBlob, signed)
    ensures PlainSignature(c, key, sigBlob, signed) || TokenSignature(c, key, sigBlob, signed)
  {
    NamesSpell();
    AlgorithmsApart();
    TakenString(sigBlob);
    var (algo, s1) := TakeString(sigBlob).value;
    TakenString(s1);
    var (s, s2) := TakeString(s1).value;
    FieldIsString(algo);
    FieldIsString(s);
    if key.algorithm == ED25519 {
      assert String(s) + [] == String(s);
      assert sigBlob == Field(PLAIN_KEY) + Field(s);
    } else {
      VerifiedToken(c, key, s, s2, signed);
    }
  }

  lemma VerifiedToken(c: Crypto, key: PublicKey, s: bytes, tail: bytes, signed: bytes)
    requires key.algorithm == SK_ED25519 && |s| == 64 && VerifyToken(c, key, s, tail, signed)
    ensures TokenSignature(c, key, Field(SK_ED25519) + (Field(s) + tail), signed)
  {
    var (flags, s1) := TakeByte(tail).value;
    TakenU32(s1);
    var (counter, s2) := TakeU32(s1).value;
    Be32IsU32(counter);
    assert U32(counter) + [] == U32(counter);
    assert tail == [flags] + Be32(counter);
  }

  // -- verification ---------------------------------------------------------

  /** The container around a key, a namespace and a signature. */
  function Container(blob: bytes, ns: bytes, sigBlob: bytes): bytes {
    HEAD + ([0, 0, 0, 1] + (Field(blob) + (Field(ns) + (Field([]) + (Field(HASH_NAME) + Field(sigBlob))))))
  }

  lemma ContainerIsFrame(blob: bytes, ns: bytes, sigBlob: bytes)
    ensures Container(blob, ns, sigBlob) == SignatureBody(blob, ns, sigBlob)
  {
    NamesSpell();
    FieldIsString(blob);
    FieldIsString(ns);
    FieldIsString([]);
    FieldIsString(HASH_NAME);
    FieldIsString(sigBlob);
  }

  lemma StatementIsSigned(c: Crypto, ns: bytes, message: bytes)
    ensures Statement(c, ns, message) == SignedBlob(ns, SHA512, c.sha512(message))
  {
    NamesSpell();
    FieldIsString(ns);
    FieldIsString([]);
    FieldIsString(HASH_NAME);
    FieldIsString(c.sha512(message));
  }

  ghost predicate FirstAs(trusted: seq<PublicKey>, blob: bytes, key: PublicKey, i: nat) {
    i < |trusted| && trusted[i] == key && key.blob == blob && forall j :: 0 <= j < i ==> trusted[j].blob != blob
  }

  /** The trusted key of this blob, the first if it is listed twice. */
  ghost predicate TrustedAs(trusted: seq<PublicKey>, blob: bytes, key: PublicKey) {
    exists i: nat :: FirstAs(trusted, blob, key, i)
  }

  lemma FirstShifts(trusted: seq<PublicKey>, blob: bytes, key: PublicKey, i: nat)
    requires trusted != [] && trusted[0].blob != blob && i > 0
    ensures FirstAs(trusted[1..], blob, key, i - 1) <==> FirstAs(trusted, blob, key, i)
  {
    assert forall j :: 0 <= j < |trusted[1..]| ==> trusted[1..][j] == trusted[j + 1];
    if FirstAs(trusted[1..], blob, key, i - 1) {
      assert forall j :: 0 < j < i ==> trusted[j] == trusted[1..][j - 1];
    }
  }

  lemma {:induction false} FoundExactly(trusted: seq<PublicKey>, blob: bytes, key: PublicKey)
    ensures FindKey(trusted, blob) == Some(key) <==> TrustedAs(trusted, blob, key)
  {
    if trusted == [] {
    } else if trusted[0].blob == blob {
      assert FirstAs(trusted, blob, trusted[0], 0);
    } else {
      FoundExactly(trusted[1..], blob, key);
      if TrustedAs(trusted[1..], blob, key) {
        var i: nat :| FirstAs(trusted[1..], blob, key, i);
        FirstShifts(trusted, blob, key, i + 1);
      }
      if TrustedAs(trusted, blob, key) {
        var i: nat :| FirstAs(trusted, blob, key, i);
        FirstShifts(trusted, blob, key, i);
      }
    }
  }

  ghost predicate Vouches(c: Crypto, body: bytes, ns: bytes, message: bytes, trusted: seq<PublicKey>, key: PublicKey, sigBlob: bytes) {
    && body == Container(key.blob, ns, sigBlob) && TrustedAs(trusted, key.blob, key)
    && (PlainSignature(c, key, sigBlob, Statement(c, ns, message)) || TokenSignature(c, key, sigBlob, Statement(c, ns, message)))
  }

  /** A body verifies under a namespace, over a message, as a key's exactly when the
      namespace is one, the body is within the cap and is the container of that
      namespace around a key's blob, the key is trusted as that blob, and what the
      container holds is its signature over the statement of the message. */
  lemma VerifiesExactly(c: Crypto, body: bytes, ns: bytes, message: bytes, trusted: seq<PublicKey>, key: PublicKey)
    ensures Verify(c, body, ns, message, trusted) == Some(key) <==>
      && 1 <= |ns| <= 255 && (forall i :: 0 <= i < |ns| ==> 0x21 <= ns[i] <= 0x7E)
      && |body| <= 0x1_0000 && (exists k :: BlobSays(key.blob, k))
      && exists sigBlob :: Vouches(c, body, ns, message, trusted, key, sigBlob)
  {
    StatementIsSigned(c, ns, message);
    if Verify(c, body, ns, message, trusted) == Some(key) {
      VerifiedVouches(c, body, ns, message, trusted, key);
    }
    forall k, sigBlob | ValidNamespace(ns) && |body| <= 0x1_0000 && BlobSays(key.blob, k)
                        && Vouches(c, body, ns, message, trusted, key, sigBlob)
      ensures Verify(c, body, ns, message, trusted) == Some(key)
    {
      VouchedVerifies(c, body, ns, message, trusted, key, sigBlob, k);
    }
  }

  lemma VerifiedVouches(c: Crypto, body: bytes, ns: bytes, message: bytes, trusted: seq<PublicKey>, key: PublicKey)
    requires Verify(c, body, ns, message, trusted) == Some(key)
    ensures |body| <= 0x1_0000 && ValidNamespace(ns) && exists k :: BlobSays(key.blob, k)
    ensures exists sigBlob :: Vouches(c, body, ns, message, trusted, key, sigBlob)
  {
    StatementIsSigned(c, ns, message);
    var sigBlob := VerifiedBodyIsSigned(c, body, ns, message, trusted);
    var p := ParseSignature(body).value;
    var k := ParsePublicKeyBlob(p.keyBlob).value;
    BlobOfParsedKey(p.keyBlob);
    KeyExactly(p.keyBlob, k);
    FoundExactly(trusted, k.blob, key);
    ContainerIsFrame(key.blob, ns, sigBlob);
    SignatureExactly(c, key, sigBlob, SignedBlob(ns, SHA512, c.sha512(message)));
    assert Vouches(c, body, ns, message, trusted, key, sigBlob);
  }

  lemma VouchedVerifies(c: Crypto, body: bytes, ns: bytes, message: bytes, trusted: seq<PublicKey>, key: PublicKey, sigBlob: bytes, k: PublicKey)
    requires ValidNamespace(ns) && |body| <= 0x1_0000 && BlobSays(key.blob, k)
    requires Vouches(c, body, ns, message, trusted, key, sigBlob)
    ensures Verify(c, body, ns, message, trusted) == Some(key)
  {
    StatementIsSigned(c, ns, message);
    ContainerIsFrame(key.blob, ns, sigBlob);
    ParseOfFrame(Parsed(VERSION, key.blob, ns, SHA512, sigBlob));
    KeyExactly(key.blob, k);
    FoundExactly(trusted, key.blob, key);
    SignatureExactly(c, key, sigBlob, SignedBlob(ns, SHA512, c.sha512(message)));
  }
}
