/** What Decrypt makes of messages of any origin: exactly when it yields which content. */
module DecryptLaws {
  import opened Bytes
  import opened Asn1
  import opened Padding
  import Chunks
  import opened Certificates
  import opened KeyWrap
  import opened RecipientCoding
  import opened Recipients
  import opened EnvelopeCoding
  import opened Envelope

  // ---------- the content ----------

  /** The cipher of each algorithm, and the key lengths that it takes. */
  predicate Takes(a: ContentAlgorithm, cipher: Cipher, key: nat) {
    match a
    case DesCbc => cipher == Des && key == 8
    case DesEde3Cbc => cipher == TripleDes && key == 24
    case OtherAlgorithm(_) => false
    case _ => cipher == AesCipher && (key == 16 || key == 24 || key == 32)
  }

  /** A ciphertext opens to a content exactly when the key has a length that the cipher of the algorithm takes, and
      for CBC the initialisation vector is one block, the ciphertext is decrypted to the padded content; for GCM
      the parameters hold a nonce of 12 octets and a tag length of 16, and the tag is right. */
  ghost predicate Opens(m: Modes, a: ContentAlgorithm, parameters: seq<byte>, ciphertext: seq<byte>, key: seq<byte>, content: seq<byte>) {
    match a
    case DesCbc | DesEde3Cbc =>
      exists cipher :: Takes(a, cipher, |key|) && OpensCbc(m, cipher, 8, key, parameters, ciphertext, content)
    case Aes128Cbc | Aes256Cbc =>
      exists cipher :: Takes(a, cipher, |key|) && OpensCbc(m, cipher, 16, key, parameters, ciphertext, content)
    case Aes128Gcm | Aes256Gcm =>
      Takes(a, AesCipher, |key|) && exists nonce ::
        |nonce| == 12 && GcmParameters(parameters) == Some((nonce, 16)) && m.gcmOpen(key, nonce, ciphertext) == Some(content)
    case OtherAlgorithm(_) => false
  }

  ghost predicate OpensCbc(m: Modes, cipher: Cipher, block: int, key: seq<byte>, iv: seq<byte>, ciphertext: seq<byte>, content: seq<byte>)
    requires block == 8 || block == 16
  {
    && |iv| == block && ciphertext != [] && |ciphertext| % block == 0
    && Pad(content, block) == Ok(m.cbcDecrypt(cipher, key, iv, ciphertext))
  }

  lemma PaddingOpens(x: seq<byte>, block: int, content: seq<byte>)
    requires block == 8 || block == 16
    ensures Unpadded(x, block) == Ok(content) <==> Pad(content, block) == Ok(x)
  {
    UnpadPad(content, block);
    if Unpadded(x, block) == Ok(content) {
      PadUnpad(x, block);
    }
  }

  lemma CbcOpened(m: Modes, a: ContentAlgorithm, iv: seq<byte>, ciphertext: seq<byte>, key: seq<byte>, content: seq<byte>)
    requires a == DesCbc || a == DesEde3Cbc || a == Aes128Cbc || a == Aes256Cbc
    ensures OpenedText(m, a, iv, ciphertext, key) == Ok(content) <==> Opens(m, a, iv, ciphertext, key, content)
  {
    var cipher := if a == DesCbc then Des else if a == DesEde3Cbc then TripleDes else AesCipher;
    var block := if a == DesCbc || a == DesEde3Cbc then 8 else 16;
    PaddingOpens(m.cbcDecrypt(cipher, key, iv, ciphertext), block, content);
    assert forall c | Takes(a, c, |key|) :: c == cipher;
    if Takes(a, cipher, |key|) {
      assert Opens(m, a, iv, ciphertext, key, content) <==> OpensCbc(m, cipher, block, key, iv, ciphertext, content);
    }
  }

  lemma GcmOpened(m: Modes, a: ContentAlgorithm, parameters: seq<byte>, ciphertext: seq<byte>, key: seq<byte>, content: seq<byte>)
    requires a == Aes128Gcm || a == Aes256Gcm
    ensures OpenedText(m, a, parameters, ciphertext, key) == Ok(content) <==> Opens(m, a, parameters, ciphertext, key, content)
  {
    var read := GcmParameters(parameters);
    if read.Some? {
      assert Opens(m, a, parameters, ciphertext, key, content) <==>
             && (|key| == 16 || |key| == 24 || |key| == 32)
             && |read.value.0| == 12 && read.value.1 == 16 && m.gcmOpen(key, read.value.0, ciphertext) == Some(content);
    }
  }

  lemma OpenedExactly(m: Modes, a: ContentAlgorithm, parameters: seq<byte>, ciphertext: seq<byte>, key: seq<byte>, content: seq<byte>)
    ensures OpenedText(m, a, parameters, ciphertext, key) == Ok(content) <==> Opens(m, a, parameters, ciphertext, key, content)
  {
    if IsGcm(a) {
      GcmOpened(m, a, parameters, ciphertext, key, content);
    } else if a.OtherAlgorithm? {
    } else {
      CbcOpened(m, a, parameters, ciphertext, key, content);
    }
  }

  lemma CbcRestores(m: Modes, a: ContentAlgorithm, cipher: Cipher, block: int, key: seq<byte>, iv: seq<byte>, content: seq<byte>)
    requires m.Laws() && Takes(a, cipher, |key|) && |iv| == block == (if cipher == AesCipher then 16 else 8)
    requires a != Aes128Gcm && a != Aes256Gcm
    ensures OpenedContent(m, EncryptedContentInfo(a, iv, false, m.cbcEncrypt(cipher, key, iv, Pad(content, block).value)), key)
         == Ok(content)
  {
    CbcHasLength(m, cipher, key, iv, content);
    UnpadPad(content, block);
    CbcOpened(m, a, iv, m.cbcEncrypt(cipher, key, iv, Pad(content, block).value), key, content);
  }

  lemma GcmRestores(m: Modes, a: ContentAlgorithm, key: seq<byte>, nonce: seq<byte>, content: seq<byte>)
    requires m.Laws() && (a == Aes128Gcm || a == Aes256Gcm) && Takes(a, AesCipher, |key|) && |nonce| == 12
    ensures OpenedContent(m, EncryptedContentInfo(a, GcmOctets(nonce, 16), false, m.gcmSeal(key, nonce, content)), key) == Ok(content)
  {
    GcmParametersRead(nonce, 16);
  }

  /** With each of the six algorithms the content is opened that its cipher encrypted, */
  lemma SixAlgorithms(m: Modes, key: seq<byte>, iv: seq<byte>, content: seq<byte>)
    requires m.Laws()
    ensures |key| == 8 && |iv| == 8 ==>
              OpenedContent(m, EncryptedContentInfo(DesCbc, iv, false, m.cbcEncrypt(Des, key, iv, Pad(content, 8).value)), key)
              == Ok(content)
    ensures |key| == 24 && |iv| == 8 ==>
              OpenedContent(m, EncryptedContentInfo(DesEde3Cbc, iv, false, m.cbcEncrypt(TripleDes, key, iv, Pad(content, 8).value)), key)
              == Ok(content)
    ensures forall a | a == Aes128Cbc || a == Aes256Cbc ::
              (|key| == 16 || |key| == 24 || |key| == 32) && |iv| == 16 ==>
                OpenedContent(m, EncryptedContentInfo(a, iv, false, m.cbcEncrypt(AesCipher, key, iv, Pad(content, 16).value)), key)
                == Ok(content)
    ensures forall a | a == Aes128Gcm || a == Aes256Gcm ::
              (|key| == 16 || |key| == 24 || |key| == 32) && |iv| == 12 ==>
                OpenedContent(m, EncryptedContentInfo(a, GcmOctets(iv, 16), false, m.gcmSeal(key, iv, content)), key)
                == Ok(content)
  {
    if |iv| == 8 && |key| == 8 {
      CbcRestores(m, DesCbc, Des, 8, key, iv, content);
    } else if |iv| == 8 && |key| == 24 {
      CbcRestores(m, DesEde3Cbc, TripleDes, 8, key, iv, content);
    } else if |key| == 16 || |key| == 24 || |key| == 32 {
      if |iv| == 16 {
        CbcRestores(m, Aes128Cbc, AesCipher, 16, key, iv, content);
        CbcRestores(m, Aes256Cbc, AesCipher, 16, key, iv, content);
      } else if |iv| == 12 {
        GcmRestores(m, Aes128Gcm, key, iv, content);
        GcmRestores(m, Aes256Gcm, key, iv, content);
      }
    }
  }

  /** and with a key of another length nothing is. */
  lemma OtherKeysRejected(m: Modes, info: EncryptedContentInfo, key: seq<byte>)
    requires match info.algorithm
             case DesCbc => |key| != 8
             case DesEde3Cbc => |key| != 24
             case OtherAlgorithm(_) => true
             case _ => |key| != 16 && |key| != 24 && |key| != 32
    ensures OpenedContent(m, info, key).Err?
  {
    var text := if info.compound then Chunks.Joined(info.octets) else info.octets;
    if OpenedContent(m, info, key).Ok? {
      OpenedExactly(m, info.algorithm, info.parameters, text, key, OpenedContent(m, info, key).value);
    }
  }

  // ---------- the key ----------

  /** The identifier of a KEM recipient is that of another certificate. */
  predicate NamesAnother(id: RecipientId, cert: Certificate) {
    match id
    case IssuerSerial(Whole(ias)) => ias.serialNumber != cert.serialNumber || ias.issuerName != cert.rawIssuer
    case SubjectKeyId(octets) => octets == [] || octets != cert.subjectKeyId
    case _ => false
  }

  predicate NamesIt(id: RecipientId, cert: Certificate) {
    match id
    case IssuerSerial(Whole(ias)) => ias.serialNumber == cert.serialNumber && ias.issuerName == cert.rawIssuer
    case SubjectKeyId(octets) => octets != [] && octets == cert.subjectKeyId
    case _ => false
  }

  /** The entry is not for the holder of this certificate and key, and in good order where it is of their kind. */
  predicate ForAnother(raw: RecipientInfo, cert: Certificate, pkey: PrivateKey) {
    match (pkey, raw)
    case (RsaPrivate(_), KeyTrans(Whole(info))) =>
      info.id.serialNumber != cert.serialNumber || info.id.issuerName != cert.rawIssuer
    case (RsaPrivate(_), KeyTrans(_)) => false
    case (RsaPrivate(_), _) => true
    case (Decapsulation(_, _), Other(compound, Whole(other))) =>
      compound && (other.kind == OtherRecipientInfoKem ==> other.value.Whole? && NamesAnother(other.value.value.recipientId, cert))
    case (Decapsulation(_, _), Other(_, _)) => false
    case (Decapsulation(_, _), _) => true
    case (OtherPrivate, _) => false
  }

  /** The entry is for that holder and yields this key: by RSA decryption, or by decapsulation, derivation of a
      key of 32 octets and AES-256 key unwrapping, with version 0 and no parameters anywhere. */
  ghost predicate Yields(t: KeyTransport, raw: RecipientInfo, cert: Certificate, pkey: PrivateKey, key: seq<byte>)
    requires t.Laws()
  {
    match (pkey, raw)
    case (RsaPrivate(secret), KeyTrans(Whole(info))) =>
      info.id == IssuerAndSerial(cert.rawIssuer, cert.serialNumber) && t.rsaDecrypt(secret, info.encryptedKey) == Some(key)
    case (Decapsulation(level, secret), Other(true, Whole(OtherInfo(OtherRecipientInfoKem, Whole(info))))) =>
      && NamesIt(info.recipientId, cert) && info.version == 0
      && info.kem == AlgorithmIdentifier(if level == Level768 then MlKem768 else MlKem1024, false)
      && info.kdf == AlgorithmIdentifier(HkdfSha256, false)
      && info.wrap == AlgorithmIdentifier(KeyWrapAes256, false) && info.kekLength == 32
      && exists shared :: t.decapsulate(level, secret, info.ciphertext) == Some(shared)
                       && Unwrap(t.aes, t.kdf(shared, AlgorithmIdentifier(KeyWrapAes256, false), 32, info.ukm), info.encryptedKey) == Ok(key)
    case _ => false
  }

  /** The first element for which nothing speaks against being passed over. */
  ghost predicate FirstAt<T(!new)>(holds: T -> bool, passed: T -> bool, s: seq<T>, k: int) {
    0 <= k < |s| && holds(s[k]) && forall j | 0 <= j < k :: passed(s[j])
  }

  lemma FirstOrLater<T(!new)>(holds: T -> bool, passed: T -> bool, s: seq<T>)
    requires s != []
    ensures (exists k :: FirstAt(holds, passed, s, k)) <==>
            holds(s[0]) || (passed(s[0]) && exists k :: FirstAt(holds, passed, s[1..], k))
  {
    var rest := s[1..];
    if holds(s[0]) {
      assert FirstAt(holds, passed, s, 0);
    }
    if k :| FirstAt(holds, passed, s, k) {
      assert k > 0 ==> passed(s[0]);
      if k > 0 {
        assert forall j | 0 <= j < k - 1 :: rest[j] == s[j + 1];
        assert FirstAt(holds, passed, rest, k - 1);
      }
    }
    if k :| passed(s[0]) && FirstAt(holds, passed, rest, k) {
      assert forall j | 1 <= j < k + 1 :: s[j] == rest[j - 1];
      assert FirstAt(holds, passed, s, k + 1);
    }
  }

  /** Entry k is the first that is not for another, and yields the key. */
  ghost predicate FirstYields(t: KeyTransport, infos: seq<RecipientInfo>, cert: Certificate, pkey: PrivateKey, key: seq<byte>, k: int)
    requires t.Laws()
  {
    FirstAt((raw: RecipientInfo) => t.Laws() && Yields(t, raw, cert, pkey, key), (raw: RecipientInfo) => ForAnother(raw, cert, pkey), infos, k)
  }

  lemma FirstEntry(t: KeyTransport, infos: seq<RecipientInfo>, cert: Certificate, pkey: PrivateKey, key: seq<byte>)
    requires t.Laws() && infos != []
    ensures FoundKey(t, infos, Some(cert), pkey) == Ok(key) <==>
            || Yields(t, infos[0], cert, pkey, key)
            || (ForAnother(infos[0], cert, pkey) && FoundKey(t, infos[1..], Some(cert), pkey) == Ok(key))
  {
    if pkey.RsaPrivate? {
    } else if pkey.Decapsulation? {
      FirstKemEntry(t, infos, cert, pkey.level, pkey.secret, key);
    }
  }

  lemma FirstKemEntry(t: KeyTransport, infos: seq<RecipientInfo>, cert: Certificate, level: KemLevel, secret: seq<byte>, key: seq<byte>)
    requires t.Laws() && infos != []
    ensures KemKey(t, infos, Some(cert), level, secret) == Ok(key) <==>
            || Yields(t, infos[0], cert, Decapsulation(level, secret), key)
            || (&& ForAnother(infos[0], cert, Decapsulation(level, secret))
                && KemKey(t, infos[1..], Some(cert), level, secret) == Ok(key))
  {
    var raw := infos[0];
    if raw.Other? && raw.compound && raw.other.Whole? && raw.other.value.kind == OtherRecipientInfoKem && raw.other.value.value.Whole? {
      var info := raw.other.value.value.value;
      assert raw == KemEntry(info);
      KemEntryRead(t, info, infos[1..], cert, level, secret);
      assert [raw] + infos[1..] == infos;
      KemEntryYields(t, info, cert, level, secret, key);
    } else {
      OtherEntryRead(t, infos, cert, level, secret);
      assert !Yields(t, raw, cert, Decapsulation(level, secret), key);
    }
  }

  lemma KemEntryRead(t: KeyTransport, info: KemInfo, rest: seq<RecipientInfo>, cert: Certificate, level: KemLevel, secret: seq<byte>)
    requires t.Laws()
    ensures KemKey(t, [KemEntry(info)] + rest, Some(cert), level, secret)
         == if NamesAnother(info.recipientId, cert) then KemKey(t, rest, Some(cert), level, secret)
            else if NamesIt(info.recipientId, cert) then KemInfoKey(t, info, level, secret)
            else Err
  {
    var infos := [KemEntry(info)] + rest;
    IdMatches(info.recipientId, cert);
    assert PassedByKem(KemEntry(info), Some(cert)) == NamesAnother(info.recipientId, cert);
    assert infos[0] == KemEntry(info) && infos[1..] == rest;
  }

  lemma KemEntryYields(t: KeyTransport, info: KemInfo, cert: Certificate, level: KemLevel, secret: seq<byte>, key: seq<byte>)
    requires t.Laws()
    ensures Yields(t, KemEntry(info), cert, Decapsulation(level, secret), key) <==>
            NamesIt(info.recipientId, cert) && KemInfoKey(t, info, level, secret) == Ok(key)
    ensures ForAnother(KemEntry(info), cert, Decapsulation(level, secret)) <==> NamesAnother(info.recipientId, cert)
    ensures NamesIt(info.recipientId, cert) ==> !NamesAnother(info.recipientId, cert)
  {
    var pkey := Decapsulation(level, secret);
    KemInfoYieldsKey(t, info, level, secret, key);
    assert Yields(t, KemEntry(info), cert, pkey, key) ==> NamesIt(info.recipientId, cert) && KemInfoKey(t, info, level, secret) == Ok(key);
  }

  lemma OtherEntryRead(t: KeyTransport, infos: seq<RecipientInfo>, cert: Certificate, level: KemLevel, secret: seq<byte>)
    requires t.Laws() && infos != []
    requires match infos[0] case Other(true, Whole(OtherInfo(kind, value))) => kind != OtherRecipientInfoKem || !value.Whole? case _ => true
    ensures KemKey(t, infos, Some(cert), level, secret)
         == if ForAnother(infos[0], cert, Decapsulation(level, secret)) then KemKey(t, infos[1..], Some(cert), level, secret) else Err
  {
  }

  lemma IdMatches(id: RecipientId, cert: Certificate)
    ensures NamesIt(id, cert) <==> RecipientIdMatches(id, Some(cert)) == Ok(true)
    ensures NamesAnother(id, cert) <==> RecipientIdMatches(id, Some(cert)) == Ok(false)
  {
  }

  lemma KemInfoYieldsKey(t: KeyTransport, info: KemInfo, level: KemLevel, secret: seq<byte>, key: seq<byte>)
    requires t.Laws()
    ensures KemInfoKey(t, info, level, secret) == Ok(key) <==>
            && info.version == 0
            && info.kem == AlgorithmIdentifier(if level == Level768 then MlKem768 else MlKem1024, false)
            && info.kdf == AlgorithmIdentifier(HkdfSha256, false)
            && info.wrap == AlgorithmIdentifier(KeyWrapAes256, false) && info.kekLength == 32
            && exists shared :: t.decapsulate(level, secret, info.ciphertext) == Some(shared)
                             && Unwrap(t.aes, t.kdf(shared, AlgorithmIdentifier(KeyWrapAes256, false), 32, info.ukm), info.encryptedKey) == Ok(key)
  {
  }

  /** The key that is found is the one in the first entry that is not for another, if that is in good order. */
  lemma {:induction false} KeyFoundExactly(t: KeyTransport, infos: seq<RecipientInfo>, cert: Certificate, pkey: PrivateKey, key: seq<byte>)
    requires t.Laws()
    ensures FoundKey(t, infos, Some(cert), pkey) == Ok(key) <==> exists k :: FirstYields(t, infos, cert, pkey, key, k)
  {
    if infos == [] {
    } else {
      KeyFoundExactly(t, infos[1..], cert, pkey, key);
      FirstEntry(t, infos, cert, pkey, key);
      OneOrLater(t, infos, cert, pkey, key);
    }
  }

  lemma OneOrLater(t: KeyTransport, infos: seq<RecipientInfo>, cert: Certificate, pkey: PrivateKey, key: seq<byte>)
    requires t.Laws() && infos != []
    ensures (exists k :: FirstYields(t, infos, cert, pkey, key, k)) <==>
            || Yields(t, infos[0], cert, pkey, key)
            || (ForAnother(infos[0], cert, pkey) && exists k :: FirstYields(t, infos[1..], cert, pkey, key, k))
  {
    var holds := (raw: RecipientInfo) => t.Laws() && Yields(t, raw, cert, pkey, key);
    var passed := (raw: RecipientInfo) => ForAnother(raw, cert, pkey);
    FirstOrLater(holds, passed, infos);
    assert forall k :: FirstYields(t, infos, cert, pkey, key, k) <==> FirstAt(holds, passed, infos, k);
    assert forall k :: FirstYields(t, infos[1..], cert, pkey, key, k) <==> FirstAt(holds, passed, infos[1..], k);
  }

  /** Whoever made the message, Decrypt yields a content exactly when the first entry that is not for another yields
      a key that opens it; by a KEM entry only from version 3 and AES-CBC. */
  lemma DecryptedExactly(m: Modes, t: KeyTransport, e: EnvelopedData, cert: Certificate, pkey: PrivateKey, content: seq<byte>)
    requires t.Laws()
    ensures Decrypted(m, t, e, Some(cert), pkey) == Ok(content) <==>
            && (pkey.Decapsulation? ==> e.version == 3 && (e.content.algorithm == Aes128Cbc || e.content.algorithm == Aes256Cbc))
            && exists k, key :: FirstYields(t, e.recipientInfos, cert, pkey, key, k) && OpenedContent(m, e.content, key) == Ok(content)
  {
    var found := FoundKey(t, e.recipientInfos, Some(cert), pkey);
    if found.Ok? {
      KeyFoundExactly(t, e.recipientInfos, cert, pkey, found.value);
    }
    forall k, key | FirstYields(t, e.recipientInfos, cert, pkey, key, k)
      ensures found == Ok(key)
    {
      KeyFoundExactly(t, e.recipientInfos, cert, pkey, key);
    }
  }

  /** A KEM recipient can be named by its subject key identifier, and user keying material can go into the derivation,
      in messages that the package does not write: such a message is decrypted. */
  lemma ForeignKemDecrypted(m: Modes, t: KeyTransport, e: EnvelopedData, info: KemInfo, cert: Certificate, level: KemLevel,
                            secret: seq<byte>, shared: seq<byte>, key: seq<byte>, content: seq<byte>)
    requires t.Laws() && e.version == 3 && e.recipientInfos == [KemEntry(info)]
    requires NamesIt(info.recipientId, cert) && info.version == 0 && info.kekLength == 32
    requires info.kem == AlgorithmIdentifier(if level == Level768 then MlKem768 else MlKem1024, false)
    requires info.kdf == AlgorithmIdentifier(HkdfSha256, false) && info.wrap == AlgorithmIdentifier(KeyWrapAes256, false)
    requires t.decapsulate(level, secret, info.ciphertext) == Some(shared)
    requires Wrap(t.aes, t.kdf(shared, AlgorithmIdentifier(KeyWrapAes256, false), 32, info.ukm), key) == Ok(info.encryptedKey)
    requires e.content.algorithm == Aes128Cbc || e.content.algorithm == Aes256Cbc
    requires Opens(m, e.content.algorithm, e.content.parameters, e.content.octets, key, content) && !e.content.compound
    ensures Decrypted(m, t, e, Some(cert), Decapsulation(level, secret)) == Ok(content)
  {
    var pkey := Decapsulation(level, secret);
    UnwrapWrap(t.aes, t.kdf(shared, AlgorithmIdentifier(KeyWrapAes256, false), 32, info.ukm), key);
    assert Yields(t, e.recipientInfos[0], cert, pkey, key);
    assert FirstYields(t, e.recipientInfos, cert, pkey, key, 0);
    OpenedExactly(m, e.content.algorithm, e.content.parameters, e.content.octets, key, content);
    DecryptedExactly(m, t, e, cert, pkey, content);
  }

  /** Without a certificate nothing is yielded. */
  lemma WithoutCertificate(m: Modes, t: KeyTransport, e: EnvelopedData, pkey: PrivateKey)
    requires t.Laws()
    ensures Decrypted(m, t, e, None, pkey).Err?
  {
    if pkey.Decapsulation? {
      NoKemKey(t, e.recipientInfos, pkey.level, pkey.secret);
    }
  }

  lemma {:induction false} NoKemKey(t: KeyTransport, infos: seq<RecipientInfo>, level: KemLevel, secret: seq<byte>)
    requires t.Laws()
    ensures KemKey(t, infos, None, level, secret).Err?
  {
    if infos == [] {
    } else {
      NoKemKey(t, infos[1..], level, secret);
    }
  }
}
