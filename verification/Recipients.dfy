/** Recipients of an enveloped message: how the content key is given to each of them (encrypt.go,
    kem.go) and how each finds it again in a mixed list (decrypt.go, kem.go). */
module Recipients {
  import opened Bytes
  import opened Certificates
  import opened KeyWrap
  import opened RecipientCoding

  /** Public-key primitives; `random` stands for the octets that a call reads from the system. */
  datatype KeyTransport = KeyTransport(
    rsaPublic: seq<byte> -> seq<byte>,
    rsaSize: seq<byte> -> nat,
    rsaEncrypt: (seq<byte>, seq<byte>, seq<byte>) -> Option<seq<byte>>,
    rsaDecrypt: (seq<byte>, seq<byte>) -> Option<seq<byte>>,
    kemPublic: (KemLevel, seq<byte>) -> seq<byte>,
    kemKeyParses: (KemLevel, seq<byte>) -> bool,
    encapsulate: (KemLevel, seq<byte>, seq<byte>) -> (seq<byte>, seq<byte>),
    decapsulate: (KemLevel, seq<byte>, seq<byte>) -> Option<seq<byte>>,
    kdf: (seq<byte>, AlgorithmIdentifier, int, Option<seq<byte>>) -> seq<byte>,
    aes: Aes)
  {
    /** What was encrypted or encapsulated to a key pair is recovered by it, and ciphertexts have the size of the
        RSA modulus or the sizes of section 8 of FIPS 203. */
    ghost predicate Laws() {
      && aes.Permutes()
      && (forall d, m, r | rsaEncrypt(rsaPublic(d), m, r).Some? ::
            rsaDecrypt(d, rsaEncrypt(rsaPublic(d), m, r).value) == Some(m))
      && (forall k, m, r | rsaEncrypt(k, m, r).Some? :: |rsaEncrypt(k, m, r).value| == rsaSize(k))
      && (forall level, k, r :: |encapsulate(level, k, r).1| == KemCiphertextSize(level))
      && (forall level, d, r ::
            decapsulate(level, d, encapsulate(level, kemPublic(level, d), r).1)
            == Some(encapsulate(level, kemPublic(level, d), r).0))
      && (forall secret, wrap, n: nat, ukm :: |kdf(secret, wrap, n, ukm)| == n)
    }
  }

  function KemCiphertextSize(level: KemLevel): nat {
    if level == Level768 then 1088 else 1568
  }

  datatype PrivateKey =
    | RsaPrivate(secret: seq<byte>)
    | Decapsulation(level: KemLevel, secret: seq<byte>)
    | OtherPrivate

  // ---------- making them ----------

  /** Key usages that an ML-KEM certificate may have: none given, or keyEncipherment only. */
  const KEY_ENCIPHERMENT := 4

  /** The ML-KEM key that a certificate holds, if it can be used. */
  function EncapsulationKey(p: KeyTransport, cert: Certificate): Option<(KemLevel, seq<byte>)> {
    match cert.spki
    case None =>
      if cert.publicKey.MlKemKey? then Some((cert.publicKey.level, cert.publicKey.key)) else None
    case Some(Malformed) => None
    case Some(Trailing(_)) => None
    case Some(Whole(spki)) =>
      if spki.algorithm.hasParameters || spki.bitLength != 8 * |spki.publicKey| then None
      else if spki.algorithm.oid.MlKem768? && p.kemKeyParses(Level768, spki.publicKey) then
        Some((Level768, spki.publicKey))
      else if spki.algorithm.oid.MlKem1024? && p.kemKeyParses(Level1024, spki.publicKey) then
        Some((Level1024, spki.publicKey))
      else None
  }

  /** Whether a KEMRecipientInfo is made; `cbc` tells that the content is encrypted with AES-CBC. */
  predicate KemAccepted(p: KeyTransport, cbc: bool, contentKey: seq<byte>, cert: Certificate) {
    && cbc
    && |contentKey| >= 16 && |contentKey| % 8 == 0
    && (cert.keyUsage == 0 || cert.keyUsage == KEY_ENCIPHERMENT)
    && EncapsulationKey(p, cert).Some?
  }

  /** Whether `info` gives `contentKey` to a certificate as a KEM recipient. */
  ghost predicate KemInfoFor(p: KeyTransport, contentKey: seq<byte>, cert: Certificate, random: seq<byte>, info: KemInfo)
    requires p.Laws() && EncapsulationKey(p, cert).Some?
  {
    var (level, key) := EncapsulationKey(p, cert).value;
    var (secret, ciphertext) := p.encapsulate(level, key, random);
    var wrap := AlgorithmIdentifier(KeyWrapAes256, false);
    && info.version == 0
    && info.recipientId == IssuerSerial(Whole(CertToIssuerAndSerial(cert)))
    && info.kem == AlgorithmIdentifier(KemOid(level), false)
    && info.ciphertext == ciphertext
    && info.kdf == AlgorithmIdentifier(HkdfSha256, false)
    && info.kekLength == KEK_LENGTH
    && info.ukm == None
    && info.wrap == wrap
    && Wrap(p.aes, p.kdf(secret, wrap, KEK_LENGTH, None), contentKey) == Ok(info.encryptedKey)
  }

  /** Contents octets of a recipient's entry, counted from its certificate and the length of the content key. */
  function EntrySize(p: KeyTransport, cert: Certificate, key: nat): nat {
    if cert.publicKey.RsaKey?
    then KeyTransSize(IdSize(CertToIssuerAndSerial(cert)), p.rsaSize(cert.publicKey.key))
    else KemEntrySize(p, cert, key)
  }

  function KemEntrySize(p: KeyTransport, cert: Certificate, key: nat): nat {
    match EncapsulationKey(p, cert)
    case None => 0
    case Some((level, _)) => OtherSize(IdSize(CertToIssuerAndSerial(cert)), KemCiphertextSize(level), key + 8)
  }

  /** Entries are read back as raw values when they are made, which fails for 2^31 octets and more. */
  const ENTRY_LIMIT := 0x8000_0000

  method MakeKemRecipientInfo(p: KeyTransport, cbc: bool, contentKey: seq<byte>, cert: Certificate, random: seq<byte>)
    returns (r: Result<RecipientInfo>)
    requires p.Laws()
    ensures r.Ok? <==> KemAccepted(p, cbc, contentKey, cert) && KemEntrySize(p, cert, |contentKey|) < ENTRY_LIMIT
    ensures r.Ok? ==> exists info :: KemInfoFor(p, contentKey, cert, random, info) && r.value == KemEntry(info)
  {
    if !cbc || |contentKey| < 16 || |contentKey| % 8 != 0 {
      return Err;
    }
    if cert.keyUsage != 0 && cert.keyUsage != KEY_ENCIPHERMENT {
      return Err;
    }
    var encapsulation := EncapsulationKey(p, cert);
    if encapsulation.None? {
      return Err;
    }
    var info := MakeKemInfo(p, contentKey, cert, encapsulation.value.0, encapsulation.value.1, random);
    KemInfoSize(p, contentKey, cert, random, info);
    if |EntryFields(KemEntry(info))| >= ENTRY_LIMIT {
      return Err;
    }
    return Ok(KemEntry(info));
  }

  method MakeKemInfo(p: KeyTransport, contentKey: seq<byte>, cert: Certificate, level: KemLevel, key: seq<byte>, random: seq<byte>)
    returns (info: KemInfo)
    requires p.Laws() && |contentKey| >= 16 && |contentKey| % 8 == 0 && EncapsulationKey(p, cert) == Some((level, key))
    ensures KemInfoFor(p, contentKey, cert, random, info)
  {
    var (secret, ciphertext) := p.encapsulate(level, key, random);
    var wrap := AlgorithmIdentifier(KeyWrapAes256, false);
    var kek := p.kdf(secret, wrap, KEK_LENGTH, None);
    UnwrapWrap(p.aes, kek, contentKey);
    var plaintext := ArrayOf(contentKey);
    var encryptedKey := AesKeyWrap(p.aes, kek, plaintext);
    info := KemInfo(0, IssuerSerial(Whole(CertToIssuerAndSerial(cert))), AlgorithmIdentifier(KemOid(level), false),
                    ciphertext, AlgorithmIdentifier(HkdfSha256, false), KEK_LENGTH, None, wrap, encryptedKey.value[..]);
  }

  lemma KemInfoParts(p: KeyTransport, contentKey: seq<byte>, cert: Certificate, random: seq<byte>, info: KemInfo)
    requires p.Laws() && EncapsulationKey(p, cert).Some? && KemInfoFor(p, contentKey, cert, random, info)
    ensures |info.ciphertext| == KemCiphertextSize(EncapsulationKey(p, cert).value.0)
    ensures |info.encryptedKey| == |contentKey| + 8
    ensures Proper(KemEntry(info)) && IdOf(KemEntry(info)) == CertToIssuerAndSerial(cert)
  {
    var (level, key) := EncapsulationKey(p, cert).value;
    var (secret, ciphertext) := p.encapsulate(level, key, random);
    UnwrapWrap(p.aes, p.kdf(secret, info.wrap, KEK_LENGTH, None), contentKey);
  }

  lemma KemInfoSize(p: KeyTransport, contentKey: seq<byte>, cert: Certificate, random: seq<byte>, info: KemInfo)
    requires p.Laws() && EncapsulationKey(p, cert).Some? && KemInfoFor(p, contentKey, cert, random, info)
    ensures Proper(KemEntry(info)) && IdOf(KemEntry(info)) == CertToIssuerAndSerial(cert)
    ensures |EntryFields(KemEntry(info))| == KemEntrySize(p, cert, |contentKey|)
  {
    KemInfoParts(p, contentKey, cert, random, info);
    OtherEntrySize(info, CertToIssuerAndSerial(cert));
  }

  lemma OtherEntrySize(info: KemInfo, id: IssuerAndSerial)
    requires Proper(KemEntry(info)) && IdOf(KemEntry(info)) == id
    ensures |EntryFields(KemEntry(info))| == OtherSize(IdSize(id), |info.ciphertext|, |info.encryptedKey|)
  {
    EntryHasSize(KemEntry(info));
  }

  method ArrayOf(s: seq<byte>) returns (a: array<byte>)
    ensures fresh(a) && a[..] == s
  {
    a := new byte[|s|](i requires 0 <= i < |s| => s[i]);
  }

  /** Whether `raw` gives `contentKey` to a certificate. */
  ghost predicate InfoFor(p: KeyTransport, contentKey: seq<byte>, cert: Certificate, random: seq<byte>, raw: RecipientInfo)
    requires p.Laws()
  {
    if cert.publicKey.RsaKey? then
      && raw.KeyTrans? && raw.info.Whole?
      && raw.info.value.version == 0
      && raw.info.value.id == CertToIssuerAndSerial(cert)
      && raw.info.value.algorithm == AlgorithmIdentifier(RsaEncryption, false)
      && Some(raw.info.value.encryptedKey) == p.rsaEncrypt(cert.publicKey.key, contentKey, random)
    else
      && EncapsulationKey(p, cert).Some?
      && raw.Other? && raw.compound && raw.other.Whole?
      && raw.other.value.kind == OtherRecipientInfoKem && raw.other.value.value.Whole?
      && KemInfoFor(p, contentKey, cert, random, raw.other.value.value.value)
  }

  /** What an entry made for a recipient holds, and how long it is. */
  lemma InfoIsProper(p: KeyTransport, contentKey: seq<byte>, cert: Certificate, random: seq<byte>, raw: RecipientInfo)
    requires p.Laws() && InfoFor(p, contentKey, cert, random, raw)
    ensures Proper(raw) && IdOf(raw) == CertToIssuerAndSerial(cert) && raw.KeyTrans? == cert.publicKey.RsaKey?
    ensures |EntryFields(raw)| == EntrySize(p, cert, |contentKey|)
  {
    if cert.publicKey.RsaKey? {
      EntryHasSize(raw);
    } else {
      KemInfoSize(p, contentKey, cert, random, raw.other.value.value.value);
      assert raw == KemEntry(raw.other.value.value.value);
    }
  }

  /** Whether an entry is made for a recipient, by key transport or by key encapsulation. */
  predicate RecipientAccepted(p: KeyTransport, cbc: bool, contentKey: seq<byte>, cert: Certificate, random: seq<byte>) {
    && (if cert.publicKey.RsaKey? then p.rsaEncrypt(cert.publicKey.key, contentKey, random).Some?
        else KemAccepted(p, cbc, contentKey, cert))
    && EntrySize(p, cert, |contentKey|) < ENTRY_LIMIT
  }

  method MakeRecipientInfo(p: KeyTransport, cbc: bool, contentKey: seq<byte>, cert: Certificate, random: seq<byte>)
    returns (r: Result<RecipientInfo>, usesOther: bool)
    requires p.Laws()
    ensures r.Ok? <==> RecipientAccepted(p, cbc, contentKey, cert, random)
    ensures r.Ok? ==> InfoFor(p, contentKey, cert, random, r.value)
    ensures usesOther <==> !cert.publicKey.RsaKey?
  {
    if cert.publicKey.RsaKey? {
      var encrypted := p.rsaEncrypt(cert.publicKey.key, contentKey, random);
      if encrypted.None? {
        return Err, false;
      }
      var info := KeyTransInfo(0, CertToIssuerAndSerial(cert), AlgorithmIdentifier(RsaEncryption, false), encrypted.value);
      var raw := KeyTrans(Whole(info));
      InfoIsProper(p, contentKey, cert, random, raw);
      if |EntryFields(raw)| >= ENTRY_LIMIT {
        return Err, false;
      }
      return Ok(raw), false;
    }
    r := MakeKemRecipientInfo(p, cbc, contentKey, cert, random);
    usesOther := true;
  }

  // ---------- finding them ----------

  /** Entries that the search for a key-transport recipient goes past. */
  predicate PassedByRsa(raw: RecipientInfo, cert: Certificate) {
    raw.KeyTrans? ==> raw.info.Whole? && !IsMatch(cert, raw.info.value.id)
  }

  /** The first key-transport entry for the certificate, unless a malformed one stands before it. */
  function Selected(recipients: seq<RecipientInfo>, cert: Certificate): Result<KeyTransInfo> {
    if recipients == [] then Err
    else if PassedByRsa(recipients[0], cert) then Selected(recipients[1..], cert)
    else if recipients[0].info.Whole? then Ok(recipients[0].info.value)
    else Err
  }

  method SelectRecipientForCertificate(recipients: seq<RecipientInfo>, cert: Option<Certificate>)
    returns (r: Result<KeyTransInfo>)
    ensures r == if cert.None? then Err else Selected(recipients, cert.value)
  {
    if cert.None? {
      return Err;
    }
    for i := 0 to |recipients|
      invariant Selected(recipients, cert.value) == Selected(recipients[i..], cert.value)
    {
      var raw := recipients[i];
      if raw.KeyTrans? {
        match raw.info {
          case Malformed => return Err;
          case Trailing(_) => return Err;
          case Whole(info) =>
            if IsMatch(cert.value, info.id) {
              return Ok(info);
            }
        }
      }
    }
    return Err;
  }

  /** Err where the identifier cannot be used. */
  function RecipientIdMatches(id: RecipientId, cert: Option<Certificate>): Result<bool> {
    if cert.None? then Err else
      match id
      case IssuerSerial(Whole(ias)) => Ok(IsMatch(cert.value, ias))
      case IssuerSerial(_) => Err
      case SubjectKeyId(octets) =>
        Ok(octets != [] && cert.value.subjectKeyId != [] && octets == cert.value.subjectKeyId)
      case UnknownId => Err
  }

  /** Entries that the search for a KEM recipient goes past. */
  predicate PassedByKem(raw: RecipientInfo, cert: Option<Certificate>) {
    raw.Other? ==>
      && raw.compound && raw.other.Whole?
      && (raw.other.value.kind == OtherRecipientInfoKem ==>
            && raw.other.value.value.Whole?
            && RecipientIdMatches(raw.other.value.value.value.recipientId, cert) == Ok(false))
  }

  /** Whether the algorithms of a matching entry are those that the program supports. */
  predicate KemSupported(info: KemInfo, level: KemLevel) {
    && info.version == 0
    && info.kem == AlgorithmIdentifier(KemOid(level), false)
    && info.kdf == AlgorithmIdentifier(HkdfSha256, false)
    && info.wrap == AlgorithmIdentifier(KeyWrapAes256, false)
    && info.kekLength == KEK_LENGTH
  }

  function KemInfoKey(p: KeyTransport, info: KemInfo, level: KemLevel, secret: seq<byte>): Result<seq<byte>>
    requires p.Laws()
  {
    if !KemSupported(info, level) then Err else
      match p.decapsulate(level, secret, info.ciphertext)
      case None => Err
      case Some(shared) => Unwrap(p.aes, p.kdf(shared, info.wrap, info.kekLength, info.ukm), info.encryptedKey)
  }

  /** The content key in the first KEM entry for the certificate, unless an unusable one stands before it. */
  function KemKey(p: KeyTransport, recipients: seq<RecipientInfo>, cert: Option<Certificate>, level: KemLevel, secret: seq<byte>)
    : Result<seq<byte>>
    requires p.Laws()
  {
    if recipients == [] then Err else
      var raw := recipients[0];
      if PassedByKem(raw, cert) then KemKey(p, recipients[1..], cert, level, secret)
      else if !raw.compound || !raw.other.Whole? || !raw.other.value.value.Whole? then Err
      else if RecipientIdMatches(raw.other.value.value.value.recipientId, cert).Err? then Err
      else KemInfoKey(p, raw.other.value.value.value, level, secret)
  }

  method DecryptKemRecipientKey(p: KeyTransport, recipients: seq<RecipientInfo>, cert: Option<Certificate>, pkey: PrivateKey)
    returns (r: Result<seq<byte>>)
    requires p.Laws()
    ensures r == if pkey.Decapsulation? then KemKey(p, recipients, cert, pkey.level, pkey.secret) else Err
  {
    if !pkey.Decapsulation? {
      return Err;
    }
    for i := 0 to |recipients|
      invariant KemKey(p, recipients, cert, pkey.level, pkey.secret)
             == KemKey(p, recipients[i..], cert, pkey.level, pkey.secret)
    {
      var raw := recipients[i];
      if !raw.Other? {
        continue;
      }
      if !raw.compound || !raw.other.Whole? {
        return Err;
      }
      if raw.other.value.kind != OtherRecipientInfoKem {
        continue;
      }
      if !raw.other.value.value.Whole? {
        return Err;
      }
      var info := raw.other.value.value.value;
      var matches := RecipientIdMatches(info.recipientId, cert);
      if matches.Err? {
        return Err;
      }
      if !matches.value {
        continue;
      }
      r := DecryptKemInfo(p, info, pkey.level, pkey.secret);
      return;
    }
    return Err;
  }

  method DecryptKemInfo(p: KeyTransport, info: KemInfo, level: KemLevel, secret: seq<byte>) returns (r: Result<seq<byte>>)
    requires p.Laws()
    ensures r == KemInfoKey(p, info, level, secret)
  {
    if info.version != 0 || info.kem.oid != KemOid(level) || info.kem.hasParameters {
      return Err;
    }
    if info.kdf.oid != HkdfSha256 || info.kdf.hasParameters {
      return Err;
    }
    if info.wrap.oid != KeyWrapAes256 || info.wrap.hasParameters || info.kekLength != KEK_LENGTH {
      return Err;
    }
    var shared := p.decapsulate(level, secret, info.ciphertext);
    if shared.None? {
      return Err;
    }
    var kek := p.kdf(shared.value, info.wrap, info.kekLength, info.ukm);
    var ciphertext := ArrayOf(info.encryptedKey);
    var contentKey := AesKeyUnwrap(p.aes, kek, ciphertext);
    if contentKey.Err? {
      return Err;
    }
    return Ok(contentKey.value[..]);
  }

  // ---------- every recipient finds its key ----------

  /** The private key belongs to the certificate. */
  predicate Owns(p: KeyTransport, cert: Certificate, pkey: PrivateKey) {
    if cert.publicKey.RsaKey? then
      pkey.RsaPrivate? && cert.publicKey.key == p.rsaPublic(pkey.secret)
    else
      && pkey.Decapsulation?
      && EncapsulationKey(p, cert) == Some((pkey.level, p.kemPublic(pkey.level, pkey.secret)))
  }

  /** The content key that a private key finds. */
  function FoundKey(p: KeyTransport, recipients: seq<RecipientInfo>, cert: Option<Certificate>,
                    pkey: PrivateKey): Result<seq<byte>>
    requires p.Laws()
  {
    match pkey
    case RsaPrivate(secret) =>
      if cert.None? then Err else
        (match Selected(recipients, cert.value)
         case Err => Err
         case Ok(info) => match p.rsaDecrypt(secret, info.encryptedKey) case None => Err case Some(k) => Ok(k))
    case Decapsulation(level, secret) => KemKey(p, recipients, cert, level, secret)
    case OtherPrivate => Err
  }

  /** Entry i was made for recipient i. */
  ghost predicate InfosFor(p: KeyTransport, key: seq<byte>, certs: seq<Certificate>, random: seq<seq<byte>>,
                           infos: seq<RecipientInfo>)
    requires p.Laws()
  {
    && |infos| == |certs| <= |random|
    && forall i | 0 <= i < |infos| :: InfoFor(p, key, certs[i], random[i], infos[i])
  }

  /** No two recipients of the same kind have the same issuer and serial number. */
  predicate Distinct(certs: seq<Certificate>) {
    forall i, j | 0 <= i < j < |certs| && certs[i].publicKey.RsaKey? == certs[j].publicKey.RsaKey? ::
      CertToIssuerAndSerial(certs[i]) != CertToIssuerAndSerial(certs[j])
  }

  /** The KEM entry made for the owner's certificate yields the key. */
  lemma KemInfoYields(p: KeyTransport, key: seq<byte>, cert: Certificate, random: seq<byte>, info: KemInfo, pkey: PrivateKey)
    requires p.Laws() && pkey.Decapsulation?
    requires EncapsulationKey(p, cert) == Some((pkey.level, p.kemPublic(pkey.level, pkey.secret)))
    requires KemInfoFor(p, key, cert, random, info)
    ensures KemInfoKey(p, info, pkey.level, pkey.secret) == Ok(key)
  {
    var (secret, ciphertext) := p.encapsulate(pkey.level, p.kemPublic(pkey.level, pkey.secret), random);
    assert p.decapsulate(pkey.level, pkey.secret, ciphertext) == Some(secret);
    UnwrapWrap(p.aes, p.kdf(secret, info.wrap, KEK_LENGTH, None), key);
  }

  /** The entry made for the owner's certificate yields the key. */
  lemma OwnInfoYields(p: KeyTransport, key: seq<byte>, cert: Certificate, random: seq<byte>, raw: RecipientInfo,
                      rest: seq<RecipientInfo>, pkey: PrivateKey)
    requires p.Laws() && InfoFor(p, key, cert, random, raw) && Owns(p, cert, pkey)
    ensures FoundKey(p, [raw] + rest, Some(cert), pkey) == Ok(key)
  {
    assert ([raw] + rest)[0] == raw;
    if !cert.publicKey.RsaKey? {
      var info := raw.other.value.value.value;
      KemInfoYields(p, key, cert, random, info, pkey);
      assert RecipientIdMatches(info.recipientId, Some(cert)) == Ok(true);
      assert KemKey(p, [raw] + rest, Some(cert), pkey.level, pkey.secret) == KemInfoKey(p, info, pkey.level, pkey.secret);
    }
  }

  /** The entry made for another recipient is gone past. */
  lemma OtherInfoPassed(p: KeyTransport, key: seq<byte>, other: Certificate, random: seq<byte>, raw: RecipientInfo,
                        rest: seq<RecipientInfo>, cert: Certificate, pkey: PrivateKey)
    requires p.Laws() && InfoFor(p, key, other, random, raw) && Owns(p, cert, pkey)
    requires cert.publicKey.RsaKey? == other.publicKey.RsaKey? ==>
               CertToIssuerAndSerial(cert) != CertToIssuerAndSerial(other)
    ensures FoundKey(p, [raw] + rest, Some(cert), pkey) == FoundKey(p, rest, Some(cert), pkey)
  {
    assert ([raw] + rest)[1..] == rest;
  }

  ghost predicate ForSomeone(p: KeyTransport, key: seq<byte>, certs: seq<Certificate>, random: seq<seq<byte>>, raw: RecipientInfo)
    requires p.Laws() && |certs| <= |random|
  {
    exists j | 0 <= j < |certs| :: InfoFor(p, key, certs[j], random[j], raw)
  }

  ghost predicate AllForSomeone(p: KeyTransport, key: seq<byte>, certs: seq<Certificate>,
                                random: seq<seq<byte>>, infos: seq<RecipientInfo>)
    requires p.Laws() && |certs| <= |random|
  {
    infos != [] ==> ForSomeone(p, key, certs, random, infos[0]) && AllForSomeone(p, key, certs, random, infos[1..])
  }

  lemma {:induction false} AllAreForSomeone(p: KeyTransport, key: seq<byte>, certs: seq<Certificate>,
                                            random: seq<seq<byte>>, infos: seq<RecipientInfo>)
    requires p.Laws() && |certs| <= |random|
    requires forall l | 0 <= l < |infos| :: ForSomeone(p, key, certs, random, infos[l])
    ensures AllForSomeone(p, key, certs, random, infos)
  {
    if infos == [] {
    } else {
      AllAreForSomeone(p, key, certs, random, infos[1..]);
    }
  }

  lemma {:induction false} KeyFound(p: KeyTransport, key: seq<byte>, certs: seq<Certificate>, random: seq<seq<byte>>,
                                    infos: seq<RecipientInfo>, i: nat, k: nat, pkey: PrivateKey)
    requires p.Laws() && i < |certs| <= |random| && Distinct(certs) && Owns(p, certs[i], pkey)
    requires AllForSomeone(p, key, certs, random, infos)
    requires k < |infos| && InfoFor(p, key, certs[i], random[i], infos[k])
    ensures FoundKey(p, infos, Some(certs[i]), pkey) == Ok(key)
    decreases k
  {
    HeadYieldsOrPasses(p, key, certs, random, infos[0], infos[1..], i, pkey);
    assert [infos[0]] + infos[1..] == infos;
    if k == 0 {
    } else {
      KeyFound(p, key, certs, random, infos[1..], i, k - 1, pkey);
    }
  }

  lemma DifferentIds(certs: seq<Certificate>, i: nat, j: nat)
    requires Distinct(certs) && i < |certs| && j < |certs| && i != j
    ensures certs[i].publicKey.RsaKey? == certs[j].publicKey.RsaKey? ==>
              CertToIssuerAndSerial(certs[i]) != CertToIssuerAndSerial(certs[j])
  {
    if i < j {
    } else {
      assert CertToIssuerAndSerial(certs[j]) != CertToIssuerAndSerial(certs[i])
          || certs[i].publicKey.RsaKey? != certs[j].publicKey.RsaKey?;
    }
  }

  lemma HeadYieldsOrPasses(p: KeyTransport, key: seq<byte>, certs: seq<Certificate>, random: seq<seq<byte>>,
                           raw: RecipientInfo, rest: seq<RecipientInfo>, i: nat, pkey: PrivateKey)
    requires p.Laws() && i < |certs| <= |random| && Distinct(certs) && Owns(p, certs[i], pkey)
    requires ForSomeone(p, key, certs, random, raw)
    ensures || FoundKey(p, [raw] + rest, Some(certs[i]), pkey) == Ok(key)
            || (&& FoundKey(p, [raw] + rest, Some(certs[i]), pkey) == FoundKey(p, rest, Some(certs[i]), pkey)
                && !InfoFor(p, key, certs[i], random[i], raw))
  {
    var j :| 0 <= j < |certs| && InfoFor(p, key, certs[j], random[j], raw);
    if InfoFor(p, key, certs[i], random[i], raw) {
      OwnInfoYields(p, key, certs[i], random[i], raw, rest, pkey);
    } else {
      DifferentIds(certs, i, j);
      OtherInfoPassed(p, key, certs[j], random[j], raw, rest, certs[i], pkey);
    }
  }

  /** Whatever the order of the entries, every recipient finds the content key. */
  lemma EveryRecipientFindsKey(p: KeyTransport, key: seq<byte>, certs: seq<Certificate>, random: seq<seq<byte>>,
                               infos: seq<RecipientInfo>, shuffled: seq<RecipientInfo>, i: nat, pkey: PrivateKey)
    requires p.Laws() && InfosFor(p, key, certs, random, infos) && Distinct(certs)
    requires multiset(shuffled) == multiset(infos)
    requires i < |certs| && Owns(p, certs[i], pkey)
    ensures FoundKey(p, shuffled, Some(certs[i]), pkey) == Ok(key)
  {
    forall k | 0 <= k < |shuffled|
      ensures ForSomeone(p, key, certs, random, shuffled[k])
    {
      assert shuffled[k] in multiset(infos);
      var j :| 0 <= j < |infos| && infos[j] == shuffled[k];
      assert InfoFor(p, key, certs[j], random[j], infos[j]);
    }
    assert infos[i] in multiset(shuffled);
    var k :| 0 <= k < |shuffled| && shuffled[k] == infos[i];
    AllAreForSomeone(p, key, certs, random, shuffled);
    KeyFound(p, key, certs, random, shuffled, i, k, pkey);
  }

  /** The entry names the certificate, for key transport or for a KEM recipient. */
  predicate Names(raw: RecipientInfo, cert: Certificate, pkey: PrivateKey) {
    match raw
    case KeyTrans(Whole(info)) => pkey.RsaPrivate? && IsMatch(cert, info.id)
    case Other(true, Whole(OtherInfo(OtherRecipientInfoKem, Whole(info)))) =>
      pkey.Decapsulation? && RecipientIdMatches(info.recipientId, Some(cert)) == Ok(true)
    case _ => false
  }

  /** A certificate that no entry names finds nothing. */
  lemma {:induction false} StrangerFindsNothing(p: KeyTransport, infos: seq<RecipientInfo>, cert: Certificate, pkey: PrivateKey)
    requires p.Laws() && forall k | 0 <= k < |infos| :: !Names(infos[k], cert, pkey)
    ensures FoundKey(p, infos, Some(cert), pkey).Err?
    decreases |infos|
  {
    if infos == [] {
    } else {
      assert !Names(infos[0], cert, pkey);
      StrangerFindsNothing(p, infos[1..], cert, pkey);
    }
  }
}
