/** Enveloped messages: Encrypt of encrypt.go and Decrypt of decrypt.go. */
module Envelope {
  import opened Bytes
  import opened Sequences
  import opened Lengths
  import opened Ber2Der
  import opened Asn1
  import opened Chunks
  import opened Padding
  import opened Certificates
  import opened KeyWrap
  import opened RecipientCoding
  import opened RecipientObjects
  import opened Recipients
  import opened EnvelopeCoding
  import opened EnvelopeIssuers

  datatype Cipher = Des | TripleDes | AesCipher

  /** Modes of the block ciphers. */
  datatype Modes = Modes(
    cbcEncrypt: (Cipher, seq<byte>, seq<byte>, seq<byte>) -> seq<byte>,
    cbcDecrypt: (Cipher, seq<byte>, seq<byte>, seq<byte>) -> seq<byte>,
    gcmSeal: (seq<byte>, seq<byte>, seq<byte>) -> seq<byte>,
    gcmOpen: (seq<byte>, seq<byte>, seq<byte>) -> Option<seq<byte>>)
  {
    /** What was encrypted is decrypted with the same key and the same initialisation vector or
        nonce; CBC keeps lengths, and GCM adds a tag and does not open what is shorter than it. */
    ghost predicate Laws() {
      && (forall c, key, iv, x | CipherKey(c, key) && |iv| == BlockSize(c) && |x| % BlockSize(c) == 0 ::
            && |cbcEncrypt(c, key, iv, x)| == |x|
            && cbcDecrypt(c, key, iv, cbcEncrypt(c, key, iv, x)) == x)
      && (forall key, nonce, x | AesKey(key) && |nonce| == NONCE_SIZE ::
            && |gcmSeal(key, nonce, x)| == |x| + TAG_SIZE
            && gcmOpen(key, nonce, gcmSeal(key, nonce, x)) == Some(x))
      && (forall key, nonce, x | |x| < TAG_SIZE :: gcmOpen(key, nonce, x).None?)
    }
  }

  const NONCE_SIZE := 12

  const TAG_SIZE := 16

  function BlockSize(c: Cipher): nat {
    if c.AesCipher? then 16 else 8
  }

  /** Key lengths that the cipher takes. */
  predicate CipherKey(c: Cipher, key: seq<byte>) {
    match c
    case Des => |key| == 8
    case TripleDes => |key| == 24
    case AesCipher => AesKey(key)
  }

  function CipherOf(a: ContentAlgorithm): Cipher {
    match a
    case DesCbc => Des
    case DesEde3Cbc => TripleDes
    case _ => AesCipher
  }

  predicate IsAesCbc(a: ContentAlgorithm) {
    a == Aes128Cbc || a == Aes256Cbc
  }

  // ---------- encrypting content ----------

  /** The values of the setting ContentEncryptionAlgorithm. */
  const DES_CBC := 0
  const AES128_CBC := 1
  const AES256_CBC := 2
  const AES128_GCM := 3
  const AES256_GCM := 4

  /** The octets that one call of Encrypt reads from the system: for a key, for an initialisation
      vector or nonce, and for each recipient. */
  datatype Random = Random(key: seq<byte>, iv: seq<byte>, recipients: seq<seq<byte>>)
  {
    predicate Enough() {
      |key| >= 32 && |iv| >= 16
    }
  }

  function AlgorithmOf(setting: int): Option<ContentAlgorithm> {
    if setting == DES_CBC then Some(DesCbc)
    else if setting == AES128_CBC then Some(Aes128Cbc)
    else if setting == AES256_CBC then Some(Aes256Cbc)
    else if setting == AES128_GCM then Some(Aes128Gcm)
    else if setting == AES256_GCM then Some(Aes256Gcm)
    else None
  }

  /** `info` holds `content` under `key`, marshalled with the ciphertext as one OCTET STRING. */
  ghost predicate Encrypts(m: Modes, info: EncryptedContentInfo, key: seq<byte>, content: seq<byte>) {
    && !info.algorithm.OtherAlgorithm?
    && CipherKey(CipherOf(info.algorithm), key)
    && (if IsGcm(info.algorithm)
        then |info.parameters| == 19 && info.parameters == GcmOctets(info.parameters[4..16], TAG_SIZE)
        else |info.parameters| == BlockSize(CipherOf(info.algorithm)))
    && info.compound
    && info.octets == OctetString(Ciphertext(m, info.algorithm, info.parameters, key, content))
  }

  /** The initialisation vector, or the nonce inside GCM parameters. */
  function IvOf(a: ContentAlgorithm, parameters: seq<byte>): seq<byte> {
    if IsGcm(a) && |parameters| == 19 then parameters[4..16] else parameters
  }

  /** The ciphertext under these parameters. */
  function Ciphertext(m: Modes, a: ContentAlgorithm, parameters: seq<byte>, key: seq<byte>, content: seq<byte>): seq<byte> {
    if IsGcm(a) then
      m.gcmSeal(key, IvOf(a, parameters), content)
    else
      m.cbcEncrypt(CipherOf(a), key, IvOf(a, parameters), Pad(content, BlockSize(CipherOf(a))).value)
  }

  /** How long the ciphertext of a content is. */
  function CiphertextLength(a: ContentAlgorithm, n: nat): nat {
    if IsGcm(a) then n + TAG_SIZE else n + PadLength(n, BlockSize(CipherOf(a)))
  }

  lemma CiphertextHasLength(m: Modes, info: EncryptedContentInfo, key: seq<byte>, content: seq<byte>)
    requires m.Laws() && Encrypts(m, info, key, content)
    ensures |Ciphertext(m, info.algorithm, info.parameters, key, content)| == CiphertextLength(info.algorithm, |content|)
    ensures |info.parameters| == if IsGcm(info.algorithm) then 19 else BlockSize(CipherOf(info.algorithm))
  {
    if IsGcm(info.algorithm) {
      GcmParametersRead(info.parameters[4..16], TAG_SIZE);
    } else {
      CbcHasLength(m, CipherOf(info.algorithm), key, info.parameters, content);
    }
  }

  lemma CbcHasLength(m: Modes, c: Cipher, key: seq<byte>, iv: seq<byte>, content: seq<byte>)
    requires m.Laws() && CipherKey(c, key) && |iv| == BlockSize(c)
    ensures var padded := Pad(content, BlockSize(c)).value;
            && |padded| == |content| + PadLength(|content|, BlockSize(c)) && |padded| % BlockSize(c) == 0
            && |m.cbcEncrypt(c, key, iv, padded)| == |padded|
            && m.cbcDecrypt(c, key, iv, m.cbcEncrypt(c, key, iv, padded)) == padded
  {
  }

  method EncryptDesCbc(m: Modes, content: seq<byte>, random: Random) returns (key: seq<byte>, info: EncryptedContentInfo)
    requires random.Enough()
    ensures key == random.key[..8] && info.algorithm == DesCbc && info.parameters == random.iv[..8]
    ensures Encrypts(m, info, key, content)
  {
    key := random.key[..8];
    var iv := random.iv[..8];
    var plaintext := PadData(content, 8);
    var ciphertext := m.cbcEncrypt(Des, key, iv, plaintext.value);
    info := EncryptedContentInfo(DesCbc, iv, true, OctetString(ciphertext));
  }

  method EncryptAesCbc(m: Modes, setting: int, content: seq<byte>,
                       random: Random) returns (r: Result<(seq<byte>, EncryptedContentInfo)>)
    requires random.Enough()
    ensures r.Ok? <==> setting == AES128_CBC || setting == AES256_CBC
    ensures r.Ok? ==>
              var (key, info) := r.value;
              && key == random.key[..if setting == AES128_CBC then 16 else 32]
              && Some(info.algorithm) == AlgorithmOf(setting)
              && info.parameters == random.iv[..16]
              && Encrypts(m, info, key, content)
  {
    var keyLength: int;
    var algorithm: ContentAlgorithm;
    if setting == AES128_CBC {
      keyLength, algorithm := 16, Aes128Cbc;
    } else if setting == AES256_CBC {
      keyLength, algorithm := 32, Aes256Cbc;
    } else {
      return Err;
    }
    var key := random.key[..keyLength];
    var iv := random.iv[..16];
    var plaintext := PadData(content, 16);
    var ciphertext := m.cbcEncrypt(AesCipher, key, iv, plaintext.value);
    return Ok((key, EncryptedContentInfo(algorithm, iv, true, OctetString(ciphertext))));
  }

  lemma GcmEncrypts(m: Modes, a: ContentAlgorithm, key: seq<byte>, nonce: seq<byte>, content: seq<byte>)
    requires IsGcm(a) && AesKey(key) && |nonce| == NONCE_SIZE
    ensures var octets := OctetString(m.gcmSeal(key, nonce, content));
            Encrypts(m, EncryptedContentInfo(a, GcmOctets(nonce, TAG_SIZE), true, octets), key, content)
  {
    GcmParametersRead(nonce, TAG_SIZE);
  }

  method EncryptAesGcm(m: Modes, setting: int, content: seq<byte>,
                       random: Random) returns (r: Result<(seq<byte>, EncryptedContentInfo)>)
    requires random.Enough()
    ensures r.Ok? <==> setting == AES128_GCM || setting == AES256_GCM
    ensures r.Ok? ==>
              var (key, info) := r.value;
              && key == random.key[..if setting == AES128_GCM then 16 else 32]
              && Some(info.algorithm) == AlgorithmOf(setting)
              && info.parameters == GcmOctets(random.iv[..NONCE_SIZE], TAG_SIZE)
              && Encrypts(m, info, key, content)
  {
    var keyLength: int;
    var algorithm: ContentAlgorithm;
    if setting == AES128_GCM {
      keyLength, algorithm := 16, Aes128Gcm;
    } else if setting == AES256_GCM {
      keyLength, algorithm := 32, Aes256Gcm;
    } else {
      return Err;
    }
    var key := random.key[..keyLength];
    var nonce := random.iv[..NONCE_SIZE];
    var ciphertext := m.gcmSeal(key, nonce, content);
    var parameters := GcmOctets(nonce, TAG_SIZE);
    GcmEncrypts(m, algorithm, key, nonce, content);
    return Ok((key, EncryptedContentInfo(algorithm, parameters, true, OctetString(ciphertext))));
  }

  // ---------- the envelope ----------

  predicate AllAccepted(t: KeyTransport, a: ContentAlgorithm, key: seq<byte>, certs: seq<Certificate>, random: seq<seq<byte>>) {
    && |certs| <= |random|
    && forall i | 0 <= i < |certs| :: RecipientAccepted(t, IsAesCbc(a), key, certs[i], random[i])
  }

  function VersionFor(certs: seq<Certificate>): int {
    if exists i | 0 <= i < |certs| :: !certs[i].publicKey.RsaKey? then 3 else 0
  }

  /** `e` holds `content` for the recipients; its version is 3 exactly when one of them is a KEM
      recipient, and its content is then encrypted with AES-CBC. */
  ghost predicate EnvelopeFor(m: Modes, t: KeyTransport, e: EnvelopedData, key: seq<byte>, content: seq<byte>,
                              certs: seq<Certificate>, random: seq<seq<byte>>)
    requires t.Laws()
  {
    && Encrypts(m, e.content, key, content)
    && InfosFor(t, key, certs, random, e.recipientInfos)
    && e.version == VersionFor(certs)
    && (e.version == 3 ==> IsAesCbc(e.content.algorithm))
  }

  /** The key that Encrypt draws. */
  function DrawnKey(setting: int, random: Random): seq<byte>
    requires random.Enough()
  {
    random.key[..if setting == DES_CBC then 8 else if setting == AES128_CBC || setting == AES128_GCM then 16 else 32]
  }

  /** The algorithm parameters that Encrypt draws: an initialisation vector of one block, or a nonce in GCM parameters. */
  function ParametersDrawn(setting: int, random: Random): seq<byte>
    requires random.Enough()
  {
    if setting == AES128_GCM || setting == AES256_GCM then GcmOctets(random.iv[..NONCE_SIZE], TAG_SIZE)
    else random.iv[..if setting == DES_CBC then 8 else 16]
  }

  /** Returns the marshalled message; `e` is the envelope in it. */
  method Encrypt(m: Modes, t: KeyTransport, setting: int, content: seq<byte>, recipients: seq<Certificate>,
                 random: Random)
    returns (r: Result<seq<byte>>, ghost e: EnvelopedData)
    requires t.Laws() && random.Enough() && |random.recipients| >= |recipients|
    ensures r.Ok? <==> AlgorithmOf(setting).Some?
                       && AllAccepted(t, AlgorithmOf(setting).value, DrawnKey(setting, random), recipients, random.recipients)
    ensures r.Ok? ==> Some(e.content.algorithm) == AlgorithmOf(setting)
                      && EnvelopeFor(m, t, e, DrawnKey(setting, random), content, recipients, random.recipients)
                      && e.content.parameters == ParametersDrawn(setting, random)
                      && r.value == MarshalledMessage(e)
  {
    var key: seq<byte>, info: EncryptedContentInfo;
    e := EnvelopedData(0, [], EncryptedContentInfo(DesCbc, [], false, []));
    if setting == DES_CBC {
      key, info := EncryptDesCbc(m, content, random);
    } else if setting == AES128_CBC || setting == AES256_CBC {
      var made := EncryptAesCbc(m, setting, content, random);
      key, info := made.value.0, made.value.1;
    } else if setting == AES128_GCM || setting == AES256_GCM {
      var made := EncryptAesGcm(m, setting, content, random);
      key, info := made.value.0, made.value.1;
    } else {
      return Err, e;
    }
    var infos, version := MakeInfos(t, info.algorithm, key, recipients, random.recipients);
    if infos.Err? {
      return Err, e;
    }
    var envelope := EnvelopedData(version, infos.value, info);
    return Ok(MarshalledMessage(envelope)), envelope;
  }

  lemma OneMoreAccepted(t: KeyTransport, a: ContentAlgorithm, key: seq<byte>, certs: seq<Certificate>,
                        random: seq<seq<byte>>, i: nat)
    requires i < |certs| <= |random| && AllAccepted(t, a, key, certs[..i], random)
    ensures AllAccepted(t, a, key, certs[..i + 1], random) <==> RecipientAccepted(t, IsAesCbc(a), key, certs[i], random[i])
    ensures AllAccepted(t, a, key, certs, random) ==> RecipientAccepted(t, IsAesCbc(a), key, certs[i], random[i])
  {
  }

  lemma OneMoreVersion(certs: seq<Certificate>, i: nat)
    requires i < |certs|
    ensures VersionFor(certs[..i + 1]) == if certs[i].publicKey.RsaKey? then VersionFor(certs[..i]) else 3
  {
    var front := certs[..i];
    assert certs[..i + 1] == front + [certs[i]];
    assert forall j | 0 <= j < i :: (front + [certs[i]])[j] == front[j];
  }

  lemma OneMoreInfo(t: KeyTransport, key: seq<byte>, certs: seq<Certificate>, random: seq<seq<byte>>, i: nat,
                    infos: seq<RecipientInfo>, info: RecipientInfo)
    requires t.Laws() && i < |certs| <= |random| && InfosFor(t, key, certs[..i], random, infos)
    requires InfoFor(t, key, certs[i], random[i], info)
    ensures InfosFor(t, key, certs[..i + 1], random, infos + [info])
  {
    assert certs[..i + 1] == certs[..i] + [certs[i]];
  }

  method MakeInfos(t: KeyTransport, a: ContentAlgorithm, key: seq<byte>, recipients: seq<Certificate>, random: seq<seq<byte>>)
    returns (r: Result<seq<RecipientInfo>>, version: int)
    requires t.Laws() && |random| >= |recipients|
    ensures r.Ok? <==> AllAccepted(t, a, key, recipients, random)
    ensures r.Ok? ==> InfosFor(t, key, recipients, random, r.value)
    ensures r.Ok? ==> version == VersionFor(recipients)
  {
    var infos := new RecipientInfo[|recipients|];
    version := 0;
    for i := 0 to |recipients|
      invariant AllAccepted(t, a, key, recipients[..i], random)
      invariant InfosFor(t, key, recipients[..i], random, infos[..i])
      invariant version == VersionFor(recipients[..i])
    {
      var info, usesOther := MakeRecipientInfo(t, IsAesCbc(a), key, recipients[i], random[i]);
      OneMoreAccepted(t, a, key, recipients, random, i);
      OneMoreVersion(recipients, i);
      if info.Err? {
        return Err, version;
      }
      if usesOther {
        version := 3;
      }
      OneMoreInfo(t, key, recipients, random, i, infos[..i], info.value);
      infos[i] := info.value;
      assert infos[..i + 1] == infos[..i] + [info.value];
    }
    assert recipients[..|recipients|] == recipients;
    return Ok(infos[..]), version;
  }

  // ---------- decrypting ----------

  /** What a content key makes of a ciphertext. */
  function OpenedText(m: Modes, a: ContentAlgorithm, parameters: seq<byte>, ciphertext: seq<byte>, key: seq<byte>): Result<seq<byte>> {
    var cipher := CipherOf(a);
    if a.OtherAlgorithm? || !CipherKey(cipher, key) then Err
    else if IsGcm(a) then
      match GcmParameters(parameters)
      case None => Err
      case Some((nonce, icvLength)) =>
        if |nonce| != NONCE_SIZE || icvLength != TAG_SIZE then Err
        else (match m.gcmOpen(key, nonce, ciphertext) case None => Err case Some(x) => Ok(x))
    else if |parameters| != BlockSize(cipher) || ciphertext == [] || |ciphertext| % BlockSize(cipher) != 0 then Err
    else Unpadded(m.cbcDecrypt(cipher, key, parameters, ciphertext), BlockSize(cipher))
  }

  /** The content that a content key opens. */
  function OpenedContent(m: Modes, info: EncryptedContentInfo, key: seq<byte>): Result<seq<byte>> {
    OpenedText(m, info.algorithm, info.parameters, if info.compound then Joined(info.octets) else info.octets, key)
  }

  method DecryptContent(m: Modes, info: EncryptedContentInfo, key: seq<byte>) returns (r: Result<seq<byte>>)
    ensures r == OpenedContent(m, info, key)
  {
    if info.algorithm.OtherAlgorithm? {
      return Err;
    }
    var ciphertext := info.octets;
    if info.compound {
      ciphertext := JoinChunks(info.octets);
    }
    var cipher := CipherOf(info.algorithm);
    if !CipherKey(cipher, key) {
      return Err;
    }
    if IsGcm(info.algorithm) {
      var parameters := GcmParameters(info.parameters);
      if parameters.None? {
        return Err;
      }
      var (nonce, icvLength) := parameters.value;
      if |nonce| != NONCE_SIZE {
        return Err;
      }
      if icvLength != TAG_SIZE {
        return Err;
      }
      var plaintext := m.gcmOpen(key, nonce, ciphertext);
      return if plaintext.Some? then Ok(plaintext.value) else Err;
    }
    var iv := info.parameters;
    if |iv| != BlockSize(cipher) {
      return Err;
    }
    if |ciphertext| == 0 || |ciphertext| % BlockSize(cipher) != 0 {
      return Err;
    }
    var plaintext := m.cbcDecrypt(cipher, key, iv, ciphertext);
    r := Unpad(plaintext, BlockSize(cipher));
  }

  /** What Decrypt returns. */
  function Decrypted(m: Modes, t: KeyTransport, e: EnvelopedData, cert: Option<Certificate>, pkey: PrivateKey): Result<seq<byte>>
    requires t.Laws()
  {
    if pkey.Decapsulation? && (e.version != 3 || !IsAesCbc(e.content.algorithm)) then Err else
      match FoundKey(t, e.recipientInfos, cert, pkey)
      case Err => Err
      case Ok(key) => OpenedContent(m, e.content, key)
  }

  method Decrypt(m: Modes, t: KeyTransport, e: EnvelopedData, cert: Option<Certificate>,
                 pkey: PrivateKey) returns (r: Result<seq<byte>>)
    requires t.Laws()
    ensures r == Decrypted(m, t, e, cert, pkey)
  {
    match pkey {
      case RsaPrivate(secret) =>
        var recipient := SelectRecipientForCertificate(e.recipientInfos, cert);
        if recipient.Err? {
          return Err;
        }
        var key := t.rsaDecrypt(secret, recipient.value.encryptedKey);
        if key.None? {
          return Err;
        }
        r := DecryptContent(m, e.content, key.value);
      case Decapsulation(_, _) =>
        if e.version != 3 {
          return Err;
        }
        if !IsAesCbc(e.content.algorithm) {
          return Err;
        }
        var key := DecryptKemRecipientKey(t, e.recipientInfos, cert, pkey);
        if key.Err? {
          return Err;
        }
        r := DecryptContent(m, e.content, key.value);
      case OtherPrivate =>
        return Err;
    }
  }

  // ---------- laws ----------

  /** One OCTET STRING is joined to its contents, unless it is too long to be unmarshalled. */
  lemma JoinedOnce(x: seq<byte>)
    requires |x| < 0x8000_0000_0000_0000
    ensures Joined(OctetString(x)) == if |x| < 0x8000_0000 then x else []
  {
    if |x| < 0x8000_0000 {
      UnmarshalMarshal(4, x, []);
      assert OctetString(x) + [] == OctetString(x);
      assert Joined([]) == [];
    } else {
      EncodedField(|x|);
      var field, bs := EncodedLength(|x|), OctetString(x);
      assert bs[1..1 + |field|] == field;
    }
  }

  /** An encrypted content info is decrypted to what was encrypted exactly when its ciphertext is
      below 2^31 octets, the limit of the ASN.1 reader for the OCTET STRING in it. */
  lemma ContentRecovered(m: Modes, info: EncryptedContentInfo, key: seq<byte>, content: seq<byte>)
    requires m.Laws() && Encrypts(m, info, key, content)
    requires CiphertextLength(info.algorithm, |content|) < 0x8000_0000_0000_0000
    ensures OpenedContent(m, info, key) == Ok(content) <==> CiphertextLength(info.algorithm, |content|) < 0x8000_0000
  {
    var x := Ciphertext(m, info.algorithm, info.parameters, key, content);
    CiphertextHasLength(m, info, key, content);
    JoinedOnce(x);
    if IsGcm(info.algorithm) {
      GcmParametersRead(info.parameters[4..16], TAG_SIZE);
    } else {
      var c := CipherOf(info.algorithm);
      CbcHasLength(m, c, key, info.parameters, content);
      UnpadPad(content, BlockSize(c));
    }
  }

  /** How a ciphertext is cut into OCTET STRINGs makes no difference to what is decrypted. */
  lemma CuttingIrrelevant(m: Modes, info: EncryptedContentInfo, chunks: seq<seq<byte>>, key: seq<byte>)
    requires forall i | 0 <= i < |chunks| :: |chunks[i]| < 0x8000_0000
    ensures OpenedContent(m, info.(compound := true, octets := OctetStrings(chunks)), key)
         == OpenedContent(m, info.(compound := false, octets := Concat(chunks)), key)
  {
    ChunksJoined(chunks, []);
    assert OctetStrings(chunks) + [] == OctetStrings(chunks);
  }

  /** Every listed recipient recovers the content from the envelope with its key, in whatever order
      the entries stand, exactly when the ciphertext is below 2^31 octets. */
  lemma AnyOrderRecovers(m: Modes, t: KeyTransport, e: EnvelopedData, key: seq<byte>, content: seq<byte>,
                         certs: seq<Certificate>, random: seq<seq<byte>>, shuffled: seq<RecipientInfo>,
                         i: nat, pkey: PrivateKey)
    requires m.Laws() && t.Laws() && EnvelopeFor(m, t, e, key, content, certs, random) && Distinct(certs)
    requires multiset(shuffled) == multiset(e.recipientInfos)
    requires i < |certs| && Owns(t, certs[i], pkey)
    requires CiphertextLength(e.content.algorithm, |content|) < 0x8000_0000_0000_0000
    ensures Decrypted(m, t, e.(recipientInfos := shuffled), Some(certs[i]), pkey) == Ok(content)
            <==> CiphertextLength(e.content.algorithm, |content|) < 0x8000_0000
  {
    EveryRecipientFindsKey(t, key, certs, random, e.recipientInfos, shuffled, i, pkey);
    ContentRecovered(m, e.content, key, content);
    assert pkey.Decapsulation? ==> e.version == 3;
  }

  // ---------- from Encrypt to Parse to Decrypt ----------

  /** What Parse and Decrypt make of a message. */
  ghost function Recovered(m: Modes, t: KeyTransport, data: seq<byte>, cert: Certificate, pkey: PrivateKey)
    : Result<seq<byte>>
    requires t.Laws()
  {
    match ParsedMessage(data)
    case Err => Err
    case Ok(e) => Decrypted(m, t, e, Some(cert), pkey)
  }

  /** Octets of the entries of all recipients, for a content key of so many octets. */
  function EntriesSize(t: KeyTransport, certs: seq<Certificate>, key: nat): nat {
    if certs == [] then 0 else ElementSize(EntrySize(t, certs[0], key)) + EntriesSize(t, certs[1..], key)
  }

  /** Contents octets of the message for a content of n octets, counted from the certificates. */
  function WireSize(t: KeyTransport, a: ContentAlgorithm, key: nat, n: nat, certs: seq<Certificate>): nat {
    MessageSize(|OidOf(a)|, if IsGcm(a) then 19 else BlockSize(CipherOf(a)), CiphertextLength(a, n), EntriesSize(t, certs, key))
  }

  /** The issuer of the certificate is one element, nested no deeper than the parser allows where it stands in the
      entry of such a recipient. */
  ghost predicate GoodIssuer(cert: Certificate) {
    NameUpTo(cert.rawIssuer, NameLimit(cert.publicKey.RsaKey?))
  }

  ghost predicate GoodIssuers(certs: seq<Certificate>) {
    forall i | 0 <= i < |certs| :: GoodIssuer(certs[i])
  }

  lemma EnvelopeIsProper(m: Modes, t: KeyTransport, e: EnvelopedData, key: seq<byte>, content: seq<byte>,
                         certs: seq<Certificate>, random: seq<seq<byte>>)
    requires t.Laws() && EnvelopeFor(m, t, e, key, content, certs, random)
    ensures |e.recipientInfos| == |certs| && AllProper(e.recipientInfos) && 0 <= e.version < 128
    ensures forall i | 0 <= i < |certs| ::
              && IdOf(e.recipientInfos[i]) == CertToIssuerAndSerial(certs[i])
              && e.recipientInfos[i].KeyTrans? == certs[i].publicKey.RsaKey?
  {
    forall i | 0 <= i < |certs|
      ensures Proper(e.recipientInfos[i]) && IdOf(e.recipientInfos[i]) == CertToIssuerAndSerial(certs[i])
      ensures e.recipientInfos[i].KeyTrans? == certs[i].publicKey.RsaKey?
    {
      InfoIsProper(t, key, certs[i], random[i], e.recipientInfos[i]);
    }
  }

  lemma {:induction false} EntriesHaveSize(t: KeyTransport, key: seq<byte>, certs: seq<Certificate>, random: seq<seq<byte>>,
                                           infos: seq<RecipientInfo>)
    requires t.Laws() && InfosFor(t, key, certs, random, infos)
    ensures InfosSize(infos) == EntriesSize(t, certs, |key|)
  {
    if infos == [] {
    } else {
      InfosForRest(t, key, certs, random, infos);
      FirstHasSize(t, key, certs[0], random[0], infos);
      EntriesHaveSize(t, key, certs[1..], random[1..], infos[1..]);
    }
  }

  lemma InfosForRest(t: KeyTransport, key: seq<byte>, certs: seq<Certificate>, random: seq<seq<byte>>, infos: seq<RecipientInfo>)
    requires t.Laws() && InfosFor(t, key, certs, random, infos) && infos != []
    ensures InfoFor(t, key, certs[0], random[0], infos[0])
    ensures InfosFor(t, key, certs[1..], random[1..], infos[1..])
  {
  }

  lemma FirstHasSize(t: KeyTransport, key: seq<byte>, cert: Certificate, random: seq<byte>, infos: seq<RecipientInfo>)
    requires t.Laws() && infos != [] && InfoFor(t, key, cert, random, infos[0])
    ensures InfosSize(infos) == ElementSize(EntrySize(t, cert, |key|)) + InfosSize(infos[1..])
  {
    InfoIsProper(t, key, cert, random, infos[0]);
    ElementHasSize(EntryTag(infos[0]), EntryFields(infos[0]));
    FirstOfMap(EntryOctets, infos);
  }

  /** The contents of what Encrypt returned, counted from the content and the certificates. */
  lemma WireSizeIs(m: Modes, t: KeyTransport, e: EnvelopedData, key: seq<byte>, content: seq<byte>,
                   certs: seq<Certificate>, random: seq<seq<byte>>)
    requires m.Laws() && t.Laws() && EnvelopeFor(m, t, e, key, content, certs, random)
    ensures 0 <= e.version < 128 && |MessageOctets(e)| == WireSize(t, e.content.algorithm, |key|, |content|, certs)
  {
    EnvelopeIsProper(m, t, e, key, content, certs, random);
    CiphertextHasLength(m, e.content, key, content);
    MessageHasSize(e, Ciphertext(m, e.content.algorithm, e.content.parameters, key, content));
    EntriesHaveSize(t, key, certs, random, e.recipientInfos);
  }

  lemma IssuersAlike(infos: seq<RecipientInfo>, certs: seq<Certificate>)
    requires AllProper(infos) && |infos| == |certs|
    requires forall i | 0 <= i < |certs| ::
               && IdOf(infos[i]) == CertToIssuerAndSerial(certs[i])
               && infos[i].KeyTrans? == certs[i].publicKey.RsaKey?
    ensures IssuersFit(infos) <==> GoodIssuers(certs)
    ensures AllElements(infos) <==> forall i | 0 <= i < |certs| :: IsElement(certs[i].rawIssuer)
  {
    Alike(infos, certs, IssuerFits, GoodIssuer);
  }

  /** What Encrypt returned for certificates whose issuers are elements is read back by Parse exactly when its
      contents are below 2^31 octets and the issuers are not nested too deep; else it is rejected. */
  lemma EncryptedIsParsed(m: Modes, t: KeyTransport, e: EnvelopedData, key: seq<byte>, content: seq<byte>,
                          certs: seq<Certificate>, random: seq<seq<byte>>)
    requires m.Laws() && t.Laws() && EnvelopeFor(m, t, e, key, content, certs, random)
    requires forall i | 0 <= i < |certs| :: IsElement(certs[i].rawIssuer)
    requires |MarshalledMessage(e)| < 0x8000_0000_0000_0000
    ensures ParsedMessage(MarshalledMessage(e))
         == if WireSize(t, e.content.algorithm, |key|, |content|, certs) < 0x8000_0000 && GoodIssuers(certs)
            then Ok(e.(recipientInfos := InOrder(e.recipientInfos)))
            else Err
  {
    EnvelopeIsProper(m, t, e, key, content, certs, random);
    IssuersAlike(e.recipientInfos, certs);
    WireSizeIs(m, t, e, key, content, certs, random);
    MarshalledIsParsed(e, Ciphertext(m, e.content.algorithm, e.content.parameters, key, content));
  }

  lemma GoodAreElements(certs: seq<Certificate>)
    requires GoodIssuers(certs)
    ensures forall i | 0 <= i < |certs| :: IsElement(certs[i].rawIssuer)
  {
    forall i | 0 <= i < |certs|
      ensures IsElement(certs[i].rawIssuer)
    {
      assert GoodIssuer(certs[i]);
    }
  }

  lemma ShortCiphertext(t: KeyTransport, a: ContentAlgorithm, key: nat, n: nat, certs: seq<Certificate>)
    ensures CiphertextLength(a, n) < WireSize(t, a, key, n, certs)
  {
    CiphertextInside(|OidOf(a)|, if IsGcm(a) then 19 else BlockSize(CipherOf(a)), CiphertextLength(a, n),
                     EntriesSize(t, certs, key));
  }

  /** Where all issuers are good, every listed recipient recovers the content from what Encrypt returned exactly when
      the contents of the message are below 2^31 octets; else Parse rejects it for all of them. */
  lemma GoodIssuersRecover(m: Modes, t: KeyTransport, e: EnvelopedData, key: seq<byte>, content: seq<byte>,
                           certs: seq<Certificate>, random: seq<seq<byte>>, i: nat, pkey: PrivateKey)
    requires m.Laws() && t.Laws() && EnvelopeFor(m, t, e, key, content, certs, random)
    requires Distinct(certs) && GoodIssuers(certs)
    requires i < |certs| && Owns(t, certs[i], pkey)
    requires |MarshalledMessage(e)| < 0x8000_0000_0000_0000
    ensures Recovered(m, t, MarshalledMessage(e), certs[i], pkey)
         == if WireSize(t, e.content.algorithm, |key|, |content|, certs) < 0x8000_0000 then Ok(content) else Err
  {
    GoodAreElements(certs);
    EncryptedIsParsed(m, t, e, key, content, certs, random);
    if WireSize(t, e.content.algorithm, |key|, |content|, certs) < 0x8000_0000 {
      SetHolds(e.recipientInfos);
      ShortCiphertext(t, e.content.algorithm, |key|, |content|, certs);
      AnyOrderRecovers(m, t, e, key, content, certs, random, InOrder(e.recipientInfos), i, pkey);
    }
  }

  /** Nothing is recovered from a message that does not name the certificate. */
  lemma UnnamedRecoversNothing(m: Modes, t: KeyTransport, data: seq<byte>, cert: Certificate, pkey: PrivateKey)
    requires t.Laws()
    requires ParsedMessage(data).Ok? ==>
               var infos := ParsedMessage(data).value.recipientInfos;
               forall i | 0 <= i < |infos| :: !Names(infos[i], cert, pkey)
    ensures Recovered(m, t, data, cert, pkey).Err?
  {
    if ParsedMessage(data).Ok? {
      StrangerFindsNothing(t, ParsedMessage(data).value.recipientInfos, cert, pkey);
    }
  }

  /** A listed recipient whose issuer is not good never recovers anything, whoever else is listed. */
  lemma BadIssuerRecoversNothing(m: Modes, t: KeyTransport, e: EnvelopedData, key: seq<byte>, content: seq<byte>,
                                 certs: seq<Certificate>, random: seq<seq<byte>>, i: nat, pkey: PrivateKey)
    requires t.Laws() && EnvelopeFor(m, t, e, key, content, certs, random)
    requires i < |certs| && Owns(t, certs[i], pkey) && !GoodIssuer(certs[i])
    requires |MarshalledMessage(e)| < 0x8000_0000_0000_0000
    ensures Recovered(m, t, MarshalledMessage(e), certs[i], pkey).Err?
  {
    EnvelopeIsProper(m, t, e, key, content, certs, random);
    assert pkey.RsaPrivate? == certs[i].publicKey.RsaKey?;
    if ParsedMessage(MarshalledMessage(e)).Ok? {
      ListedUnnamed(e, certs[i], pkey);
    }
    UnnamedRecoversNothing(m, t, MarshalledMessage(e), certs[i], pkey);
  }

  /** Nor does anybody else with such an issuer, from any message at all, unless by a subject key identifier. */
  lemma StrangeIssuerRecoversNothing(m: Modes, t: KeyTransport, data: seq<byte>, cert: Certificate, pkey: PrivateKey)
    requires t.Laws() && Owns(t, cert, pkey) && !GoodIssuer(cert) && (pkey.Decapsulation? ==> cert.subjectKeyId == [])
    requires Transcode(data).Ok? ==> |Transcode(data).value| < 0x8000_0000_0000_0000
    ensures Recovered(m, t, data, cert, pkey).Err?
  {
    assert pkey.RsaPrivate? == cert.publicKey.RsaKey?;
    if ParsedMessage(data).Ok? {
      StrangeIssuerUnnamed(data, cert, pkey);
    }
    UnnamedRecoversNothing(m, t, data, cert, pkey);
  }

  /** Every owner of a listed certificate recovers the content. */
  ghost predicate AllRecover(m: Modes, t: KeyTransport, data: seq<byte>, content: seq<byte>, certs: seq<Certificate>,
                             pkeys: seq<PrivateKey>)
    requires t.Laws() && |certs| == |pkeys|
  {
    forall i | 0 <= i < |certs| :: Recovered(m, t, data, certs[i], pkeys[i]) == Ok(content)
  }

  lemma AllRecoverWith(m: Modes, t: KeyTransport, e: EnvelopedData, key: seq<byte>, content: seq<byte>,
                       certs: seq<Certificate>, random: seq<seq<byte>>, pkeys: seq<PrivateKey>)
    requires m.Laws() && t.Laws() && EnvelopeFor(m, t, e, key, content, certs, random)
    requires Distinct(certs) && GoodIssuers(certs)
    requires |certs| == |pkeys| && forall i | 0 <= i < |certs| :: Owns(t, certs[i], pkeys[i])
    requires |MarshalledMessage(e)| < 0x8000_0000_0000_0000
    requires WireSize(t, e.content.algorithm, |key|, |content|, certs) < 0x8000_0000
    ensures AllRecover(m, t, MarshalledMessage(e), content, certs, pkeys)
  {
    forall i | 0 <= i < |certs|
      ensures Recovered(m, t, MarshalledMessage(e), certs[i], pkeys[i]) == Ok(content)
    {
      GoodIssuersRecover(m, t, e, key, content, certs, random, i, pkeys[i]);
    }
  }

  lemma NotAllRecoverWithout(m: Modes, t: KeyTransport, e: EnvelopedData, key: seq<byte>, content: seq<byte>,
                             certs: seq<Certificate>, random: seq<seq<byte>>, pkeys: seq<PrivateKey>)
    requires t.Laws() && EnvelopeFor(m, t, e, key, content, certs, random) && !GoodIssuers(certs)
    requires |certs| == |pkeys| && forall i | 0 <= i < |certs| :: Owns(t, certs[i], pkeys[i])
    requires |MarshalledMessage(e)| < 0x8000_0000_0000_0000
    ensures !AllRecover(m, t, MarshalledMessage(e), content, certs, pkeys)
  {
    var i :| 0 <= i < |certs| && !GoodIssuer(certs[i]);
    BadIssuerRecoversNothing(m, t, e, key, content, certs, random, i, pkeys[i]);
  }

  /** For every content and every mixed list of recipients, what Encrypt returned is parsed and every listed
      recipient recovers the content from it, exactly when the contents of the message, counted from the content and
      the certificates, are below 2^31 octets and every certificate has a good issuer. */
  lemma EveryRecipientRecovers(m: Modes, t: KeyTransport, e: EnvelopedData, key: seq<byte>, content: seq<byte>,
                               certs: seq<Certificate>, random: seq<seq<byte>>, pkeys: seq<PrivateKey>)
    requires m.Laws() && t.Laws() && EnvelopeFor(m, t, e, key, content, certs, random) && Distinct(certs)
    requires |certs| == |pkeys| && forall i | 0 <= i < |certs| :: Owns(t, certs[i], pkeys[i])
    requires |MarshalledMessage(e)| < 0x8000_0000_0000_0000
    ensures ParsedMessage(MarshalledMessage(e)).Ok? && AllRecover(m, t, MarshalledMessage(e), content, certs, pkeys)
            <==> WireSize(t, e.content.algorithm, |key|, |content|, certs) < 0x8000_0000 && GoodIssuers(certs)
  {
    if GoodIssuers(certs) {
      GoodAreElements(certs);
      EncryptedIsParsed(m, t, e, key, content, certs, random);
      if WireSize(t, e.content.algorithm, |key|, |content|, certs) < 0x8000_0000 {
        AllRecoverWith(m, t, e, key, content, certs, random, pkeys);
      }
    } else {
      NotAllRecoverWithout(m, t, e, key, content, certs, random, pkeys);
    }
  }

  lemma AllReadFit(infos: seq<RecipientInfo>, certs: seq<Certificate>)
    requires AllProper(infos) && |infos| == |certs|
    requires forall i | 0 <= i < |certs| ::
               && IdOf(infos[i]) == CertToIssuerAndSerial(certs[i])
               && infos[i].KeyTrans? == certs[i].publicKey.RsaKey?
               && (certs[i].rawIssuer == [] || GoodIssuer(certs[i]))
    ensures AllElements(AllAsRead(infos)) && IssuersFit(AllAsRead(infos))
  {
    forall i | 0 <= i < |infos|
      ensures Proper(AsRead(infos[i])) && IsElement(IdOf(AsRead(infos[i])).issuerName) && IssuerFits(AsRead(infos[i]))
    {
      SameEntry(infos[i]);
      NameReadFits(certs[i]);
    }
  }

  lemma NameReadFits(cert: Certificate)
    requires cert.rawIssuer == [] || GoodIssuer(cert)
    ensures IsElement(NameOctets(cert.rawIssuer)) && NameUpTo(NameOctets(cert.rawIssuer), NameLimit(cert.publicKey.RsaKey?))
  {
    ZeroElement(NameLimit(cert.publicKey.RsaKey?));
    NoEmptyElement(NameLimit(cert.publicKey.RsaKey?));
  }

  /** Parse still reads a message for certificates with empty issuers, and reads an element of tag 0 in their place. */
  lemma EmptyIssuersParsed(m: Modes, t: KeyTransport, e: EnvelopedData, key: seq<byte>, content: seq<byte>,
                           certs: seq<Certificate>, random: seq<seq<byte>>)
    requires m.Laws() && t.Laws() && EnvelopeFor(m, t, e, key, content, certs, random)
    requires forall i | 0 <= i < |certs| :: certs[i].rawIssuer == [] || GoodIssuer(certs[i])
    requires |MarshalledMessage(e)| < 0x8000_0000_0000_0000
    requires WireSize(t, e.content.algorithm, |key|, |content|, certs) < 0x8000_0000
    ensures ParsedMessage(MarshalledMessage(e)) == Ok(e.(recipientInfos := InOrder(AllAsRead(e.recipientInfos))))
  {
    EnvelopeIsProper(m, t, e, key, content, certs, random);
    AllReadFit(e.recipientInfos, certs);
    SameMessage(e);
    WireSizeIs(m, t, e, key, content, certs, random);
    var e' := e.(recipientInfos := AllAsRead(e.recipientInfos));
    MarshalledIsParsed(e', Ciphertext(m, e.content.algorithm, e.content.parameters, key, content));
  }

  /** But the owner of such a certificate recovers nothing, not even alone. */
  lemma EmptyIssuerRecoversNothing(m: Modes, t: KeyTransport, e: EnvelopedData, key: seq<byte>, content: seq<byte>,
                                   certs: seq<Certificate>, random: seq<seq<byte>>, i: nat, pkey: PrivateKey)
    requires t.Laws() && EnvelopeFor(m, t, e, key, content, certs, random)
    requires i < |certs| && Owns(t, certs[i], pkey) && certs[i].rawIssuer == []
    requires |MarshalledMessage(e)| < 0x8000_0000_0000_0000
    ensures Recovered(m, t, MarshalledMessage(e), certs[i], pkey).Err?
  {
    NoEmptyElement(NameLimit(certs[i].publicKey.RsaKey?));
    BadIssuerRecoversNothing(m, t, e, key, content, certs, random, i, pkey);
  }

  lemma CiphertextInside(oid: nat, parameters: nat, ciphertext: nat, infos: nat)
    ensures MessageSize(oid, parameters, ciphertext, infos) >= ciphertext + infos + 38
  {
    var content := ContentInfoSize(oid, parameters, ciphertext);
    assert ElementSize(ElementSize(ciphertext)) >= ciphertext + 4;
    assert content >= ciphertext + 15;
    assert ElementSize(infos) >= infos + 2 && ElementSize(content) >= content + 2;
    assert EnvelopeSize(oid, parameters, ciphertext, infos) >= ciphertext + infos + 22;
  }

  /** A content of 2^31 - 9 octets under DES-CBC: its ciphertext is below 2^31 octets, but the message around
      it is not, so nobody recovers it, whatever the issuers are. */
  lemma TooLongContent(m: Modes, t: KeyTransport, e: EnvelopedData, key: seq<byte>, content: seq<byte>,
                       certs: seq<Certificate>, random: seq<seq<byte>>)
    requires m.Laws() && t.Laws() && EnvelopeFor(m, t, e, key, content, certs, random)
    requires e.content.algorithm == DesCbc && content == seq(0x7FFF_FFF7, _ => 0)
    requires |MarshalledMessage(e)| < 0x8000_0000_0000_0000
    ensures CiphertextLength(DesCbc, |content|) == 0x7FFF_FFF8
    ensures ParsedMessage(MarshalledMessage(e)).Err?
  {
    WireSizeIs(m, t, e, key, content, certs, random);
    JustTooLong(t, |key|, |content|, certs);
    LongMessageRejected(e);
  }

  lemma JustTooLong(t: KeyTransport, key: nat, n: nat, certs: seq<Certificate>)
    requires n == 0x7FFF_FFF7
    ensures CiphertextLength(DesCbc, n) == 0x7FFF_FFF8 && WireSize(t, DesCbc, key, n, certs) >= 0x8000_0000
  {
    assert n % 8 == 7;
    CiphertextInside(|OidOf(DesCbc)|, 8, CiphertextLength(DesCbc, n), EntriesSize(t, certs, key));
  }
}
