/** Enveloped messages that other programs write, octet by octet, and what Parse and Decrypt make of them. */
module ForeignMessages {
  import opened Bytes
  import opened Sequences
  import opened Ber2Der
  import opened Asn1
  import opened Padding
  import opened Certificates
  import opened KeyWrap
  import opened RecipientCoding
  import opened Recipients
  import opened EnvelopeCoding
  import opened Envelope
  import opened DecryptLaws

  // ---------- the message ----------

  /** An element of a message: tag and contents. */
  datatype Part = Part(tag: byte, contents: seq<byte>)

  function PartOctets(p: Part): seq<byte> {
    Element(p.tag, p.contents)
  }

  /** It is read as it was written. */
  predicate Short(p: Part) {
    p.tag % 32 != 31 && |p.contents| < 0x8000_0000
  }

  lemma {:induction false} PartsRead(parts: seq<Part>)
    requires forall i | 0 <= i < |parts| :: Short(parts[i])
    ensures UnmarshalAll(Concat(Map(PartOctets, parts))) == Some(Map(PartOctets, parts))
  {
    if parts == [] {
    } else {
      PartsRead(parts[1..]);
      FirstOfMap(PartOctets, parts);
      ReadWritten([parts[0].tag], parts[0].contents, Concat(Map(PartOctets, parts[1..])));
      FirstOfAll(PartOctets(parts[0]), Concat(Map(PartOctets, parts[1..])));
    }
  }

  /** The octets of a message of this version with these entries and this content info. */
  function Enveloped(version: byte, entries: seq<byte>, content: seq<byte>): seq<byte> {
    Element(48, Element(6, [0x2A, 0x86, 0x48, 0x86, 0xF7, 0x0D, 1, 7, 3])
                + Element(0xA0, Element(48, Element(2, [version]) + (Element(49, entries) + Element(48, content)))))
  }

  /** The contents of a content info: type of content, algorithm with parameters, and the ciphertext under [0],
      primitive, or constructed of OCTET STRINGs. */
  function ContentWith(oid: seq<byte>, parameters: seq<byte>, compound: bool, octets: seq<byte>): seq<byte> {
    Element(6, [0x2A, 0x86, 0x48, 0x86, 0xF7, 0x0D, 1, 7, 1])
    + (Element(48, Element(6, oid) + parameters) + Element(if compound then 0xA0 else 0x80, octets))
  }

  lemma ContentWithRead(a: ContentAlgorithm, tag: byte, parameters: seq<byte>, compound: bool, octets: seq<byte>)
    requires !a.OtherAlgorithm? && tag % 32 != 31 && |octets| < 0x8000_0000
    requires |Element(6, OidOf(a)) + Element(tag, parameters)| < 0x8000_0000
    ensures UnmarshalContentInfo(ContentWith(OidOf(a), Element(tag, parameters), compound, octets))
         == Some(EncryptedContentInfo(a, parameters, compound, octets))
  {
    OidTells(a);
    AlgorithmWith(a, tag, parameters);
    FieldsWith(Element(6, OidOf(a)) + Element(tag, parameters), compound, octets);
  }

  lemma AlgorithmWith(a: ContentAlgorithm, tag: byte, parameters: seq<byte>)
    requires !a.OtherAlgorithm? && tag % 32 != 31 && |parameters| < 0x8000_0000
    ensures var field := Element(tag, parameters);
            && UnmarshalElement(6, Element(6, OidOf(a)) + field) == Some((OidOf(a), field))
            && field != [] && ContentsOf(field) == Some(parameters)
  {
    OidTells(a);
    UnmarshalMarshal(6, OidOf(a), Element(tag, parameters));
    ElementAlone(tag, parameters);
  }

  lemma FieldsWith(algorithm: seq<byte>, compound: bool, octets: seq<byte>)
    requires |algorithm| < 0x8000_0000 && |octets| < 0x8000_0000
    ensures var kind: seq<byte>, content := [0x2A, 0x86, 0x48, 0x86, 0xF7, 0x0D, 1, 7, 1], Element(if compound then 0xA0 else 0x80, octets);
            && UnmarshalElement(6, Element(6, kind) + (Element(48, algorithm) + content)) == Some((kind, Element(48, algorithm) + content))
            && UnmarshalElement(48, Element(48, algorithm) + content) == Some((algorithm, content))
            && EncryptedContent(content) == Some((compound, octets))
  {
    var content := Element(if compound then 0xA0 else 0x80, octets);
    UnmarshalMarshal(6, [0x2A, 0x86, 0x48, 0x86, 0xF7, 0x0D, 1, 7, 1], Element(48, algorithm) + content);
    UnmarshalMarshal(48, algorithm, content);
    ElementAlone(if compound then 0xA0 else 0x80, octets);
  }

  lemma EnvelopedRead(version: byte, parts: seq<Part>, content: seq<byte>, info: EncryptedContentInfo)
    requires version < 128 && UnmarshalContentInfo(content) == Some(info)
    requires forall i | 0 <= i < |parts| :: Short(parts[i])
    requires |Enveloped(version, Concat(Map(PartOctets, parts)), content)| < 0x8000_0000
    ensures UnmarshalMessage(Enveloped(version, Concat(Map(PartOctets, parts)), content))
         == Some(EnvelopedData(version, Map(UnmarshalEntry, Map(PartOctets, parts)), info))
  {
    var entries := Concat(Map(PartOctets, parts));
    PartsRead(parts);
    Unwrapped(version, entries, content);
  }

  lemma Unwrapped(version: byte, entries: seq<byte>, content: seq<byte>)
    requires version < 128 && |Enveloped(version, entries, content)| < 0x8000_0000
    ensures UnmarshalMessage(Enveloped(version, entries, content))
         == UnmarshalEnvelope(Element(2, [version]) + (Element(49, entries) + Element(48, content)))
    ensures UnmarshalFields(Element(2, [version]) + (Element(49, entries) + Element(48, content)))
         == Some((version as int, entries, content))
  {
    var fields := Element(2, [version]) + (Element(49, entries) + Element(48, content));
    FieldsRead(version, entries, content);
    WrapperRead(fields);
  }

  /** Only one message of this type, with nothing behind it, is parsed. */
  lemma OnlyEnveloped(data: seq<byte>)
    requires ParsedMessage(data).Ok?
    ensures exists content, rest ::
              Transcode(data) == Ok(Element(48, Element(6, [0x2A, 0x86, 0x48, 0x86, 0xF7, 0x0D, 1, 7, 3]) + (Element(0xA0, content) + rest)))
  {
    var der := Transcode(data).value;
    MarshalUnmarshal(48, der);
    var (fields, _) := UnmarshalElement(48, der).value;
    MarshalUnmarshal(6, fields);
    var (kind, afterKind) := UnmarshalElement(6, fields).value;
    MarshalUnmarshal(0xA0, afterKind);
    var (content, rest) := UnmarshalElement(0xA0, afterKind).value;
    assert Element(48, fields) + [] == Element(48, fields);
    assert Transcode(data) == Ok(Element(48, Element(6, kind) + (Element(0xA0, content) + rest)));
  }

  // ---------- the entries ----------

  /** An algorithm whose parameters are absent, or some element. */
  function AlgorithmWithParameters(oid: Oid, parameters: Option<Part>): seq<byte> {
    Element(48, Element(6, OidOctets(oid)) + if parameters.None? then [] else PartOctets(parameters.value))
  }

  lemma AlgorithmRead(oid: Oid, parameters: Option<Part>, rest: seq<byte>)
    requires Known(oid) && (parameters.Some? ==> Short(parameters.value) && |PartOctets(parameters.value)| < 0x7FFF_0000)
    ensures UnmarshalAlgorithm(AlgorithmWithParameters(oid, parameters) + rest) == Some((AlgorithmIdentifier(oid, parameters.Some?), rest))
  {
    var field := if parameters.None? then [] else PartOctets(parameters.value);
    KnownOid(oid);
    UnmarshalMarshal(6, OidOctets(oid), field);
    UnmarshalMarshal(48, Element(6, OidOctets(oid)) + field, rest);
    if parameters.Some? {
      ElementAlone(parameters.value.tag, parameters.value.contents);
    }
  }

  /** An entry for an RSA recipient; many programs write NULL parameters. */
  function KeyTransWith(version: byte, id: IssuerAndSerial, parameters: Option<Part>, encryptedKey: seq<byte>): Part {
    Part(48, Element(2, [version]) + (Element(48, IdFields(id))
             + (AlgorithmWithParameters(RsaEncryption, parameters) + Element(4, encryptedKey))))
  }

  lemma KeyTransWithRead(version: byte, id: IssuerAndSerial, parameters: Option<Part>, encryptedKey: seq<byte>)
    requires version < 128 && IsElement(id.issuerName) && |IdFields(id)| < 0x8000_0000 && |encryptedKey| < 0x8000_0000
    requires parameters.Some? ==> Short(parameters.value) && |PartOctets(parameters.value)| < 0x7FFF_0000
    requires Short(KeyTransWith(version, id, parameters, encryptedKey))
    ensures UnmarshalEntry(PartOctets(KeyTransWith(version, id, parameters, encryptedKey)))
         == KeyTrans(Whole(KeyTransInfo(version, id, AlgorithmIdentifier(RsaEncryption, parameters.Some?), encryptedKey)))
  {
    var key := Element(4, encryptedKey);
    var algorithm := AlgorithmWithParameters(RsaEncryption, parameters) + key;
    var fields := KeyTransWith(version, id, parameters, encryptedKey).contents;
    SmallRead(version, Element(48, IdFields(id)) + algorithm);
    IdRead(id, algorithm);
    AlgorithmRead(RsaEncryption, parameters, key);
    UnmarshalAlone(4, encryptedKey);
    ElementAlone(48, fields);
  }

  /** How a KEM recipient is named: by issuer and serial number, or by its subject key identifier. */
  function NamePart(id: RecipientId): Part
    requires id.SubjectKeyId? || (id.IssuerSerial? && id.parsed.Whole?)
  {
    match id
    case IssuerSerial(Whole(ias)) => Part(48, IdFields(ias))
    case SubjectKeyId(octets) => Part(0x80, octets)
  }

  /** User keying material, if any, under [0]. */
  function KeyingMaterial(ukm: Option<seq<byte>>): seq<byte> {
    if ukm.None? then [] else Element(0xA0, Element(4, ukm.value))
  }

  /** Such an entry, of any size that can be read. */
  predicate ForeignKem(k: KemInfo) {
    && 0 <= k.version < 128 && k.kekLength == 32
    && (k.recipientId.SubjectKeyId? || (k.recipientId.IssuerSerial? && k.recipientId.parsed.Whole?))
    && Known(k.kem.oid) && k.kem == Plain(k.kem.oid)
    && k.kdf == Plain(HkdfSha256) && k.wrap == Plain(KeyWrapAes256)
    && Short(NamePart(k.recipientId)) && |k.ciphertext| < 0x8000_0000 && |k.encryptedKey| < 0x8000_0000
    && (k.ukm.Some? ==> |k.ukm.value| < 0x8000_0000 && |Element(4, k.ukm.value)| < 0x8000_0000)
    && |FieldsOf(k)| < 0x8000_0000
  }

  function TailWith(ukm: Option<seq<byte>>, encryptedKey: seq<byte>): seq<byte> {
    Element(2, [32]) + (KeyingMaterial(ukm) + (AlgorithmField(KeyWrapAes256) + Element(4, encryptedKey)))
  }

  function BodyWith(k: KemInfo): seq<byte>
  {
    AlgorithmField(k.kem.oid)
    + (Element(4, k.ciphertext)
       + (AlgorithmField(HkdfSha256) + TailWith(k.ukm, k.encryptedKey)))
  }

  function FieldsOf(k: KemInfo): seq<byte>
    requires 0 <= k.version < 128
    requires k.recipientId.SubjectKeyId? || (k.recipientId.IssuerSerial? && k.recipientId.parsed.Whole?)
  {
    Element(2, [k.version]) + (PartOctets(NamePart(k.recipientId)) + BodyWith(k))
  }

  /** An entry for a KEM recipient. */
  function KemWith(k: KemInfo): Part
    requires ForeignKem(k)
  {
    Part(0xA4, Element(6, OidOctets(OtherRecipientInfoKem)) + Element(48, FieldsOf(k)))
  }

  lemma UkmRead(ukm: seq<byte>, rest: seq<byte>)
    requires |ukm| < 0x8000_0000 && |Element(4, ukm)| < 0x8000_0000
    ensures UnmarshalUkm(Element(0xA0, Element(4, ukm)) + rest) == Some((Some(ukm), rest))
  {
    UnmarshalMarshal(0xA0, Element(4, ukm), rest);
    UnmarshalMarshal(4, ukm, rest);
  }

  lemma TailWithRead(ukm: seq<byte>, encryptedKey: seq<byte>)
    requires |ukm| < 0x8000_0000 && |Element(4, ukm)| < 0x8000_0000 && |encryptedKey| < 0x8000_0000
    ensures UnmarshalKemTail(AlgorithmField(HkdfSha256) + TailWith(Some(ukm), encryptedKey))
         == Some((Plain(HkdfSha256), 32, Some(ukm), Plain(KeyWrapAes256), encryptedKey))
  {
    var key := Element(4, encryptedKey);
    var afterUkm := AlgorithmField(KeyWrapAes256) + key;
    var afterLength := Element(0xA0, Element(4, ukm)) + afterUkm;
    PlainRead(HkdfSha256, Element(2, [32]) + afterLength);
    SmallRead(32, afterLength);
    UnmarshalMarshal(0xA0, Element(4, ukm), afterUkm);
    UkmRead(ukm, afterUkm);
    PlainRead(KeyWrapAes256, key);
    UnmarshalAlone(4, encryptedKey);
  }

  lemma PlainTailRead(encryptedKey: seq<byte>)
    requires |encryptedKey| < 0x8000_0000
    ensures UnmarshalKemTail(AlgorithmField(HkdfSha256) + TailWith(None, encryptedKey))
         == Some((Plain(HkdfSha256), 32, None, Plain(KeyWrapAes256), encryptedKey))
  {
    var key := Element(4, encryptedKey);
    var afterUkm := AlgorithmField(KeyWrapAes256) + key;
    assert KeyingMaterial(None) + afterUkm == afterUkm;
    PlainRead(HkdfSha256, Element(2, [32]) + afterUkm);
    SmallRead(32, afterUkm);
    NoUkm(key);
    PlainRead(KeyWrapAes256, key);
    UnmarshalAlone(4, encryptedKey);
  }

  lemma NameRead(id: RecipientId, rest: seq<byte>)
    requires id.SubjectKeyId? || (id.IssuerSerial? && id.parsed.Whole? && IsElement(id.parsed.value.issuerName))
    requires Short(NamePart(id))
    ensures RawElement(PartOctets(NamePart(id)) + rest) == Some((PartOctets(NamePart(id)), rest))
    ensures UnmarshalRecipientId(PartOctets(NamePart(id))) == id
  {
    if id.SubjectKeyId? {
      RawWritten(0x80, id.octets, rest);
      ElementAlone(0x80, id.octets);
    } else {
      RecipientIdRead(id.parsed.value, rest);
    }
  }

  lemma KemFieldsRead(k: KemInfo)
    requires ForeignKem(k)
    requires k.recipientId.IssuerSerial? ==> IsElement(k.recipientId.parsed.value.issuerName)
    ensures UnmarshalKemFields(FieldsOf(k)) == Some(k)
  {
    var body := BodyWith(k);
    SmallRead(k.version, PartOctets(NamePart(k.recipientId)) + body);
    NameRead(k.recipientId, body);
    var tail := AlgorithmField(HkdfSha256) + TailWith(k.ukm, k.encryptedKey);
    PlainRead(k.kem.oid, Element(4, k.ciphertext) + tail);
    UnmarshalMarshal(4, k.ciphertext, tail);
    if k.ukm.Some? {
      TailWithRead(k.ukm.value, k.encryptedKey);
    } else {
      PlainTailRead(k.encryptedKey);
    }
  }

  lemma OtherWith(fields: seq<byte>)
    requires |fields| < 0x8000_0000
    ensures UnmarshalOther(Element(6, OidOctets(OtherRecipientInfoKem)) + Element(48, fields))
         == Whole(OtherInfo(OtherRecipientInfoKem, Entirely(UnmarshalKem(Element(48, fields)))))
    ensures UnmarshalElement(48, Element(48, fields)) == Some((fields, []))
  {
    KnownOid(OtherRecipientInfoKem);
    UnmarshalMarshal(6, OidOctets(OtherRecipientInfoKem), Element(48, fields));
    RawWritten(48, fields, []);
    assert Element(48, fields) + [] == Element(48, fields);
  }

  /** The entry is read as it was written, with its name of either kind and its keying material. */
  lemma KemWithRead(k: KemInfo)
    requires ForeignKem(k) && |KemWith(k).contents| < 0x8000_0000
    requires k.recipientId.IssuerSerial? ==> IsElement(k.recipientId.parsed.value.issuerName)
    ensures UnmarshalEntry(PartOctets(KemWith(k))) == KemEntry(k)
  {
    KemFieldsRead(k);
    EntryTold(0xA4, KemWith(k).contents);
    OtherWith(FieldsOf(k));
  }

  /** Entries of other tags, as for key agreement, are for another; so are those of KEM recipients for an RSA key, and
      those of RSA recipients for an ML-KEM key, whatever they hold. */
  lemma OtherEntriesPassed(part: Part, cert: Certificate, pkey: PrivateKey)
    requires Short(part)
    requires (pkey.RsaPrivate? && part.tag != 48 && part.tag != 16) || (pkey.Decapsulation? && part.tag != 0xA4 && part.tag != 0x84)
    ensures ForAnother(UnmarshalEntry(PartOctets(part)), cert, pkey)
  {
    ElementAlone(part.tag, part.contents);
  }

  // ---------- what is recovered ----------

  /** The octets are, in minimal definite form, those of a message with these entries and this content info. */
  ghost predicate Sent(data: seq<byte>, version: byte, parts: seq<Part>, content: seq<byte>) {
    var message := Enveloped(version, Concat(Map(PartOctets, parts)), content);
    && Transcode(data) == Ok(message) && |message| < 0x8000_0000
    && version < 128 && forall i | 0 <= i < |parts| :: Short(parts[i])
  }

  /** The entries before place k are for others. */
  predicate AllForOthers(parts: seq<Part>, k: nat, cert: Certificate, pkey: PrivateKey)
    requires k <= |parts|
  {
    forall j | 0 <= j < k :: ForAnother(UnmarshalEntry(PartOctets(parts[j])), cert, pkey)
  }

  /** Whoever wrote the message: the owner of the first entry that is not for another recovers the content. */
  lemma ForeignRecovered(m: Modes, t: KeyTransport, data: seq<byte>, version: byte, parts: seq<Part>, content: seq<byte>,
                         info: EncryptedContentInfo, cert: Certificate, pkey: PrivateKey, k: nat, key: seq<byte>)
    requires t.Laws() && Sent(data, version, parts, content)
    requires UnmarshalContentInfo(content) == Some(info) && OpenedContent(m, info, key).Ok?
    requires pkey.Decapsulation? ==> version == 3 && (info.algorithm == Aes128Cbc || info.algorithm == Aes256Cbc)
    requires k < |parts| && Yields(t, UnmarshalEntry(PartOctets(parts[k])), cert, pkey, key) && AllForOthers(parts, k, cert, pkey)
    ensures Recovered(m, t, data, cert, pkey) == OpenedContent(m, info, key)
  {
    EnvelopedRead(version, parts, content, info);
    var infos := Map(UnmarshalEntry, Map(PartOctets, parts));
    var e := EnvelopedData(version, infos, info);
    assert ParsedMessage(data) == Ok(e);
    FirstOfEntries(t, infos, cert, pkey, k, key);
    DecryptedExactly(m, t, e, cert, pkey, OpenedContent(m, info, key).value);
  }

  lemma FirstOfEntries(t: KeyTransport, infos: seq<RecipientInfo>, cert: Certificate, pkey: PrivateKey, k: nat, key: seq<byte>)
    requires t.Laws() && k < |infos| && Yields(t, infos[k], cert, pkey, key)
    requires forall j | 0 <= j < k :: ForAnother(infos[j], cert, pkey)
    ensures FirstYields(t, infos, cert, pkey, key, k)
  {
  }

  /** Triple-DES content for RSA recipients, with NULL parameters in the entry. */
  lemma TripleDesRecovered(m: Modes, t: KeyTransport, data: seq<byte>, parts: seq<Part>, content: seq<byte>, cert: Certificate,
                           secret: seq<byte>, k: nat, encryptedKey: seq<byte>, key: seq<byte>, iv: seq<byte>, plaintext: seq<byte>)
    requires m.Laws() && t.Laws() && |key| == 24 && |iv| == 8 && Sent(data, 0, parts, content)
    requires content == ContentWith([0x2A, 0x86, 0x48, 0x86, 0xF7, 0x0D, 3, 7], Element(4, iv), false,
                                    m.cbcEncrypt(TripleDes, key, iv, Pad(plaintext, 8).value))
    requires IsElement(cert.rawIssuer) && t.rsaDecrypt(secret, encryptedKey) == Some(key)
    requires k < |parts|
    requires parts[k] == KeyTransWith(0, IssuerAndSerial(cert.rawIssuer, cert.serialNumber), Some(Part(5, [])), encryptedKey)
    requires AllForOthers(parts, k, cert, RsaPrivate(secret))
    ensures Recovered(m, t, data, cert, RsaPrivate(secret)) == Ok(plaintext)
  {
    InsideContent(0, Concat(Map(PartOctets, parts)), OidOf(DesEde3Cbc), Element(4, iv),
                  m.cbcEncrypt(TripleDes, key, iv, Pad(plaintext, 8).value));
    var info := TripleDesRead(m, key, iv, plaintext, content);
    NullEntryYields(t, parts[k], cert, secret, encryptedKey, key);
    ForeignRecovered(m, t, data, 0, parts, content, info, cert, RsaPrivate(secret), k, key);
  }

  lemma TripleDesRead(m: Modes, key: seq<byte>, iv: seq<byte>, plaintext: seq<byte>, content: seq<byte>) returns (info: EncryptedContentInfo)
    requires m.Laws() && |key| == 24 && |iv| == 8
    requires var octets := m.cbcEncrypt(TripleDes, key, iv, Pad(plaintext, 8).value);
             |octets| < 0x8000_0000 && content == ContentWith([0x2A, 0x86, 0x48, 0x86, 0xF7, 0x0D, 3, 7], Element(4, iv), false, octets)
    ensures UnmarshalContentInfo(content) == Some(info) && OpenedContent(m, info, key) == Ok(plaintext)
  {
    var octets := m.cbcEncrypt(TripleDes, key, iv, Pad(plaintext, 8).value);
    info := EncryptedContentInfo(DesEde3Cbc, iv, false, octets);
    ContentWithRead(DesEde3Cbc, 4, iv, false, octets);
    SixAlgorithms(m, key, iv, plaintext);
  }

  lemma NullEntryYields(t: KeyTransport, part: Part, cert: Certificate, secret: seq<byte>, encryptedKey: seq<byte>, key: seq<byte>)
    requires t.Laws() && Short(part) && IsElement(cert.rawIssuer) && t.rsaDecrypt(secret, encryptedKey) == Some(key)
    requires part == KeyTransWith(0, IssuerAndSerial(cert.rawIssuer, cert.serialNumber), Some(Part(5, [])), encryptedKey)
    ensures Yields(t, UnmarshalEntry(PartOctets(part)), cert, RsaPrivate(secret), key)
  {
    var id := IssuerAndSerial(cert.rawIssuer, cert.serialNumber);
    InsideKeyTrans(0, id, Some(Part(5, [])), encryptedKey);
    KeyTransWithRead(0, id, Some(Part(5, [])), encryptedKey);
  }

  lemma InsideContent(version: byte, entries: seq<byte>, oid: seq<byte>, parameters: seq<byte>, octets: seq<byte>)
    requires |Enveloped(version, entries, ContentWith(oid, parameters, false, octets))| < 0x8000_0000
    ensures |octets| < 0x8000_0000 && |Element(6, oid) + parameters| < 0x8000_0000
  {
    assert |ContentWith(oid, parameters, false, octets)| >= |octets| + |Element(6, oid) + parameters|;
  }

  lemma InsideKeyTrans(version: byte, id: IssuerAndSerial, parameters: Option<Part>, encryptedKey: seq<byte>)
    requires Short(KeyTransWith(version, id, parameters, encryptedKey))
    ensures |IdFields(id)| < 0x8000_0000 && |encryptedKey| < 0x8000_0000
  {
  }

  lemma KemYields(t: KeyTransport, info: KemInfo, cert: Certificate, level: KemLevel, secret: seq<byte>, shared: seq<byte>, key: seq<byte>)
    requires t.Laws() && ForeignKem(info) && info.version == 0
    requires info.kem == Plain(if level == Level768 then MlKem768 else MlKem1024)
    requires || (info.recipientId == SubjectKeyId(cert.subjectKeyId) && cert.subjectKeyId != [])
             || info.recipientId == IssuerSerial(Whole(IssuerAndSerial(cert.rawIssuer, cert.serialNumber)))
    requires t.decapsulate(level, secret, info.ciphertext) == Some(shared)
    requires Wrap(t.aes, t.kdf(shared, Plain(KeyWrapAes256), 32, info.ukm), key) == Ok(info.encryptedKey)
    ensures Yields(t, KemEntry(info), cert, Decapsulation(level, secret), key)
  {
    UnwrapWrap(t.aes, t.kdf(shared, Plain(KeyWrapAes256), 32, info.ukm), key);
  }

  /** AES-CBC content for KEM recipients that are named in either way, with or without keying material. */
  lemma KemRecovered(m: Modes, t: KeyTransport, data: seq<byte>, parts: seq<Part>, content: seq<byte>, held: EncryptedContentInfo,
                     cert: Certificate, level: KemLevel, secret: seq<byte>, k: nat, info: KemInfo, shared: seq<byte>, key: seq<byte>)
    requires t.Laws() && Sent(data, 3, parts, content)
    requires UnmarshalContentInfo(content) == Some(held) && OpenedContent(m, held, key).Ok?
    requires held.algorithm == Aes128Cbc || held.algorithm == Aes256Cbc
    requires ForeignKem(info) && info.version == 0 && info.kem == Plain(if level == Level768 then MlKem768 else MlKem1024)
    requires || (info.recipientId == SubjectKeyId(cert.subjectKeyId) && cert.subjectKeyId != [])
             || (info.recipientId == IssuerSerial(Whole(IssuerAndSerial(cert.rawIssuer, cert.serialNumber))) && IsElement(cert.rawIssuer))
    requires t.decapsulate(level, secret, info.ciphertext) == Some(shared)
    requires Wrap(t.aes, t.kdf(shared, Plain(KeyWrapAes256), 32, info.ukm), key) == Ok(info.encryptedKey)
    requires k < |parts| && parts[k] == KemWith(info)
    requires AllForOthers(parts, k, cert, Decapsulation(level, secret))
    ensures Recovered(m, t, data, cert, Decapsulation(level, secret)) == OpenedContent(m, held, key)
  {
    KemWithRead(info);
    KemYields(t, info, cert, level, secret, shared, key);
    ForeignRecovered(m, t, data, 3, parts, content, held, cert, Decapsulation(level, secret), k, key);
  }
}
