/** The entries of the RecipientInfos, as encrypt.go and kem.go write them and decrypt.go and kem.go
    read them. */
module RecipientCoding {
  import opened Bytes
  import opened BerPrinter
  import opened Asn1
  import opened Certificates

  // ---------- the structures ----------

  datatype KeyTransInfo = KeyTransInfo(
    version: int, id: IssuerAndSerial, algorithm: AlgorithmIdentifier, encryptedKey: seq<byte>)

  datatype RecipientId =
    | IssuerSerial(parsed: Parsed<IssuerAndSerial>)
    | SubjectKeyId(octets: seq<byte>)
    | UnknownId

  datatype KemInfo = KemInfo(
    version: int,
    recipientId: RecipientId,
    kem: AlgorithmIdentifier,
    ciphertext: seq<byte>,
    kdf: AlgorithmIdentifier,
    kekLength: int,
    ukm: Option<seq<byte>>,
    wrap: AlgorithmIdentifier,
    encryptedKey: seq<byte>)

  datatype OtherInfo = OtherInfo(kind: Oid, value: Parsed<KemInfo>)

  /** An entry of the RecipientInfos by its class and tag: a universal SEQUENCE, a context-specific
      [4], or anything else. */
  datatype RecipientInfo =
    | KeyTrans(info: Parsed<KeyTransInfo>)
    | Other(compound: bool, other: Parsed<OtherInfo>)
    | Unread

  const KEK_LENGTH := 32

  function KemOid(level: KemLevel): Oid {
    if level == Level768 then MlKem768 else MlKem1024
  }

  function Plain(oid: Oid): AlgorithmIdentifier {
    AlgorithmIdentifier(oid, false)
  }

  /** Entries as the program makes them. */
  predicate Proper(info: RecipientInfo) {
    match info
    case KeyTrans(Whole(k)) => k.version == 0 && k.algorithm == Plain(RsaEncryption)
    case Other(true, Whole(OtherInfo(kind, Whole(k)))) =>
      && kind == OtherRecipientInfoKem && k.version == 0
      && k.recipientId.IssuerSerial? && k.recipientId.parsed.Whole?
      && (k.kem == Plain(MlKem768) || k.kem == Plain(MlKem1024)) && k.kdf == Plain(HkdfSha256)
      && k.kekLength == KEK_LENGTH && k.ukm == None && k.wrap == Plain(KeyWrapAes256)
    case _ => false
  }

  /** The issuer and serial number in such an entry. */
  function IdOf(info: RecipientInfo): IssuerAndSerial
    requires Proper(info)
  {
    if info.KeyTrans? then info.info.value.id else info.other.value.value.value.recipientId.parsed.value
  }

  // ---------- object identifiers ----------

  /** Contents octets of the object identifiers in the entries. */
  function OidOctets(oid: Oid): seq<byte> {
    match oid
    case RsaEncryption => [0x2A, 0x86, 0x48, 0x86, 0xF7, 0x0D, 1, 1, 1]
    case MlKem768 => [0x60, 0x86, 0x48, 1, 0x65, 3, 4, 4, 2]
    case MlKem1024 => [0x60, 0x86, 0x48, 1, 0x65, 3, 4, 4, 3]
    case HkdfSha256 => [0x2A, 0x86, 0x48, 0x86, 0xF7, 0x0D, 1, 9, 16, 3, 28]
    case KeyWrapAes256 => [0x60, 0x86, 0x48, 1, 0x65, 3, 4, 1, 45]
    case OtherRecipientInfoKem => [0x2A, 0x86, 0x48, 0x86, 0xF7, 0x0D, 1, 9, 16, 13, 3]
    case UnknownOid(octets) => octets
    case _ => []
  }

  function OidWith(octets: seq<byte>): Oid {
    if octets == OidOctets(RsaEncryption) then RsaEncryption
    else if octets == OidOctets(MlKem768) then MlKem768
    else if octets == OidOctets(MlKem1024) then MlKem1024
    else if octets == OidOctets(HkdfSha256) then HkdfSha256
    else if octets == OidOctets(KeyWrapAes256) then KeyWrapAes256
    else if octets == OidOctets(OtherRecipientInfoKem) then OtherRecipientInfoKem
    else UnknownOid(octets)
  }

  predicate Known(oid: Oid) {
    || oid == RsaEncryption || oid == MlKem768 || oid == MlKem1024
    || oid == HkdfSha256 || oid == KeyWrapAes256 || oid == OtherRecipientInfoKem
  }

  lemma KnownOid(oid: Oid)
    requires Known(oid)
    ensures OidWith(OidOctets(oid)) == oid && |OidOctets(oid)| <= 11
  {
    var octets := OidOctets(oid);
    if |octets| == 9 {
      assert octets[8] == if oid == RsaEncryption then 1 else if oid == MlKem768 then 2 else if oid == MlKem1024 then 3 else 45;
    } else {
      assert octets[9] == if oid == HkdfSha256 then 3 else 13;
    }
  }

  // ---------- marshalling ----------

  /** A raw value with these octets; an empty one is written as an element of tag 0 and no length. */
  function NameOctets(name: seq<byte>): seq<byte> {
    if name == [] then [0, 0] else name
  }

  function IdFields(id: IssuerAndSerial): seq<byte> {
    NameOctets(id.issuerName) + Element(2, IntegerOctets(id.serialNumber))
  }

  function AlgorithmField(oid: Oid): seq<byte> {
    Element(48, Element(6, OidOctets(oid)))
  }

  function KeyTransFields(k: KeyTransInfo): seq<byte> {
    Element(2, [0]) + (Element(48, IdFields(k.id)) + (AlgorithmField(k.algorithm.oid) + Element(4, k.encryptedKey)))
  }

  function KemTail(k: KemInfo): seq<byte> {
    AlgorithmField(k.kdf.oid) + (Element(2, [KEK_LENGTH]) + (AlgorithmField(k.wrap.oid) + Element(4, k.encryptedKey)))
  }

  function KemFields(k: KemInfo, id: IssuerAndSerial): seq<byte> {
    Element(2, [0]) + (Element(48, IdFields(id)) + (AlgorithmField(k.kem.oid) + (Element(4, k.ciphertext) + KemTail(k))))
  }

  function OtherFields(k: KemInfo, id: IssuerAndSerial): seq<byte> {
    Element(6, OidOctets(OtherRecipientInfoKem)) + Element(48, KemFields(k, id))
  }

  function EntryTag(info: RecipientInfo): byte {
    if info.KeyTrans? then 48 else 0xA4
  }

  function EntryFields(info: RecipientInfo): seq<byte>
    requires Proper(info)
  {
    if info.KeyTrans? then KeyTransFields(info.info.value)
    else OtherFields(info.other.value.value.value, IdOf(info))
  }

  /** The octets of an entry that the program makes. */
  function EntryOctets(info: RecipientInfo): seq<byte> {
    if Proper(info) then Element(EntryTag(info), EntryFields(info)) else []
  }

  // ---------- unmarshalling ----------

  function UnmarshalIdFields(fields: seq<byte>): Option<IssuerAndSerial> {
    var (name, afterName) :- RawElement(fields);
    var (serial, _) :- UnmarshalElement(2, afterName);
    var serialNumber :- UnmarshalBig(serial);
    Some(IssuerAndSerial(name, serialNumber))
  }

  function UnmarshalId(bs: seq<byte>): Option<(IssuerAndSerial, seq<byte>)> {
    var (fields, rest) :- UnmarshalElement(48, bs);
    var id :- UnmarshalIdFields(fields);
    Some((id, rest))
  }

  function Entirely<T>(r: Option<(T, seq<byte>)>): Parsed<T> {
    match r
    case None => Malformed
    case Some((value, rest)) => if rest == [] then Whole(value) else Trailing(value)
  }

  function UnmarshalAlgorithm(bs: seq<byte>): Option<(AlgorithmIdentifier, seq<byte>)> {
    var (fields, rest) :- UnmarshalElement(48, bs);
    var (oid, parameters) :- UnmarshalElement(6, fields);
    if parameters == [] then Some((Plain(OidWith(oid)), rest)) else
      var _ :- RawElement(parameters);
      Some((AlgorithmIdentifier(OidWith(oid), true), rest))
  }

  function UnmarshalInt(bs: seq<byte>): Option<(int, seq<byte>)> {
    var (octets, rest) :- UnmarshalElement(2, bs);
    var n :- UnmarshalInteger(octets);
    Some((n, rest))
  }

  function UnmarshalKeyTransFields(fields: seq<byte>): Option<KeyTransInfo> {
    var (version, afterVersion) :- UnmarshalInt(fields);
    var (id, afterId) :- UnmarshalId(afterVersion);
    var (algorithm, afterAlgorithm) :- UnmarshalAlgorithm(afterId);
    var (key, _) :- UnmarshalOctets(afterAlgorithm);
    Some(KeyTransInfo(version, id, algorithm, key))
  }

  function UnmarshalKeyTrans(bs: seq<byte>): Option<(KeyTransInfo, seq<byte>)> {
    var (fields, rest) :- UnmarshalElement(48, bs);
    var info :- UnmarshalKeyTransFields(fields);
    Some((info, rest))
  }

  /** A recipient identifier by the class and tag of its raw value. */
  function UnmarshalRecipientId(raw: seq<byte>): RecipientId {
    match ReadElement(raw)
    case None => UnknownId
    case Some((tag, contents, _)) =>
      if tag == [48] || tag == [16] then IssuerSerial(Entirely(UnmarshalId(raw)))
      else if tag == [0x80] || tag == [0xA0] then SubjectKeyId(contents)
      else UnknownId
  }

  /** The optional user keying material, explicitly tagged [0]. */
  function UnmarshalUkm(bs: seq<byte>): Option<(Option<seq<byte>>, seq<byte>)> {
    match UnmarshalElement(0xA0, bs)
    case None => Some((None, bs))
    case Some((inner, after)) =>
      if inner == [] then None else
        var (ukm, rest) :- UnmarshalOctets(inner + after);
        Some((Some(ukm), rest))
  }

  function UnmarshalKemTail(bs: seq<byte>)
    : Option<(AlgorithmIdentifier, int, Option<seq<byte>>, AlgorithmIdentifier, seq<byte>)>
  {
    var (kdf, afterKdf) :- UnmarshalAlgorithm(bs);
    var (kekLength, afterLength) :- UnmarshalInt(afterKdf);
    var (ukm, afterUkm) :- UnmarshalUkm(afterLength);
    var (wrap, afterWrap) :- UnmarshalAlgorithm(afterUkm);
    var (key, _) :- UnmarshalOctets(afterWrap);
    Some((kdf, kekLength, ukm, wrap, key))
  }

  /** The fields behind the recipient identifier. */
  function UnmarshalKemBody(version: int, id: RecipientId, bs: seq<byte>): Option<KemInfo> {
    var (kem, afterKem) :- UnmarshalAlgorithm(bs);
    var (ciphertext, afterCiphertext) :- UnmarshalOctets(afterKem);
    var (kdf, kekLength, ukm, wrap, key) :- UnmarshalKemTail(afterCiphertext);
    Some(KemInfo(version, id, kem, ciphertext, kdf, kekLength, ukm, wrap, key))
  }

  function UnmarshalKemHead(fields: seq<byte>): Option<(int, RecipientId, seq<byte>)> {
    var (version, afterVersion) :- UnmarshalInt(fields);
    var (raw, afterId) :- RawElement(afterVersion);
    Some((version, UnmarshalRecipientId(raw), afterId))
  }

  function UnmarshalKemFields(fields: seq<byte>): Option<KemInfo> {
    var (version, id, afterId) :- UnmarshalKemHead(fields);
    UnmarshalKemBody(version, id, afterId)
  }

  function UnmarshalKem(bs: seq<byte>): Option<(KemInfo, seq<byte>)> {
    var (fields, rest) :- UnmarshalElement(48, bs);
    var info :- UnmarshalKemFields(fields);
    Some((info, rest))
  }

  /** The contents of a [4], read as those of a SEQUENCE. */
  function UnmarshalOther(contents: seq<byte>): Parsed<OtherInfo> {
    match UnmarshalElement(6, contents)
    case None => Malformed
    case Some((kind, afterKind)) =>
      match RawElement(afterKind)
      case None => Malformed
      case Some((value, _)) => Whole(OtherInfo(OidWith(kind), Entirely(UnmarshalKem(value))))
  }

  /** One element of the RecipientInfos. */
  function UnmarshalEntry(bs: seq<byte>): RecipientInfo {
    match ReadElement(bs)
    case None => Unread
    case Some((tag, contents, _)) =>
      if tag == [48] || tag == [16] then KeyTrans(Entirely(UnmarshalKeyTrans(bs)))
      else if tag == [0xA4] || tag == [0x84] then Other(tag == [0xA4], UnmarshalOther(contents))
      else Unread
  }

  // ---------- entries are read as they were written ----------

  /** The octets are those of one element that is nested at most so deep. */
  ghost predicate NameUpTo(name: seq<byte>, height: int) {
    exists o :: WellFormed(o) && ShortestTag(o.tag) && name == Encode(o) && Height(o) <= height
  }

  /** The issuer is one element, as it is in every certificate that has been parsed. */
  ghost predicate IsElement(name: seq<byte>) {
    exists o :: WellFormed(o) && ShortestTag(o.tag) && name == Encode(o)
  }

  lemma IdFieldsRead(id: IssuerAndSerial)
    requires IsElement(id.issuerName) && |IdFields(id)| < 0x8000_0000
    ensures UnmarshalIdFields(IdFields(id)) == Some(id)
  {
    var o :| WellFormed(o) && ShortestTag(o.tag) && id.issuerName == Encode(o);
    PrintedIsRaw(o, Element(2, IntegerOctets(id.serialNumber)));
    UnmarshalAlone(2, IntegerOctets(id.serialNumber));
    IntegerRead(id.serialNumber);
  }

  lemma IdRead(id: IssuerAndSerial, rest: seq<byte>)
    requires IsElement(id.issuerName) && |IdFields(id)| < 0x8000_0000
    ensures UnmarshalId(Element(48, IdFields(id)) + rest) == Some((id, rest))
  {
    IdFieldsRead(id);
    UnmarshalMarshal(48, IdFields(id), rest);
  }

  lemma PlainRead(oid: Oid, rest: seq<byte>)
    requires Known(oid)
    ensures UnmarshalAlgorithm(AlgorithmField(oid) + rest) == Some((Plain(oid), rest))
  {
    KnownOid(oid);
    UnmarshalAlone(6, OidOctets(oid));
    UnmarshalMarshal(48, Element(6, OidOctets(oid)), rest);
  }

  lemma SmallRead(n: byte, rest: seq<byte>)
    requires n < 128
    ensures UnmarshalInt(Element(2, [n]) + rest) == Some((n as int, rest))
  {
    UnmarshalMarshal(2, [n], rest);
  }

  lemma KeyTransRead(k: KeyTransInfo)
    requires Proper(KeyTrans(Whole(k))) && IsElement(k.id.issuerName) && |KeyTransFields(k)| < 0x8000_0000
    ensures UnmarshalKeyTrans(Element(48, KeyTransFields(k))) == Some((k, []))
  {
    var key := Element(4, k.encryptedKey);
    var afterId := AlgorithmField(k.algorithm.oid) + key;
    UnmarshalAlone(48, KeyTransFields(k));
    SmallRead(0, Element(48, IdFields(k.id)) + afterId);
    IdRead(k.id, afterId);
    PlainRead(k.algorithm.oid, key);
    UnmarshalAlone(4, k.encryptedKey);
  }

  lemma KemTailRead(k: KemInfo)
    requires k.kdf == Plain(HkdfSha256) && k.wrap == Plain(KeyWrapAes256) && |KemTail(k)| < 0x8000_0000
    ensures UnmarshalKemTail(KemTail(k)) == Some((k.kdf, KEK_LENGTH, None, k.wrap, k.encryptedKey))
  {
    var key := Element(4, k.encryptedKey);
    var afterLength := AlgorithmField(KeyWrapAes256) + key;
    PlainRead(HkdfSha256, Element(2, [KEK_LENGTH]) + afterLength);
    SmallRead(KEK_LENGTH, afterLength);
    NoUkm(key);
    PlainRead(KeyWrapAes256, key);
    UnmarshalAlone(4, k.encryptedKey);
  }

  lemma NoUkm(rest: seq<byte>)
    ensures UnmarshalUkm(AlgorithmField(KeyWrapAes256) + rest) == Some((None, AlgorithmField(KeyWrapAes256) + rest))
  {
    KnownOid(KeyWrapAes256);
    ReadWritten([48], Element(6, OidOctets(KeyWrapAes256)), rest);
  }

  lemma KemRead(k: KemInfo)
    requires Proper(KemEntry(k)) && |KemFields(k, k.recipientId.parsed.value)| < 0x8000_0000
    requires IsElement(k.recipientId.parsed.value.issuerName)
    ensures UnmarshalKem(Element(48, KemFields(k, k.recipientId.parsed.value))) == Some((k, []))
  {
    var id := k.recipientId.parsed.value;
    var afterKem := Element(4, k.ciphertext) + KemTail(k);
    var afterId := AlgorithmField(k.kem.oid) + afterKem;
    UnmarshalAlone(48, KemFields(k, id));
    SmallRead(0, Element(48, IdFields(id)) + afterId);
    RecipientIdRead(id, afterId);
    PlainRead(k.kem.oid, afterKem);
    UnmarshalMarshal(4, k.ciphertext, KemTail(k));
    KemTailRead(k);
  }

  lemma RecipientIdRead(id: IssuerAndSerial, rest: seq<byte>)
    requires IsElement(id.issuerName) && |IdFields(id)| < 0x8000_0000
    ensures RawElement(Element(48, IdFields(id)) + rest) == Some((Element(48, IdFields(id)), rest))
    ensures UnmarshalRecipientId(Element(48, IdFields(id))) == IssuerSerial(Whole(id))
  {
    RawWritten(48, IdFields(id), rest);
    RawWritten(48, IdFields(id), []);
    IdRead(id, []);
    assert Element(48, IdFields(id)) + [] == Element(48, IdFields(id));
  }

  lemma RawWritten(tag: byte, content: seq<byte>, rest: seq<byte>)
    requires tag % 32 != 31 && |content| < 0x8000_0000
    ensures ReadElement(Element(tag, content) + rest) == Some(([tag], content, rest))
    ensures RawElement(Element(tag, content) + rest) == Some((Element(tag, content), rest))
  {
    ReadWritten([tag], content, rest);
    var bs := Element(tag, content) + rest;
    assert bs[..|bs| - |rest|] == Element(tag, content);
  }

  /** The entry for a KEM recipient. */
  function KemEntry(info: KemInfo): RecipientInfo {
    Other(true, Whole(OtherInfo(OtherRecipientInfoKem, Whole(info))))
  }

  lemma OtherRead(k: KemInfo)
    requires Proper(KemEntry(k)) && |EntryFields(KemEntry(k))| < 0x8000_0000
    requires IsElement(k.recipientId.parsed.value.issuerName)
    ensures UnmarshalOther(EntryFields(KemEntry(k))) == Whole(OtherInfo(OtherRecipientInfoKem, Whole(k)))
  {
    var id := k.recipientId.parsed.value;
    var value := Element(48, KemFields(k, id));
    KnownOid(OtherRecipientInfoKem);
    UnmarshalMarshal(6, OidOctets(OtherRecipientInfoKem), value);
    RawWritten(48, KemFields(k, id), []);
    assert value + [] == value;
    KemRead(k);
  }

  /** An entry is read by its tag. */
  lemma EntryTold(tag: byte, fields: seq<byte>)
    requires tag == 48 || tag == 0xA4
    requires |fields| < 0x8000_0000
    ensures var bs := Element(tag, fields);
            UnmarshalEntry(bs) == if tag == 48 then KeyTrans(Entirely(UnmarshalKeyTrans(bs)))
                                  else Other(true, UnmarshalOther(fields))
  {
    RawWritten(tag, fields, []);
    assert Element(tag, fields) + [] == Element(tag, fields);
  }

  /** An entry whose issuer is one element is read as it was written. */
  lemma EntryRead(info: RecipientInfo)
    requires Proper(info) && |EntryFields(info)| < 0x8000_0000 && IsElement(IdOf(info).issuerName)
    ensures UnmarshalEntry(EntryOctets(info)) == info
  {
    EntryTold(EntryTag(info), EntryFields(info));
    if info.KeyTrans? {
      KeyTransRead(info.info.value);
    } else {
      OtherRead(info.other.value.value.value);
    }
  }

  // ---------- the sizes of entries ----------

  /** Contents octets of an issuer and serial number. */
  function IdSize(id: IssuerAndSerial): nat {
    |NameOctets(id.issuerName)| + ElementSize(|IntegerOctets(id.serialNumber)|)
  }

  /** Contents octets of an entry with so many octets of issuer and serial number, of KEM ciphertext and of
      encrypted key. */
  function KeyTransSize(id: nat, key: nat): nat {
    3 + (ElementSize(id) + (13 + ElementSize(key)))
  }

  function KemSize(id: nat, ciphertext: nat, key: nat): nat {
    3 + (ElementSize(id) + (13 + (ElementSize(ciphertext) + (31 + ElementSize(key)))))
  }

  function OtherSize(id: nat, ciphertext: nat, key: nat): nat {
    13 + ElementSize(KemSize(id, ciphertext, key))
  }

  lemma IdHasSize(id: IssuerAndSerial)
    ensures |IdFields(id)| == IdSize(id)
    ensures |Element(48, IdFields(id))| == ElementSize(IdSize(id))
  {
    ElementHasSize(2, IntegerOctets(id.serialNumber));
    ElementHasSize(48, IdFields(id));
  }

  lemma AlgorithmHasSize(oid: Oid)
    requires Known(oid)
    ensures |AlgorithmField(oid)| == |OidOctets(oid)| + 4
  {
    KnownOid(oid);
    ElementHasSize(6, OidOctets(oid));
    ElementHasSize(48, Element(6, OidOctets(oid)));
  }

  lemma KeyTransHasSize(k: KeyTransInfo)
    requires k.algorithm == Plain(RsaEncryption)
    ensures |KeyTransFields(k)| == KeyTransSize(IdSize(k.id), |k.encryptedKey|)
  {
    IdHasSize(k.id);
    AlgorithmHasSize(RsaEncryption);
    ElementHasSize(4, k.encryptedKey);
    ElementHasSize(2, [0]);
  }

  lemma KemTailHasSize(k: KemInfo)
    requires k.kdf == Plain(HkdfSha256) && k.wrap == Plain(KeyWrapAes256)
    ensures |KemTail(k)| == 31 + ElementSize(|k.encryptedKey|)
  {
    AlgorithmHasSize(HkdfSha256);
    AlgorithmHasSize(KeyWrapAes256);
    ElementHasSize(4, k.encryptedKey);
    ElementHasSize(2, [KEK_LENGTH]);
  }

  lemma KemHasSize(k: KemInfo, id: IssuerAndSerial)
    requires k.kem == Plain(MlKem768) || k.kem == Plain(MlKem1024)
    requires k.kdf == Plain(HkdfSha256) && k.wrap == Plain(KeyWrapAes256)
    ensures |KemFields(k, id)| == KemSize(IdSize(id), |k.ciphertext|, |k.encryptedKey|)
  {
    IdHasSize(id);
    AlgorithmHasSize(k.kem.oid);
    ElementHasSize(4, k.ciphertext);
    KemTailHasSize(k);
    ElementHasSize(2, [0]);
  }

  lemma OtherHasSize(k: KemInfo, id: IssuerAndSerial)
    requires k.kem == Plain(MlKem768) || k.kem == Plain(MlKem1024)
    requires k.kdf == Plain(HkdfSha256) && k.wrap == Plain(KeyWrapAes256)
    ensures |OtherFields(k, id)| == OtherSize(IdSize(id), |k.ciphertext|, |k.encryptedKey|)
  {
    KemHasSize(k, id);
    ElementHasSize(48, KemFields(k, id));
    KnownOid(OtherRecipientInfoKem);
    ElementHasSize(6, OidOctets(OtherRecipientInfoKem));
  }

  /** The contents of an entry, counted from its parts. */
  lemma EntryHasSize(info: RecipientInfo)
    requires Proper(info)
    ensures |EntryFields(info)|
         == if info.KeyTrans? then KeyTransSize(IdSize(IdOf(info)), |info.info.value.encryptedKey|)
            else var k := info.other.value.value.value; OtherSize(IdSize(IdOf(info)), |k.ciphertext|, |k.encryptedKey|)
  {
    if info.KeyTrans? {
      KeyTransHasSize(info.info.value);
    } else {
      OtherHasSize(info.other.value.value.value, IdOf(info));
    }
  }
}
