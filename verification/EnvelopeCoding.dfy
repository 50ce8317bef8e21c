/** Enveloped messages on the wire: what asn1.Marshal makes of them in encrypt.go, and what Parse of
    pkcs7.go reads, through the transcoder of ber.go. */
module EnvelopeCoding {
  import opened Bytes
  import opened Sequences
  import opened Lengths
  import opened Grammar
  import opened BerPrinter
  import opened Ber2Der
  import opened Asn1
  import opened SetOrder
  import opened RecipientCoding
  import opened RecipientObjects

  /** Contents octets of the type 1.2.840.113549.1.7.3. */
  const ENVELOPED_DATA: seq<byte> := [0x2A, 0x86, 0x48, 0x86, 0xF7, 0x0D, 1, 7, 3]

  datatype ContentAlgorithm =
    | DesCbc | DesEde3Cbc | Aes128Cbc | Aes256Cbc | Aes128Gcm | Aes256Gcm | OtherAlgorithm(oid: seq<byte>)

  predicate IsGcm(a: ContentAlgorithm) {
    a == Aes128Gcm || a == Aes256Gcm
  }

  /** Contents octets of the algorithm's object identifier. */
  function OidOf(a: ContentAlgorithm): seq<byte> {
    match a
    case DesCbc => [0x2B, 14, 3, 2, 7]
    case DesEde3Cbc => [0x2A, 0x86, 0x48, 0x86, 0xF7, 0x0D, 3, 7]
    case Aes128Cbc => [0x60, 0x86, 0x48, 1, 0x65, 3, 4, 1, 2]
    case Aes256Cbc => [0x60, 0x86, 0x48, 1, 0x65, 3, 4, 1, 42]
    case Aes128Gcm => [0x60, 0x86, 0x48, 1, 0x65, 3, 4, 1, 6]
    case Aes256Gcm => [0x60, 0x86, 0x48, 1, 0x65, 3, 4, 1, 46]
    case OtherAlgorithm(oid) => oid
  }

  function AlgorithmWithOid(oid: seq<byte>): ContentAlgorithm {
    if oid == OidOf(DesCbc) then DesCbc
    else if oid == OidOf(DesEde3Cbc) then DesEde3Cbc
    else if oid == OidOf(Aes128Cbc) then Aes128Cbc
    else if oid == OidOf(Aes256Cbc) then Aes256Cbc
    else if oid == OidOf(Aes128Gcm) then Aes128Gcm
    else if oid == OidOf(Aes256Gcm) then Aes256Gcm
    else OtherAlgorithm(oid)
  }

  lemma OidTells(a: ContentAlgorithm)
    requires !a.OtherAlgorithm?
    ensures AlgorithmWithOid(OidOf(a)) == a && |OidOf(a)| <= 9
  {
    var oid := OidOf(a);
    if a == Aes128Cbc || a == Aes256Cbc || a == Aes128Gcm || a == Aes256Gcm {
      assert oid[8] == if a == Aes128Cbc then 2 else if a == Aes256Cbc then 42 else if a == Aes128Gcm then 6 else 46;
    } else if a == DesEde3Cbc {
      assert |oid| == 8;
    }
  }

  /** `parameters` are the contents octets of the algorithm parameters; `octets` those of the
      encrypted content, which `compound` tells to be constructed. */
  datatype EncryptedContentInfo = EncryptedContentInfo(
    algorithm: ContentAlgorithm, parameters: seq<byte>, compound: bool, octets: seq<byte>)

  datatype EnvelopedData = EnvelopedData(
    version: int, recipientInfos: seq<RecipientInfo>, content: EncryptedContentInfo)

  /** Entries that the program makes for certificates whose issuer is one element. */
  ghost predicate AllElements(infos: seq<RecipientInfo>) {
    forall i | 0 <= i < |infos| :: Proper(infos[i]) && IsElement(IdOf(infos[i]).issuerName)
  }

  // ---------- GCM parameters ----------

  function GcmOctets(nonce: seq<byte>, icvLength: byte): seq<byte> {
    Element(48, Element(0x84, nonce) + Element(2, [icvLength]))
  }

  /** Nonce and tag length, where the octets are such parameters. */
  function GcmParameters(octets: seq<byte>): Option<(seq<byte>, int)> {
    var (fields, _) :- UnmarshalElement(48, octets);
    var (nonce, more) :- UnmarshalElement(0x84, fields);
    var (icv, _) :- UnmarshalElement(2, more);
    var icvLength :- UnmarshalInteger(icv);
    Some((nonce, icvLength))
  }

  lemma GcmParametersRead(nonce: seq<byte>, icvLength: byte)
    requires |nonce| == 12 && icvLength < 128
    ensures GcmParameters(GcmOctets(nonce, icvLength)) == Some((nonce, icvLength as int))
    ensures |GcmOctets(nonce, icvLength)| == 19 && GcmOctets(nonce, icvLength)[4..16] == nonce
  {
    var icv := Element(2, [icvLength]);
    GcmOctetsAre(nonce, icvLength);
    UnmarshalAlone(2, [icvLength]);
    UnmarshalMarshal(0x84, nonce, icv);
    UnmarshalAlone(48, Element(0x84, nonce) + icv);
  }

  lemma GcmOctetsAre(nonce: seq<byte>, icvLength: byte)
    requires |nonce| == 12
    ensures GcmOctets(nonce, icvLength) == [48, 17, 0x84, 12] + nonce + [2, 1, icvLength]
  {
    assert Element(0x84, nonce) == [0x84, 12] + nonce;
  }

  // ---------- marshalling ----------

  function ParameterTag(a: ContentAlgorithm): byte {
    if IsGcm(a) then 16 else 4
  }

  function AlgorithmOctets(info: EncryptedContentInfo): seq<byte> {
    Element(6, OidOf(info.algorithm)) + Element(ParameterTag(info.algorithm), info.parameters)
  }

  function ContentInfoOctets(info: EncryptedContentInfo): seq<byte> {
    Element(6, DATA) + (Element(48, AlgorithmOctets(info)) + Element(if info.compound then 0xA0 else 0x80, info.octets))
  }

  function EnvelopeOctets(e: EnvelopedData): seq<byte>
    requires 0 <= e.version < 128
  {
    Element(2, [e.version]) + (EncodedSet(Map(EntryOctets, e.recipientInfos)) + Element(48, ContentInfoOctets(e.content)))
  }

  function MessageOctets(e: EnvelopedData): seq<byte>
    requires 0 <= e.version < 128
  {
    Element(6, ENVELOPED_DATA) + Element(0xA0, Element(48, EnvelopeOctets(e)))
  }

  /** The whole message. */
  function MarshalledMessage(e: EnvelopedData): seq<byte>
    requires 0 <= e.version < 128
  {
    Element(48, MessageOctets(e))
  }

  // ---------- unmarshalling ----------

  function UnmarshalContentInfo(bs: seq<byte>): Option<EncryptedContentInfo> {
    var (_, afterType) :- UnmarshalElement(6, bs);
    var (algorithm, afterAlgorithm) :- UnmarshalElement(48, afterType);
    var (oid, parameters) :- UnmarshalElement(6, algorithm);
    var p :- if parameters == [] then Some([]) else ContentsOf(parameters);
    var (compound, octets) :- EncryptedContent(afterAlgorithm);
    Some(EncryptedContentInfo(AlgorithmWithOid(oid), p, compound, octets))
  }

  /** Contents of the element at the front, whatever its tag. */
  function ContentsOf(bs: seq<byte>): Option<seq<byte>> {
    var (_, contents, _) :- ReadElement(bs);
    Some(contents)
  }

  /** The optional encrypted content: another element in its place is ignored. */
  function EncryptedContent(bs: seq<byte>): Option<(bool, seq<byte>)> {
    if bs == [] then Some((false, [])) else
      var (tag, octets, _) :- ReadElement(bs);
      Some(if tag == [0xA0] then (true, octets) else if tag == [0x80] then (false, octets) else (false, []))
  }

  /** The version, and the contents of the other two fields of an envelope. */
  function UnmarshalFields(bs: seq<byte>): Option<(int, seq<byte>, seq<byte>)> {
    var (version, afterVersion) :- UnmarshalInt(bs);
    var (members, afterSet) :- UnmarshalElement(49, afterVersion);
    var (content, _) :- UnmarshalElement(48, afterSet);
    Some((version, members, content))
  }

  function UnmarshalEnvelope(bs: seq<byte>): Option<EnvelopedData> {
    var (version, members, content) :- UnmarshalFields(bs);
    var elements :- UnmarshalAll(members);
    var info :- UnmarshalContentInfo(content);
    Some(EnvelopedData(version, Map(UnmarshalEntry, elements), info))
  }

  /** The type, and the contents of the content. */
  function UnmarshalWrapper(fields: seq<byte>): Option<(seq<byte>, seq<byte>)> {
    var (kind, afterKind) :- UnmarshalElement(6, fields);
    var (content, _) :- UnmarshalElement(0xA0, afterKind);
    Some((kind, content))
  }

  function UnmarshalContent(fields: seq<byte>): Option<EnvelopedData> {
    var (kind, content) :- UnmarshalWrapper(fields);
    var (envelope, _) :- UnmarshalElement(48, content);
    if kind != ENVELOPED_DATA then None else UnmarshalEnvelope(envelope)
  }

  function UnmarshalMessage(bs: seq<byte>): Option<EnvelopedData> {
    var (fields, rest) :- UnmarshalElement(48, bs);
    if rest != [] then None else UnmarshalContent(fields)
  }

  /** What Parse makes of an enveloped message. */
  ghost function ParsedMessage(data: seq<byte>): Result<EnvelopedData> {
    match Transcode(data)
    case Err => Err
    case Ok(der) => match UnmarshalMessage(der) case None => Err case Some(e) => Ok(e)
  }

  method Parse(data: seq<byte>) returns (r: Result<EnvelopedData>)
    ensures r == ParsedMessage(data)
  {
    var der, calls, written := Ber2Der.Ber2Der(data);
    if der.Err? {
      return Err;
    }
    var e := UnmarshalMessage(der.value);
    return if e.Some? then Ok(e.value) else Err;
  }

  // ---------- what was marshalled is read ----------

  lemma ContentInfoRead(info: EncryptedContentInfo)
    requires !info.algorithm.OtherAlgorithm? && info.compound
    requires |ContentInfoOctets(info)| < 0x8000_0000
    ensures UnmarshalContentInfo(ContentInfoOctets(info)) == Some(info)
  {
    AlgorithmRead(info.algorithm, info.parameters);
    OidTells(info.algorithm);
    ContentFieldsRead(AlgorithmOctets(info), info.octets);
  }

  lemma AlgorithmRead(a: ContentAlgorithm, parameters: seq<byte>)
    requires !a.OtherAlgorithm? && |parameters| < 0x8000_0000
    ensures var field := Element(ParameterTag(a), parameters);
            && UnmarshalElement(6, Element(6, OidOf(a)) + field) == Some((OidOf(a), field))
            && field != [] && ContentsOf(field) == Some(parameters)
  {
    OidTells(a);
    UnmarshalMarshal(6, OidOf(a), Element(ParameterTag(a), parameters));
    ElementAlone(ParameterTag(a), parameters);
  }

  lemma ContentFieldsRead(algorithm: seq<byte>, octets: seq<byte>)
    requires |algorithm| < 0x8000_0000 && |octets| < 0x8000_0000
    ensures var content := Element(0xA0, octets);
            && UnmarshalElement(6, Element(6, DATA) + (Element(48, algorithm) + content)) == Some((DATA, Element(48, algorithm) + content))
            && UnmarshalElement(48, Element(48, algorithm) + content) == Some((algorithm, content))
            && EncryptedContent(content) == Some((true, octets))
  {
    UnmarshalMarshal(6, DATA, Element(48, algorithm) + Element(0xA0, octets));
    UnmarshalMarshal(48, algorithm, Element(0xA0, octets));
    ElementAlone(0xA0, octets);
  }

  lemma ElementAlone(tag: byte, content: seq<byte>)
    requires tag % 32 != 31 && |content| < 0x8000_0000
    ensures ReadElement(Element(tag, content)) == Some(([tag], content, []))
  {
    ReadWritten([tag], content, []);
    assert Element(tag, content) + [] == Element(tag, content);
  }

  /** The entries in the order in which they are written. */
  function InOrder(infos: seq<RecipientInfo>): seq<RecipientInfo> {
    Sorting(infos, EntryOctets)
  }

  lemma StillElements(infos: seq<RecipientInfo>)
    requires AllElements(infos)
    ensures AllElements(InOrder(infos))
  {
    SortingSorts(infos, EntryOctets);
    var sorted := InOrder(infos);
    forall i | 0 <= i < |sorted|
      ensures Proper(sorted[i]) && IsElement(IdOf(sorted[i]).issuerName)
    {
      assert sorted[i] in multiset(infos);
    }
  }

  predicate AllWellFormed(os: seq<Obj>) {
    forall i | 0 <= i < |os| :: WellFormed(os[i])
  }

  /** A list that is written as printed objects. */
  lemma {:induction false} MapPrinted<A>(f: A -> seq<byte>, g: A -> Obj, s: seq<A>)
    requires forall i | 0 <= i < |s| :: f(s[i]) == Encode(g(s[i]))
    ensures Concat(Map(f, s)) == EncodeAll(Map(g, s))
  {
    if s == [] {
    } else {
      MapPrinted(f, g, s[1..]);
      FirstOfMap(f, s);
      FirstOfMap(g, s);
    }
  }

  /** It is read back if each of its elements is. */
  lemma MapRead<A>(f: A -> seq<byte>, g: A -> Obj, read: seq<byte> -> A, s: seq<A>)
    requires forall i | 0 <= i < |s| :: f(s[i]) == Encode(g(s[i])) && WellFormed(g(s[i])) && ShortestTag(g(s[i]).tag)
    requires forall i | 0 <= i < |s| :: read(f(s[i])) == s[i]
    requires |Concat(Map(f, s))| < 0x8000_0000
    ensures var elements := UnmarshalAll(Concat(Map(f, s))); elements.Some? && Map(read, elements.value) == s
  {
    var objects := Map(g, s);
    MapPrinted(f, g, s);
    forall i | 0 <= i < |objects|
      ensures Readable(objects[i])
    {
      PartShorter(objects, i);
    }
    UnmarshalAllPrinted(objects);
    assert Map(read, Map(Encode, objects)) == s;
  }

  lemma {:induction false} EntryOfMembers<A>(f: A -> seq<byte>, s: seq<A>, i: nat)
    requires i < |s|
    ensures |f(s[i])| <= |Concat(Map(f, s))|
  {
    FirstOfMap(f, s);
    if i == 0 {
    } else {
      EntryOfMembers(f, s[1..], i - 1);
    }
  }

  /** Contents of the set of entries. */
  function Members(infos: seq<RecipientInfo>): seq<byte> {
    Concat(Map(EntryOctets, InOrder(infos)))
  }

  lemma SetHolds(infos: seq<RecipientInfo>)
    ensures EncodedSet(Map(EntryOctets, infos)) == Element(49, Members(infos))
    ensures multiset(InOrder(infos)) == multiset(infos) && |Members(infos)| == InfosSize(infos)
  {
    MapSorting(EntryOctets, infos, Itself, EntryOctets);
    SortingSorts(infos, EntryOctets);
    SortingSorts(Map(EntryOctets, infos), Itself);
    ConcatSize(Sorting(Map(EntryOctets, infos), Itself), Map(EntryOctets, infos));
  }

  /** Octets of the entries. */
  function InfosSize(infos: seq<RecipientInfo>): nat {
    |Concat(Map(EntryOctets, infos))|
  }

  /** The objects that are printed as the entries. */
  ghost function Objects(infos: seq<RecipientInfo>): (os: seq<Obj>)
    ensures |os| == |infos|
  {
    SetHolds(infos);
    SameSize(InOrder(infos), infos);
    Map(ObjectOf, InOrder(infos))
  }

  /** An entry and its object. */
  ghost predicate IsPrinted(info: RecipientInfo) {
    var o := ObjectOf(info);
    WellFormed(o) && ShortestTag(o.tag) && EntryOctets(info) == Encode(o)
  }

  lemma EntryIsPrinted(info: RecipientInfo)
    requires Proper(info) && IsElement(IdOf(info).issuerName)
    ensures IsPrinted(info)
  {
    EntryPrinted(info, IssuerOf(info));
  }

  lemma MembersPrinted(infos: seq<RecipientInfo>)
    requires AllElements(infos)
    ensures Members(infos) == EncodeAll(Objects(infos)) && AllWellFormed(Objects(infos))
  {
    var sorted := InOrder(infos);
    StillElements(infos);
    forall i | 0 <= i < |sorted|
      ensures IsPrinted(sorted[i])
    {
      EntryIsPrinted(sorted[i]);
    }
    MapPrinted(EntryOctets, ObjectOf, sorted);
  }

  lemma EnvelopeRead(e: EnvelopedData)
    requires AllElements(e.recipientInfos) && 0 <= e.version < 128
    requires !e.content.algorithm.OtherAlgorithm? && e.content.compound
    requires |EnvelopeOctets(e)| < 0x8000_0000
    ensures UnmarshalEnvelope(EnvelopeOctets(e))
         == Some(e.(recipientInfos := InOrder(e.recipientInfos)))
  {
    SetHolds(e.recipientInfos);
    InfosRead(e.recipientInfos);
    ContentInfoRead(e.content);
    FieldsRead(e.version, Members(e.recipientInfos), ContentInfoOctets(e.content));
  }

  /** The three fields of an envelope are told apart. */
  lemma FieldsRead(version: byte, members: seq<byte>, content: seq<byte>)
    requires version < 128 && |members| < 0x8000_0000 && |content| < 0x8000_0000
    ensures UnmarshalFields(Element(2, [version]) + (Element(49, members) + Element(48, content)))
         == Some((version as int, members, content))
  {
    SmallRead(version, Element(49, members) + Element(48, content));
    UnmarshalMarshal(49, members, Element(48, content));
    UnmarshalAlone(48, content);
  }

  lemma InfosRead(infos: seq<RecipientInfo>)
    requires AllElements(infos) && |Members(infos)| < 0x8000_0000
    ensures var elements := UnmarshalAll(Members(infos));
            elements.Some? && Map(UnmarshalEntry, elements.value) == InOrder(infos)
  {
    var sorted := InOrder(infos);
    StillElements(infos);
    forall i | 0 <= i < |sorted|
      ensures IsPrinted(sorted[i]) && UnmarshalEntry(EntryOctets(sorted[i])) == sorted[i]
    {
      EntryIsPrinted(sorted[i]);
      EntryOfMembers(EntryOctets, sorted, i);
      ShortEntryRead(sorted[i]);
    }
    MapRead(EntryOctets, ObjectOf, UnmarshalEntry, sorted);
  }

  lemma ShortEntryRead(info: RecipientInfo)
    requires Proper(info) && IsElement(IdOf(info).issuerName) && |EntryOctets(info)| < 0x8000_0000
    ensures UnmarshalEntry(EntryOctets(info)) == info
  {
    EntryRead(info);
  }

  /** Marshalled messages are unmarshalled, with the entries in the order in which they are written. */
  lemma MessageRead(e: EnvelopedData)
    requires AllElements(e.recipientInfos) && 0 <= e.version < 128
    requires !e.content.algorithm.OtherAlgorithm? && e.content.compound
    requires |MessageOctets(e)| < 0x8000_0000
    ensures UnmarshalMessage(MarshalledMessage(e))
         == Some(e.(recipientInfos := InOrder(e.recipientInfos)))
  {
    EnvelopeRead(e);
    WrapperRead(EnvelopeOctets(e));
  }

  lemma WrapperRead(envelope: seq<byte>)
    requires var fields := Element(6, ENVELOPED_DATA) + Element(0xA0, Element(48, envelope)); |fields| < 0x8000_0000
    ensures var fields := Element(6, ENVELOPED_DATA) + Element(0xA0, Element(48, envelope));
            UnmarshalMessage(Element(48, fields)) == UnmarshalEnvelope(envelope)
  {
    var content := Element(48, envelope);
    UnmarshalAlone(48, Element(6, ENVELOPED_DATA) + Element(0xA0, content));
    UnmarshalMarshal(6, ENVELOPED_DATA, Element(0xA0, content));
    UnmarshalAlone(0xA0, content);
    UnmarshalAlone(48, envelope);
  }

  // ---------- the message as an object ----------

  /** The objects that are printed as the message, its encrypted content being one OCTET STRING. */
  function ContentInfoParts(info: EncryptedContentInfo, ciphertext: seq<byte>): seq<Obj> {
    [Prim([6], DATA),
     Cons([48], [Prim([6], OidOf(info.algorithm)), Prim([ParameterTag(info.algorithm)], info.parameters)]),
     Cons([0xA0], [Prim([4], ciphertext)])]
  }

  function EnvelopeParts(e: EnvelopedData, infos: seq<Obj>, ciphertext: seq<byte>): seq<Obj>
    requires 0 <= e.version < 128
  {
    [Prim([2], [e.version]),
     Cons([49], infos),
     Cons([48], ContentInfoParts(e.content, ciphertext))]
  }

  function Message(e: EnvelopedData, infos: seq<Obj>, ciphertext: seq<byte>): Obj
    requires 0 <= e.version < 128
  {
    Cons([48], [Prim([6], ENVELOPED_DATA), Cons([0xA0], [Cons([48], EnvelopeParts(e, infos, ciphertext))])])
  }

  lemma ContentInfoPrinted(info: EncryptedContentInfo, ciphertext: seq<byte>)
    requires info.compound && info.octets == OctetString(ciphertext)
    ensures ContentInfoOctets(info) == EncodeAll(ContentInfoParts(info, ciphertext))
  {
    var oid, parameters := Prim([6], OidOf(info.algorithm)), Prim([ParameterTag(info.algorithm)], info.parameters);
    var octets := Prim([4], ciphertext);
    ElementIsPrinted(6, DATA);
    ElementIsPrinted(6, OidOf(info.algorithm));
    ElementIsPrinted(ParameterTag(info.algorithm), info.parameters);
    ElementIsPrinted(4, ciphertext);
    PrintedTwo(oid, parameters);
    ElementOfParts(48, [oid, parameters]);
    PrintedOne(octets);
    ElementOfParts(0xA0, [octets]);
    PrintedThree(Prim([6], DATA), Cons([48], [oid, parameters]), Cons([0xA0], [octets]));
  }

  lemma EnvelopePrinted(e: EnvelopedData, infos: seq<Obj>, ciphertext: seq<byte>)
    requires 0 <= e.version < 128 && e.content.compound && e.content.octets == OctetString(ciphertext)
    requires Members(e.recipientInfos) == EncodeAll(infos)
    ensures EnvelopeOctets(e) == EncodeAll(EnvelopeParts(e, infos, ciphertext))
  {
    var parts := ContentInfoParts(e.content, ciphertext);
    SetHolds(e.recipientInfos);
    ContentInfoPrinted(e.content, ciphertext);
    ElementIsPrinted(2, [e.version]);
    ElementOfParts(49, infos);
    ElementOfParts(48, parts);
    PrintedThree(Prim([2], [e.version]), Cons([49], infos), Cons([48], parts));
  }

  /** Marshalling a message is printing that object, where the entries are printed objects. */
  lemma MessagePrinted(e: EnvelopedData, infos: seq<Obj>, ciphertext: seq<byte>)
    requires 0 <= e.version < 128 && e.content.compound && e.content.octets == OctetString(ciphertext)
    requires Members(e.recipientInfos) == EncodeAll(infos)
    ensures MarshalledMessage(e) == Encode(Message(e, infos, ciphertext))
    ensures MessageOctets(e) == Contents(Message(e, infos, ciphertext))
  {
    var kind, envelope := Prim([6], ENVELOPED_DATA), Cons([48], EnvelopeParts(e, infos, ciphertext));
    EnvelopePrinted(e, infos, ciphertext);
    ElementIsPrinted(6, ENVELOPED_DATA);
    ElementOfParts(48, EnvelopeParts(e, infos, ciphertext));
    PrintedOne(envelope);
    ElementOfParts(0xA0, [envelope]);
    PrintedTwo(kind, Cons([0xA0], [envelope]));
    ElementOfParts(48, [kind, Cons([0xA0], [envelope])]);
  }

  lemma MessageWellFormed(e: EnvelopedData, infos: seq<Obj>, ciphertext: seq<byte>)
    requires AllWellFormed(infos) && 0 <= e.version < 128
    ensures WellFormed(Message(e, infos, ciphertext))
  {
    var parts := ContentInfoParts(e.content, ciphertext);
    assert WellFormed(Cons([49], infos));
    assert WellFormed(parts[1]) && WellFormed(parts[2]);
    assert WellFormed(Cons([48], parts));
    assert WellFormed(Cons([48], EnvelopeParts(e, infos, ciphertext)));
  }

  // ---------- its height and size ----------

  /** Entries that the parser can reach the bottom of. */
  predicate Shallow(o: Obj) {
    Height(o) + 4 <= MAX_NESTING_DEPTH
  }

  predicate AllShallow(os: seq<Obj>) {
    forall i | 0 <= i < |os| :: Shallow(os[i])
  }

  /** A message is nested no deeper than the parser allows exactly when its entries are not. */
  lemma MessageHeight(e: EnvelopedData, infos: seq<Obj>, ciphertext: seq<byte>)
    requires 0 <= e.version < 128
    ensures Height(Message(e, infos, ciphertext)) <= MAX_NESTING_DEPTH
            <==> AllShallow(infos)
  {
    var parts, envelope := ContentInfoParts(e.content, ciphertext), EnvelopeParts(e, infos, ciphertext);
    HeightAllIs(infos, MAX_NESTING_DEPTH - 3);
    ContentInfoHeight(e.content, ciphertext);
    HeightAllIs(envelope, MAX_NESTING_DEPTH - 2);
    assert Height(envelope[1]) == HeightAll(infos) && Height(envelope[2]) == HeightAll(parts);
    HeightAllIs([Cons([48], envelope)], MAX_NESTING_DEPTH - 1);
    HeightAllIs([Prim([6], ENVELOPED_DATA), Cons([0xA0], [Cons([48], envelope)])], MAX_NESTING_DEPTH);
  }

  lemma ContentInfoHeight(info: EncryptedContentInfo, ciphertext: seq<byte>)
    ensures HeightAll(ContentInfoParts(info, ciphertext)) <= 2
  {
    var parts := ContentInfoParts(info, ciphertext);
    HeightAllIs(parts[1].kids, 1);
    HeightAllIs(parts[2].kids, 1);
    HeightAllIs(parts, 2);
  }

  /** Contents octets of an encrypted content info, an envelope and a message with `oid` and `parameters`
      octets of algorithm, `ciphertext` octets of ciphertext and `infos` octets of entries. */
  function ContentInfoSize(oid: nat, parameters: nat, ciphertext: nat): nat {
    11 + (ElementSize(ElementSize(oid) + ElementSize(parameters)) + ElementSize(ElementSize(ciphertext)))
  }

  function EnvelopeSize(oid: nat, parameters: nat, ciphertext: nat, infos: nat): nat {
    3 + (ElementSize(infos) + ElementSize(ContentInfoSize(oid, parameters, ciphertext)))
  }

  function MessageSize(oid: nat, parameters: nat, ciphertext: nat, infos: nat): nat {
    11 + ElementSize(ElementSize(EnvelopeSize(oid, parameters, ciphertext, infos)))
  }

  lemma ContentInfoHasSize(info: EncryptedContentInfo, ciphertext: seq<byte>)
    requires info.compound && info.octets == OctetString(ciphertext)
    ensures |ContentInfoOctets(info)| == ContentInfoSize(|OidOf(info.algorithm)|, |info.parameters|, |ciphertext|)
  {
    ElementHasSize(6, OidOf(info.algorithm));
    ElementHasSize(ParameterTag(info.algorithm), info.parameters);
    ElementHasSize(48, AlgorithmOctets(info));
    ElementHasSize(4, ciphertext);
    ElementHasSize(0xA0, info.octets);
    assert |Element(6, DATA)| == 11;
  }

  lemma MessageHasSize(e: EnvelopedData, ciphertext: seq<byte>)
    requires 0 <= e.version < 128 && e.content.compound && e.content.octets == OctetString(ciphertext)
    ensures |MessageOctets(e)| == MessageSize(|OidOf(e.content.algorithm)|, |e.content.parameters|, |ciphertext|,
                                                     InfosSize(e.recipientInfos))
  {
    EnvelopeHasSize(e, ciphertext);
    ElementHasSize(48, EnvelopeOctets(e));
    ElementHasSize(0xA0, Element(48, EnvelopeOctets(e)));
    assert |Element(6, ENVELOPED_DATA)| == 11;
  }

  lemma EnvelopeHasSize(e: EnvelopedData, ciphertext: seq<byte>)
    requires 0 <= e.version < 128 && e.content.compound && e.content.octets == OctetString(ciphertext)
    ensures |EnvelopeOctets(e)| == EnvelopeSize(|OidOf(e.content.algorithm)|, |e.content.parameters|, |ciphertext|,
                                                       InfosSize(e.recipientInfos))
  {
    SetHolds(e.recipientInfos);
    ElementHasSize(49, Members(e.recipientInfos));
    ContentInfoHasSize(e.content, ciphertext);
    ElementHasSize(48, ContentInfoOctets(e.content));
    assert |Element(2, [e.version])| == 3;
  }

  // ---------- exactly what is read back ----------

  /** The issuer in an entry is nested no deeper than the parser allows there. */
  ghost predicate IssuerFits(info: RecipientInfo) {
    Proper(info) && NameUpTo(IdOf(info).issuerName, NameLimit(info.KeyTrans?))
  }

  ghost predicate IssuersFit(infos: seq<RecipientInfo>) {
    forall i | 0 <= i < |infos| :: IssuerFits(infos[i])
  }

  lemma FitIsShallow(infos: seq<RecipientInfo>)
    requires AllElements(infos) && |Members(infos)| < 0x8000_0000_0000_0000
    ensures IssuersFit(infos) <==> AllShallow(Objects(infos))
  {
    StillElements(infos);
    SetHolds(infos);
    SameMembers(infos, InOrder(infos));
    ListFits(InOrder(infos));
  }

  lemma ListFits(infos: seq<RecipientInfo>)
    requires AllElements(infos) && |Concat(Map(EntryOctets, infos))| < 0x8000_0000_0000_0000
    ensures IssuersFit(infos) <==> AllShallow(Map(ObjectOf, infos))
  {
    EachAlike(infos);
    Alike(infos, Map(ObjectOf, infos), IssuerFits, Shallow);
  }

  lemma EachAlike(infos: seq<RecipientInfo>)
    requires AllElements(infos) && |Concat(Map(EntryOctets, infos))| < 0x8000_0000_0000_0000
    ensures forall i | 0 <= i < |infos| :: IssuerFits(infos[i]) <==> Shallow(ObjectOf(infos[i]))
  {
    forall i | 0 <= i < |infos|
      ensures IssuerFits(infos[i]) <==> Shallow(ObjectOf(infos[i]))
    {
      EntryOfMembers(EntryOctets, infos, i);
      FitsIsShallow(infos[i]);
    }
  }

  lemma Alike<A, B>(s: seq<A>, t: seq<B>, p: A -> bool, q: B -> bool)
    requires |s| == |t| && forall i | 0 <= i < |s| :: p(s[i]) <==> q(t[i])
    ensures (forall i | 0 <= i < |s| :: p(s[i])) <==> forall i | 0 <= i < |t| :: q(t[i])
  {
  }

  lemma FitsIsShallow(info: RecipientInfo)
    requires Proper(info) && IsElement(IdOf(info).issuerName) && |EntryOctets(info)| < 0x8000_0000_0000_0000
    ensures IssuerFits(info) <==> Shallow(ObjectOf(info))
  {
    NameShorter(info);
    NameLimitIs(info);
  }

  lemma NameShorter(info: RecipientInfo)
    requires Proper(info)
    ensures |IdOf(info).issuerName| <= |EntryOctets(info)|
  {
  }

  lemma SameMembers(s: seq<RecipientInfo>, t: seq<RecipientInfo>)
    requires multiset(s) == multiset(t)
    ensures IssuersFit(s) <==> IssuersFit(t)
  {
    forall i | 0 <= i < |s|
      ensures s[i] in t
    {
      assert s[i] in multiset(t);
    }
    forall i | 0 <= i < |t|
      ensures t[i] in s
    {
      assert t[i] in multiset(s);
    }
  }

  /** A marshalled message whose issuers are elements is read back, with its entries in another order, exactly
      when its contents are below 2^31 octets and its issuers are nested no deeper than the parser allows; else
      it is rejected. */
  lemma MarshalledIsParsed(e: EnvelopedData, ciphertext: seq<byte>)
    requires AllElements(e.recipientInfos) && 0 <= e.version < 128
    requires !e.content.algorithm.OtherAlgorithm? && e.content.compound && e.content.octets == OctetString(ciphertext)
    requires |MarshalledMessage(e)| < 0x8000_0000_0000_0000
    ensures ParsedMessage(MarshalledMessage(e))
         == if |MessageOctets(e)| < 0x8000_0000 && IssuersFit(e.recipientInfos)
            then Ok(e.(recipientInfos := InOrder(e.recipientInfos)))
            else Err
  {
    var infos := Objects(e.recipientInfos);
    MembersPrinted(e.recipientInfos);
    MessagePrinted(e, infos, ciphertext);
    MessageWellFormed(e, infos, ciphertext);
    MessageHeight(e, infos, ciphertext);
    PrintedIsRead(Message(e, infos, ciphertext));
    SetHolds(e.recipientInfos);
    FitIsShallow(e.recipientInfos);
    if |MessageOctets(e)| < 0x8000_0000 {
      MessageRead(e);
    }
  }

  /** A message with contents of 2^31 octets or more is rejected, whatever the issuers are. */
  lemma LongMessageRejected(e: EnvelopedData)
    requires 0 <= e.version < 128 && 0x8000_0000 <= |MessageOctets(e)| < 0x8000_0000_0000_0000
    ensures ParsedMessage(MarshalledMessage(e)).Err?
  {
    LongElementRejected(MessageOctets(e));
  }

  lemma LongElementRejected(content: seq<byte>)
    requires 0x8000_0000 <= |content| < 0x8000_0000_0000_0000
    ensures Transcode(Element(48, content)).Err?
  {
    LongRejected([48], content);
    assert Element(48, content) == [48] + (EncodedLength(|content|) + content);
  }
}
