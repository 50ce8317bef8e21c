/** Which issuers Parse can yield in the entries of an enveloped message: only elements that are not nested too
    deep, whatever was written in their place. */
module EnvelopeIssuers {
  import opened Bytes
  import opened Sequences
  import opened Lengths
  import opened Grammar
  import opened BerPrinter
  import opened Ber2Der
  import opened Asn1
  import opened Certificates
  import opened RecipientCoding
  import opened RecipientObjects
  import opened Recipients
  import opened EnvelopeCoding

  // ---------- what is read of a transcoded message ----------

  /** The object is the outside of an enveloped message: its entries are found in it. */
  predicate HasEntries(o: Obj) {
    && o.Cons? && |o.kids| >= 2
    && o.kids[1].Cons? && |o.kids[1].kids| >= 1
    && HasSet(o.kids[1].kids[0])
  }

  predicate HasSet(envelope: Obj) {
    envelope.Cons? && |envelope.kids| >= 2 && envelope.kids[1].Cons?
  }

  function EntriesOf(o: Obj): seq<Obj>
    requires HasEntries(o)
  {
    o.kids[1].kids[0].kids[1].kids
  }

  lemma FieldsNext(os: seq<Obj>, height: int)
    requires Printed(os, height) && UnmarshalFields(EncodeAll(os)).Some?
    ensures |os| >= 2 && os[1].Cons? && Printed(os[1].kids, height - 1)
    ensures UnmarshalFields(EncodeAll(os)).value.1 == EncodeAll(os[1].kids)
  {
    IntNext(os, height);
    Next(49, os[1..], height);
  }

  lemma EnvelopeNext(os: seq<Obj>, height: int)
    requires Printed(os, height) && UnmarshalEnvelope(EncodeAll(os)).Some?
    ensures |os| >= 2 && os[1].Cons? && Printed(os[1].kids, height - 1)
    ensures UnmarshalAll(EncodeAll(os[1].kids)).Some?
    ensures UnmarshalEnvelope(EncodeAll(os)).value.recipientInfos
         == Map(UnmarshalEntry, UnmarshalAll(EncodeAll(os[1].kids)).value)
  {
    FieldsNext(os, height);
  }

  lemma WrapperNext(os: seq<Obj>, height: int)
    requires Printed(os, height) && UnmarshalWrapper(EncodeAll(os)).Some?
    ensures |os| >= 2 && os[1].Cons? && Printed(os[1].kids, height - 1)
    ensures UnmarshalWrapper(EncodeAll(os)).value.1 == EncodeAll(os[1].kids)
  {
    Next(6, os, height);
    Next(0xA0, os[1..], height);
  }

  lemma ContentNext(os: seq<Obj>, height: int)
    requires Printed(os, height) && UnmarshalContent(EncodeAll(os)).Some?
    ensures |os| >= 2 && os[1].Cons? && |os[1].kids| >= 1 && HasSet(os[1].kids[0])
    ensures var entries := os[1].kids[0].kids[1].kids;
            && Printed(entries, height - 3) && UnmarshalAll(EncodeAll(entries)).Some?
            && UnmarshalContent(EncodeAll(os)).value.recipientInfos == Map(UnmarshalEntry, UnmarshalAll(EncodeAll(entries)).value)
  {
    WrapperNext(os, height);
    Next(48, os[1].kids, height - 1);
    EnvelopeNext(os[1].kids[0].kids, height - 2);
  }

  /** The entries that are read are those of the message's object, each read from what is printed for it. */
  lemma EntriesNext(o: Obj, height: nat)
    requires WellFormed(o) && |Encode(o)| < 0x8000_0000_0000_0000 && Height(o) <= height
    requires UnmarshalMessage(Encode(o)).Some?
    ensures HasEntries(o) && Printed(EntriesOf(o), height - 3)
    ensures UnmarshalMessage(Encode(o)).value.recipientInfos == Map(UnmarshalEntry, Map(Encode, EntriesOf(o)))
  {
    PrintedOne(o);
    HeightAllIs([o], height + 1);
    Next(48, [o], height + 1);
    ContentNext(o.kids, height);
    var entries := EntriesOf(o);
    forall i | 0 <= i < |entries|
      ensures WellFormed(entries[i]) && |Contents(entries[i])| < 0x8000_0000_0000_0000
    {
      PartShorter(entries, i);
    }
    UnmarshalAllPrinted(entries);
  }

  /** The entries that are parsed are read from objects that are nested at most 496 deep. */
  lemma ParsedEntries(data: seq<byte>, c: Tlv)
    requires ParsedMessage(data).Ok? && |Transcode(data).value| < 0x8000_0000_0000_0000
    requires StartsWith(data, c, 0)
    ensures var infos := ParsedMessage(data).value.recipientInfos;
            && HasEntries(Meaning(c)) && |EntriesOf(Meaning(c))| == |infos|
            && forall i | 0 <= i < |infos| :: IssuersUpTo(infos[i], EntriesOf(Meaning(c))[i], MAX_NESTING_DEPTH - 4)
  {
    var o := Meaning(c);
    TranscodeIs(data, c);
    MeaningWellFormed(c);
    NestedHeight(c, 0);
    EntriesNext(o, MAX_NESTING_DEPTH);
    var entries := EntriesOf(o);
    forall i | 0 <= i < |entries|
      ensures IssuersUpTo(UnmarshalEntry(Encode(entries[i])), entries[i], MAX_NESTING_DEPTH - 4)
    {
      PartShorter(entries, i);
      HeightAllAt(entries, i);
      EntryIssuers(entries[i], MAX_NESTING_DEPTH - 4);
    }
  }

  // ---------- what is transcoded of a marshalled message ----------

  /** An encoding found where an element was marshalled is that element, in definite form. */
  lemma AtElement(c: Tlv, tag: byte, content: seq<byte>, rest: seq<byte>)
    requires Grammatical(c) && tag % 32 != 31 && |content| < 0x8000_0000
    requires Starts(Element(tag, content) + rest, Flatten(c))
    ensures Flatten(c) == Element(tag, content) && c.tag == [tag]
    ensures !c.Indefinite? && Body(c) == content && c.Primitive? == !ConstructedBit([tag])
  {
    EncodedLengthAccepted(|content|);
    AtHeader(c, [tag], EncodedLength(|content|), content, rest);
  }

  lemma AtHeader(c: Tlv, tag: seq<byte>, field: seq<byte>, content: seq<byte>, rest: seq<byte>)
    requires Grammatical(c) && TagOctets(tag) && DefiniteLength(field, |content|)
    requires Starts(tag + field + content + rest, Flatten(c))
    ensures Flatten(c) == tag + field + content && c.tag == tag
    ensures !c.Indefinite? && Body(c) == content && c.Primitive? == !ConstructedBit(tag)
  {
    var s := tag + field + content + rest;
    Header(tag + field, content, rest);
    HeaderUnique(s, c, tag, field, |content|, false);
  }

  lemma Header(header: seq<byte>, content: seq<byte>, rest: seq<byte>)
    ensures var s := header + content + rest; Starts(s, header) && s[|header|..][..|content|] == content
  {
  }

  /** Of encodings that flatten to an element and a rest, the first is the element. */
  lemma Front(cs: seq<Tlv>, tag: byte, content: seq<byte>, rest: seq<byte>)
    requires forall i | 0 <= i < |cs| :: Grammatical(cs[i])
    requires tag % 32 != 31 && |content| < 0x8000_0000 && FlattenAll(cs) == Element(tag, content) + rest
    ensures cs != [] && FlattenAll(cs[1..]) == rest
    ensures Flatten(cs[0]) == Element(tag, content) && cs[0].tag == [tag]
    ensures !cs[0].Indefinite? && Body(cs[0]) == content && cs[0].Primitive? == !ConstructedBit([tag])
  {
    assert (Flatten(cs[0]) + FlattenAll(cs[1..]))[..|Flatten(cs[0])|] == Flatten(cs[0]);
    AtElement(cs[0], tag, content, rest);
  }

  lemma FirstKid(c: Tlv, tag: byte, content: seq<byte>) returns (d: Tlv)
    requires Grammatical(c) && c.Definite? && tag in CONSTRUCTED && |content| < 0x8000_0000
    requires Body(c) == Element(tag, content)
    ensures Grammatical(d) && d.Definite? && d.tag == [tag] && Body(d) == content
    ensures |Meaning(c).kids| >= 1 && Meaning(c).kids[0] == Meaning(d)
  {
    assert Body(c) == Element(tag, content) + [];
    FormOfTag(tag);
    Front(c.parts, tag, content, []);
    d := c.parts[0];
    MeaningAllAt(c.parts, 0);
  }

  lemma FormOfTag(tag: byte)
    requires tag in CONSTRUCTED
    ensures tag % 32 != 31 && ConstructedBit([tag])
  {
    assert tag == 48 || tag == 49 || tag == 0xA0 || tag == 0xA4;
  }

  lemma SecondKid(c: Tlv, first: byte, head: seq<byte>, tag: byte, content: seq<byte>, rest: seq<byte>) returns (d: Tlv)
    requires Grammatical(c) && c.Definite? && first % 32 != 31 && tag in CONSTRUCTED
    requires |head| < 0x8000_0000 && |content| < 0x8000_0000
    requires Body(c) == Element(first, head) + (Element(tag, content) + rest)
    ensures Grammatical(d) && d.Definite? && d.tag == [tag] && Body(d) == content
    ensures |Meaning(c).kids| >= 2 && Meaning(c).kids[1] == Meaning(d)
  {
    Front(c.parts, first, head, Element(tag, content) + rest);
    FormOfTag(tag);
    Front(c.parts[1..], tag, content, rest);
    d := c.parts[1];
    MeaningAllAt(c.parts, 1);
  }

  /** The encodings of the entries of a marshalled message, and where they are found. */
  lemma MessageTrace(e: EnvelopedData, c: Tlv) returns (cs: seq<Tlv>)
    requires 0 <= e.version < 128 && |MessageOctets(e)| < 0x8000_0000
    requires Grammatical(c) && Starts(MarshalledMessage(e), Flatten(c))
    ensures HasEntries(Meaning(c)) && EntriesOf(Meaning(c)) == MeaningAll(cs)
    ensures FlattenAll(cs) == Members(e.recipientInfos) && forall i | 0 <= i < |cs| :: Grammatical(cs[i])
  {
    assert MarshalledMessage(e) == Element(48, MessageOctets(e)) + [];
    FormOfTag(48);
    AtElement(c, 48, MessageOctets(e), []);
    var envelope := WrapperTrace(c, EnvelopeOctets(e));
    SetHolds(e.recipientInfos);
    var entries := SecondKid(envelope, 2, [e.version], 49, Members(e.recipientInfos), Element(48, ContentInfoOctets(e.content)));
    cs := entries.parts;
  }

  lemma WrapperTrace(c: Tlv, envelope: seq<byte>) returns (d: Tlv)
    requires Grammatical(c) && c.Definite? && |Body(c)| < 0x8000_0000
    requires Body(c) == Element(6, ENVELOPED_DATA) + Element(0xA0, Element(48, envelope))
    ensures Grammatical(d) && d.Definite? && Body(d) == envelope
    ensures |Meaning(c).kids| >= 2 && Meaning(c).kids[1].Cons?
    ensures |Meaning(c).kids[1].kids| >= 1 && Meaning(c).kids[1].kids[0] == Meaning(d)
  {
    assert Body(c) == Element(6, ENVELOPED_DATA) + (Element(0xA0, Element(48, envelope)) + []);
    var wrapper := SecondKid(c, 6, ENVELOPED_DATA, 0xA0, Element(48, envelope), []);
    d := FirstKid(wrapper, 48, envelope);
  }

  /** Marshalled, with a tag and a length that are read. */
  ghost predicate IsWritten(element: seq<byte>) {
    exists tag: byte, content :: tag % 32 != 31 && |content| < 0x8000_0000 && element == Element(tag, content)
  }

  lemma NothingFlat(cs: seq<Tlv>)
    requires forall i | 0 <= i < |cs| :: Grammatical(cs[i])
    ensures FlattenAll(cs) == [] ==> cs == []
  {
    if cs != [] {
      FlattenSize(cs[0]);
    }
  }

  /** The encodings found in a list of marshalled elements are those elements. */
  lemma {:induction false} ListTrace(cs: seq<Tlv>, elements: seq<seq<byte>>)
    requires forall i | 0 <= i < |cs| :: Grammatical(cs[i])
    requires forall i | 0 <= i < |elements| :: IsWritten(elements[i])
    requires FlattenAll(cs) == Concat(elements)
    ensures |cs| == |elements| && forall i | 0 <= i < |cs| :: Flatten(cs[i]) == elements[i]
    decreases |elements|
  {
    if elements == [] {
      NothingFlat(cs);
    } else {
      var tag, content :| tag % 32 != 31 && |content| < 0x8000_0000 && elements[0] == Element(tag, content);
      Front(cs, tag, content, Concat(elements[1..]));
      ListTrace(cs[1..], elements[1..]);
    }
  }

  /** The entry is one for a KEM recipient and names an issuer. */
  predicate NamesIssuer(o: Obj) {
    && o.Cons? && |o.kids| >= 2
    && o.kids[1].Cons? && |o.kids[1].kids| >= 2 && o.kids[1].kids[1].tag == [48]
  }

  lemma KemEntryTrace(c: Tlv, k: KemInfo, id: IssuerAndSerial)
    requires Grammatical(c) && |OtherFields(k, id)| < 0x8000_0000 && Flatten(c) == Element(0xA4, OtherFields(k, id))
    ensures c.tag == [0xA4] && NamesIssuer(Meaning(c))
  {
    var kind, fields := OidOctets(OtherRecipientInfoKem), KemFields(k, id);
    KnownOid(OtherRecipientInfoKem);
    FormOfTag(0xA4);
    assert Starts(Element(0xA4, OtherFields(k, id)) + [], Flatten(c));
    AtElement(c, 0xA4, OtherFields(k, id), []);
    assert OtherFields(k, id) == Element(6, kind) + (Element(48, fields) + []);
    var info := SecondKid(c, 6, kind, 48, fields, []);
    var tail := AlgorithmField(k.kem.oid) + (Element(4, k.ciphertext) + KemTail(k));
    var identifier := SecondKid(info, 2, [0], 48, IdFields(id), tail);
  }

  lemma KeyTransTrace(c: Tlv, fields: seq<byte>)
    requires Grammatical(c) && |fields| < 0x8000_0000 && Flatten(c) == Element(48, fields)
    ensures c.tag == [48]
  {
    FormOfTag(48);
    assert Starts(Element(48, fields) + [], Flatten(c));
    AtElement(c, 48, fields, []);
  }

  /** How a transcoded entry is tagged, whatever its issuer. */
  ghost predicate TaggedLike(o: Obj, info: RecipientInfo) {
    o.tag == [EntryTag(info)] && (!info.KeyTrans? ==> NamesIssuer(o))
  }

  lemma EntryTrace(c: Tlv, info: RecipientInfo)
    requires Grammatical(c) && Proper(info) && |EntryOctets(info)| < 0x8000_0000 && Flatten(c) == EntryOctets(info)
    ensures TaggedLike(Meaning(c), info)
  {
    if info.KeyTrans? {
      KeyTransTrace(c, EntryFields(info));
    } else {
      KemEntryTrace(c, info.other.value.value.value, IdOf(info));
    }
  }

  predicate AllProper(infos: seq<RecipientInfo>) {
    forall i | 0 <= i < |infos| :: Proper(infos[i])
  }

  lemma StillProper(infos: seq<RecipientInfo>)
    requires AllProper(infos)
    ensures AllProper(InOrder(infos)) && |InOrder(infos)| == |infos|
  {
    SetHolds(infos);
    SameSize(InOrder(infos), infos);
    forall i | 0 <= i < |infos|
      ensures Proper(InOrder(infos)[i])
    {
      assert InOrder(infos)[i] in multiset(infos);
    }
  }

  lemma ElementWritten(tag: byte, content: seq<byte>)
    requires tag % 32 != 31 && |content| < 0x8000_0000
    ensures IsWritten(Element(tag, content))
  {
  }

  lemma ShortWritten(info: RecipientInfo)
    requires Proper(info) && |EntryOctets(info)| < 0x8000_0000
    ensures IsWritten(EntryOctets(info))
  {
    ElementWritten(EntryTag(info), EntryFields(info));
  }

  lemma AllWritten(infos: seq<RecipientInfo>)
    requires AllProper(infos) && |Concat(Map(EntryOctets, infos))| < 0x8000_0000
    ensures forall i | 0 <= i < |infos| :: IsWritten(Map(EntryOctets, infos)[i]) && |EntryOctets(infos[i])| < 0x8000_0000
  {
    forall i | 0 <= i < |infos|
      ensures IsWritten(EntryOctets(infos[i])) && |EntryOctets(infos[i])| < 0x8000_0000
    {
      EntryOfMembers(EntryOctets, infos, i);
      ShortWritten(infos[i]);
    }
  }

  ghost predicate AllTagged(os: seq<Obj>, infos: seq<RecipientInfo>) {
    |os| == |infos| && forall i | 0 <= i < |os| :: TaggedLike(os[i], infos[i])
  }

  lemma ListTagged(cs: seq<Tlv>, infos: seq<RecipientInfo>)
    requires forall i | 0 <= i < |cs| :: Grammatical(cs[i])
    requires AllProper(infos) && FlattenAll(cs) == Concat(Map(EntryOctets, infos)) && |FlattenAll(cs)| < 0x8000_0000
    ensures AllTagged(MeaningAll(cs), infos)
  {
    AllWritten(infos);
    ListTrace(cs, Map(EntryOctets, infos));
    forall i | 0 <= i < |cs|
      ensures TaggedLike(MeaningAll(cs)[i], infos[i])
    {
      MeaningAllAt(cs, i);
      EntryTrace(cs[i], infos[i]);
    }
  }

  /** The entries of a marshalled message are transcoded one by one and keep their tags. */
  lemma EntriesTrace(e: EnvelopedData, c: Tlv)
    requires 0 <= e.version < 128 && |MessageOctets(e)| < 0x8000_0000 && AllProper(e.recipientInfos)
    requires Grammatical(c) && Starts(MarshalledMessage(e), Flatten(c))
    ensures HasEntries(Meaning(c)) && AllTagged(EntriesOf(Meaning(c)), InOrder(e.recipientInfos))
  {
    var cs := MessageTrace(e, c);
    StillProper(e.recipientInfos);
    SetHolds(e.recipientInfos);
    MembersSmaller(e);
    ListTagged(cs, InOrder(e.recipientInfos));
  }

  lemma MembersSmaller(e: EnvelopedData)
    requires 0 <= e.version < 128
    ensures |Members(e.recipientInfos)| < |MessageOctets(e)|
  {
    SetHolds(e.recipientInfos);
  }

  // ---------- whom the entries do not name ----------

  lemma NotNamed(info: RecipientInfo, o: Obj, cert: Certificate, pkey: PrivateKey)
    requires IssuersUpTo(info, o, MAX_NESTING_DEPTH - 4)
    requires !NameUpTo(cert.rawIssuer, NameLimit(pkey.RsaPrivate?))
    requires pkey.Decapsulation? && o.tag == [0xA4] ==> NamesIssuer(o) || cert.subjectKeyId == []
    ensures !Names(info, cert, pkey)
  {
  }

  /** Whatever is parsed, no entry names a certificate by an issuer that is not one element, or one nested too deep. */
  lemma StrangeIssuerUnnamed(data: seq<byte>, cert: Certificate, pkey: PrivateKey)
    requires ParsedMessage(data).Ok? && |Transcode(data).value| < 0x8000_0000_0000_0000
    requires !NameUpTo(cert.rawIssuer, NameLimit(pkey.RsaPrivate?))
    requires pkey.Decapsulation? ==> cert.subjectKeyId == []
    ensures forall i | 0 <= i < |ParsedMessage(data).value.recipientInfos| ::
              !Names(ParsedMessage(data).value.recipientInfos[i], cert, pkey)
  {
    var infos := ParsedMessage(data).value.recipientInfos;
    var c :| StartsWith(data, c, 0);
    ParsedEntries(data, c);
    forall i | 0 <= i < |infos|
      ensures !Names(infos[i], cert, pkey)
    {
      NotNamed(infos[i], EntriesOf(Meaning(c))[i], cert, pkey);
    }
  }

  /** Nor does an entry of a message that was marshalled, which names nobody by a subject key identifier. */
  lemma ListedUnnamed(e: EnvelopedData, cert: Certificate, pkey: PrivateKey)
    requires 0 <= e.version < 128 && AllProper(e.recipientInfos)
    requires |MarshalledMessage(e)| < 0x8000_0000_0000_0000 && ParsedMessage(MarshalledMessage(e)).Ok?
    requires !NameUpTo(cert.rawIssuer, NameLimit(pkey.RsaPrivate?))
    ensures var infos := ParsedMessage(MarshalledMessage(e)).value.recipientInfos;
            forall i | 0 <= i < |infos| :: !Names(infos[i], cert, pkey)
  {
    var data := MarshalledMessage(e);
    var infos := ParsedMessage(data).value.recipientInfos;
    MessageShort(e);
    var c :| StartsWith(data, c, 0);
    TranscodedShort(e, c);
    ParsedEntries(data, c);
    EntriesTrace(e, c);
    forall i | 0 <= i < |infos|
      ensures !Names(infos[i], cert, pkey)
    {
      assert TaggedLike(EntriesOf(Meaning(c))[i], InOrder(e.recipientInfos)[i]);
      NotNamed(infos[i], EntriesOf(Meaning(c))[i], cert, pkey);
    }
  }

  lemma MessageShort(e: EnvelopedData)
    requires 0 <= e.version < 128
    requires |MarshalledMessage(e)| < 0x8000_0000_0000_0000 && ParsedMessage(MarshalledMessage(e)).Ok?
    ensures |MessageOctets(e)| < 0x8000_0000
  {
    if |MessageOctets(e)| >= 0x8000_0000 {
      LongMessageRejected(e);
    }
  }

  lemma TranscodedShort(e: EnvelopedData, c: Tlv)
    requires 0 <= e.version < 128 && |MessageOctets(e)| < 0x8000_0000
    requires StartsWith(MarshalledMessage(e), c, 0)
    ensures Transcode(MarshalledMessage(e)).Ok? && |Transcode(MarshalledMessage(e)).value| < 0x8000_0000_0000_0000
  {
    assert MarshalledMessage(e) == Element(48, MessageOctets(e)) + [];
    FormOfTag(48);
    AtElement(c, 48, MessageOctets(e), []);
    TranscodeIs(MarshalledMessage(e), c);
    DefiniteAtMostTwice(c);
  }

  lemma DefiniteAtMostTwice(c: Tlv)
    requires Grammatical(c) && c.Definite? && c.tag == [48] && |Body(c)| < 0x8000_0000
    ensures |Encode(Meaning(c))| < 0x2_0000_0000
  {
    AtMostTwiceAll(c.parts);
    LengthOctetsAtMost(|Contents(Meaning(c))|, 4);
  }

  // ---------- empty issuers ----------

  /** The entry that is read where this one was written: an empty issuer has become an element of tag 0. */
  function AsRead(info: RecipientInfo): RecipientInfo {
    match info
    case KeyTrans(Whole(k)) => KeyTrans(Whole(k.(id := NameWritten(k.id))))
    case Other(true, Whole(OtherInfo(kind, Whole(k)))) =>
      if !k.recipientId.IssuerSerial? || !k.recipientId.parsed.Whole? then info else
        var id := IssuerSerial(Whole(NameWritten(k.recipientId.parsed.value)));
        Other(true, Whole(OtherInfo(kind, Whole(k.(recipientId := id)))))
    case _ => info
  }

  function AllAsRead(infos: seq<RecipientInfo>): seq<RecipientInfo> {
    Map(AsRead, infos)
  }

  function NameWritten(id: IssuerAndSerial): IssuerAndSerial {
    id.(issuerName := NameOctets(id.issuerName))
  }

  lemma SameEntry(info: RecipientInfo)
    requires Proper(info)
    ensures Proper(AsRead(info)) && IdOf(AsRead(info)) == NameWritten(IdOf(info))
    ensures AsRead(info).KeyTrans? == info.KeyTrans? && EntryOctets(AsRead(info)) == EntryOctets(info)
  {
    SameIdFields(IdOf(info));
  }

  lemma SameIdFields(id: IssuerAndSerial)
    ensures IdFields(NameWritten(id)) == IdFields(id)
  {
  }

  /** The same octets are written for both. */
  lemma SameMessage(e: EnvelopedData)
    requires AllProper(e.recipientInfos) && 0 <= e.version < 128
    ensures var e' := e.(recipientInfos := AllAsRead(e.recipientInfos));
            MarshalledMessage(e') == MarshalledMessage(e) && MessageOctets(e') == MessageOctets(e)
  {
    var infos := e.recipientInfos;
    forall i | 0 <= i < |infos|
      ensures EntryOctets(AsRead(infos[i])) == EntryOctets(infos[i])
    {
      SameEntry(infos[i]);
    }
    assert Map(EntryOctets, AllAsRead(infos)) == Map(EntryOctets, infos);
  }

  lemma NoEmptyElement(height: int)
    ensures !NameUpTo([], height)
  {
    assert forall o :: WellFormed(o) ==> Encode(o) != [];
  }

  lemma ZeroElement(height: nat)
    ensures NameUpTo([0, 0], height) && IsElement([0, 0])
  {
    var o := Prim([0], []);
    assert WellFormed(o) && ShortestTag(o.tag) && Encode(o) == [0, 0] && Height(o) == 0;
  }
}
