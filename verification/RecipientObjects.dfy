/** The entries of the RecipientInfos as the objects that are printed for them, and the issuers that can be read where
    objects were printed. */
module RecipientObjects {
  import opened Bytes
  import opened Grammar
  import opened BerPrinter
  import opened Ber2Der
  import opened Asn1
  import opened Certificates
  import opened RecipientCoding

  // ---------- entries as objects ----------

  function AlgorithmObject(oid: Oid): Obj {
    Cons([48], [Prim([6], OidOctets(oid))])
  }

  function IdObject(issuer: Obj, serialNumber: int): Obj {
    Cons([48], [issuer, Prim([2], IntegerOctets(serialNumber))])
  }

  function KeyTransParts(k: KeyTransInfo, issuer: Obj): seq<Obj> {
    [Prim([2], [0]), IdObject(issuer, k.id.serialNumber), AlgorithmObject(k.algorithm.oid), Prim([4], k.encryptedKey)]
  }

  function KemTailParts(k: KemInfo): seq<Obj> {
    [AlgorithmObject(k.kdf.oid), Prim([2], [KEK_LENGTH]), AlgorithmObject(k.wrap.oid), Prim([4], k.encryptedKey)]
  }

  function KemHead(k: KemInfo, issuer: Obj, serialNumber: int): seq<Obj> {
    [Prim([2], [0]), IdObject(issuer, serialNumber), AlgorithmObject(k.kem.oid), Prim([4], k.ciphertext)]
  }

  function KemParts(k: KemInfo, issuer: Obj, serialNumber: int): seq<Obj> {
    KemHead(k, issuer, serialNumber) + KemTailParts(k)
  }

  function OtherParts(k: KemInfo, issuer: Obj, serialNumber: int): seq<Obj> {
    [Prim([6], OidOctets(OtherRecipientInfoKem)), Cons([48], KemParts(k, issuer, serialNumber))]
  }

  /** The object that is printed as an entry, its issuer being one element. */
  function EntryObject(info: RecipientInfo, issuer: Obj): Obj
    requires Proper(info)
  {
    if info.KeyTrans? then Cons([48], KeyTransParts(info.info.value, issuer))
    else Cons([0xA4], OtherParts(info.other.value.value.value, issuer, IdOf(info).serialNumber))
  }

  lemma AlgorithmPrinted(oid: Oid)
    ensures AlgorithmField(oid) == Encode(AlgorithmObject(oid))
    ensures Height(AlgorithmObject(oid)) <= 1 && WellFormed(AlgorithmObject(oid))
  {
    var parts := [Prim([6], OidOctets(oid))];
    ElementIsPrinted(6, OidOctets(oid));
    PrintedOne(parts[0]);
    ElementOfParts(48, parts);
    HeightAllIs(parts, 1);
  }

  lemma IdPrinted(id: IssuerAndSerial, issuer: Obj)
    requires WellFormed(issuer) && id.issuerName == Encode(issuer)
    ensures Element(48, IdFields(id)) == Encode(IdObject(issuer, id.serialNumber))
    ensures Height(IdObject(issuer, id.serialNumber)) == Height(issuer) + 1
    ensures WellFormed(IdObject(issuer, id.serialNumber))
  {
    var parts := [issuer, Prim([2], IntegerOctets(id.serialNumber))];
    ElementIsPrinted(2, IntegerOctets(id.serialNumber));
    PrintedTwo(parts[0], parts[1]);
    ElementOfParts(48, parts);
    HeightAllIs(parts, Height(issuer) + 1);
    HeightAllAt(parts, 0);
  }

  lemma KeyTransPrinted(k: KeyTransInfo, issuer: Obj)
    requires WellFormed(issuer) && k.id.issuerName == Encode(issuer)
    ensures KeyTransFields(k) == EncodeAll(KeyTransParts(k, issuer))
    ensures forall i | 0 <= i < 4 ::
              WellFormed(KeyTransParts(k, issuer)[i]) && Height(KeyTransParts(k, issuer)[i]) <= Height(issuer) + 1
  {
    var parts := KeyTransParts(k, issuer);
    ElementIsPrinted(2, [0]);
    IdPrinted(k.id, issuer);
    AlgorithmPrinted(k.algorithm.oid);
    ElementIsPrinted(4, k.encryptedKey);
    PrintedFour(parts[0], parts[1], parts[2], parts[3]);
  }

  lemma KemTailPrinted(k: KemInfo)
    ensures KemTail(k) == EncodeAll(KemTailParts(k))
    ensures forall i | 0 <= i < 4 :: WellFormed(KemTailParts(k)[i]) && Height(KemTailParts(k)[i]) <= 1
  {
    var parts := KemTailParts(k);
    AlgorithmPrinted(k.kdf.oid);
    ElementIsPrinted(2, [KEK_LENGTH]);
    AlgorithmPrinted(k.wrap.oid);
    ElementIsPrinted(4, k.encryptedKey);
    PrintedFour(parts[0], parts[1], parts[2], parts[3]);
  }

  lemma KemPrinted(k: KemInfo, id: IssuerAndSerial, issuer: Obj)
    requires WellFormed(issuer) && id.issuerName == Encode(issuer)
    ensures KemFields(k, id) == EncodeAll(KemParts(k, issuer, id.serialNumber))
  {
    var parts, tail := KemHead(k, issuer, id.serialNumber), KemTailParts(k);
    ElementIsPrinted(2, [0]);
    IdPrinted(id, issuer);
    AlgorithmPrinted(k.kem.oid);
    ElementIsPrinted(4, k.ciphertext);
    KemTailPrinted(k);
    PrintedFive(parts[0], parts[1], parts[2], parts[3], tail);
  }

  /** An object made of such parts. */
  lemma Built(tag: byte, parts: seq<Obj>, h: nat)
    requires tag % 32 != 31 && tag / 32 % 2 == 1
    requires forall i | 0 <= i < |parts| :: WellFormed(parts[i]) && Height(parts[i]) + 1 <= h
    ensures Element(tag, EncodeAll(parts)) == Encode(Cons([tag], parts))
    ensures WellFormed(Cons([tag], parts)) && Height(Cons([tag], parts)) <= h
    ensures Contents(Cons([tag], parts)) == EncodeAll(parts)
  {
    ElementOfParts(tag, parts);
    HeightAllIs(parts, h);
  }

  lemma KemShape(k: KemInfo, id: IssuerAndSerial, issuer: Obj)
    requires WellFormed(issuer) && id.issuerName == Encode(issuer)
    ensures forall i | 0 <= i < 8 ::
              && WellFormed(KemParts(k, issuer, id.serialNumber)[i])
              && Height(KemParts(k, issuer, id.serialNumber)[i]) <= Height(issuer) + 1
  {
    IdPrinted(id, issuer);
    AlgorithmPrinted(k.kem.oid);
    KemTailPrinted(k);
    assert forall i | 0 <= i < 4 :: WellFormed(KemHead(k, issuer, id.serialNumber)[i]);
  }

  lemma OtherPrinted(k: KemInfo, id: IssuerAndSerial, issuer: Obj)
    requires WellFormed(issuer) && id.issuerName == Encode(issuer)
    ensures OtherFields(k, id) == EncodeAll(OtherParts(k, issuer, id.serialNumber))
    ensures forall i | 0 <= i < 2 ::
              && WellFormed(OtherParts(k, issuer, id.serialNumber)[i])
              && Height(OtherParts(k, issuer, id.serialNumber)[i]) <= Height(issuer) + 2
  {
    var parts := OtherParts(k, issuer, id.serialNumber);
    ElementIsPrinted(6, OidOctets(OtherRecipientInfoKem));
    KemPrinted(k, id, issuer);
    KemShape(k, id, issuer);
    Built(48, KemParts(k, issuer, id.serialNumber), Height(issuer) + 2);
    PrintedTwo(parts[0], parts[1]);
  }

  lemma KeyTransEntryPrinted(k: KeyTransInfo, issuer: Obj)
    requires WellFormed(issuer) && k.id.issuerName == Encode(issuer)
    ensures var o := Cons([48], KeyTransParts(k, issuer));
            && Element(48, KeyTransFields(k)) == Encode(o) && Contents(o) == KeyTransFields(k)
            && WellFormed(o) && Height(o) == Height(issuer) + 2
  {
    KeyTransPrinted(k, issuer);
    Built(48, KeyTransParts(k, issuer), Height(issuer) + 2);
    IdPrinted(k.id, issuer);
    HeightAllAt(KeyTransParts(k, issuer), 1);
  }

  lemma OtherEntryPrinted(k: KemInfo, id: IssuerAndSerial, issuer: Obj)
    requires WellFormed(issuer) && id.issuerName == Encode(issuer)
    ensures var o := Cons([0xA4], OtherParts(k, issuer, id.serialNumber));
            && Element(0xA4, OtherFields(k, id)) == Encode(o) && Contents(o) == OtherFields(k, id)
            && WellFormed(o) && Height(o) == Height(issuer) + 3
  {
    OtherPrinted(k, id, issuer);
    Built(0xA4, OtherParts(k, issuer, id.serialNumber), Height(issuer) + 3);
    IdPrinted(id, issuer);
    HeightAllAt(KemParts(k, issuer, id.serialNumber), 1);
    HeightAllAt(OtherParts(k, issuer, id.serialNumber), 1);
  }

  /** An entry whose issuer is one element is printed, and is nested two or three levels deeper. */
  lemma EntryPrinted(info: RecipientInfo, issuer: Obj)
    requires Proper(info) && WellFormed(issuer) && IdOf(info).issuerName == Encode(issuer)
    ensures var o := EntryObject(info, issuer);
            && EntryOctets(info) == Encode(o) && Contents(o) == EntryFields(info) && o.tag == [EntryTag(info)]
            && WellFormed(o) && Height(o) == Height(issuer) + if info.KeyTrans? then 2 else 3
  {
    if info.KeyTrans? {
      KeyTransEntryPrinted(info.info.value, issuer);
    } else {
      OtherEntryPrinted(info.other.value.value.value, IdOf(info), issuer);
    }
  }

  /** The element that an issuer is. */
  ghost function IssuerOf(info: RecipientInfo): (o: Obj)
    requires Proper(info) && IsElement(IdOf(info).issuerName)
    ensures WellFormed(o) && ShortestTag(o.tag) && IdOf(info).issuerName == Encode(o)
  {
    var o :| WellFormed(o) && ShortestTag(o.tag) && IdOf(info).issuerName == Encode(o);
    o
  }

  /** The object that is printed as an entry, whatever the issuer is called. */
  ghost function ObjectOf(info: RecipientInfo): Obj {
    if Proper(info) && IsElement(IdOf(info).issuerName) then EntryObject(info, IssuerOf(info)) else Prim([0], [])
  }

  /** How deep an issuer may be nested in an entry of this kind. */
  function NameLimit(keyTrans: bool): nat {
    MAX_NESTING_DEPTH - if keyTrans then 6 else 7
  }

  /** The limit on entries is a limit on issuers. */
  lemma NameLimitIs(info: RecipientInfo)
    requires Proper(info) && IsElement(IdOf(info).issuerName) && |IdOf(info).issuerName| < 0x8000_0000_0000_0000
    ensures NameUpTo(IdOf(info).issuerName, NameLimit(info.KeyTrans?)) <==> Height(ObjectOf(info)) + 4 <= MAX_NESTING_DEPTH
  {
    var name, issuer := IdOf(info).issuerName, IssuerOf(info);
    EntryPrinted(info, issuer);
    if NameUpTo(name, NameLimit(info.KeyTrans?)) {
      var o :| WellFormed(o) && ShortestTag(o.tag) && name == Encode(o) && Height(o) <= NameLimit(info.KeyTrans?);
      EncodeInjective(o, issuer);
    }
  }

  // ---------- the issuers that are read ----------

  /** Tags of the constructed elements. */
  const CONSTRUCTED: seq<byte> := [48, 49, 0xA0, 0xA4]

  /** Printed in a row, the objects are nested less than `height` deep. */
  predicate Printed(os: seq<Obj>, height: int) {
    && (forall i | 0 <= i < |os| :: WellFormed(os[i]))
    && |EncodeAll(os)| < 0x8000_0000_0000_0000 && HeightAll(os) <= height
  }

  lemma PrintedParts(os: seq<Obj>, height: int)
    requires Printed(os, height) && os != []
    ensures WellFormed(os[0]) && Height(os[0]) < height && |Contents(os[0])| < 0x8000_0000_0000_0000
    ensures Printed(os[1..], height) && Printed([os[0]], height)
    ensures os[0].Cons? ==> Contents(os[0]) == EncodeAll(os[0].kids) && Printed(os[0].kids, height - 1)
    ensures EncodeAll(os) == Encode(os[0]) + EncodeAll(os[1..])
  {
    HeightAllAt(os, 0);
    HeightAllIs([os[0]], height);
    PrintedOne(os[0]);
  }

  /** What is read in front of printed objects is the first of them. */
  lemma RawNext(os: seq<Obj>, height: int)
    requires Printed(os, height) && ReadElement(EncodeAll(os)).Some?
    ensures os != [] && Readable(os[0])
    ensures ReadElement(EncodeAll(os)) == Some((os[0].tag, Contents(os[0]), EncodeAll(os[1..])))
    ensures RawElement(EncodeAll(os)) == Some((Encode(os[0]), EncodeAll(os[1..])))
  {
    if os != [] {
      PrintedParts(os, height);
      PrintedIsRaw(os[0], EncodeAll(os[1..]));
    }
  }

  lemma Next(tag: byte, os: seq<Obj>, height: int)
    requires Printed(os, height) && UnmarshalElement(tag, EncodeAll(os)).Some?
    ensures os != [] && os[0].tag == [tag] && Printed(os[1..], height)
    ensures UnmarshalElement(tag, EncodeAll(os)) == Some((Contents(os[0]), EncodeAll(os[1..])))
    ensures tag in CONSTRUCTED ==> os[0].Cons? && Contents(os[0]) == EncodeAll(os[0].kids) && Printed(os[0].kids, height - 1)
  {
    RawNext(os, height);
    PrintedParts(os, height);
    if tag in CONSTRUCTED {
      MustBeConstructed(os[0], tag);
    }
  }

  lemma MustBeConstructed(o: Obj, tag: byte)
    requires WellFormed(o) && o.tag == [tag] && tag in CONSTRUCTED
    ensures o.Cons?
  {
    assert tag == 48 || tag == 49 || tag == 0xA0 || tag == 0xA4;
  }

  /** An issuer that is read among printed objects is one element. */
  lemma IssuerNext(os: seq<Obj>, height: int)
    requires Printed(os, height) && UnmarshalIdFields(EncodeAll(os)).Some?
    ensures height >= 1 && NameUpTo(UnmarshalIdFields(EncodeAll(os)).value.issuerName, height - 1)
  {
    RawNext(os, height);
    PrintedParts(os, height);
  }

  lemma IdNext(os: seq<Obj>, height: int)
    requires Printed(os, height) && UnmarshalId(EncodeAll(os)).Some?
    ensures height >= 2 && NameUpTo(UnmarshalId(EncodeAll(os)).value.0.issuerName, height - 2)
  {
    Next(48, os, height);
    IssuerNext(os[0].kids, height - 1);
  }

  lemma IntNext(os: seq<Obj>, height: int)
    requires Printed(os, height) && UnmarshalInt(EncodeAll(os)).Some?
    ensures os != [] && UnmarshalInt(EncodeAll(os)).value.1 == EncodeAll(os[1..]) && Printed(os[1..], height)
  {
    Next(2, os, height);
  }

  lemma KeyTransFieldsNext(os: seq<Obj>, height: int)
    requires Printed(os, height) && UnmarshalKeyTransFields(EncodeAll(os)).Some?
    ensures NameUpTo(UnmarshalKeyTransFields(EncodeAll(os)).value.id.issuerName, height - 2)
  {
    IntNext(os, height);
    IdNext(os[1..], height);
  }

  lemma KeyTransNext(os: seq<Obj>, height: int)
    requires Printed(os, height) && UnmarshalKeyTrans(EncodeAll(os)).Some?
    ensures NameUpTo(UnmarshalKeyTrans(EncodeAll(os)).value.0.id.issuerName, height - 3)
  {
    Next(48, os, height);
    KeyTransFieldsNext(os[0].kids, height - 1);
  }

  /** What an identifier says of its issuer, if it names one, as it does where it is a SEQUENCE. */
  ghost predicate IdUpTo(id: RecipientId, tag: seq<byte>, height: int) {
    && (tag == [48] ==> id.IssuerSerial?)
    && (id.IssuerSerial? && !id.parsed.Malformed? ==> NameUpTo(id.parsed.value.issuerName, height))
  }

  lemma RecipientIdNext(os: seq<Obj>, height: int)
    requires Printed(os, height) && RawElement(EncodeAll(os)).Some?
    ensures os != [] && IdUpTo(UnmarshalRecipientId(RawElement(EncodeAll(os)).value.0), os[0].tag, height - 2)
  {
    RawNext(os, height);
    PrintedParts(os, height);
    IdentifierNext(os[0], Encode(os[0]), height);
  }

  lemma IdentifierNext(o: Obj, raw: seq<byte>, height: int)
    requires Printed([o], height) && Readable(o) && raw == Encode(o)
    ensures IdUpTo(UnmarshalRecipientId(raw), o.tag, height - 2)
  {
    PrintedOne(o);
    PrintedIsRaw(o, []);
    assert raw + [] == raw;
    IdentifierKind(raw, o.tag);
    if UnmarshalId(EncodeAll([o])).Some? {
      IdNext([o], height);
    }
  }

  lemma IdentifierKind(raw: seq<byte>, tag: seq<byte>)
    requires ReadElement(raw).Some? && ReadElement(raw).value.0 == tag
    ensures tag == [48] ==> UnmarshalRecipientId(raw).IssuerSerial?
    ensures UnmarshalRecipientId(raw).IssuerSerial? ==> UnmarshalRecipientId(raw).parsed == Entirely(UnmarshalId(raw))
  {
  }

  lemma KemHeadNext(os: seq<Obj>, height: int)
    requires Printed(os, height) && UnmarshalKemHead(EncodeAll(os)).Some?
    ensures |os| >= 2 && IdUpTo(UnmarshalKemHead(EncodeAll(os)).value.1, os[1].tag, height - 2)
  {
    IntNext(os, height);
    RecipientIdNext(os[1..], height);
  }

  lemma KemIdInHead(fields: seq<byte>)
    requires UnmarshalKemFields(fields).Some?
    ensures UnmarshalKemHead(fields).Some?
    ensures UnmarshalKemFields(fields).value.recipientId == UnmarshalKemHead(fields).value.1
  {
  }

  /** The same of the identifier in a KEMRecipientInfo that was read where an object was printed. */
  ghost predicate KemUpTo(kem: Parsed<KemInfo>, o: Obj, height: int) {
    !kem.Malformed? ==> o.Cons? && |o.kids| >= 2 && IdUpTo(kem.value.recipientId, o.kids[1].tag, height)
  }

  lemma KemNext(o: Obj, height: int)
    requires Printed([o], height)
    ensures KemUpTo(Entirely(UnmarshalKem(EncodeAll([o]))), o, height - 3)
  {
    if UnmarshalKem(EncodeAll([o])).Some? {
      Next(48, [o], height);
      KemIdInHead(Contents(o));
      KemHeadNext(o.kids, height - 1);
    }
  }

  lemma OtherNext(os: seq<Obj>, height: int)
    requires Printed(os, height) && UnmarshalOther(EncodeAll(os)).Whole?
    ensures |os| >= 2 && KemUpTo(UnmarshalOther(EncodeAll(os)).value.value, os[1], height - 3)
  {
    Next(6, os, height);
    RawNext(os[1..], height);
    PrintedParts(os[1..], height);
    PrintedOne(os[1]);
    KemNext(os[1], height);
  }

  /** Every issuer in an entry that was read where an object was printed is one element, nested less deep than
      the object. */
  ghost predicate IssuersUpTo(info: RecipientInfo, o: Obj, height: int) {
    match info
    case KeyTrans(info) => !info.Malformed? ==> NameUpTo(info.value.id.issuerName, height - 2)
    case Other(compound, other) =>
      compound && other.Whole? ==>
        o.tag == [0xA4] && o.Cons? && |o.kids| >= 2 && KemUpTo(other.value.value, o.kids[1], height - 3)
    case Unread => true
  }

  lemma EntryIssuers(o: Obj, height: nat)
    requires WellFormed(o) && |Encode(o)| < 0x8000_0000_0000_0000 && Height(o) <= height
    ensures IssuersUpTo(UnmarshalEntry(Encode(o)), o, height)
  {
    PrintedOne(o);
    HeightAllIs([o], height + 1);
    PrintedIsRaw(o, []);
    assert Encode(o) + [] == Encode(o);
    if Readable(o) {
      EntryKinds(o, height);
    }
  }

  lemma EntryKinds(o: Obj, height: nat)
    requires Printed([o], height + 1) && EncodeAll([o]) == Encode(o)
    requires ReadElement(Encode(o)) == Some((o.tag, Contents(o), []))
    ensures IssuersUpTo(UnmarshalEntry(Encode(o)), o, height)
  {
    if o.tag == [0xA4] {
      MustBeConstructed(o, 0xA4);
      PrintedParts([o], height + 1);
      if UnmarshalOther(Contents(o)).Whole? {
        OtherNext(o.kids, height);
      }
    } else if UnmarshalKeyTrans(EncodeAll([o])).Some? {
      KeyTransNext([o], height + 1);
    }
  }
}
