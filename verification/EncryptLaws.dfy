/** Which recipients Encrypt accepts, and what it writes for them. */
module EncryptLaws {
  import opened Bytes
  import opened Asn1
  import opened Padding
  import opened Certificates
  import opened KeyWrap
  import opened RecipientCoding
  import opened Recipients
  import opened EnvelopeCoding
  import opened Envelope
  import opened ForeignMessages

  /** The ML-KEM key of a certificate: the one in its raw SubjectPublicKeyInfo, without parameters and in whole octets,
      or its public key where it has no raw one. */
  lemma KeyOfCertificate(t: KeyTransport, cert: Certificate, level: KemLevel, key: seq<byte>)
    ensures EncapsulationKey(t, cert) == Some((level, key)) <==>
            || (cert.spki == None && cert.publicKey == MlKemKey(level, key))
            || (&& cert.spki == Some(Whole(SubjectPublicKeyInfo(
                     AlgorithmIdentifier(if level == Level768 then MlKem768 else MlKem1024, false), key, 8 * |key|)))
                && t.kemKeyParses(level, key))
  {
  }

  /** Encrypt succeeds exactly for the settings 0 to 4 where every RSA recipient's key encrypts the content key, and
      every other recipient has a usable ML-KEM key, is meant for nothing but key encipherment if for anything, and is
      given AES-CBC content. Entries below 2^31 octets are read back when they are made. */
  lemma AcceptedExactly(t: KeyTransport, setting: int, certs: seq<Certificate>, random: Random)
    requires random.Enough() && |random.recipients| >= |certs|
    ensures AlgorithmOf(setting).Some?
            && AllAccepted(t, AlgorithmOf(setting).value, DrawnKey(setting, random), certs, random.recipients)
            <==>
            && 0 <= setting <= 4
            && var n := [8, 16, 32, 16, 32][setting];
               forall i | 0 <= i < |certs| ::
                 && EntrySize(t, certs[i], n) < 0x8000_0000
                 && match certs[i].publicKey
                    case RsaKey(k) => t.rsaEncrypt(k, random.key[..n], random.recipients[i]).Some?
                    case _ => && (setting == 1 || setting == 2) && (certs[i].keyUsage == 0 || certs[i].keyUsage == 4)
                              && exists level, key :: EncapsulationKey(t, certs[i]) == Some((level, key))
  {
    if 0 <= setting <= 4 {
      var n := [8, 16, 32, 16, 32][setting];
      assert DrawnKey(setting, random) == random.key[..n];
      forall i | 0 <= i < |certs|
        ensures RecipientAccepted(t, IsAesCbc(AlgorithmOf(setting).value), random.key[..n], certs[i], random.recipients[i]) <==>
                && EntrySize(t, certs[i], n) < 0x8000_0000
                && match certs[i].publicKey
                   case RsaKey(k) => t.rsaEncrypt(k, random.key[..n], random.recipients[i]).Some?
                   case _ => && (setting == 1 || setting == 2) && (certs[i].keyUsage == 0 || certs[i].keyUsage == 4)
                             && exists level, key :: EncapsulationKey(t, certs[i]) == Some((level, key))
      {
        UsableKey(EncapsulationKey(t, certs[i]));
      }
    }
  }

  lemma UsableKey(key: Option<(KemLevel, seq<byte>)>)
    ensures key.Some? <==> exists level, octets :: key == Some((level, octets))
  {
    if key.Some? {
      assert key == Some((key.value.0, key.value.1));
    }
  }

  /** The content as it is written for each of the settings. */
  lemma ContentWritten(m: Modes, setting: int, random: Random, info: EncryptedContentInfo, content: seq<byte>)
    requires random.Enough() && Encrypts(m, info, DrawnKey(setting, random), content)
    requires Some(info.algorithm) == AlgorithmOf(setting) && info.parameters == ParametersDrawn(setting, random)
    ensures info == match setting
                    case 0 => EncryptedContentInfo(DesCbc, random.iv[..8], true,
                                Element(4, m.cbcEncrypt(Des, random.key[..8], random.iv[..8], Pad(content, 8).value)))
                    case 1 => EncryptedContentInfo(Aes128Cbc, random.iv[..16], true,
                                Element(4, m.cbcEncrypt(AesCipher, random.key[..16], random.iv[..16], Pad(content, 16).value)))
                    case 2 => EncryptedContentInfo(Aes256Cbc, random.iv[..16], true,
                                Element(4, m.cbcEncrypt(AesCipher, random.key[..32], random.iv[..16], Pad(content, 16).value)))
                    case 3 => EncryptedContentInfo(Aes128Gcm, [48, 17, 0x84, 12] + random.iv[..12] + [2, 1, 16], true,
                                Element(4, m.gcmSeal(random.key[..16], random.iv[..12], content)))
                    case _ => EncryptedContentInfo(Aes256Gcm, [48, 17, 0x84, 12] + random.iv[..12] + [2, 1, 16], true,
                                Element(4, m.gcmSeal(random.key[..32], random.iv[..12], content)))
  {
    GcmOctetsAre(random.iv[..12], 16);
    GcmParametersRead(random.iv[..12], 16);
  }

  /** The entry of an RSA recipient, */
  lemma RsaEntryWritten(t: KeyTransport, key: seq<byte>, cert: Certificate, random: seq<byte>, raw: RecipientInfo)
    requires t.Laws() && InfoFor(t, key, cert, random, raw) && cert.publicKey.RsaKey?
    ensures t.rsaEncrypt(cert.publicKey.key, key, random).Some?
    ensures raw == KeyTrans(Whole(KeyTransInfo(0, IssuerAndSerial(cert.rawIssuer, cert.serialNumber),
                                               AlgorithmIdentifier(RsaEncryption, false),
                                               t.rsaEncrypt(cert.publicKey.key, key, random).value)))
  {
  }

  /** and that of a KEM recipient. */
  lemma KemEntryWritten(t: KeyTransport, key: seq<byte>, cert: Certificate, random: seq<byte>, raw: RecipientInfo)
    requires t.Laws() && InfoFor(t, key, cert, random, raw) && !cert.publicKey.RsaKey?
    ensures EncapsulationKey(t, cert).Some?
    ensures var (level, kemKey) := EncapsulationKey(t, cert).value;
            var (shared, ciphertext) := t.encapsulate(level, kemKey, random);
            var kek := t.kdf(shared, AlgorithmIdentifier(KeyWrapAes256, false), 32, None);
            && Wrap(t.aes, kek, key).Ok?
            && raw == Other(true, Whole(OtherInfo(OtherRecipientInfoKem, Whole(KemInfo(
                   0, IssuerSerial(Whole(IssuerAndSerial(cert.rawIssuer, cert.serialNumber))),
                   AlgorithmIdentifier(if level == Level768 then MlKem768 else MlKem1024, false), ciphertext,
                   AlgorithmIdentifier(HkdfSha256, false), 32, None, AlgorithmIdentifier(KeyWrapAes256, false),
                   Wrap(t.aes, kek, key).value)))))
  {
    var info := raw.other.value.value.value;
    assert KemInfoFor(t, key, cert, random, info);
    assert raw == Other(true, Whole(OtherInfo(OtherRecipientInfoKem, Whole(info))));
  }

  /** The version: 0 where all recipients are RSA recipients, else 3; and one entry per recipient, in order. */
  lemma EntriesWritten(m: Modes, t: KeyTransport, e: EnvelopedData, key: seq<byte>, content: seq<byte>,
                       certs: seq<Certificate>, random: seq<seq<byte>>)
    requires t.Laws() && EnvelopeFor(m, t, e, key, content, certs, random)
    ensures e.version == 0 || e.version == 3
    ensures e.version == 0 <==> forall i | 0 <= i < |certs| :: certs[i].publicKey.RsaKey?
    ensures |e.recipientInfos| == |certs|
    ensures forall i | 0 <= i < |certs| :: InfoFor(t, key, certs[i], random[i], e.recipientInfos[i])
  {
  }

  // ---------- octets ----------

  /** The message in octets: version, entries in ascending order, type of content, algorithm with its parameters in an
      OCTET STRING or a primitive SEQUENCE, and the ciphertext. */
  lemma MessageWritten(e: EnvelopedData)
    requires 0 <= e.version < 128 && e.content.compound
    ensures var parameters := Element(if e.content.algorithm == Aes128Gcm || e.content.algorithm == Aes256Gcm then 16 else 4, e.content.parameters);
            MarshalledMessage(e) ==
            Enveloped(e.version, Members(e.recipientInfos), ContentWith(OidOf(e.content.algorithm), parameters, true, e.content.octets))
  {
    SetHolds(e.recipientInfos);
  }

  /** The entries in octets: for RSA recipients */
  lemma RsaEntryOctets(id: IssuerAndSerial, encryptedKey: seq<byte>)
    ensures EntryOctets(KeyTrans(Whole(KeyTransInfo(0, id, AlgorithmIdentifier(RsaEncryption, false), encryptedKey))))
         == PartOctets(KeyTransWith(0, id, None, encryptedKey))
  {
    assert AlgorithmWithParameters(RsaEncryption, None) == AlgorithmField(RsaEncryption) by {
      assert Element(6, OidOctets(RsaEncryption)) + [] == Element(6, OidOctets(RsaEncryption));
    }
  }

  /** and for KEM recipients. */
  lemma KemEntryOctets(k: KemInfo)
    requires Proper(KemEntry(k)) && ForeignKem(k)
    ensures EntryOctets(KemEntry(k)) == PartOctets(KemWith(k))
  {
    var key := Element(4, k.encryptedKey);
    assert KeyingMaterial(None) + (AlgorithmField(KeyWrapAes256) + key) == AlgorithmField(KeyWrapAes256) + key;
  }
}
