/** What verification promises its caller, for messages of any origin: what holds of a message that is verified, and which
    signatures of other programs are accepted. */
module VerifyLaws {
  import opened Bytes
  import opened Asn1
  import opened Certificates
  import opened Attributes
  import opened SigningAlgorithms
  import opened Signing
  import opened Verify

  // ---------- what is verified ----------

  /** The octets that are signed. */
  function OctetsSigned(p7: Pkcs7, signer: SignerInfo): seq<byte> {
    if signer.authenticated == [] then p7.content else SignedOctets(signer.authenticated)
  }

  /** The first attribute of a type has this value. */
  predicate FirstIs(attrs: seq<Attribute>, kind: seq<byte>, value: seq<byte>) {
    exists i | 0 <= i < |attrs| :: attrs[i] == Attribute(kind, value) && forall j | 0 <= j < i :: attrs[j].kind != kind
  }

  /** The message-digest holds the digest of the content, made with the hash that the signer names. */
  ghost predicate DigestMatches(p: Primitives, content: seq<byte>, signer: SignerInfo) {
    exists value, h, rest ::
      && FirstIs(signer.authenticated, MESSAGE_DIGEST, value) && GetHashForOid(signer.digestAlgorithm) == Ok(h)
      && UnmarshalOctets(value) == Some((p.hash(h, content), rest))
  }

  /** The signing-time can be read as this time. */
  ghost predicate SignedAt(p: Primitives, signer: SignerInfo, time: int) {
    exists value :: FirstIs(signer.authenticated, SIGNING_TIME, value) && p.unmarshalTime(value) == Some(time)
  }

  /** The first certificate of the message that the signer names. */
  ghost predicate NamedFirst(certs: seq<Certificate>, id: IssuerAndSerial, ee: Certificate) {
    exists i | 0 <= i < |certs| :: NamedAt(certs, id, ee, i)
  }

  predicate NamedAt(certs: seq<Certificate>, id: IssuerAndSerial, ee: Certificate, i: nat)
    requires i < |certs|
  {
    && certs[i] == ee && ee.rawIssuer == id.issuerName && ee.serialNumber == id.serialNumber
    && forall j | 0 <= j < i :: certs[j].rawIssuer != id.issuerName || certs[j].serialNumber != id.serialNumber
  }

  /** The key of the certificate checks the signature on the signed octets, with an algorithm that the signer designates,
      and the digest and the signing time in its attributes are right. */
  ghost predicate Vouched(p: Primitives, p7: Pkcs7, signer: SignerInfo, ee: Certificate, algorithm: SignatureAlgorithm) {
    && NamedFirst(p7.certificates, signer.id, ee)
    && GetSignatureAlgorithm(p, signer.signatureAlgorithm, signer.parameters, signer.digestAlgorithm) == Some(algorithm)
    && p.check(ee.publicKey, algorithm, OctetsSigned(p7, signer), signer.encryptedDigest)
    && (signer.authenticated != [] ==> DigestMatches(p, p7.content, signer))
    && forall time | SignedAt(p, signer, time) :: ee.notBefore <= time <= ee.notAfter
  }

  /** The time to verify at: the one that is set, else the signing time, else now. */
  ghost predicate VerifiedAt(p: Primitives, signer: SignerInfo, options: Options, now: int, time: int) {
    if options.currentTime.Some? then time == options.currentTime.value
    else SignedAt(p, signer, time) || (time == now && forall t :: !SignedAt(p, signer, t))
  }

  /** Where a trust store is given, it has a chain for the certificate at that time. */
  ghost predicate ChainHolds(p: Primitives, signer: SignerInfo, ee: Certificate, options: Options, now: int) {
    options.chains.Some? ==>
      exists time :: VerifiedAt(p, signer, options, now, time) && options.chains.value(options.intermediates, ee, time)
  }

  lemma {:induction false} FoundCertIs(certs: seq<Certificate>, id: IssuerAndSerial, ee: Certificate)
    ensures FoundCert(certs, id) == Some(ee) <==> NamedFirst(certs, id, ee)
  {
    if certs == [] {
    } else {
      var rest := certs[1..];
      FoundCertIs(rest, id, ee);
      assert IsMatch(certs[0], id) && certs[0] == ee ==> NamedAt(certs, id, ee, 0);
      if i :| 0 <= i < |rest| && NamedAt(rest, id, ee, i) && !IsMatch(certs[0], id) {
        NamedLater(certs, id, ee, i);
      }
      if i :| 0 <= i < |certs| && NamedAt(certs, id, ee, i) && !IsMatch(certs[0], id) {
        NamedLater(certs, id, ee, i - 1);
      }
    }
  }

  lemma NamedLater(certs: seq<Certificate>, id: IssuerAndSerial, ee: Certificate, i: nat)
    requires i + 1 < |certs| && !IsMatch(certs[0], id)
    ensures NamedAt(certs[1..], id, ee, i) <==> NamedAt(certs, id, ee, i + 1)
  {
    if NamedAt(certs, id, ee, i + 1) {
      assert forall j | 0 <= j < i :: certs[1..][j] == certs[j + 1];
    }
    if NamedAt(certs[1..], id, ee, i) {
      assert forall j | 1 <= j < i + 1 :: certs[j] == certs[1..][j - 1];
    }
  }

  lemma {:induction false} FirstValueAt(attrs: seq<Attribute>, kind: seq<byte>, value: seq<byte>)
    ensures FirstValue(attrs, kind) == Some(value) <==> FirstIs(attrs, kind, value)
  {
    if attrs == [] {
    } else {
      var rest := attrs[1..];
      FirstValueAt(rest, kind, value);
      if attrs[0].kind == kind {
        if attrs[0].value == value {
          assert attrs[0] == Attribute(kind, value);
        }
      } else {
        if i :| 0 <= i < |rest| && rest[i] == Attribute(kind, value) && forall j | 0 <= j < i :: rest[j].kind != kind {
          assert attrs[i + 1] == rest[i] && forall j | 1 <= j < i + 1 :: attrs[j] == rest[j - 1];
        }
        if i :| 0 <= i < |attrs| && attrs[i] == Attribute(kind, value) && forall j | 0 <= j < i :: attrs[j].kind != kind {
          assert rest[i - 1] == attrs[i] && forall j | 0 <= j < i - 1 :: rest[j] == attrs[j + 1];
        }
      }
    }
  }

  lemma TimeIs(p: Primitives, signer: SignerInfo, time: int)
    ensures TimeOf(p, signer.authenticated) == Some(time) <==> SignedAt(p, signer, time)
  {
    var value := FirstValue(signer.authenticated, SIGNING_TIME);
    if value.Some? {
      FirstValueAt(signer.authenticated, SIGNING_TIME, value.value);
    }
    forall v | FirstIs(signer.authenticated, SIGNING_TIME, v)
      ensures value == Some(v)
    {
      FirstValueAt(signer.authenticated, SIGNING_TIME, v);
    }
  }

  lemma DigestIs(p: Primitives, content: seq<byte>, signer: SignerInfo)
    ensures DigestMatches(p, content, signer) <==>
            && GetHashForOid(signer.digestAlgorithm).Ok?
            && DigestOf(signer.authenticated) == Some(p.hash(GetHashForOid(signer.digestAlgorithm).value, content))
  {
    var value := FirstValue(signer.authenticated, MESSAGE_DIGEST);
    if value.Some? {
      FirstValueAt(signer.authenticated, MESSAGE_DIGEST, value.value);
    }
    forall v | FirstIs(signer.authenticated, MESSAGE_DIGEST, v)
      ensures value == Some(v)
    {
      FirstValueAt(signer.authenticated, MESSAGE_DIGEST, v);
    }
  }

  lemma TimesAre(p: Primitives, signer: SignerInfo)
    ensures forall time :: SignedAt(p, signer, time) <==> TimeOf(p, signer.authenticated) == Some(time)
    ensures signer.authenticated == [] ==> forall time :: !SignedAt(p, signer, time)
  {
    forall time
      ensures SignedAt(p, signer, time) <==> TimeOf(p, signer.authenticated) == Some(time)
    {
      TimeIs(p, signer, time);
    }
  }

  lemma ChainIs(p: Primitives, signer: SignerInfo, ee: Certificate, options: Options, now: int)
    ensures ChainHolds(p, signer, ee, options, now) <==>
            var time := TimeOf(p, signer.authenticated);
            options.chains.Some? ==>
              options.chains.value(options.intermediates, ee,
                                   if options.currentTime.Some? then options.currentTime.value
                                   else if time.Some? then time.value else now)
  {
    var signed := TimeOf(p, signer.authenticated);
    var time := if options.currentTime.Some? then options.currentTime.value else if signed.Some? then signed.value else now;
    TimesAre(p, signer);
    assert VerifiedAt(p, signer, options, now, time);
    assert forall t | VerifiedAt(p, signer, options, now, t) :: t == time;
  }

  lemma AcceptedIs(p: Primitives, p7: Pkcs7, signer: SignerInfo, ee: Certificate, algorithm: SignatureAlgorithm, options: Options, now: int)
    requires NamedFirst(p7.certificates, signer.id, ee)
    requires GetSignatureAlgorithm(p, signer.signatureAlgorithm, signer.parameters, signer.digestAlgorithm) == Some(algorithm)
    ensures AcceptedWith(p, p7.content, signer, ee, options, now)
            <==> Vouched(p, p7, signer, ee, algorithm) && ChainHolds(p, signer, ee, options, now)
  {
    TimesAre(p, signer);
    DigestIs(p, p7.content, signer);
    ChainIs(p, signer, ee, options, now);
  }

  /** A signer is accepted exactly when a certificate of the message vouches for it and the chain holds. */
  lemma AcceptedIffVouched(p: Primitives, p7: Pkcs7, signer: SignerInfo, options: Options, now: int)
    ensures SignerAccepted(p, p7, signer, options, now) <==>
            exists ee, algorithm :: Vouched(p, p7, signer, ee, algorithm) && ChainHolds(p, signer, ee, options, now)
  {
    var found := FoundCert(p7.certificates, signer.id);
    var designated := GetSignatureAlgorithm(p, signer.signatureAlgorithm, signer.parameters, signer.digestAlgorithm);
    forall ee | NamedFirst(p7.certificates, signer.id, ee)
      ensures found == Some(ee)
    {
      FoundCertIs(p7.certificates, signer.id, ee);
    }
    if found.Some? && designated.Some? {
      FoundCertIs(p7.certificates, signer.id, found.value);
      AcceptedIs(p, p7, signer, found.value, designated.value, options, now);
    }
  }

  /** So in a verified message every signature was checked. */
  lemma VerifiedIsSigned(p: Primitives, p7: Pkcs7, options: Options, now: int, i: nat)
    requires Verified(p, p7, options, now) && i < |p7.signers|
    ensures exists ee, algorithm ::
              && ee in p7.certificates && CertToIssuerAndSerial(ee) == p7.signers[i].id
              && p.check(ee.publicKey, algorithm, OctetsSigned(p7, p7.signers[i]), p7.signers[i].encryptedDigest)
              && ChainHolds(p, p7.signers[i], ee, options, now)
  {
    AcceptedIffVouched(p, p7, p7.signers[i], options, now);
    var ee, algorithm :|
      Vouched(p, p7, p7.signers[i], ee, algorithm) && ChainHolds(p, p7.signers[i], ee, options, now);
    assert ee in p7.certificates && CertToIssuerAndSerial(ee) == p7.signers[i].id;
  }

  // ---------- signatures of other programs ----------

  /** The signature is that of a key on these octets: on their digest for RSA and ECDSA, on the octets themselves for the
      others; and the signer designates the algorithm of the key. */
  ghost predicate MadeBy(p: Primitives, signer: SignerInfo, key: KeyOrSigner, h: Hash, data: seq<byte>, random: seq<byte>) {
    match key
    case RsaSigner(_) =>
      && Designates(signer.signatureAlgorithm, signer.parameters, signer.digestAlgorithm, RsaWith(h))
      && p.sign(key, Digest(h, p.hash(h, data)), random) == Some(signer.encryptedDigest)
    case EcdsaSigner(_) =>
      && Designates(signer.signatureAlgorithm, signer.parameters, signer.digestAlgorithm, EcdsaWith(h))
      && p.sign(key, Digest(h, p.hash(h, data)), random) == Some(signer.encryptedDigest)
    case Ed25519Signer(_) =>
      && Designates(signer.signatureAlgorithm, signer.parameters, signer.digestAlgorithm, PureEd25519)
      && p.sign(key, Message(data), random) == Some(signer.encryptedDigest)
    case MlDsaSigner(m, _) =>
      && Designates(signer.signatureAlgorithm, signer.parameters, signer.digestAlgorithm, PureMlDsa(m))
      && p.sign(key, Message(data), random) == Some(signer.encryptedDigest)
    case _ => false
  }

  /** Whoever made a signature with the key of a certificate, it is accepted: in every designation, with signed attributes
      or without. */
  lemma ForeignSignerAccepted(p: Primitives, p7: Pkcs7, signer: SignerInfo, ee: Certificate, key: KeyOrSigner, h: Hash,
                              random: seq<byte>, options: Options, now: int)
    requires p.Laws() && NamedFirst(p7.certificates, signer.id, ee) && ee.publicKey == p.public(key)
    requires MadeBy(p, signer, key, h, OctetsSigned(p7, signer), random)
    requires signer.authenticated != [] ==> DigestMatches(p, p7.content, signer)
    requires forall time | SignedAt(p, signer, time) :: ee.notBefore <= time <= ee.notAfter
    requires ChainHolds(p, signer, ee, options, now)
    ensures SignerAccepted(p, p7, signer, options, now)
  {
    var data := OctetsSigned(p7, signer);
    var algorithm := KeyAlgorithm(key, h).value;
    AlgorithmDesignated(p, signer.signatureAlgorithm, signer.parameters, signer.digestAlgorithm, algorithm);
    var message := if key.RsaSigner? || key.EcdsaSigner? then Digest(h, p.hash(h, data)) else Message(data);
    assert p.SignatureChecks(key, message, algorithm, data);
    assert Vouched(p, p7, signer, ee, algorithm);
    AcceptedIffVouched(p, p7, signer, options, now);
  }
}
