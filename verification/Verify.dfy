/** Signature verification of verify.go. */
module Verify {
  import opened Bytes
  import opened Asn1
  import opened Certificates
  import opened Attributes
  import opened SigningAlgorithms
  import opened Signing

  /** A parsed SignedData message. */
  datatype Pkcs7 = Pkcs7(content: seq<byte>, certificates: seq<Certificate>, signers: seq<SignerInfo>)

  /** What building a chain answers for a trust store: whether one leads from a certificate to a root at a
      time, with these certificates in between. */
  type Chains = (seq<Certificate>, Certificate, int) -> bool

  /** Options of a verification: the chains to the roots of a trust store, where one is given, the certificates
      in between, and the time to verify at, where one is set. */
  datatype Options = Options(chains: Option<Chains>, intermediates: seq<Certificate>, currentTime: Option<int>)

  // ---------- look-ups ----------

  /** The first certificate with the issuer and serial number. */
  function FoundCert(certs: seq<Certificate>, id: IssuerAndSerial): Option<Certificate> {
    if certs == [] then None else if IsMatch(certs[0], id) then Some(certs[0]) else FoundCert(certs[1..], id)
  }

  method GetCertByIssuerAndSerial(certs: seq<Certificate>, id: IssuerAndSerial) returns (r: Option<Certificate>)
    ensures r == FoundCert(certs, id)
  {
    for i := 0 to |certs|
      invariant FoundCert(certs, id) == FoundCert(certs[i..], id)
    {
      if IsMatch(certs[i], id) {
        return Some(certs[i]);
      }
    }
    return None;
  }

  /** The value of the first attribute of a type. */
  function FirstValue(attrs: seq<Attribute>, kind: seq<byte>): Option<seq<byte>> {
    if attrs == [] then None else if attrs[0].kind == kind then Some(attrs[0].value) else FirstValue(attrs[1..], kind)
  }

  method FindValue(attrs: seq<Attribute>, kind: seq<byte>) returns (r: Option<seq<byte>>)
    ensures r == FirstValue(attrs, kind)
  {
    for i := 0 to |attrs|
      invariant FirstValue(attrs, kind) == FirstValue(attrs[i..], kind)
    {
      if attrs[i].kind == kind {
        return Some(attrs[i].value);
      }
    }
    return None;
  }

  /** The digest in the attributes. */
  function DigestOf(attrs: seq<Attribute>): Option<seq<byte>> {
    match FirstValue(attrs, MESSAGE_DIGEST)
    case None => None
    case Some(value) => match UnmarshalOctets(value) case None => None case Some((digest, _)) => Some(digest)
  }

  /** The signing time in the attributes; one that cannot be read counts as none. */
  function TimeOf(p: Primitives, attrs: seq<Attribute>): Option<int> {
    match FirstValue(attrs, SIGNING_TIME)
    case None => None
    case Some(value) => p.unmarshalTime(value)
  }

  predicate Inside(cert: Certificate, time: int) {
    cert.notBefore <= time <= cert.notAfter
  }

  // ---------- accepting a signer ----------

  /** Whether a signer is accepted with the certificate `ee`: the digest and the signing time in
      its attributes, if it has any, the chain, if a trust store is given, and the signature. */
  predicate AcceptedWith(p: Primitives, content: seq<byte>, signer: SignerInfo, ee: Certificate, options: Options, now: int) {
    var attrs := signer.authenticated;
    var algorithm := GetSignatureAlgorithm(p, signer.signatureAlgorithm, signer.parameters, signer.digestAlgorithm);
    var time := TimeOf(p, attrs);
    && (attrs != [] ==>
          && GetHashForOid(signer.digestAlgorithm).Ok?
          && DigestOf(attrs) == Some(p.hash(GetHashForOid(signer.digestAlgorithm).value, content))
          && (time.Some? ==> Inside(ee, time.value)))
    && (options.chains.Some? ==>
          options.chains.value(options.intermediates, ee,
                               if options.currentTime.Some? then options.currentTime.value
                               else if attrs != [] && time.Some? then time.value else now))
    && algorithm.Some?
    && p.check(ee.publicKey, algorithm.value, if attrs == [] then content else SignedOctets(attrs), signer.encryptedDigest)
  }

  predicate SignerAccepted(p: Primitives, p7: Pkcs7, signer: SignerInfo, options: Options, now: int) {
    var ee := FoundCert(p7.certificates, signer.id);
    ee.Some? && AcceptedWith(p, p7.content, signer, ee.value, options, now)
  }

  /** Verifies at the signing time if there is one, else now. */
  method VerifySignature(p: Primitives, p7: Pkcs7, signer: SignerInfo, options: Options, now: int) returns (ok: bool)
    requires options.currentTime.None?
    ensures ok == SignerAccepted(p, p7, signer, options, now)
  {
    var signedData := p7.content;
    var ee := GetCertByIssuerAndSerial(p7.certificates, signer.id);
    if ee.None? {
      return false;
    }
    var signingTime := now;
    if |signer.authenticated| > 0 {
      var good := CheckDigest(p, p7.content, signer);
      if !good {
        return false;
      }
      signedData := SignedOctets(signer.authenticated);
      var value := FindValue(signer.authenticated, SIGNING_TIME);
      if value.Some? && p.unmarshalTime(value.value).Some? {
        signingTime := p.unmarshalTime(value.value).value;
        if signingTime > ee.value.notAfter || signingTime < ee.value.notBefore {
          return false;
        }
      }
    }
    if options.chains.Some? && !options.chains.value(options.intermediates, ee.value, signingTime) {
      return false;
    }
    ok := CheckSigned(p, signer, ee.value, signedData);
  }

  /** Verifies at the time that is set. */
  method VerifySignatureAtTime(p: Primitives, p7: Pkcs7, signer: SignerInfo, options: Options, now: int) returns (ok: bool)
    requires options.currentTime.Some?
    ensures ok == SignerAccepted(p, p7, signer, options, now)
  {
    var signedData := p7.content;
    var ee := GetCertByIssuerAndSerial(p7.certificates, signer.id);
    if ee.None? {
      return false;
    }
    if |signer.authenticated| > 0 {
      var good := CheckDigest(p, p7.content, signer);
      if !good {
        return false;
      }
      signedData := SignedOctets(signer.authenticated);
      var value := FindValue(signer.authenticated, SIGNING_TIME);
      if value.Some? && p.unmarshalTime(value.value).Some? {
        var signingTime := p.unmarshalTime(value.value).value;
        if signingTime > ee.value.notAfter || signingTime < ee.value.notBefore {
          return false;
        }
      }
    }
    if options.chains.Some? && !options.chains.value(options.intermediates, ee.value, options.currentTime.value) {
      return false;
    }
    ok := CheckSigned(p, signer, ee.value, signedData);
  }

  method CheckDigest(p: Primitives, content: seq<byte>, signer: SignerInfo) returns (ok: bool)
    ensures ok <==> && GetHashForOid(signer.digestAlgorithm).Ok?
                    && DigestOf(signer.authenticated) == Some(p.hash(GetHashForOid(signer.digestAlgorithm).value, content))
  {
    var value := FindValue(signer.authenticated, MESSAGE_DIGEST);
    if value.None? || UnmarshalOctets(value.value).None? {
      return false;
    }
    var hash := GetHashForOid(signer.digestAlgorithm);
    if hash.Err? {
      return false;
    }
    return UnmarshalOctets(value.value).value.0 == p.hash(hash.value, content);
  }

  method CheckSigned(p: Primitives, signer: SignerInfo, ee: Certificate, signedData: seq<byte>) returns (ok: bool)
    ensures ok <==> var algorithm := GetSignatureAlgorithm(p, signer.signatureAlgorithm, signer.parameters, signer.digestAlgorithm);
                    algorithm.Some? && p.check(ee.publicKey, algorithm.value, signedData, signer.encryptedDigest)
  {
    var algorithm := GetSignatureAlgorithm(p, signer.signatureAlgorithm, signer.parameters, signer.digestAlgorithm);
    if algorithm.None? {
      return false;
    }
    return p.check(ee.publicKey, algorithm.value, signedData, signer.encryptedDigest);
  }

  /** A message is verified when it has signers and all of them are accepted. */
  predicate Verified(p: Primitives, p7: Pkcs7, options: Options, now: int) {
    p7.signers != [] && forall i | 0 <= i < |p7.signers| :: SignerAccepted(p, p7, p7.signers[i], options, now)
  }

  method VerifyWithOpts(p: Primitives, p7: Pkcs7, options: Options, now: int) returns (ok: bool)
    ensures ok == Verified(p, p7, options, now)
  {
    if |p7.signers| == 0 {
      return false;
    }
    if options.currentTime.None? {
      for i := 0 to |p7.signers|
        invariant forall k | 0 <= k < i :: SignerAccepted(p, p7, p7.signers[k], options, now)
      {
        var good := VerifySignature(p, p7, p7.signers[i], options, now);
        if !good {
          return false;
        }
      }
      return true;
    }
    for i := 0 to |p7.signers|
      invariant forall k | 0 <= k < i :: SignerAccepted(p, p7, p7.signers[k], options, now)
    {
      var good := VerifySignatureAtTime(p, p7, p7.signers[i], options, now);
      if !good {
        return false;
      }
    }
    return true;
  }

  /** Takes the certificates of the message as those in between. */
  method VerifyWithChain(p: Primitives, p7: Pkcs7, chains: Option<Chains>, now: int) returns (ok: bool)
    ensures ok == Verified(p, p7, Options(chains, p7.certificates, None), now)
  {
    var intermediates: seq<Certificate> := [];
    for i := 0 to |p7.certificates|
      invariant intermediates == p7.certificates[..i]
    {
      intermediates := intermediates + [p7.certificates[i]];
    }
    assert p7.certificates[..|p7.certificates|] == p7.certificates;
    ok := VerifyWithOpts(p, p7, Options(chains, intermediates, None), now);
  }
}
