/** The SignedData builder of sign.go as a state machine. */
module Signing {
  import opened Bytes
  import opened Sequences
  import opened Asn1
  import opened Certificates
  import opened Attributes
  import opened SigningAlgorithms

  /** Contents octets of 1.2.840.113549.1.9.3 to 5. */
  const CONTENT_TYPE: seq<byte> := [0x2A, 0x86, 0x48, 0x86, 0xF7, 0x0D, 1, 9, 3]
  const MESSAGE_DIGEST: seq<byte> := [0x2A, 0x86, 0x48, 0x86, 0xF7, 0x0D, 1, 9, 4]
  const SIGNING_TIME: seq<byte> := [0x2A, 0x86, 0x48, 0x86, 0xF7, 0x0D, 1, 9, 5]

  datatype SignerInfo = SignerInfo(
    id: IssuerAndSerial,
    digestAlgorithm: Oid,
    authenticated: seq<Attribute>,
    signatureAlgorithm: Oid,
    parameters: AlgorithmParameters,
    encryptedDigest: seq<byte>,
    unauthenticated: seq<Attribute>)

  datatype Config = Config(signed: seq<Entry>, unsigned: seq<Entry>, skipCertificates: bool, skipSigningTime: bool)

  // ---------- the attributes to be signed ----------

  predicate HasKind(es: seq<Entry>, kind: seq<byte>) {
    exists i | 0 <= i < |es| :: es[i].kind == kind
  }

  /** The extra attributes that are taken over; `added` tells that an explicit signing-time was. */
  function Kept(extra: seq<Entry>, skip: bool, added: bool): seq<Entry> {
    if extra == [] then []
    else if extra[0].kind == SIGNING_TIME then
      if skip || added then Kept(extra[1..], skip, added) else [extra[0]] + Kept(extra[1..], skip, true)
    else [extra[0]] + Kept(extra[1..], skip, added)
  }

  /** The attributes that are always signed. */
  function OwnEntries(contentType: seq<byte>, digest: seq<byte>): seq<Entry> {
    [Entry(CONTENT_TYPE, Some(Element(6, contentType))), Entry(MESSAGE_DIGEST, Some(OctetString(digest)))]
  }

  function DefaultTime(p: Primitives, config: Config, now: int): seq<Entry> {
    if config.skipSigningTime || HasKind(config.signed, SIGNING_TIME) then [] else [Entry(SIGNING_TIME, p.marshalTime(now))]
  }

  function SignedEntries(p: Primitives, contentType: seq<byte>, digest: seq<byte>, config: Config, now: int): seq<Entry> {
    OwnEntries(contentType, digest) + DefaultTime(p, config, now) + Kept(config.signed, config.skipSigningTime, false)
  }

  method CollectSigned(p: Primitives, contentType: seq<byte>, digest: seq<byte>, config: Config, now: int)
    returns (r: Result<seq<Attribute>>)
    ensures r == Ordered(SignedEntries(p, contentType, digest, config, now))
  {
    var attrs := new AttributeList();
    attrs.Add(CONTENT_TYPE, Some(Element(6, contentType)));
    attrs.Add(MESSAGE_DIGEST, Some(OctetString(digest)));
    assert attrs.Entries() == OwnEntries(contentType, digest);
    var hasExplicit := HasKind(config.signed, SIGNING_TIME);
    if !config.skipSigningTime && !hasExplicit {
      attrs.Add(SIGNING_TIME, p.marshalTime(now));
    }
    assert attrs.Entries() == OwnEntries(contentType, digest) + DefaultTime(p, config, now);
    AddKept(attrs, config.signed, config.skipSigningTime);
    r := attrs.ForMarshalling();
  }

  method AddKept(attrs: AttributeList, extra: seq<Entry>, skip: bool)
    requires attrs.Valid()
    modifies attrs
    ensures attrs.Valid() && attrs.Entries() == old(attrs.Entries()) + Kept(extra, skip, false)
  {
    var added := false;
    ghost var done: seq<Entry> := [];
    for i := 0 to |extra|
      invariant attrs.Valid() && attrs.Entries() == old(attrs.Entries()) + done
      invariant Kept(extra, skip, false) == done + Kept(extra[i..], skip, added)
    {
      var attr := extra[i];
      ghost var rest := extra[i + 1..];
      assert extra[i..][0] == attr && extra[i..][1..] == rest;
      if attr.kind == SIGNING_TIME {
        if skip || added {
          continue;
        }
        added := true;
      }
      attrs.Add(attr.kind, attr.value);
      Associative(done, [attr], Kept(rest, skip, added));
      done := done + [attr];
    }
  }

  method CollectUnsigned(extra: seq<Entry>) returns (r: Result<seq<Attribute>>)
    ensures r == Ordered(extra)
  {
    var attrs := new AttributeList();
    for i := 0 to |extra|
      invariant attrs.Valid() && fresh(attrs) && attrs.Entries() == extra[..i]
    {
      attrs.Add(extra[i].kind, extra[i].value);
    }
    assert extra[..|extra|] == extra;
    r := attrs.ForMarshalling();
  }

  // ---------- the steps of the builder ----------

  /** Each certificate is issued by the next one in the list. */
  predicate PartialChain(p: Primitives, cert: Certificate, parents: seq<Certificate>)
    decreases |parents|
  {
    parents != [] && p.issued(cert, parents[0]) && (|parents| > 1 ==> PartialChain(p, parents[0], parents[1..]))
  }

  /** The fields of a builder; `content` is None once the message is detached. */
  datatype State = State(
    digestAlgorithms: seq<Oid>,
    contentType: seq<byte>,
    content: Option<seq<byte>>,
    certs: seq<Certificate>,
    signers: seq<SignerInfo>,
    data: seq<byte>,
    messageDigest: seq<byte>,
    digestOid: Oid,
    encryptionOid: Option<Oid>)

  function Start(data: seq<byte>): State {
    State([], DATA, Some(data), [], [], data, [], Sha1, None)
  }

  /** The issuer and serial number that a signer is found by. */
  function SignerId(ee: Certificate, parents: seq<Certificate>): IssuerAndSerial {
    IssuerAndSerial(if parents == [] then ee.rawIssuer else parents[0].rawSubject, ee.serialNumber)
  }

  /** What is recorded before anything is signed, and stays if signing fails. */
  function Noted(p: Primitives, s: State, digestOid: Oid): State {
    var noted := s.(digestAlgorithms := s.digestAlgorithms + [digestOid]);
    match GetHashForOid(digestOid)
    case Err => noted
    case Ok(hash) => noted.(messageDigest := p.hash(hash, s.data))
  }

  /** The signer that AddSignerChain makes. */
  function NewSigner(p: Primitives, contentType: seq<byte>, data: seq<byte>, a: SignerAlgorithm, hash: Hash, id: IssuerAndSerial,
                     key: KeyOrSigner, config: Config, now: int, random: seq<byte>): Option<SignerInfo>
  {
    var attrs := Ordered(SignedEntries(p, contentType, p.hash(hash, data), config, now));
    var unsigned := Ordered(config.unsigned);
    if attrs.Err? || unsigned.Err? then None else
      var signature := Sign(p, a, key, SignedOctets(attrs.value), hash, random);
      if signature.None? then None else
        Some(SignerInfo(id, a.digestOid, attrs.value, a.signatureOid, Absent, signature.value, unsigned.value))
  }

  method MakeSigner(p: Primitives, contentType: seq<byte>, data: seq<byte>, a: SignerAlgorithm, hash: Hash, id: IssuerAndSerial,
                    key: KeyOrSigner, config: Config, now: int, random: seq<byte>)
    returns (r: Option<SignerInfo>)
    ensures r == NewSigner(p, contentType, data, a, hash, id, key, config, now, random)
  {
    var attrs := CollectSigned(p, contentType, p.hash(hash, data), config, now);
    if attrs.Err? {
      return None;
    }
    var unsigned := CollectUnsigned(config.unsigned);
    if unsigned.Err? {
      return None;
    }
    var signature := Sign(p, a, key, SignedOctets(attrs.value), hash, random);
    if signature.None? {
      return None;
    }
    return Some(SignerInfo(id, a.digestOid, attrs.value, a.signatureOid, Absent, signature.value, unsigned.value));
  }

  /** AddSignerChain: the new state, and whether a signer was added. */
  function Signed(p: Primitives, s: State, ee: Certificate, key: KeyOrSigner, parents: seq<Certificate>, config: Config,
                  now: int, random: seq<byte>): (State, bool)
  {
    var algorithm := GetSignerAlgorithm(key, s.digestOid, None);
    if algorithm.Err? || (parents != [] && !PartialChain(p, ee, parents)) then (s, false) else
      var noted := Noted(p, s, algorithm.value.digestOid);
      var hash := GetHashForOid(algorithm.value.digestOid);
      if hash.Err? then (noted, false) else
        match NewSigner(p, s.contentType, s.data, algorithm.value, hash.value, SignerId(ee, parents), key, config, now, random)
        case None => (noted, false)
        case Some(signer) =>
          (noted.(certs := if config.skipCertificates then s.certs else s.certs + ([ee] + parents),
                  signers := s.signers + [signer]), true)
  }

  /** SignWithoutAttr: the signature is on the data alone. */
  function SignedPlain(p: Primitives, s: State, ee: Certificate, key: KeyOrSigner, random: seq<byte>): (State, bool) {
    var algorithm := GetSignerAlgorithm(key, s.digestOid, s.encryptionOid);
    if algorithm.Err? then (s, false) else
      var a := algorithm.value;
      var noted := Noted(p, s, a.digestOid);
      var hash := GetHashForOid(a.digestOid);
      if hash.Err? then (noted, false) else
        match Sign(p, a, key, s.data, hash.value, random)
        case None => (noted, false)
        case Some(signature) =>
          var signer := SignerInfo(SignerId(ee, []), a.digestOid, [], a.signatureOid, Absent, signature, []);
          (noted.(certs := s.certs + [ee], signers := s.signers + [signer]), true)
  }

  /** The certificate is issued by the first parent, and each parent by the next one. */
  ghost predicate Linked(p: Primitives, ee: Certificate, parents: seq<Certificate>) {
    && (parents != [] ==> p.issued(ee, parents[0]))
    && forall i | 1 <= i < |parents| :: p.issued(parents[i - 1], parents[i])
  }

  lemma {:induction false} ChainIsLinked(p: Primitives, ee: Certificate, parents: seq<Certificate>)
    requires parents != []
    ensures PartialChain(p, ee, parents) <==> Linked(p, ee, parents)
    decreases |parents|
  {
    var rest := parents[1..];
    if rest == [] {
    } else {
      ChainIsLinked(p, parents[0], rest);
      if Linked(p, parents[0], rest) && p.issued(ee, parents[0]) {
        forall i | 1 <= i < |parents|
          ensures p.issued(parents[i - 1], parents[i])
        {
          assert i > 1 ==> parents[i - 1] == rest[i - 2] && parents[i] == rest[i - 1];
        }
      }
      if Linked(p, ee, parents) {
        forall i | 1 <= i < |rest|
          ensures p.issued(rest[i - 1], rest[i])
        {
          assert rest[i - 1] == parents[i] && rest[i] == parents[i + 1];
        }
      }
    }
  }

  /** A successful AddSignerChain was given a linked chain, and appends one signer that is found by the issuer and serial
      number of its certificate and, unless they are to be skipped, the certificate and all parents. */
  lemma SignerAdded(p: Primitives, s: State, ee: Certificate, key: KeyOrSigner, parents: seq<Certificate>, config: Config,
                    now: int, random: seq<byte>)
    requires Signed(p, s, ee, key, parents, config, now, random).1
    ensures Linked(p, ee, parents)
    ensures var t := Signed(p, s, ee, key, parents, config, now, random).0;
            && |t.signers| == |s.signers| + 1
            && var signer := t.signers[|s.signers|];
               && t.signers == s.signers + [signer]
               && t.certs == s.certs + (if config.skipCertificates then [] else [ee] + parents)
               && t.digestAlgorithms == s.digestAlgorithms + [signer.digestAlgorithm]
               && t.data == s.data && t.content == s.content && t.contentType == s.contentType
               && signer.id.serialNumber == ee.serialNumber
               && signer.id.issuerName == (if parents == [] then ee.rawIssuer else parents[0].rawSubject)
               && signer.parameters == Absent
               && Ordered(config.unsigned) == Ok(signer.unauthenticated)
  {
    var t := Signed(p, s, ee, key, parents, config, now, random).0;
    if parents != [] {
      ChainIsLinked(p, ee, parents);
    }
    assert config.skipCertificates ==> t.certs + [] == t.certs;
  }

  /** The hash that a signer uses: ML-DSA always takes SHA-512. */
  function HashFor(key: KeyOrSigner, h: Hash): Hash {
    if key.MlDsaSigner? then HashSha512 else h
  }

  /** What it is given to sign. */
  function Signable(p: Primitives, key: KeyOrSigner, h: Hash, data: seq<byte>): ToSign {
    if key.MlDsaSigner? || key.Ed25519Signer? then Message(data) else Digest(h, p.hash(h, data))
  }

  /** The attributes that AddSignerChain signs, if they can be marshalled. */
  function AttributesToSign(p: Primitives, s: State, h: Hash, config: Config, now: int): Result<seq<Attribute>> {
    Ordered(SignedEntries(p, s.contentType, p.hash(h, s.data), config, now))
  }

  lemma NewSignerSucceeds(p: Primitives, s: State, a: SignerAlgorithm, h: Hash, id: IssuerAndSerial, key: KeyOrSigner,
                          config: Config, now: int, random: seq<byte>)
    requires a.mode.ModeEd25519? || a.mode.ModeMlDsa? <==> key.MlDsaSigner? || key.Ed25519Signer?
    ensures var attrs := AttributesToSign(p, s, h, config, now);
            var signer := NewSigner(p, s.contentType, s.data, a, h, id, key, config, now, random);
            && (signer.Some? <==>
                  && attrs.Ok? && AllMarshal(config.unsigned)
                  && p.sign(key, Signable(p, key, h, SignedOctets(attrs.value)), random).Some?)
            && (signer.Some? ==>
                  && signer.value.authenticated == attrs.value
                  && Some(signer.value.encryptedDigest) == p.sign(key, Signable(p, key, h, SignedOctets(attrs.value)), random))
  {
  }

  lemma UsableKeys(key: KeyOrSigner, h: Hash, configured: Option<Oid>)
    requires configured == None
    ensures var algorithm := GetSignerAlgorithm(key, DigestOid(h), configured);
            && (algorithm.Ok? <==> !key.NotASigner? && !key.OtherSigner?)
            && (algorithm.Ok? ==>
                  && GetHashForOid(algorithm.value.digestOid) == Ok(HashFor(key, h))
                  && (algorithm.value.mode.ModeEd25519? || algorithm.value.mode.ModeMlDsa? <==> key.MlDsaSigner? || key.Ed25519Signer?))
  {
    SignerDesignates(key, h);
    SignerDesignates(key, HashSha512);
  }

  /** With one of the four digest algorithms AddSignerChain succeeds exactly for a usable key and a linked chain, if the
      attributes can be marshalled and the signer signs them; */
  lemma SigningSucceeds(p: Primitives, s: State, ee: Certificate, key: KeyOrSigner, parents: seq<Certificate>, config: Config,
                        now: int, random: seq<byte>, h: Hash)
    requires s.digestOid == DigestOid(h)
    ensures var attrs := AttributesToSign(p, s, HashFor(key, h), config, now);
            Signed(p, s, ee, key, parents, config, now, random).1 <==>
              && !key.NotASigner? && !key.OtherSigner? && Linked(p, ee, parents)
              && attrs.Ok? && AllMarshal(config.unsigned)
              && p.sign(key, Signable(p, key, HashFor(key, h), SignedOctets(attrs.value)), random).Some?
  {
    UsableKeys(key, h, None);
    if parents != [] {
      ChainIsLinked(p, ee, parents);
    }
    var algorithm := GetSignerAlgorithm(key, s.digestOid, None);
    if algorithm.Ok? {
      NewSignerSucceeds(p, s, algorithm.value, HashFor(key, h), SignerId(ee, parents), key, config, now, random);
    }
  }

  /** and then the signature is on them. */
  lemma SignatureIsOnAttributes(p: Primitives, s: State, ee: Certificate, key: KeyOrSigner, parents: seq<Certificate>, config: Config,
                                now: int, random: seq<byte>, h: Hash)
    requires s.digestOid == DigestOid(h) && Signed(p, s, ee, key, parents, config, now, random).1
    ensures var t, attrs := Signed(p, s, ee, key, parents, config, now, random).0, AttributesToSign(p, s, HashFor(key, h), config, now);
            && |t.signers| == |s.signers| + 1 && attrs.Ok?
            && var signer := t.signers[|s.signers|];
               && signer.authenticated == attrs.value
               && Some(signer.encryptedDigest)
                  == p.sign(key, Signable(p, key, HashFor(key, h), SignedOctets(attrs.value)), random)
  {
    UsableKeys(key, h, None);
    var algorithm := GetSignerAlgorithm(key, s.digestOid, None).value;
    NewSignerSucceeds(p, s, algorithm, HashFor(key, h), SignerId(ee, parents), key, config, now, random);
  }

  /** SignWithoutAttr succeeds exactly for a usable key that signs the data, and appends the certificate and a signer with
      that signature. */
  lemma PlainSigningSucceeds(p: Primitives, s: State, ee: Certificate, key: KeyOrSigner, random: seq<byte>, h: Hash)
    requires s.digestOid == DigestOid(h) && s.encryptionOid == None
    ensures var (t, added) := SignedPlain(p, s, ee, key, random);
            && (added <==>
                  && !key.NotASigner? && !key.OtherSigner?
                  && p.sign(key, Signable(p, key, HashFor(key, h), s.data), random).Some?)
            && (added ==>
                  && t.certs == s.certs + [ee] && |t.signers| == |s.signers| + 1
                  && var signer := t.signers[|s.signers|];
                     && t.signers == s.signers + [signer]
                     && signer.id == CertToIssuerAndSerial(ee)
                     && signer.authenticated == [] && signer.unauthenticated == []
                     && Some(signer.encryptedDigest) == p.sign(key, Signable(p, key, HashFor(key, h), s.data), random))
  {
    UsableKeys(key, h, s.encryptionOid);
  }

  /** A chain with a missing link is rejected before anything is recorded. */
  lemma BrokenChainRejected(p: Primitives, s: State, ee: Certificate, key: KeyOrSigner, parents: seq<Certificate>, config: Config,
                            now: int, random: seq<byte>)
    requires !Linked(p, ee, parents)
    ensures Signed(p, s, ee, key, parents, config, now, random) == (s, false)
  {
    assert parents != [];
    ChainIsLinked(p, ee, parents);
  }

  /** A failing AddSignerChain leaves the builder as it was exactly when it fails before anything is hashed:
      for want of an algorithm, or of a chain. */
  lemma FailedChainUnchanged(p: Primitives, s: State, ee: Certificate, key: KeyOrSigner, parents: seq<Certificate>,
                             config: Config, now: int, random: seq<byte>)
    requires !Signed(p, s, ee, key, parents, config, now, random).1
    ensures Signed(p, s, ee, key, parents, config, now, random).0 == s
            <==> GetSignerAlgorithm(key, s.digestOid, None).Err? || (parents != [] && !PartialChain(p, ee, parents))
  {
    var t := Signed(p, s, ee, key, parents, config, now, random).0;
    if GetSignerAlgorithm(key, s.digestOid, None).Ok? && (parents == [] || PartialChain(p, ee, parents)) {
      assert |t.digestAlgorithms| == |s.digestAlgorithms| + 1;
    }
  }

  /** The same for SignWithoutAttr. */
  lemma FailedPlainUnchanged(p: Primitives, s: State, ee: Certificate, key: KeyOrSigner, random: seq<byte>)
    requires !SignedPlain(p, s, ee, key, random).1
    ensures SignedPlain(p, s, ee, key, random).0 == s <==> GetSignerAlgorithm(key, s.digestOid, s.encryptionOid).Err?
  {
    var t := SignedPlain(p, s, ee, key, random).0;
    if GetSignerAlgorithm(key, s.digestOid, s.encryptionOid).Ok? {
      assert |t.digestAlgorithms| == |s.digestAlgorithms| + 1;
    }
  }

  /** A call that fails and leaves traces: an RSA signer of an empty message, with an extra attribute whose value
      cannot be marshalled. */
  lemma FailingCallRecords(p: Primitives, ee: Certificate, now: int, random: seq<byte>)
    ensures var config := Config([Entry(CONTENT_TYPE, None)], [], false, false);
            var (t, ok) := Signed(p, Start([]), ee, RsaSigner([]), [], config, now, random);
            !ok && t == Start([]).(digestAlgorithms := [Sha1], messageDigest := p.hash(HashSha1, []))
  {
    var config := Config([Entry(CONTENT_TYPE, None)], [], false, false);
    assert CONTENT_TYPE[8] != SIGNING_TIME[8];
    var kept := Kept(config.signed, false, false);
    assert kept[0] == Entry(CONTENT_TYPE, None);
    var es := SignedEntries(p, DATA, p.hash(HashSha1, []), config, now);
    assert es[|es| - |kept|] == kept[0];
    assert !AllMarshal(es);
  }

  /** The same for SignWithoutAttr: an RSA signer with an algorithm set for which there is no hash. */
  lemma FailingPlainCallRecords(p: Primitives, ee: Certificate, random: seq<byte>)
    ensures var s := Start([]).(digestOid := RsaPss);
            SignedPlain(p, s, ee, RsaSigner([]), random) == (s.(digestAlgorithms := [RsaPss]), false)
  {
    assert [] + [RsaPss] == [RsaPss];
  }

  function WithoutAuthenticated(signers: seq<SignerInfo>): (r: seq<SignerInfo>)
    ensures |r| == |signers|
  {
    seq(|signers|, i requires 0 <= i < |signers| => signers[i].(authenticated := []))
  }

  function WithoutUnauthenticated(signers: seq<SignerInfo>): (r: seq<SignerInfo>)
    ensures |r| == |signers|
  {
    seq(|signers|, i requires 0 <= i < |signers| => signers[i].(unauthenticated := []))
  }

  class SignedData {
    var digestAlgorithms: seq<Oid>
    var contentType: seq<byte>
    var content: Option<seq<byte>>
    var certs: seq<Certificate>
    var signers: seq<SignerInfo>
    var data: seq<byte>
    var messageDigest: seq<byte>
    var digestOid: Oid
    var encryptionOid: Option<Oid>

    function AsState(): State
      reads this
    {
      State(digestAlgorithms, contentType, content, certs, signers, data, messageDigest, digestOid, encryptionOid)
    }

    constructor (data: seq<byte>)
      ensures AsState() == Start(data)
    {
      digestAlgorithms, contentType, content, certs, signers := [], DATA, Some(data), [], [];
      this.data, messageDigest, digestOid, encryptionOid := data, [], Sha1, None;
    }

    method SetDigestAlgorithm(oid: Oid)
      modifies this
      ensures AsState() == old(AsState()).(digestOid := oid)
    {
      digestOid := oid;
    }

    method SetEncryptionAlgorithm(oid: Oid)
      modifies this
      ensures AsState() == old(AsState()).(encryptionOid := Some(oid))
    {
      encryptionOid := Some(oid);
    }

    method AddSigner(p: Primitives, ee: Certificate, key: KeyOrSigner, config: Config, now: int, random: seq<byte>)
      returns (ok: bool)
      modifies this
      ensures (AsState(), ok) == Signed(p, old(AsState()), ee, key, [], config, now, random)
    {
      ok := AddSignerChain(p, ee, key, [], config, now, random);
    }

    method AddSignerChain(p: Primitives, ee: Certificate, key: KeyOrSigner, parents: seq<Certificate>, config: Config,
                          now: int, random: seq<byte>)
      returns (ok: bool)
      modifies this
      ensures (AsState(), ok) == Signed(p, old(AsState()), ee, key, parents, config, now, random)
    {
      var algorithm := GetSignerAlgorithm(key, digestOid, None);
      if algorithm.Err? {
        return false;
      }
      var id := IssuerAndSerial(ee.rawIssuer, ee.serialNumber);
      if parents != [] {
        if !PartialChain(p, ee, parents) {
          return false;
        }
        id := IssuerAndSerial(parents[0].rawSubject, ee.serialNumber);
      }
      var hash := Note(p, algorithm.value.digestOid);
      if hash.Err? {
        return false;
      }
      var signer := MakeSigner(p, contentType, data, algorithm.value, hash.value, id, key, config, now, random);
      if signer.None? {
        return false;
      }
      Append(ee, parents, config.skipCertificates, signer.value);
      return true;
    }

    /** Records the digest algorithm, and the digest if there is a hash for it. */
    method Note(p: Primitives, oid: Oid) returns (hash: Result<Hash>)
      modifies this
      ensures hash == GetHashForOid(oid) && AsState() == Noted(p, old(AsState()), oid)
    {
      digestAlgorithms := digestAlgorithms + [oid];
      hash := GetHashForOid(oid);
      if hash.Err? {
        return;
      }
      messageDigest := p.hash(hash.value, data);
    }

    method Append(ee: Certificate, parents: seq<Certificate>, skip: bool, signer: SignerInfo)
      modifies this
      ensures AsState() == old(AsState()).(certs := if skip then old(certs) else old(certs) + ([ee] + parents),
                                           signers := old(signers) + [signer])
    {
      if !skip {
        Associative(certs, [ee], parents);
        certs := certs + [ee];
        if |parents| > 0 {
          certs := certs + parents;
        }
      }
      signers := signers + [signer];
    }

    method SignWithoutAttr(p: Primitives, ee: Certificate, key: KeyOrSigner, random: seq<byte>) returns (ok: bool)
      modifies this
      ensures (AsState(), ok) == SignedPlain(p, old(AsState()), ee, key, random)
    {
      var algorithm := GetSignerAlgorithm(key, digestOid, encryptionOid);
      if algorithm.Err? {
        return false;
      }
      var hash := Note(p, algorithm.value.digestOid);
      if hash.Err? {
        return false;
      }
      var signature := Sign(p, algorithm.value, key, data, hash.value, random);
      if signature.None? {
        return false;
      }
      var signer := SignerInfo(CertToIssuerAndSerial(ee), algorithm.value.digestOid, [], algorithm.value.signatureOid, Absent,
                               signature.value, []);
      certs := certs + [ee];
      signers := signers + [signer];
      return true;
    }

    method AddCertificate(cert: Certificate)
      modifies this
      ensures AsState() == old(AsState()).(certs := old(certs) + [cert])
    {
      certs := certs + [cert];
    }

    method SetContentType(oid: seq<byte>)
      modifies this
      ensures AsState() == old(AsState()).(contentType := oid)
    {
      contentType := oid;
    }

    method Detach()
      modifies this
      ensures AsState() == old(AsState()).(contentType := DATA, content := None)
    {
      contentType, content := DATA, None;
    }

    method RemoveAuthenticatedAttributes()
      modifies `signers
      ensures AsState() == old(AsState()).(signers := WithoutAuthenticated(old(signers)))
    {
      for i := 0 to |signers|
        invariant |signers| == |old(signers)|
        invariant forall j | 0 <= j < |signers| :: signers[j] == if j < i then WithoutAuthenticated(old(signers))[j] else old(signers)[j]
      {
        signers := signers[i := signers[i].(authenticated := [])];
      }
      assert signers == WithoutAuthenticated(old(signers));
    }

    method RemoveUnauthenticatedAttributes()
      modifies `signers
      ensures AsState() == old(AsState()).(signers := WithoutUnauthenticated(old(signers)))
    {
      for i := 0 to |signers|
        invariant |signers| == |old(signers)|
        invariant forall j | 0 <= j < |signers| :: signers[j] == if j < i then WithoutUnauthenticated(old(signers))[j] else old(signers)[j]
      {
        signers := signers[i := signers[i].(unauthenticated := [])];
      }
      assert signers == WithoutUnauthenticated(old(signers));
    }
  }

  // ---------- signing-time filtering ----------

  /** The entries whose being of the type is `same`, in order. */
  function Filter(es: seq<Entry>, kind: seq<byte>, same: bool): seq<Entry> {
    if es == [] then [] else (if (es[0].kind == kind) == same then [es[0]] else []) + Filter(es[1..], kind, same)
  }

  /** The entries of one type, in order. */
  function Only(es: seq<Entry>, kind: seq<byte>): seq<Entry> {
    Filter(es, kind, true)
  }

  /** The entries of other types, in order. */
  function Without(es: seq<Entry>, kind: seq<byte>): seq<Entry> {
    Filter(es, kind, false)
  }

  lemma {:induction false} FilterAppend(es: seq<Entry>, fs: seq<Entry>, kind: seq<byte>, same: bool)
    ensures Filter(es + fs, kind, same) == Filter(es, kind, same) + Filter(fs, kind, same)
  {
    if es == [] {
      assert es + fs == fs;
    } else {
      assert (es + fs)[0] == es[0] && (es + fs)[1..] == es[1..] + fs;
      FilterAppend(es[1..], fs, kind, same);
      Associative(if (es[0].kind == kind) == same then [es[0]] else [], Filter(es[1..], kind, same), Filter(fs, kind, same));
    }
  }

  /** Entries that are all of the type, or all of others. */
  lemma {:induction false} FilterAll(es: seq<Entry>, kind: seq<byte>, same: bool)
    requires forall i | 0 <= i < |es| :: (es[i].kind == kind) == same
    ensures Filter(es, kind, same) == es && Filter(es, kind, !same) == []
  {
    if es == [] {
    } else {
      FilterAll(es[1..], kind, same);
      assert es == [es[0]] + es[1..];
    }
  }

  lemma {:induction false} HasKindOnly(es: seq<Entry>, kind: seq<byte>)
    ensures HasKind(es, kind) <==> Only(es, kind) != []
  {
    if es == [] {
    } else {
      HasKindOnly(es[1..], kind);
      assert es == [es[0]] + es[1..];
      if HasKind(es[1..], kind) {
        var i :| 0 <= i < |es[1..]| && es[1..][i].kind == kind;
        assert es[i + 1].kind == kind;
      }
    }
  }

  lemma {:induction false} KeptIs(extra: seq<Entry>, skip: bool, added: bool)
    ensures Without(Kept(extra, skip, added), SIGNING_TIME) == Without(extra, SIGNING_TIME)
    ensures Only(Kept(extra, skip, added), SIGNING_TIME)
         == if skip || added then [] else Only(extra, SIGNING_TIME)[..if Only(extra, SIGNING_TIME) == [] then 0 else 1]
  {
    if extra == [] {
    } else {
      KeptIs(extra[1..], skip, added || (!skip && extra[0].kind == SIGNING_TIME));
    }
  }

  /** The signing-time attributes that are to be signed: none where they are to be skipped, else
      exactly one, the first explicit one if there is any. */
  function SigningTimes(p: Primitives, config: Config, now: int): seq<Entry> {
    var explicit := Only(config.signed, SIGNING_TIME);
    if config.skipSigningTime then [] else if explicit == [] then [Entry(SIGNING_TIME, p.marshalTime(now))] else [explicit[0]]
  }

  /** Those are signed; the others are the content-type, the message-digest and every other extra
      attribute, each once and in order. */
  lemma SigningTimeFiltered(p: Primitives, contentType: seq<byte>, digest: seq<byte>, config: Config, now: int)
    ensures var es := SignedEntries(p, contentType, digest, config, now);
            && Only(es, SIGNING_TIME) == SigningTimes(p, config, now)
            && Without(es, SIGNING_TIME)
               == [Entry(CONTENT_TYPE, Some(Element(6, contentType))), Entry(MESSAGE_DIGEST, Some(Element(4, digest)))]
                  + Without(config.signed, SIGNING_TIME)
  {
    TimesFiltered(p, OwnEntries(contentType, digest), config, now, contentType, digest);
    OthersFiltered(p, OwnEntries(contentType, digest), config, now, contentType, digest);
  }

  lemma TimesFiltered(p: Primitives, own: seq<Entry>, config: Config, now: int, contentType: seq<byte>, digest: seq<byte>)
    requires own == OwnEntries(contentType, digest)
    ensures SigningTimes(p, config, now)
         == Only(own + DefaultTime(p, config, now) + Kept(config.signed, config.skipSigningTime, false), SIGNING_TIME)
  {
    var time := DefaultTime(p, config, now);
    KeptIs(config.signed, config.skipSigningTime, false);
    OwnAreNotTimes(contentType, digest);
    FilterAll(time, SIGNING_TIME, true);
    FilterThree(own, time, Kept(config.signed, config.skipSigningTime, false), SIGNING_TIME, true);
    assert [] + time == time;
    TimeOrDefault(p, config, now);
  }

  lemma OthersFiltered(p: Primitives, own: seq<Entry>, config: Config, now: int, contentType: seq<byte>, digest: seq<byte>)
    requires own == OwnEntries(contentType, digest)
    ensures Without(own + DefaultTime(p, config, now) + Kept(config.signed, config.skipSigningTime, false), SIGNING_TIME)
         == own + Without(config.signed, SIGNING_TIME)
  {
    var time := DefaultTime(p, config, now);
    KeptIs(config.signed, config.skipSigningTime, false);
    OwnAreNotTimes(contentType, digest);
    FilterAll(time, SIGNING_TIME, true);
    FilterThree(own, time, Kept(config.signed, config.skipSigningTime, false), SIGNING_TIME, false);
    assert own + [] == own;
  }

  lemma TimeOrDefault(p: Primitives, config: Config, now: int)
    ensures var explicit := Only(config.signed, SIGNING_TIME);
            DefaultTime(p, config, now)
              + (if config.skipSigningTime then [] else explicit[..if explicit == [] then 0 else 1])
            == SigningTimes(p, config, now)
  {
    HasKindOnly(config.signed, SIGNING_TIME);
  }

  lemma OwnAreNotTimes(contentType: seq<byte>, digest: seq<byte>)
    ensures Only(OwnEntries(contentType, digest), SIGNING_TIME) == []
    ensures Without(OwnEntries(contentType, digest), SIGNING_TIME) == OwnEntries(contentType, digest)
  {
    assert CONTENT_TYPE[8] != SIGNING_TIME[8] && MESSAGE_DIGEST[8] != SIGNING_TIME[8];
    FilterAll(OwnEntries(contentType, digest), SIGNING_TIME, false);
  }

  lemma FilterThree(a: seq<Entry>, b: seq<Entry>, c: seq<Entry>, kind: seq<byte>, same: bool)
    ensures Filter(a + b + c, kind, same) == Filter(a, kind, same) + Filter(b, kind, same) + Filter(c, kind, same)
  {
    FilterAppend(a + b, c, kind, same);
    FilterAppend(a, b, kind, same);
  }
}
