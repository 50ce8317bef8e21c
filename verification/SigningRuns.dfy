/** Whole runs of the SignedData builder, and what the verifier makes of the messages they build. */
module SigningRuns {
  import opened Bytes
  import opened Sequences
  import opened Asn1
  import opened Certificates
  import opened SetOrder
  import opened Attributes
  import opened SigningAlgorithms
  import opened Signing
  import opened Verify
  import opened VerifyLaws

  /** The calls of a builder with the time and the random octets they see. AddSigner is
      AddSignerChain without parents. */
  datatype Op =
    | SetDigestAlgorithm(oid: Oid)
    | SetEncryptionAlgorithm(oid: Oid)
    | AddSignerChain(ee: Certificate, key: KeyOrSigner, parents: seq<Certificate>, config: Config, now: int, random: seq<byte>)
    | SignWithoutAttr(ee: Certificate, key: KeyOrSigner, random: seq<byte>)
    | AddCertificate(cert: Certificate)
    | SetContentType(contentType: seq<byte>)
    | RemoveAuthenticatedAttributes
    | RemoveUnauthenticatedAttributes
    | Detach

  predicate IsSigning(op: Op) {
    op.AddSignerChain? || op.SignWithoutAttr?
  }

  /** The state after a call, and whether it added a signer. */
  function Step(p: Primitives, s: State, op: Op): (State, bool) {
    match op
    case SetDigestAlgorithm(oid) => (s.(digestOid := oid), false)
    case SetEncryptionAlgorithm(oid) => (s.(encryptionOid := Some(oid)), false)
    case AddSignerChain(ee, key, parents, config, now, random) => Signed(p, s, ee, key, parents, config, now, random)
    case SignWithoutAttr(ee, key, random) => SignedPlain(p, s, ee, key, random)
    case AddCertificate(cert) => (s.(certs := s.certs + [cert]), false)
    case SetContentType(contentType) => (s.(contentType := contentType), false)
    case RemoveAuthenticatedAttributes => (s.(signers := WithoutAuthenticated(s.signers)), false)
    case RemoveUnauthenticatedAttributes => (s.(signers := WithoutUnauthenticated(s.signers)), false)
    case Detach => (s.(contentType := DATA, content := None), false)
  }

  function Run(p: Primitives, s: State, ops: seq<Op>): State
    decreases |ops|
  {
    if ops == [] then s else Run(p, Step(p, s, ops[0]).0, ops[1..])
  }

  /** The calls of a run that added a signer. */
  function Signings(p: Primitives, s: State, ops: seq<Op>): (r: seq<Op>)
    ensures forall i | 0 <= i < |r| :: IsSigning(r[i])
    decreases |ops|
  {
    if ops == [] then [] else
      (if Step(p, s, ops[0]).1 then [ops[0]] else []) + Signings(p, Step(p, s, ops[0]).0, ops[1..])
  }

  // ---------- later calls ----------

  /** A signer but for the attributes that the call removes. */
  predicate SameBut(former: SignerInfo, signer: SignerInfo, op: Op) {
    signer == former.(authenticated := if op.RemoveAuthenticatedAttributes? then [] else former.authenticated,
                      unauthenticated := if op.RemoveUnauthenticatedAttributes? then [] else former.unauthenticated)
  }

  lemma StepSigners(p: Primitives, s: State, op: Op, i: nat)
    ensures var t := Step(p, s, op).0;
            && |t.signers| == |s.signers| + (if Step(p, s, op).1 then 1 else 0)
            && (i < |s.signers| ==> SameBut(s.signers[i], t.signers[i], op))
  {
  }

  /** Calls only append certificates and signers, but for removed attributes. */
  lemma StepExtends(p: Primitives, s: State, op: Op, i: nat)
    ensures var t := Step(p, s, op).0;
            && t.data == s.data
            && (exists more :: t.certs == s.certs + more)
            && |t.signers| == |s.signers| + (if Step(p, s, op).1 then 1 else 0)
            && (i < |s.signers| ==> SameBut(s.signers[i], t.signers[i], op))
  {
    var t := Step(p, s, op).0;
    StepSigners(p, s, op, i);
    assert t.certs == s.certs + t.certs[|s.certs|..];
  }

  lemma {:induction false} FoundStays(certs: seq<Certificate>, more: seq<Certificate>, id: IssuerAndSerial)
    requires FoundCert(certs, id).Some?
    ensures FoundCert(certs + more, id) == FoundCert(certs, id)
  {
    assert (certs + more)[1..] == certs[1..] + more;
    if IsMatch(certs[0], id) {
    } else {
      FoundStays(certs[1..], more, id);
    }
  }

  /** More certificates in between never hide a chain. */
  ghost predicate Monotone(chains: Chains) {
    forall few, many, cert, time | chains(few, cert, time) && (forall c | c in few :: c in many) ::
      chains(many, cert, time)
  }

  /** A trust store, if there is one, finds no fewer chains with the certificates of `later`. */
  ghost predicate NoFewerChains(options: Options, later: Options) {
    && later.chains == options.chains && later.currentTime == options.currentTime
    && (options.chains.Some? ==> Monotone(options.chains.value))
    && forall c | c in options.intermediates :: c in later.intermediates
  }

  /** None of the calls removes the authenticated attributes. */
  predicate AttributesStay(ops: seq<Op>) {
    forall k | 0 <= k < |ops| :: !ops[k].RemoveAuthenticatedAttributes?
  }

  /** No call, allowed or not, makes a signer unacceptable that was acceptable before it, with or without a trust
      store, be the certificates in between fixed by the caller or taken from the message; but for the removal of the
      attributes that it signed. */
  lemma {:induction false} LaterCallsKeepSigners(p: Primitives, s: State, ops: seq<Op>, i: nat, content: seq<byte>,
                                                 options: Options, later: Options, now: int)
    requires i < |s.signers| && SignerAccepted(p, Pkcs7(content, s.certs, s.signers), s.signers[i], options, now)
    requires NoFewerChains(options, later) && (AttributesStay(ops) || s.signers[i].authenticated == [])
    ensures var f := Run(p, s, ops);
            i < |f.signers| && SignerAccepted(p, Pkcs7(content, f.certs, f.signers), f.signers[i], later, now)
    decreases |ops|
  {
    if ops == [] {
    } else {
      var t := Step(p, s, ops[0]).0;
      StepExtends(p, s, ops[0], i);
      var more :| t.certs == s.certs + more;
      FoundStays(s.certs, more, s.signers[i].id);
      assert NoFewerChains(later, later);
      assert AttributesStay(ops) ==> AttributesStay(ops[1..]) && !ops[0].RemoveAuthenticatedAttributes?;
      assert SignerAccepted(p, Pkcs7(content, t.certs, t.signers), t.signers[i], later, now);
      LaterCallsKeepSigners(p, t, ops[1..], i, content, later, later, now);
    }
  }

  /** In particular VerifyWithChain, which takes the certificates in between from the growing message, keeps
      accepting it. */
  lemma VerifyWithChainKeepsSigners(p: Primitives, s: State, ops: seq<Op>, i: nat, content: seq<byte>, chains: Option<Chains>, now: int)
    requires chains.Some? ==> Monotone(chains.value)
    requires i < |s.signers| && (AttributesStay(ops) || s.signers[i].authenticated == [])
    requires SignerAccepted(p, Pkcs7(content, s.certs, s.signers), s.signers[i], Options(chains, s.certs, None), now)
    ensures var f := Run(p, s, ops);
            && i < |f.signers|
            && SignerAccepted(p, Pkcs7(content, f.certs, f.signers), f.signers[i], Options(chains, f.certs, None), now)
  {
    forall c | c in s.certs
      ensures c in Run(p, s, ops).certs
    {
      CertsStay(p, s, ops, c);
    }
    LaterCallsKeepSigners(p, s, ops, i, content, Options(chains, s.certs, None), Options(chains, Run(p, s, ops).certs, None), now);
  }

  /** The content stays in the message until it is detached. */
  lemma {:induction false} ContentUntilDetached(p: Primitives, s: State, ops: seq<Op>)
    ensures Run(p, s, ops).content == if exists k | 0 <= k < |ops| :: ops[k] == Detach then None else s.content
    decreases |ops|
  {
    if ops == [] {
    } else {
      var rest := ops[1..];
      ContentUntilDetached(p, Step(p, s, ops[0]).0, rest);
      assert ops == [ops[0]] + rest;
      if k :| 0 <= k < |rest| && rest[k] == Detach {
        assert ops[k + 1] == Detach;
      }
    }
  }

  // ---------- the attributes of a new signer ----------

  lemma {:induction false} FirstValueIs(attrs: seq<Attribute>, kind: seq<byte>)
    ensures match FirstValue(attrs, kind)
            case None => forall i | 0 <= i < |attrs| :: attrs[i].kind != kind
            case Some(v) => exists i | 0 <= i < |attrs| :: attrs[i] == Attribute(kind, v)
  {
    if attrs == [] {
    } else {
      assert attrs == [attrs[0]] + attrs[1..];
      FirstValueIs(attrs[1..], kind);
      match FirstValue(attrs, kind) {
        case None =>
          forall i | 0 <= i < |attrs|
            ensures attrs[i].kind != kind
          {
            assert i > 0 ==> attrs[i] == attrs[1..][i - 1];
          }
        case Some(v) =>
          if attrs[0].kind == kind {
            assert attrs[0] == Attribute(kind, v);
          } else {
            var i :| 0 <= i < |attrs[1..]| && attrs[1..][i] == Attribute(kind, v);
            assert attrs[i + 1] == Attribute(kind, v);
          }
      }
    }
  }

  lemma {:induction false} OnlyMembers(es: seq<Entry>, kind: seq<byte>, e: Entry)
    ensures e in Only(es, kind) <==> e in es && e.kind == kind
  {
    if es == [] {
    } else {
      assert es == [es[0]] + es[1..];
      OnlyMembers(es[1..], kind, e);
    }
  }

  /** Stored attributes are those of the entries. */
  lemma StoredMembers(es: seq<Entry>, r: seq<Attribute>, a: Attribute)
    requires Ordered(es) == Ok(r)
    ensures a in r <==> Entry(a.kind, Some(a.value)) in es
  {
    var attrs := AttributesOf(es);
    SortingSorts(attrs, Marshalled);
    assert a in r <==> a in multiset(r);
    assert a in attrs <==> a in multiset(attrs);
    if a in attrs {
      var i :| 0 <= i < |attrs| && attrs[i] == a;
      assert es[i] == Entry(a.kind, Some(a.value));
    }
    if Entry(a.kind, Some(a.value)) in es {
      var i :| 0 <= i < |es| && es[i] == Entry(a.kind, Some(a.value));
      assert attrs[i] == a;
    }
  }

  /** With one entry of a type at most, the verifier finds the value of that entry. */
  lemma StoredValue(es: seq<Entry>, r: seq<Attribute>, kind: seq<byte>)
    requires Ordered(es) == Ok(r) && |Only(es, kind)| <= 1
    ensures FirstValue(r, kind) == if Only(es, kind) == [] then None else Only(es, kind)[0].value
  {
    FirstValueIs(r, kind);
    match FirstValue(r, kind) {
      case None =>
        if Only(es, kind) != [] {
          var e := Only(es, kind)[0];
          OnlyMembers(es, kind, e);
          assert e in es && e.value.Some?;
          StoredMembers(es, r, Attribute(kind, e.value.value));
        }
      case Some(v) =>
        var a := Attribute(kind, v);
        assert a in r;
        StoredMembers(es, r, a);
        OnlyMembers(es, kind, Entry(kind, Some(v)));
    }
  }

  /** Without an extra message-digest, the one message-digest that is signed is the digest. */
  lemma OneDigest(p: Primitives, contentType: seq<byte>, digest: seq<byte>, config: Config, now: int)
    requires !HasKind(config.signed, MESSAGE_DIGEST)
    ensures Only(SignedEntries(p, contentType, digest, config, now), MESSAGE_DIGEST)
         == [Entry(MESSAGE_DIGEST, Some(OctetString(digest)))]
  {
    var own, time := OwnEntries(contentType, digest), DefaultTime(p, config, now);
    var kept := Kept(config.signed, config.skipSigningTime, false);
    OwnDigest(own, contentType, digest);
    assert SIGNING_TIME[8] != MESSAGE_DIGEST[8];
    FilterAll(time, MESSAGE_DIGEST, false);
    KeptKinds(config.signed, config.skipSigningTime, false, MESSAGE_DIGEST);
    FilterAll(kept, MESSAGE_DIGEST, false);
    FilterThree(own, time, kept, MESSAGE_DIGEST, true);
  }

  lemma OwnDigest(own: seq<Entry>, contentType: seq<byte>, digest: seq<byte>)
    requires own == OwnEntries(contentType, digest)
    ensures Only(own, MESSAGE_DIGEST) == [Entry(MESSAGE_DIGEST, Some(OctetString(digest)))]
  {
    assert CONTENT_TYPE[8] != MESSAGE_DIGEST[8];
    assert own == [own[0]] + [own[1]];
    FilterAppend([own[0]], [own[1]], MESSAGE_DIGEST, true);
    FilterAll([own[0]], MESSAGE_DIGEST, false);
    FilterAll([own[1]], MESSAGE_DIGEST, true);
  }

  lemma HasKindTail(es: seq<Entry>, kind: seq<byte>)
    requires es != [] && HasKind(es[1..], kind)
    ensures HasKind(es, kind)
  {
    var i :| 0 <= i < |es[1..]| && es[1..][i].kind == kind;
    assert es[i + 1].kind == kind;
  }

  lemma {:induction false} KeptKinds(extra: seq<Entry>, skip: bool, added: bool, kind: seq<byte>)
    requires !HasKind(extra, kind)
    ensures forall i | 0 <= i < |Kept(extra, skip, added)| :: Kept(extra, skip, added)[i].kind != kind
  {
    if extra == [] {
    } else {
      var rest := extra[1..];
      assert extra[0].kind != kind;
      if HasKind(rest, kind) {
        HasKindTail(extra, kind);
      }
      KeptKinds(rest, skip, added || (!skip && extra[0].kind == SIGNING_TIME), kind);
    }
  }

  // ---------- a new signer ----------

  /** The signing time that a verifier reads in what is signed with this configuration. */
  function SignedTime(p: Primitives, config: Config, now: int): Option<int> {
    var times := SigningTimes(p, config, now);
    if times == [] || times[0].value.None? then None else p.unmarshalTime(times[0].value.value)
  }

  /** What makes the signer of a call verifiable: a key that is not a DSA key, and a signing time, if
      one is signed and can be read, inside the validity of the certificate. */
  predicate Verifiable(p: Primitives, op: Op)
    requires IsSigning(op)
  {
    && !op.key.DsaPrivateKey?
    && (op.AddSignerChain? ==>
          var time := SignedTime(p, op.config, op.now);
          time.Some? ==> Inside(op.ee, time.value))
  }

  lemma {:induction false} FirstOfKind(es: seq<Entry>, kind: seq<byte>, i: nat)
    requires i < |es| && es[i].kind == kind && forall j | 0 <= j < i :: es[j].kind != kind
    ensures Only(es, kind) != [] && Only(es, kind)[0] == es[i]
  {
    if i > 0 {
      FirstOfKind(es[1..], kind, i - 1);
    }
  }

  /** The signing time is that of the call, unless it is to be skipped or the first explicit one stands in its place. */
  lemma VerifiableWhen(p: Primitives, op: Op, i: nat)
    requires p.Laws() && op.AddSignerChain? && !op.key.DsaPrivateKey?
    ensures op.config.skipSigningTime ==> Verifiable(p, op)
    ensures !op.config.skipSigningTime && (forall j | 0 <= j < |op.config.signed| :: op.config.signed[j].kind != SIGNING_TIME) ==>
              (Verifiable(p, op) <==> (p.marshalTime(op.now).Some? ==> op.ee.notBefore <= op.now <= op.ee.notAfter))
    ensures !op.config.skipSigningTime && i < |op.config.signed| && op.config.signed[i].kind == SIGNING_TIME
            && op.config.signed[i].value.Some? && (forall j | 0 <= j < i :: op.config.signed[j].kind != SIGNING_TIME) ==>
              (Verifiable(p, op) <==>
                 var time := p.unmarshalTime(op.config.signed[i].value.value);
                 time.Some? ==> op.ee.notBefore <= time.value <= op.ee.notAfter)
  {
    HasKindOnly(op.config.signed, SIGNING_TIME);
    if i < |op.config.signed| && op.config.signed[i].kind == SIGNING_TIME
       && forall j | 0 <= j < i :: op.config.signed[j].kind != SIGNING_TIME {
      FirstOfKind(op.config.signed, SIGNING_TIME, i);
    }
  }

  /** The time at which the chain of a signer is built: the time that is set, else the signing time of its call, if one is
      signed and can be read, else now. */
  function VerificationTime(p: Primitives, op: Op, options: Options, now: int): int
    requires IsSigning(op)
  {
    if options.currentTime.Some? then options.currentTime.value
    else if op.AddSignerChain? && SignedTime(p, op.config, op.now).Some? then SignedTime(p, op.config, op.now).value
    else now
  }

  /** What makes it acceptable: it is verifiable, and a trust store, where one is given, has a chain for the certificate
      of the call. */
  predicate Acceptable(p: Primitives, op: Op, options: Options, now: int)
    requires IsSigning(op)
  {
    && Verifiable(p, op)
    && (options.chains.Some? ==>
          options.chains.value(options.intermediates, op.ee, VerificationTime(p, op, options, now)))
  }

  /** What the documentation asks of a caller: one of the four digest algorithms and no configured
      signature algorithm, the certificate of the key, a first parent that is named as the issuer,
      no extra message-digest, and no removal of what was signed. */
  predicate Allowed(p: Primitives, op: Op) {
    match op
    case SetDigestAlgorithm(oid) => IsDigest(oid)
    case SetEncryptionAlgorithm(_) => false
    case RemoveAuthenticatedAttributes => false
    case AddSignerChain(ee, key, parents, config, _, _) =>
      && ee.publicKey == p.public(key)
      && (parents == [] || parents[0].rawSubject == ee.rawIssuer)
      && !HasKind(config.signed, MESSAGE_DIGEST)
    case SignWithoutAttr(ee, key, _) => ee.publicKey == p.public(key)
    case _ => true
  }

  /** The digest and the signing time that the verifier finds are those that were signed. */
  lemma StoredDigestAndTime(p: Primitives, contentType: seq<byte>, digest: seq<byte>, config: Config, now: int,
                            attrs: seq<Attribute>)
    requires Ordered(SignedEntries(p, contentType, digest, config, now)) == Ok(attrs)
    requires !HasKind(config.signed, MESSAGE_DIGEST) && |digest| <= 64
    ensures attrs != [] && DigestOf(attrs) == Some(digest)
    ensures TimeOf(p, attrs) == SignedTime(p, config, now)
  {
    var es := SignedEntries(p, contentType, digest, config, now);
    OneDigest(p, contentType, digest, config, now);
    StoredValue(es, attrs, MESSAGE_DIGEST);
    UnmarshalMarshal(4, digest, []);
    assert OctetString(digest) + [] == OctetString(digest);
    SigningTimeFiltered(p, contentType, digest, config, now);
    StoredValue(es, attrs, SIGNING_TIME);
  }

  /** With the right digest and signing time, acceptance depends on the signing time, the chain and the signature. */
  lemma WithRightAttributes(p: Primitives, content: seq<byte>, signer: SignerInfo, hash: Hash, op: Op, options: Options, now: int)
    requires op.AddSignerChain? && signer.authenticated != [] && GetHashForOid(signer.digestAlgorithm) == Ok(hash)
    requires DigestOf(signer.authenticated) == Some(p.hash(hash, content))
    requires TimeOf(p, signer.authenticated) == SignedTime(p, op.config, op.now)
    requires var x := GetSignatureAlgorithm(p, signer.signatureAlgorithm, signer.parameters, signer.digestAlgorithm);
             && (x.None? <==> op.key.DsaPrivateKey?)
             && (x.Some? ==> p.check(op.ee.publicKey, x.value, SignedOctets(signer.authenticated), signer.encryptedDigest))
    ensures AcceptedWith(p, content, signer, op.ee, options, now) <==> Acceptable(p, op, options, now)
  {
  }

  /** The signer that AddSignerChain makes is accepted with the certificate exactly when its call makes it
      acceptable. */
  lemma NewSignerAccepted(p: Primitives, s: State, a: SignerAlgorithm, hash: Hash, op: Op, signer: SignerInfo,
                          options: Options, now: int)
    requires p.Laws() && IsDigest(s.digestOid) && op.AddSignerChain? && Allowed(p, op)
    requires GetSignerAlgorithm(op.key, s.digestOid, None) == Ok(a) && GetHashForOid(a.digestOid) == Ok(hash)
    requires NewSigner(p, s.contentType, s.data, a, hash, SignerId(op.ee, op.parents), op.key, op.config, op.now, op.random) == Some(signer)
    ensures AcceptedWith(p, s.data, signer, op.ee, options, now) <==> Acceptable(p, op, options, now)
    ensures signer.id == CertToIssuerAndSerial(op.ee)
  {
    StoredDigestAndTime(p, s.contentType, p.hash(hash, s.data), op.config, op.now, signer.authenticated);
    AlgorithmsAgree(p, op.key, s.digestOid, SignedOctets(signer.authenticated), op.random);
    WithRightAttributes(p, s.data, signer, hash, op, options, now);
  }

  /** Where AddSignerChain added a signer, no certificate and no options make that signer acceptable
      for a content with another digest. */
  lemma ChangedContentRejected(p: Primitives, s: State, op: Op, content: seq<byte>, ee: Certificate, options: Options, now: int)
    requires p.Laws() && op.AddSignerChain? && !HasKind(op.config.signed, MESSAGE_DIGEST) && Step(p, s, op).1
    ensures var signers := Step(p, s, op).0.signers;
            && |signers| == |s.signers| + 1
            && var signer := signers[|s.signers|];
               var hash := GetHashForOid(signer.digestAlgorithm);
               && hash.Ok?
               && (p.hash(hash.value, content) != p.hash(hash.value, s.data) ==>
                     !AcceptedWith(p, content, signer, ee, options, now))
  {
    var signer := Step(p, s, op).0.signers[|s.signers|];
    var hash := GetHashForOid(signer.digestAlgorithm).value;
    StoredDigestAndTime(p, s.contentType, p.hash(hash, s.data), op.config, op.now, signer.authenticated);
  }

  /** A signer that a call made: found by the certificate of the call, and accepted with it exactly
      when the call makes it acceptable. */
  predicate Made(p: Primitives, data: seq<byte>, op: Op, signer: SignerInfo, options: Options, now: int)
    requires IsSigning(op)
  {
    && signer.id == CertToIssuerAndSerial(op.ee)
    && (AcceptedWith(p, data, signer, op.ee, options, now) <==> Acceptable(p, op, options, now))
  }

  /** A state that only allowed calls have led to. */
  predicate Ready(s: State) {
    IsDigest(s.digestOid) && s.encryptionOid == None
  }

  lemma StepMade(p: Primitives, s: State, op: Op, options: Options, now: int)
    requires p.Laws() && Ready(s) && Allowed(p, op)
    ensures var (t, added) := Step(p, s, op);
            && Ready(t)
            && (added ==> IsSigning(op) && |t.signers| == |s.signers| + 1
                          && Made(p, s.data, op, t.signers[|s.signers|], options, now))
  {
    if op.AddSignerChain? && Step(p, s, op).1 {
      var a := GetSignerAlgorithm(op.key, s.digestOid, None).value;
      var hash := GetHashForOid(a.digestOid).value;
      var signer := NewSigner(p, s.contentType, s.data, a, hash, SignerId(op.ee, op.parents), op.key, op.config, op.now, op.random).value;
      NewSignerAccepted(p, s, a, hash, op, signer, options, now);
    } else if op.SignWithoutAttr? && Step(p, s, op).1 {
      AlgorithmsAgree(p, op.key, s.digestOid, s.data, op.random);
    }
  }

  // ---------- whole runs ----------

  /** Signer i was made by call i of the list. */
  predicate AllMade(p: Primitives, data: seq<byte>, made: seq<Op>, signers: seq<SignerInfo>, options: Options, now: int)
    requires forall i | 0 <= i < |made| :: IsSigning(made[i])
  {
    && |made| == |signers|
    && forall i | 0 <= i < |made| :: Made(p, data, made[i], signers[i], options, now)
  }

  lemma StepAllMade(p: Primitives, s: State, op: Op, made: seq<Op>, options: Options, now: int)
    requires p.Laws() && Ready(s) && Allowed(p, op)
    requires (forall i | 0 <= i < |made| :: IsSigning(made[i])) && AllMade(p, s.data, made, s.signers, options, now)
    ensures var (t, added) := Step(p, s, op);
            && Ready(t) && t.data == s.data && (added ==> IsSigning(op))
            && AllMade(p, t.data, made + (if added then [op] else []), t.signers, options, now)
  {
    StepMade(p, s, op, options, now);
    StepExtends(p, s, op, 0);
    StepKeepsAllMade(p, s, op, made, options, now);
  }

  lemma StepKeepsAllMade(p: Primitives, s: State, op: Op, made: seq<Op>, options: Options, now: int)
    requires !op.RemoveAuthenticatedAttributes?
    requires (forall i | 0 <= i < |made| :: IsSigning(made[i])) && AllMade(p, s.data, made, s.signers, options, now)
    ensures var t := Step(p, s, op).0;
            |made| <= |t.signers| && forall i | 0 <= i < |made| :: Made(p, t.data, made[i], t.signers[i], options, now)
  {
    var t := Step(p, s, op).0;
    StepExtends(p, s, op, 0);
    forall i | 0 <= i < |made|
      ensures Made(p, t.data, made[i], t.signers[i], options, now)
    {
      StepKeepsMade(p, s, op, i, made[i], options, now);
    }
  }

  lemma StepKeepsMade(p: Primitives, s: State, op: Op, i: nat, made: Op, options: Options, now: int)
    requires !op.RemoveAuthenticatedAttributes?
    requires i < |s.signers| && IsSigning(made) && Made(p, s.data, made, s.signers[i], options, now)
    ensures var t := Step(p, s, op).0; i < |t.signers| && Made(p, t.data, made, t.signers[i], options, now)
  {
    StepExtends(p, s, op, i);
  }

  lemma {:induction false} RunAllMade(p: Primitives, s: State, ops: seq<Op>, made: seq<Op>, options: Options, now: int)
    requires p.Laws() && Ready(s) && forall k | 0 <= k < |ops| :: Allowed(p, ops[k])
    requires (forall i | 0 <= i < |made| :: IsSigning(made[i])) && AllMade(p, s.data, made, s.signers, options, now)
    ensures var f := Run(p, s, ops);
            f.data == s.data && AllMade(p, s.data, made + Signings(p, s, ops), f.signers, options, now)
    decreases |ops|
  {
    if ops == [] {
      assert made + [] == made;
    } else {
      var (t, added) := Step(p, s, ops[0]);
      var more := if added then [ops[0]] else [];
      StepAllMade(p, s, ops[0], made, options, now);
      RunAllMade(p, t, ops[1..], made + more, options, now);
      Associative(made, more, Signings(p, t, ops[1..]));
    }
  }

  /** The certificates of a message lead every signer to the certificate it was made with. */
  predicate Identified(certs: seq<Certificate>, signings: seq<Op>) {
    forall i | 0 <= i < |signings| ::
      IsSigning(signings[i]) && FoundCert(certs, CertToIssuerAndSerial(signings[i].ee)) == Some(signings[i].ee)
  }

  /** No two certificates share issuer and serial number. */
  predicate NoClash(certs: seq<Certificate>) {
    forall i, j | 0 <= i < |certs| && 0 <= j < |certs| && CertToIssuerAndSerial(certs[i]) == CertToIssuerAndSerial(certs[j]) ::
      certs[i] == certs[j]
  }

  /** They do when no call leaves its certificate out and no two of them share issuer and serial
      number. */
  lemma IncludedAreIdentified(p: Primitives, s: State, ops: seq<Op>)
    requires var signings := Signings(p, s, ops);
             forall i | 0 <= i < |signings| && signings[i].AddSignerChain? :: !signings[i].config.skipCertificates
    requires NoClash(Run(p, s, ops).certs)
    ensures Identified(Run(p, s, ops).certs, Signings(p, s, ops))
  {
    var f, signings := Run(p, s, ops), Signings(p, s, ops);
    forall i | 0 <= i < |signings|
      ensures IsSigning(signings[i]) && FoundCert(f.certs, CertToIssuerAndSerial(signings[i].ee)) == Some(signings[i].ee)
    {
      assert IsSigning(signings[i]);
      Included(p, s, ops, i, signings[i].ee);
      FoundIfIncluded(f.certs, signings[i].ee);
    }
  }

  lemma {:induction false} FoundIfIncluded(certs: seq<Certificate>, ee: Certificate)
    requires NoClash(certs) && ee in certs
    ensures FoundCert(certs, CertToIssuerAndSerial(ee)) == Some(ee)
  {
    assert certs == [certs[0]] + certs[1..];
    var k :| 0 <= k < |certs| && certs[k] == ee;
    if IsMatch(certs[0], CertToIssuerAndSerial(ee)) {
      assert CertToIssuerAndSerial(certs[0]) == CertToIssuerAndSerial(certs[k]);
    } else {
      FoundIfIncluded(certs[1..], ee);
    }
  }

  /** The certificates that a call includes. */
  function Chain(op: Op): seq<Certificate>
    requires IsSigning(op)
  {
    [op.ee] + if op.AddSignerChain? then op.parents else []
  }

  lemma {:induction false} Included(p: Primitives, s: State, ops: seq<Op>, i: nat, c: Certificate)
    requires i < |Signings(p, s, ops)| && IsSigning(Signings(p, s, ops)[i])
    requires var op := Signings(p, s, ops)[i]; c in Chain(op) && (op.AddSignerChain? ==> !op.config.skipCertificates)
    ensures c in Run(p, s, ops).certs
    decreases |ops|
  {
    var (t, added) := Step(p, s, ops[0]);
    if added && i == 0 {
      StepIncludes(p, s, ops[0]);
      CertsStay(p, t, ops[1..], c);
    } else {
      var j := if added then i - 1 else i;
      assert Signings(p, s, ops)[i] == Signings(p, t, ops[1..])[j];
      Included(p, t, ops[1..], j, c);
    }
  }

  /** A call that adds a signer appends its certificate and all parents, unless they are to be skipped. */
  lemma StepIncludes(p: Primitives, s: State, op: Op)
    requires IsSigning(op) && Step(p, s, op).1 && (op.AddSignerChain? ==> !op.config.skipCertificates)
    ensures Step(p, s, op).0.certs == s.certs + Chain(op)
    ensures forall c | c in Chain(op) :: c in Step(p, s, op).0.certs
  {
    if op.AddSignerChain? {
      SignerAdded(p, s, op.ee, op.key, op.parents, op.config, op.now, op.random);
    } else {
      assert Chain(op) == [op.ee];
    }
  }

  lemma {:induction false} CertsStay(p: Primitives, s: State, ops: seq<Op>, cert: Certificate)
    requires cert in s.certs
    ensures cert in Run(p, s, ops).certs
    decreases |ops|
  {
    if ops == [] {
    } else {
      StepExtends(p, s, ops[0], 0);
      CertsStay(p, Step(p, s, ops[0]).0, ops[1..], cert);
    }
  }

  /** The message that a run leads to, with its content and its signers in any order. */
  ghost predicate Finished(p: Primitives, data: seq<byte>, ops: seq<Op>, p7: Pkcs7) {
    var f := Run(p, Start(data), ops);
    && p7.content == data && p7.certificates == f.certs && multiset(p7.signers) == multiset(f.signers)
    && Identified(f.certs, Signings(p, Start(data), ops))
  }

  /** After any run of allowed calls each signer is accepted, without a trust store or with any, exactly when its
      call makes it acceptable; and the finished message, with the content attached and its signers in
      any order, is verified exactly when it has signers and all of them are. */
  lemma RunsVerify(p: Primitives, data: seq<byte>, ops: seq<Op>, p7: Pkcs7, options: Options, now: int)
    requires p.Laws() && forall k | 0 <= k < |ops| :: Allowed(p, ops[k])
    requires Finished(p, data, ops, p7)
    ensures var f, signings := Run(p, Start(data), ops), Signings(p, Start(data), ops);
            && |f.signers| == |signings|
            && (forall i | 0 <= i < |signings| ::
                  SignerAccepted(p, p7, f.signers[i], options, now) <==> Acceptable(p, signings[i], options, now))
            && (Verified(p, p7, options, now) <==>
                  signings != [] && forall i | 0 <= i < |signings| :: Acceptable(p, signings[i], options, now))
  {
    var f, signings := Run(p, Start(data), ops), Signings(p, Start(data), ops);
    RunAllMade(p, Start(data), ops, [], options, now);
    assert [] + signings == signings;
    forall i | 0 <= i < |signings|
      ensures SignerAccepted(p, p7, f.signers[i], options, now) <==> Acceptable(p, signings[i], options, now)
    {
      assert Made(p, data, signings[i], f.signers[i], options, now);
    }
    SameSize(p7.signers, f.signers);
    if Verified(p, p7, options, now) {
      forall i | 0 <= i < |signings|
        ensures Acceptable(p, signings[i], options, now)
      {
        var j := SameElement(f.signers, p7.signers, i);
      }
    }
    if signings != [] && forall i | 0 <= i < |signings| :: Acceptable(p, signings[i], options, now) {
      forall j | 0 <= j < |p7.signers|
        ensures SignerAccepted(p, p7, p7.signers[j], options, now)
      {
        var i := SameElement(p7.signers, f.signers, j);
      }
    }
  }

  // ---------- trust stores, and forged signatures ----------

  /** The call included its certificates, and with them the trust store has a chain at the time of verification. */
  ghost predicate Chained(p: Primitives, op: Op, chains: Chains, now: int)
    requires IsSigning(op)
  {
    && (op.AddSignerChain? ==> !op.config.skipCertificates)
    && chains(Chain(op), op.ee, VerificationTime(p, op, Options(Some(chains), [], None), now))
  }

  /** The parents that were given to AddSignerChain are in the message for VerifyWithChain: it accepts every verifiable
      signer for whose certificate the trust store has a chain with these parents in between. */
  lemma ChainAccepted(p: Primitives, data: seq<byte>, ops: seq<Op>, p7: Pkcs7, chains: Chains, now: int, i: nat)
    requires p.Laws() && (forall k | 0 <= k < |ops| :: Allowed(p, ops[k])) && Finished(p, data, ops, p7) && Monotone(chains)
    requires i < |Signings(p, Start(data), ops)|
    requires var op := Signings(p, Start(data), ops)[i]; Verifiable(p, op) && Chained(p, op, chains, now)
    ensures var f := Run(p, Start(data), ops);
            i < |f.signers| && SignerAccepted(p, p7, f.signers[i], Options(Some(chains), p7.certificates, None), now)
    ensures Acceptable(p, Signings(p, Start(data), ops)[i], Options(Some(chains), p7.certificates, None), now)
  {
    var op, options := Signings(p, Start(data), ops)[i], Options(Some(chains), p7.certificates, None);
    forall c | c in Chain(op)
      ensures c in p7.certificates
    {
      Included(p, Start(data), ops, i, c);
    }
    assert chains(p7.certificates, op.ee, VerificationTime(p, op, options, now));
    RunsVerify(p, data, ops, p7, options, now);
  }

  /** If that is so of every signer, VerifyWithChain verifies the message. */
  lemma ChainsVerify(p: Primitives, data: seq<byte>, ops: seq<Op>, p7: Pkcs7, chains: Chains, now: int)
    requires p.Laws() && (forall k | 0 <= k < |ops| :: Allowed(p, ops[k])) && Finished(p, data, ops, p7) && Monotone(chains)
    requires var signings := Signings(p, Start(data), ops);
             && signings != []
             && forall i | 0 <= i < |signings| :: Verifiable(p, signings[i]) && Chained(p, signings[i], chains, now)
    ensures Verified(p, p7, Options(Some(chains), p7.certificates, None), now)
  {
    var signings, options := Signings(p, Start(data), ops), Options(Some(chains), p7.certificates, None);
    forall i | 0 <= i < |signings|
      ensures Acceptable(p, signings[i], options, now)
    {
      ChainAccepted(p, data, ops, p7, chains, now, i);
    }
    RunsVerify(p, data, ops, p7, options, now);
  }

  /** A message in which a signer has another signature is not verified, under any options, unless that signature passes
      the check with the key of the signer's certificate, too. */
  lemma ChangedSignatureRejected(p: Primitives, data: seq<byte>, ops: seq<Op>, p7: Pkcs7, i: nat, signature: seq<byte>,
                                 options: Options, now: int)
    requires p.Laws() && forall k | 0 <= k < |ops| :: Allowed(p, ops[k])
    requires var f, signings := Run(p, Start(data), ops), Signings(p, Start(data), ops);
             && i < |f.signers| && i < |signings| && p7.certificates == f.certs && Identified(f.certs, signings)
             && var forged := f.signers[i].(encryptedDigest := signature);
                && forged in p7.signers
                && forall a :: !p.check(signings[i].ee.publicKey, a, OctetsSigned(p7, forged), signature)
    ensures !Verified(p, p7, options, now)
  {
    var f, signings := Run(p, Start(data), ops), Signings(p, Start(data), ops);
    var forged := f.signers[i].(encryptedDigest := signature);
    RunAllMade(p, Start(data), ops, [], options, now);
    assert [] + signings == signings;
    assert Made(p, data, signings[i], f.signers[i], options, now);
    AcceptedIffVouched(p, p7, forged, options, now);
    forall ee | NamedFirst(p7.certificates, forged.id, ee)
      ensures ee == signings[i].ee
    {
      FoundCertIs(p7.certificates, forged.id, ee);
    }
  }

  lemma SameElement<T>(s: seq<T>, t: seq<T>, i: nat) returns (j: nat)
    requires multiset(s) == multiset(t) && i < |s|
    ensures j < |t| && t[j] == s[i]
  {
    assert s[i] in multiset(t);
    j :| j < |t| && t[j] == s[i];
  }
}
