/** Which algorithms a signer uses (pkcs7.go, sign.go) and which the verifier takes it to have
    used (verify.go). */
module SigningAlgorithms {
  import opened Bytes
  import opened Certificates

  datatype Hash = HashSha1 | HashSha256 | HashSha384 | HashSha512

  /** Signature algorithms of the X.509 package. */
  datatype SignatureAlgorithm =
    | RsaWith(hash: Hash) | RsaPssWith(hash: Hash) | EcdsaWith(hash: Hash) | PureEd25519 | PureMlDsa(parameters: MlDsaParameters)

  /** A private key or crypto.Signer, by the type of its public key. */
  datatype KeyOrSigner =
    | DsaPrivateKey(secret: seq<byte>)
    | RsaSigner(secret: seq<byte>)
    | EcdsaSigner(secret: seq<byte>)
    | Ed25519Signer(secret: seq<byte>)
    | MlDsaSigner(parameters: MlDsaParameters, secret: seq<byte>)
    | OtherSigner(secret: seq<byte>)
    | NotASigner

  /** What is handed to a signer: the digest of the data, or the data themselves. */
  datatype ToSign = Digest(hash: Hash, digest: seq<byte>) | Message(data: seq<byte>)

  /** The primitives, and how ASN.1 writes and reads a time. `random` stands for the octets that
      a signature draws. */
  datatype Primitives = Primitives(
    hash: (Hash, seq<byte>) -> seq<byte>,
    public: KeyOrSigner -> PublicKey,
    sign: (KeyOrSigner, ToSign, seq<byte>) -> Option<seq<byte>>,
    check: (PublicKey, SignatureAlgorithm, seq<byte>, seq<byte>) -> bool,
    pssAlgorithm: (seq<byte>, Oid) -> Option<SignatureAlgorithm>,
    issued: (Certificate, Certificate) -> bool,
    marshalTime: int -> Option<seq<byte>>,
    unmarshalTime: seq<byte> -> Option<int>)
  {
    /** A signature passes the check with the key's own algorithm. */
    ghost predicate SignatureChecks(key: KeyOrSigner, message: ToSign, algorithm: SignatureAlgorithm, data: seq<byte>) {
      forall r | sign(key, message, r).Some? :: check(public(key), algorithm, data, sign(key, message, r).value)
    }

    ghost predicate Laws() {
      && (forall k, h, data :: SignatureChecks(RsaSigner(k), Digest(h, hash(h, data)), RsaWith(h), data))
      && (forall k, h, data :: SignatureChecks(EcdsaSigner(k), Digest(h, hash(h, data)), EcdsaWith(h), data))
      && (forall k, data :: SignatureChecks(Ed25519Signer(k), Message(data), PureEd25519, data))
      && (forall m, k, data :: SignatureChecks(MlDsaSigner(m, k), Message(data), PureMlDsa(m), data))
      && (forall h, data :: |hash(h, data)| <= 64)
      && (forall t | marshalTime(t).Some? :: unmarshalTime(marshalTime(t).value) == Some(t))
    }
  }

  function GetHashForOid(oid: Oid): Result<Hash> {
    match oid
    case Sha1 | EcdsaSha1 | Dsa | DsaSha1 | RsaEncryption => Ok(HashSha1)
    case Sha256 | EcdsaSha256 => Ok(HashSha256)
    case Sha384 | EcdsaSha384 => Ok(HashSha384)
    case Sha512 | EcdsaSha512 => Ok(HashSha512)
    case _ => Err
  }

  function MlDsaOid(m: MlDsaParameters): Oid {
    match m
    case Parameters44 => MlDsa44
    case Parameters65 => MlDsa65
    case Parameters87 => MlDsa87
  }

  function GetOidForEncryptionAlgorithm(key: KeyOrSigner, digestOid: Oid): Result<Oid> {
    match key
    case DsaPrivateKey(_) => Ok(Dsa)
    case RsaSigner(_) =>
      (match digestOid
       case Sha1 => Ok(RsaSha1)
       case Sha256 => Ok(RsaSha256)
       case Sha384 => Ok(RsaSha384)
       case Sha512 => Ok(RsaSha512)
       case _ => Ok(RsaEncryption))
    case EcdsaSigner(_) =>
      (match digestOid
       case Sha1 => Ok(EcdsaSha1)
       case Sha256 => Ok(EcdsaSha256)
       case Sha384 => Ok(EcdsaSha384)
       case Sha512 => Ok(EcdsaSha512)
       case _ => Err)
    case Ed25519Signer(_) => Ok(Ed25519)
    case MlDsaSigner(m, _) => Ok(MlDsaOid(m))
    case _ => Err
  }

  datatype Mode = PreHashed | ModeDsa | ModeEd25519 | ModeMlDsa

  datatype SignerAlgorithm = SignerAlgorithm(digestOid: Oid, signatureOid: Oid, mode: Mode)

  function GetSignerAlgorithm(key: KeyOrSigner, digestOid: Oid, configured: Option<Oid>): Result<SignerAlgorithm> {
    if key.DsaPrivateKey? then Ok(SignerAlgorithm(digestOid, Dsa, ModeDsa))
    else if key.NotASigner? then Err
    else if key.MlDsaSigner? then Ok(SignerAlgorithm(Sha512, MlDsaOid(key.parameters), ModeMlDsa))
    else
      var signatureOid := if configured.Some? then Ok(configured.value) else GetOidForEncryptionAlgorithm(key, digestOid);
      if signatureOid.Err? then Err else
        Ok(SignerAlgorithm(digestOid, signatureOid.value, if key.Ed25519Signer? then ModeEd25519 else PreHashed))
  }

  function Sign(p: Primitives, algorithm: SignerAlgorithm, key: KeyOrSigner, data: seq<byte>, hash: Hash, random: seq<byte>)
    : Option<seq<byte>>
  {
    match algorithm.mode
    case ModeEd25519 | ModeMlDsa => p.sign(key, Message(data), random)
    case ModeDsa | PreHashed => p.sign(key, Digest(hash, p.hash(hash, data)), random)
  }

  // ---------- what the verifier makes of it ----------

  /** Parameters of an algorithm identifier. */
  datatype AlgorithmParameters = Absent | Null | Given(octets: seq<byte>)

  /** The digest algorithms of the original CMS, without their signature algorithms. */
  predicate IsDigest(oid: Oid) {
    oid == Sha1 || oid == Sha256 || oid == Sha384 || oid == Sha512
  }

  function GetEcdsaSignatureAlgorithm(digest: Oid): Option<SignatureAlgorithm> {
    if IsDigest(digest) then Some(EcdsaWith(GetHashForOid(digest).value)) else None
  }

  function GetSignatureAlgorithm(p: Primitives, signature: Oid, parameters: AlgorithmParameters, digest: Oid): Option<SignatureAlgorithm> {
    match signature
    case MlDsa44 => if parameters == Absent then Some(PureMlDsa(Parameters44)) else None
    case MlDsa65 => if parameters == Absent then Some(PureMlDsa(Parameters65)) else None
    case MlDsa87 => if parameters == Absent then Some(PureMlDsa(Parameters87)) else None
    case EcdsaSha1 => Some(EcdsaWith(HashSha1))
    case EcdsaSha256 => Some(EcdsaWith(HashSha256))
    case EcdsaSha384 => Some(EcdsaWith(HashSha384))
    case EcdsaSha512 => Some(EcdsaWith(HashSha512))
    case EcPublicKey => if parameters.Given? then None else GetEcdsaSignatureAlgorithm(digest)
    case RsaEncryption | RsaSha1 | RsaSha256 | RsaSha384 | RsaSha512 =>
      if IsDigest(digest) then Some(RsaWith(GetHashForOid(digest).value)) else None
    case EcdsaP256 | EcdsaP384 | EcdsaP521 => GetEcdsaSignatureAlgorithm(digest)
    case Ed25519 => Some(PureEd25519)
    case RsaPss => p.pssAlgorithm(if parameters.Given? then parameters.octets else if parameters.Null? then [5, 0] else [], digest)
    case _ => None
  }

  // ---------- the tables read the other way ----------

  function DigestOid(h: Hash): Oid {
    match h
    case HashSha1 => Sha1
    case HashSha256 => Sha256
    case HashSha384 => Sha384
    case HashSha512 => Sha512
  }

  function RsaOid(h: Hash): Oid {
    match h
    case HashSha1 => RsaSha1
    case HashSha256 => RsaSha256
    case HashSha384 => RsaSha384
    case HashSha512 => RsaSha512
  }

  function EcdsaOid(h: Hash): Oid {
    match h
    case HashSha1 => EcdsaSha1
    case HashSha256 => EcdsaSha256
    case HashSha384 => EcdsaSha384
    case HashSha512 => EcdsaSha512
  }

  predicate NamesRsa(signature: Oid) {
    || signature == RsaEncryption || signature == RsaOid(HashSha1) || signature == RsaOid(HashSha256)
    || signature == RsaOid(HashSha384) || signature == RsaOid(HashSha512)
  }

  /** The ways to say that a signature was made with an algorithm. RSA takes the hash from the digest algorithm, whatever
      hash the signature algorithm names; so does ECDSA where the signature algorithm names none. */
  predicate Designates(signature: Oid, parameters: AlgorithmParameters, digest: Oid, algorithm: SignatureAlgorithm) {
    match algorithm
    case RsaWith(h) => digest == DigestOid(h) && NamesRsa(signature)
    case EcdsaWith(h) =>
      || signature == EcdsaOid(h)
      || (&& digest == DigestOid(h)
          && (signature == EcdsaP256 || signature == EcdsaP384 || signature == EcdsaP521
              || (signature == EcPublicKey && !parameters.Given?)))
    case PureEd25519 => signature == Ed25519
    case PureMlDsa(m) =>
      parameters == Absent && signature == (match m case Parameters44 => MlDsa44 case Parameters65 => MlDsa65 case Parameters87 => MlDsa87)
    case RsaPssWith(_) => false
  }

  /** Apart from RSASSA-PSS the verifier derives an algorithm exactly where it is so designated. */
  lemma AlgorithmDesignated(p: Primitives, signature: Oid, parameters: AlgorithmParameters, digest: Oid, algorithm: SignatureAlgorithm)
    requires signature != RsaPss
    ensures GetSignatureAlgorithm(p, signature, parameters, digest) == Some(algorithm)
            <==> Designates(signature, parameters, digest, algorithm)
  {
    if NamesRsa(signature) {
      RsaDesignated(p, signature, parameters, digest, algorithm);
    } else if signature.EcPublicKey? || signature.EcdsaP256? || signature.EcdsaP384? || signature.EcdsaP521? {
      CurveDesignated(p, signature, parameters, digest, algorithm);
    } else if signature.MlDsa44? || signature.MlDsa65? || signature.MlDsa87? {
    } else {
      OtherDesignated(p, signature, parameters, digest, algorithm);
    }
  }

  lemma RsaDesignated(p: Primitives, signature: Oid, parameters: AlgorithmParameters, digest: Oid, algorithm: SignatureAlgorithm)
    requires NamesRsa(signature)
    ensures GetSignatureAlgorithm(p, signature, parameters, digest) == Some(algorithm)
            <==> algorithm.RsaWith? && digest == DigestOid(algorithm.hash)
    ensures algorithm.EcdsaWith? ==> signature != EcdsaOid(algorithm.hash)
  {
    HashDesignated(digest);
  }

  lemma CurveDesignated(p: Primitives, signature: Oid, parameters: AlgorithmParameters, digest: Oid, algorithm: SignatureAlgorithm)
    requires signature == EcPublicKey || signature == EcdsaP256 || signature == EcdsaP384 || signature == EcdsaP521
    ensures GetSignatureAlgorithm(p, signature, parameters, digest) == Some(algorithm)
            <==> algorithm.EcdsaWith? && digest == DigestOid(algorithm.hash) && (signature == EcPublicKey ==> !parameters.Given?)
    ensures algorithm.EcdsaWith? ==> signature != EcdsaOid(algorithm.hash)
  {
    HashDesignated(digest);
  }

  lemma OtherDesignated(p: Primitives, signature: Oid, parameters: AlgorithmParameters, digest: Oid, algorithm: SignatureAlgorithm)
    requires !NamesRsa(signature) && signature != RsaPss
    requires signature !in {EcPublicKey, EcdsaP256, EcdsaP384, EcdsaP521, MlDsa44, MlDsa65, MlDsa87}
    ensures GetSignatureAlgorithm(p, signature, parameters, digest) == Some(algorithm)
            <==> (signature == Ed25519 && algorithm.PureEd25519?) || (algorithm.EcdsaWith? && signature == EcdsaOid(algorithm.hash))
  {
  }

  lemma HashDesignated(digest: Oid)
    ensures IsDigest(digest) <==> exists h :: digest == DigestOid(h)
    ensures forall h :: digest == DigestOid(h) ==> GetHashForOid(digest) == Ok(h)
  {
    assert Sha1 == DigestOid(HashSha1) && Sha256 == DigestOid(HashSha256);
    assert Sha384 == DigestOid(HashSha384) && Sha512 == DigestOid(HashSha512);
  }

  /** Which object identifiers stand for a hash: those of the digest, of ECDSA with it, and for SHA-1 the older ones of DSA
      and RSA. */
  lemma HashNamed(digest: Oid, h: Hash)
    ensures GetHashForOid(digest) == Ok(h) <==>
            || digest == DigestOid(h) || digest == EcdsaOid(h)
            || (h == HashSha1 && (digest == Dsa || digest == DsaSha1 || digest == RsaEncryption))
  {
    match h {
      case HashSha1 =>
      case HashSha256 =>
      case HashSha384 =>
      case HashSha512 =>
    }
  }

  /** How a signer designates its algorithm, with each of the four hashes. */
  lemma SignerDesignates(key: KeyOrSigner, h: Hash)
    ensures GetSignerAlgorithm(key, DigestOid(h), None)
         == match key
            case RsaSigner(_) => Ok(SignerAlgorithm(DigestOid(h), RsaOid(h), PreHashed))
            case EcdsaSigner(_) => Ok(SignerAlgorithm(DigestOid(h), EcdsaOid(h), PreHashed))
            case Ed25519Signer(_) => Ok(SignerAlgorithm(DigestOid(h), Ed25519, ModeEd25519))
            case MlDsaSigner(Parameters44, _) => Ok(SignerAlgorithm(Sha512, MlDsa44, ModeMlDsa))
            case MlDsaSigner(Parameters65, _) => Ok(SignerAlgorithm(Sha512, MlDsa65, ModeMlDsa))
            case MlDsaSigner(Parameters87, _) => Ok(SignerAlgorithm(Sha512, MlDsa87, ModeMlDsa))
            case DsaPrivateKey(_) => Ok(SignerAlgorithm(DigestOid(h), Dsa, ModeDsa))
            case _ => Err
    ensures GetHashForOid(DigestOid(h)) == Ok(h)
  {
    match h {
      case HashSha1 =>
      case HashSha256 =>
      case HashSha384 =>
      case HashSha512 =>
    }
  }

  /** A configured signature algorithm is written in the place of the derived one, but for DSA and ML-DSA keys; the digest
      algorithm and the way of signing stay. */
  lemma ConfiguredDesignates(key: KeyOrSigner, digest: Oid, configured: Oid)
    ensures GetSignerAlgorithm(key, digest, Some(configured))
         == if key.NotASigner? then Err
            else if key.DsaPrivateKey? || key.MlDsaSigner? then GetSignerAlgorithm(key, digest, None)
            else Ok(SignerAlgorithm(digest, configured, if key.Ed25519Signer? then ModeEd25519 else PreHashed))
  {
  }

  /** The algorithm that a key signs with: none that verification supports for a DSA key. */
  function KeyAlgorithm(key: KeyOrSigner, hash: Hash): Option<SignatureAlgorithm> {
    match key
    case RsaSigner(_) => Some(RsaWith(hash))
    case EcdsaSigner(_) => Some(EcdsaWith(hash))
    case Ed25519Signer(_) => Some(PureEd25519)
    case MlDsaSigner(m, _) => Some(PureMlDsa(m))
    case _ => None
  }

  /** With one of the four digest algorithms and no configured signature algorithm, the verifier derives
      the algorithm that the key signs with. */
  lemma AlgorithmDerived(p: Primitives, key: KeyOrSigner, digestOid: Oid)
    requires IsDigest(digestOid) && GetSignerAlgorithm(key, digestOid, None).Ok?
    ensures var a := GetSignerAlgorithm(key, digestOid, None).value;
            && IsDigest(a.digestOid)
            && GetSignatureAlgorithm(p, a.signatureOid, Absent, a.digestOid)
               == KeyAlgorithm(key, GetHashForOid(a.digestOid).value)
            && (KeyAlgorithm(key, GetHashForOid(a.digestOid).value).None? <==> key.DsaPrivateKey?)
  {
  }

  /** What was signed passes the check with that algorithm. */
  lemma SignedIsChecked(p: Primitives, key: KeyOrSigner, a: SignerAlgorithm, hash: Hash, data: seq<byte>, random: seq<byte>)
    requires p.Laws() && KeyAlgorithm(key, hash).Some? && Sign(p, a, key, data, hash, random).Some?
    requires a.mode == if key.Ed25519Signer? then ModeEd25519 else if key.MlDsaSigner? then ModeMlDsa else PreHashed
    ensures p.check(p.public(key), KeyAlgorithm(key, hash).value, data, Sign(p, a, key, data, hash, random).value)
  {
    var message := if key.Ed25519Signer? || key.MlDsaSigner? then Message(data) else Digest(hash, p.hash(hash, data));
    assert p.SignatureChecks(key, message, KeyAlgorithm(key, hash).value, data);
  }

  /** Signer and verifier agree: the verifier accepts what was signed, with every key but a DSA key, for
      which it derives no algorithm. */
  lemma AlgorithmsAgree(p: Primitives, key: KeyOrSigner, digestOid: Oid, data: seq<byte>, random: seq<byte>)
    requires p.Laws() && IsDigest(digestOid) && GetSignerAlgorithm(key, digestOid, None).Ok?
    ensures var a := GetSignerAlgorithm(key, digestOid, None).value;
            && IsDigest(a.digestOid)
            && var x := GetSignatureAlgorithm(p, a.signatureOid, Absent, a.digestOid);
               var hash := GetHashForOid(a.digestOid).value;
               && (x.None? <==> key.DsaPrivateKey?)
               && (x.Some? && Sign(p, a, key, data, hash, random).Some? ==>
                     p.check(p.public(key), x.value, data, Sign(p, a, key, data, hash, random).value))
  {
    AlgorithmDerived(p, key, digestOid);
    var a := GetSignerAlgorithm(key, digestOid, None).value;
    var hash := GetHashForOid(a.digestOid).value;
    if KeyAlgorithm(key, hash).Some? && Sign(p, a, key, data, hash, random).Some? {
      SignedIsChecked(p, key, a, hash, data, random);
    }
  }
}
