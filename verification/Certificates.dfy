/** The parts of X.509 certificates and of parsed ASN.1 structures that the program looks at. */
module Certificates {
  import opened Bytes

  /** Object identifiers that the program compares with. */
  datatype Oid =
    | Sha1 | Sha256 | Sha384 | Sha512
    | RsaEncryption | RsaSha1 | RsaSha256 | RsaSha384 | RsaSha512 | RsaPss
    | EcPublicKey | EcdsaSha1 | EcdsaSha256 | EcdsaSha384 | EcdsaSha512 | EcdsaP256 | EcdsaP384 | EcdsaP521
    | Ed25519 | MlDsa44 | MlDsa65 | MlDsa87 | Dsa | DsaSha1
    | MlKem512 | MlKem768 | MlKem1024
    | HkdfSha256 | KeyWrapAes128 | KeyWrapAes256
    | OtherRecipientInfoKem
    | UnknownOid(octets: seq<byte>)

  datatype AlgorithmIdentifier = AlgorithmIdentifier(oid: Oid, hasParameters: bool)

  /** What asn1.Unmarshal makes of some octets: a value that takes them all, a value with octets
      left over, or an error. */
  datatype Parsed<+T> = Whole(value: T) | Trailing(value: T) | Malformed

  datatype IssuerAndSerial = IssuerAndSerial(issuerName: seq<byte>, serialNumber: int)

  datatype KemLevel = Level768 | Level1024

  datatype MlDsaParameters = Parameters44 | Parameters65 | Parameters87

  datatype PublicKey =
    | RsaKey(key: seq<byte>)
    | EcdsaKey(key: seq<byte>)
    | Ed25519Key(key: seq<byte>)
    | MlDsaKey(parameters: MlDsaParameters, key: seq<byte>)
    | MlKemKey(level: KemLevel, key: seq<byte>)
    | UnknownKey

  datatype SubjectPublicKeyInfo = SubjectPublicKeyInfo(
    algorithm: AlgorithmIdentifier, publicKey: seq<byte>, bitLength: nat)

  /** Times count seconds. `spki` is None for a certificate without a raw SubjectPublicKeyInfo. */
  datatype Certificate = Certificate(
    rawIssuer: seq<byte>,
    rawSubject: seq<byte>,
    serialNumber: int,
    notBefore: int,
    notAfter: int,
    subjectKeyId: seq<byte>,
    keyUsage: nat,
    publicKey: PublicKey,
    spki: Option<Parsed<SubjectPublicKeyInfo>>)

  function CertToIssuerAndSerial(cert: Certificate): IssuerAndSerial {
    IssuerAndSerial(cert.rawIssuer, cert.serialNumber)
  }

  predicate IsMatch(cert: Certificate, ias: IssuerAndSerial) {
    cert.serialNumber == ias.serialNumber && cert.rawIssuer == ias.issuerName
  }
}
