/** The contents octets of object identifiers (section 8.19 of ITU-T X.690), and those that the program writes. */
module ObjectIdentifiers {
  import opened Bytes
  import opened Asn1
  import opened Certificates
  import opened RecipientCoding
  import opened EnvelopeCoding
  import opened Signing

  /** An arc, seven bits to the octet; all octets but the last have their high bit set. */
  function ArcOctets(n: nat): (bs: seq<byte>)
    ensures bs != []
  {
    LeadingOctets(n / 128) + [n % 128]
  }

  function LeadingOctets(n: nat): seq<byte> {
    if n == 0 then [] else LeadingOctets(n / 128) + [128 + n % 128]
  }

  function ArcsOctets(arcs: seq<nat>): seq<byte> {
    if arcs == [] then [] else ArcOctets(arcs[0]) + ArcsOctets(arcs[1..])
  }

  /** The first two arcs share their octets. */
  function OidContents(arcs: seq<nat>): seq<byte>
    requires |arcs| >= 2
  {
    ArcsOctets([40 * arcs[0] + arcs[1]] + arcs[2..])
  }

  // ---------- different identifiers have different octets ----------

  lemma NumberOf(front: seq<byte>, last: byte)
    ensures TagNumber(front + [last]) == 128 * TagNumber(front) + if last < 128 then last else last - 128
  {
    assert (front + [last])[..|front|] == front;
  }

  lemma {:induction false} LeadingDenote(n: nat)
    ensures var bs := LeadingOctets(n); TagNumber(bs) == n && forall i | 0 <= i < |bs| :: bs[i] >= 128
  {
    if n == 0 {
    } else {
      LeadingDenote(n / 128);
      NumberOf(LeadingOctets(n / 128), 128 + n % 128);
    }
  }

  lemma ArcDenotes(n: nat)
    ensures var bs := ArcOctets(n); TagNumber(bs) == n && EndsAt(bs, |bs| - 1)
  {
    var front, last := LeadingOctets(n / 128), n % 128;
    LeadingDenote(n / 128);
    NumberOf(front, last);
  }

  /** The first octet without its high bit. */
  predicate EndsAt(bs: seq<byte>, k: nat) {
    k < |bs| && bs[k] < 128 && forall i | 0 <= i < k :: bs[i] >= 128
  }

  /** The octets of an arc tell where they end. */
  lemma ArcUnique(m: nat, x: seq<byte>, n: nat, y: seq<byte>)
    requires ArcOctets(m) + x == ArcOctets(n) + y
    ensures m == n && x == y
  {
    var s, a, b := ArcOctets(m) + x, ArcOctets(m), ArcOctets(n);
    ArcDenotes(m);
    ArcDenotes(n);
    assert s[..|a|] == a && s[..|b|] == b;
    assert EndsAt(s, |a| - 1) && EndsAt(s, |b| - 1);
    assert x == s[|a|..] && y == s[|b|..];
  }

  lemma {:induction false} ArcsUnique(a: seq<nat>, b: seq<nat>)
    requires ArcsOctets(a) == ArcsOctets(b)
    ensures a == b
  {
    if a == [] || b == [] {
    } else {
      ArcUnique(a[0], ArcsOctets(a[1..]), b[0], ArcsOctets(b[1..]));
      ArcsUnique(a[1..], b[1..]);
      assert a == [a[0]] + a[1..] && b == [b[0]] + b[1..];
    }
  }

  predicate IsOid(arcs: seq<nat>) {
    |arcs| >= 2 && ((arcs[0] < 2 && arcs[1] < 40) || arcs[0] == 2)
  }

  /** Comparing contents octets is comparing identifiers. */
  lemma OidUnique(a: seq<nat>, b: seq<nat>)
    requires IsOid(a) && IsOid(b)
    ensures OidContents(a) == OidContents(b) <==> a == b
  {
    if OidContents(a) == OidContents(b) {
      var x, y := [40 * a[0] + a[1]] + a[2..], [40 * b[0] + b[1]] + b[2..];
      ArcsUnique(x, y);
      assert x[0] == y[0] && x[1..] == a[2..] && y[1..] == b[2..];
      assert a == [a[0], a[1]] + a[2..] && b == [b[0], b[1]] + b[2..];
    }
  }

  // ---------- the identifiers of the program ----------

  lemma {:induction false} SmallArcs(arcs: seq<byte>)
    requires forall i | 0 <= i < |arcs| :: arcs[i] < 128
    ensures ArcsOctets(arcs) == arcs
  {
    if arcs == [] {
    } else {
      SmallArcs(arcs[1..]);
      assert arcs == [arcs[0]] + arcs[1..];
    }
  }

  lemma FirstArc(arc: nat, arcs: seq<nat>)
    ensures ArcsOctets([arc] + arcs) == ArcOctets(arc) + ArcsOctets(arcs)
  {
    assert ([arc] + arcs)[1..] == arcs;
  }

  /** Two larger arcs. */
  lemma TwoOctets(n: nat)
    requires n == 840
    ensures ArcOctets(n) == [0x86, 0x48]
  {
    assert n / 128 == 6 && n % 128 == 0x48;
    assert LeadingOctets(6) == LeadingOctets(0) + [0x86];
  }

  lemma ThreeOctets(n: nat)
    requires n == 113549
    ensures ArcOctets(n) == [0x86, 0xF7, 0x0D]
  {
    var m := n / 128;
    assert m == 887 && n % 128 == 13 && m / 128 == 6 && m % 128 == 0x77;
    assert LeadingOctets(6) == LeadingOctets(0) + [0x86];
    assert LeadingOctets(m) == LeadingOctets(m / 128) + [0xF7];
  }

  /** Below 1.2.840.113549, */
  lemma RsadsiTree(oid: seq<nat>, arcs: seq<byte>)
    requires |oid| >= 4 && oid[0] == 1 && oid[1] == 2 && oid[2] == 840 && oid[3] == 113549 && oid[4..] == arcs
    requires forall i | 0 <= i < |arcs| :: arcs[i] < 128
    ensures OidContents(oid) == [0x2A, 0x86, 0x48, 0x86, 0xF7, 0x0D] + arcs
  {
    SmallArcs(arcs);
    TwoOctets(oid[2]);
    ThreeOctets(oid[3]);
    OidFrom(oid, 42, oid[2]);
    FourthArc(oid);
    assert [42] + ([0x86, 0x48] + ([0x86, 0xF7, 0x0D] + arcs)) == [0x2A, 0x86, 0x48, 0x86, 0xF7, 0x0D] + arcs;
  }

  lemma FourthArc(oid: seq<nat>)
    requires |oid| >= 4
    ensures ArcsOctets(oid[3..]) == ArcOctets(oid[3]) + ArcsOctets(oid[4..])
  {
    FirstArc(oid[3], oid[4..]);
    assert oid[3..] == [oid[3]] + oid[4..];
  }

  lemma OidFrom(oid: seq<nat>, first: byte, second: nat)
    requires |oid| >= 3 && first == 40 * oid[0] + oid[1] && first < 128 && second == oid[2]
    ensures OidContents(oid) == [first] + (ArcOctets(second) + ArcsOctets(oid[3..]))
  {
    FirstArc(second, oid[3..]);
    FirstArc(first, oid[2..]);
    assert oid[2..] == [second] + oid[3..];
    assert ArcOctets(first) == [first];
  }

  /** and below 2.16.840.1.101.3.4. */
  lemma NistTree(oid: seq<nat>, arcs: seq<byte>)
    requires |oid| >= 7 && oid[0] == 2 && oid[1] == 16 && oid[2] == 840
    requires oid[3] == 1 && oid[4] == 101 && oid[5] == 3 && oid[6] == 4 && oid[7..] == arcs
    requires forall i | 0 <= i < |arcs| :: arcs[i] < 128
    ensures OidContents(oid) == [0x60, 0x86, 0x48, 1, 0x65, 3, 4] + arcs
  {
    var more := [1, 101, 3, 4] + arcs;
    TwoOctets(oid[2]);
    SmallArcs(more);
    OidFrom(oid, 96, oid[2]);
    assert oid[3..] == more;
  }

  /** The arcs of the algorithms for the content, */
  function ContentArcs(a: ContentAlgorithm): seq<nat>
    requires !a.OtherAlgorithm?
  {
    match a
    case DesCbc => [1, 3, 14, 3, 2, 7]
    case DesEde3Cbc => [1, 2, 840, 113549, 3, 7]
    case Aes128Cbc => [2, 16, 840, 1, 101, 3, 4, 1, 2]
    case Aes256Cbc => [2, 16, 840, 1, 101, 3, 4, 1, 42]
    case Aes128Gcm => [2, 16, 840, 1, 101, 3, 4, 1, 6]
    case Aes256Gcm => [2, 16, 840, 1, 101, 3, 4, 1, 46]
  }

  lemma ContentOid(a: ContentAlgorithm)
    requires !a.OtherAlgorithm?
    ensures OidOf(a) == OidContents(ContentArcs(a))
  {
    if a == DesCbc {
      DesOid(ContentArcs(a));
    } else if a == DesEde3Cbc {
      RsadsiTree(ContentArcs(a), [3, 7]);
    } else {
      AesOid(a, ContentArcs(a));
    }
  }

  lemma DesOid(arcs: seq<nat>)
    requires arcs == [1, 3, 14, 3, 2, 7]
    ensures OidContents(arcs) == [0x2B, 14, 3, 2, 7]
  {
    SmallArcs([43, 14, 3, 2, 7]);
    assert [40 * arcs[0] + arcs[1]] + arcs[2..] == [43, 14, 3, 2, 7];
  }

  lemma AesOid(a: ContentAlgorithm, arcs: seq<nat>)
    requires a == Aes128Cbc || a == Aes256Cbc || a == Aes128Gcm || a == Aes256Gcm
    requires arcs == ContentArcs(a)
    ensures OidOf(a) == OidContents(arcs)
  {
    NistTree(arcs, [1, arcs[8]]);
  }

  /** of what stands in the entries for recipients, */
  function EntryArcs(oid: Oid): seq<nat>
    requires Known(oid)
  {
    match oid
    case RsaEncryption => [1, 2, 840, 113549, 1, 1, 1]
    case MlKem768 => [2, 16, 840, 1, 101, 3, 4, 4, 2]
    case MlKem1024 => [2, 16, 840, 1, 101, 3, 4, 4, 3]
    case HkdfSha256 => [1, 2, 840, 113549, 1, 9, 16, 3, 28]
    case KeyWrapAes256 => [2, 16, 840, 1, 101, 3, 4, 1, 45]
    case OtherRecipientInfoKem => [1, 2, 840, 113549, 1, 9, 16, 13, 3]
  }

  lemma EntryOid(oid: Oid)
    requires Known(oid)
    ensures OidOctets(oid) == OidContents(EntryArcs(oid))
  {
    if oid == RsaEncryption || oid == HkdfSha256 || oid == OtherRecipientInfoKem {
      RsadsiOid(oid, EntryArcs(oid));
    } else {
      NistOid(oid, EntryArcs(oid));
    }
  }

  lemma RsadsiOid(oid: Oid, arcs: seq<nat>)
    requires oid == RsaEncryption || oid == HkdfSha256 || oid == OtherRecipientInfoKem
    requires arcs == EntryArcs(oid)
    ensures OidOctets(oid) == OidContents(arcs)
  {
    if oid == RsaEncryption {
      RsadsiTree(arcs, [1, 1, 1]);
    } else if oid == HkdfSha256 {
      RsadsiTree(arcs, [1, 9, 16, 3, 28]);
    } else {
      RsadsiTree(arcs, [1, 9, 16, 13, 3]);
    }
  }

  lemma NistOid(oid: Oid, arcs: seq<nat>)
    requires oid == MlKem768 || oid == MlKem1024 || oid == KeyWrapAes256
    requires arcs == EntryArcs(oid)
    ensures OidOctets(oid) == OidContents(arcs)
  {
    NistTree(arcs, [arcs[7], arcs[8]]);
  }

  /** and of the types of contents and attributes. */
  lemma TypesAre(data: seq<nat>, enveloped: seq<nat>, contentType: seq<nat>, messageDigest: seq<nat>, signingTime: seq<nat>)
    requires data == [1, 2, 840, 113549, 1, 7, 1] && enveloped == [1, 2, 840, 113549, 1, 7, 3]
    requires contentType == [1, 2, 840, 113549, 1, 9, 3] && messageDigest == [1, 2, 840, 113549, 1, 9, 4]
    requires signingTime == [1, 2, 840, 113549, 1, 9, 5]
    ensures DATA == OidContents(data) && ENVELOPED_DATA == OidContents(enveloped)
    ensures CONTENT_TYPE == OidContents(contentType) && MESSAGE_DIGEST == OidContents(messageDigest)
    ensures SIGNING_TIME == OidContents(signingTime)
  {
    RsadsiTree(data, [1, 7, 1]);
    RsadsiTree(enveloped, [1, 7, 3]);
    RsadsiTree(contentType, [1, 9, 3]);
    RsadsiTree(messageDigest, [1, 9, 4]);
    RsadsiTree(signingTime, [1, 9, 5]);
  }
}
