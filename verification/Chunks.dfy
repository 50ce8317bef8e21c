/** The loop of decrypt.go that joins the OCTET STRINGs of an encrypted content. */
module Chunks {
  import opened Bytes
  import opened Sequences
  import opened Asn1

  /** The parts at the front of `bs`, joined, up to the first thing that is not a part. */
  function Joined(bs: seq<byte>): seq<byte>
    decreases |bs|
  {
    match UnmarshalOctets(bs)
    case None => []
    case Some((part, rest)) => part + Joined(rest)
  }

  /** Consumes the octets part by part until unmarshalling fails; a failure leaves no part
      and no rest. */
  method JoinChunks(content: seq<byte>) returns (ciphertext: seq<byte>)
    ensures ciphertext == Joined(content)
  {
    ciphertext := [];
    var left := Some(content);
    while left.Some?
      invariant ciphertext + (if left.Some? then Joined(left.value) else []) == Joined(content)
      decreases left.Some?, if left.Some? then |left.value| else 0
    {
      match UnmarshalOctets(left.value) {
        case None =>
          left := None;
        case Some((part, rest)) =>
          Associative(ciphertext, part, Joined(rest));
          ciphertext := ciphertext + part;
          left := Some(rest);
      }
    }
  }

  /** Consecutive OCTET STRINGs with these contents. */
  function OctetStrings(chunks: seq<seq<byte>>): seq<byte> {
    if chunks == [] then [] else OctetString(chunks[0]) + OctetStrings(chunks[1..])
  }

  /** However a ciphertext is cut into OCTET STRINGs, and whatever stands behind the last of
      them, joining gives the ciphertext. */
  lemma {:induction false} ChunksJoined(chunks: seq<seq<byte>>, rest: seq<byte>)
    requires forall i | 0 <= i < |chunks| :: |chunks[i]| < 0x8000_0000
    requires UnmarshalOctets(rest).None?
    ensures Joined(OctetStrings(chunks) + rest) == Concat(chunks)
  {
    if chunks == [] {
      assert OctetStrings(chunks) + rest == rest;
    } else {
      var tail := OctetStrings(chunks[1..]);
      ChunksJoined(chunks[1..], rest);
      UnmarshalMarshal(4, chunks[0], tail + rest);
      Associative(OctetString(chunks[0]), tail, rest);
    }
  }

  /** Every content is cut in one such way, so this is all that is ever joined. */
  lemma {:induction false} EveryContentIsCut(bs: seq<byte>) returns (chunks: seq<seq<byte>>, rest: seq<byte>)
    ensures bs == OctetStrings(chunks) + rest && UnmarshalOctets(rest).None?
    ensures forall i | 0 <= i < |chunks| :: |chunks[i]| < 0x8000_0000
    ensures Joined(bs) == Concat(chunks)
    decreases |bs|
  {
    match UnmarshalOctets(bs) {
      case None =>
        chunks, rest := [], bs;
        assert bs == OctetStrings(chunks) + rest;
      case Some((part, after)) =>
        MarshalUnmarshal(4, bs);
        var more, r := EveryContentIsCut(after);
        chunks, rest := [part] + more, r;
        assert chunks[1..] == more;
        assert bs == OctetStrings(chunks) + rest;
    }
  }
}
