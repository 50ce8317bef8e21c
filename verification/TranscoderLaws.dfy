/** The transcoder once more, as rules on octets: what becomes of an encoding, given what becomes of its parts. The rules
    need neither the grammar nor the objects, and yield exactly what the transcoder yields. */
module TranscoderLaws {
  import opened Bytes
  import opened Sequences
  import opened Lengths
  import opened Grammar
  import opened BerPrinter
  import opened Ber2Der

  // ---------- the rules ----------

  /** Identifier octets with bit 0x20 set or not: where the five low bits of the first octet are all set, octets follow
      of which the last one, and no other, has its top bit clear. */
  predicate Identifier(id: seq<byte>, constructed: bool) {
    && id != []
    && id[0] / 32 % 2 == (if constructed then 1 else 0)
    && if id[0] % 32 != 31 then |id| == 1 else |id| > 1 && forall i | 1 <= i < |id| :: id[i] < 128 <==> i == |id| - 1
  }

  /** Primitive contents are kept. */
  ghost predicate KeepsContents(x: seq<byte>, y: seq<byte>, id: seq<byte>, length: seq<byte>, content: seq<byte>) {
    && Identifier(id, false) && DefiniteLength(length, |content|)
    && x == id + length + content && y == id + EncodedLength(|content|) + content
  }

  /** The parts of an encoding at this depth become those of another one. */
  ghost predicate PartsBecome(parts: seq<seq<byte>>, outs: seq<seq<byte>>, depth: nat, n: nat)
    decreases n, |parts|
  {
    |parts| == |outs| && forall i | 0 <= i < |parts| :: |parts[i]| < n && Becomes(parts[i], outs[i], depth + 1)
  }

  predicate TwoZeros(x: seq<byte>) {
    |x| >= 2 && x[0] == 0 && x[1] == 0
  }

  /** Parts in definite form fill the length; parts in indefinite form are followed by 00 00 and do not start with it. */
  ghost predicate JoinsParts(x: seq<byte>, y: seq<byte>, id: seq<byte>, length: seq<byte>, parts: seq<seq<byte>>,
                             outs: seq<seq<byte>>)
  {
    && Identifier(id, true)
    && y == id + EncodedLength(|Concat(outs)|) + Concat(outs)
    && if length == [128]
       then && x == id + length + (Concat(parts) + [0, 0])
            && forall i | 0 <= i < |parts| :: !TwoZeros(parts[i])
       else DefiniteLength(length, |Concat(parts)|) && x == id + length + Concat(parts)
  }

  /** The encoding `x` at this depth has the minimal definite form `y`. */
  ghost predicate Becomes(x: seq<byte>, y: seq<byte>, depth: nat)
    decreases |x|
  {
    && depth <= 500
    && (|| (exists id, length, content :: KeepsContents(x, y, id, length, content))
        || (exists id, length, parts, outs :: JoinsParts(x, y, id, length, parts, outs) && PartsBecome(parts, outs, depth, |x|)))
  }

  // ---------- they yield what the transcoder yields ----------

  lemma IdentifierOctets(id: seq<byte>, constructed: bool)
    ensures Identifier(id, constructed) <==> TagOctets(id) && ConstructedBit(id) == constructed
  {
    if id != [] && id[0] % 32 == 31 && |id| > 1 {
      assert TagOctets(id) <==> id[|id| - 1] < 128 && forall i | 1 <= i < |id| - 1 :: id[i] >= 128;
    }
  }

  /** What the rules make of an encoding is the printed form of an object that the grammar gives it. */
  lemma {:induction false} RulesAreSound(x: seq<byte>, y: seq<byte>, depth: nat) returns (c: Tlv)
    requires Becomes(x, y, depth)
    ensures Grammatical(c) && Nested(c, depth) && Flatten(c) == x && Encode(Meaning(c)) == y
    decreases |x|, 1, 0
  {
    if id, length, content :| KeepsContents(x, y, id, length, content) {
      IdentifierOctets(id, false);
      c := Primitive(id, length, content);
    } else {
      var id, length, parts, outs :| JoinsParts(x, y, id, length, parts, outs) && PartsBecome(parts, outs, depth, |x|);
      IdentifierOctets(id, true);
      var cs := PartsAreSound(parts, outs, depth, |x|);
      c := Joined(x, y, id, length, parts, outs, depth, cs);
    }
  }

  /** The encodings that the octets of a list are. */
  ghost predicate AreParts(cs: seq<Tlv>, parts: seq<seq<byte>>, outs: seq<seq<byte>>, depth: nat) {
    && |cs| == |parts| == |outs|
    && (forall i | 0 <= i < |cs| :: Grammatical(cs[i]) && Nested(cs[i], depth) && Flatten(cs[i]) == parts[i])
    && FlattenAll(cs) == Concat(parts) && EncodeAll(MeaningAll(cs)) == Concat(outs)
  }

  lemma {:induction false} PartsAreSound(parts: seq<seq<byte>>, outs: seq<seq<byte>>, depth: nat, n: nat) returns (cs: seq<Tlv>)
    requires PartsBecome(parts, outs, depth, n)
    ensures AreParts(cs, parts, outs, depth + 1)
    decreases n, 0, |parts|
  {
    cs := [];
    if parts == [] {
    } else {
      var c := RulesAreSound(parts[0], outs[0], depth + 1);
      var rest := PartsAreSound(parts[1..], outs[1..], depth, n);
      cs := [c] + rest;
      FirstOfParts(c, rest, parts, outs, depth + 1);
    }
  }

  lemma FirstOfParts(c: Tlv, rest: seq<Tlv>, parts: seq<seq<byte>>, outs: seq<seq<byte>>, depth: nat)
    requires parts != [] && outs != [] && AreParts(rest, parts[1..], outs[1..], depth)
    requires Grammatical(c) && Nested(c, depth) && Flatten(c) == parts[0] && Encode(Meaning(c)) == outs[0]
    ensures AreParts([c] + rest, parts, outs, depth)
  {
    var cs := [c] + rest;
    assert cs[1..] == rest && MeaningAll(cs)[1..] == MeaningAll(rest);
    forall i | 1 <= i < |cs|
      ensures Grammatical(cs[i]) && Nested(cs[i], depth) && Flatten(cs[i]) == parts[i]
    {
      assert cs[i] == rest[i - 1] && parts[i] == parts[1..][i - 1];
    }
  }

  lemma Joined(x: seq<byte>, y: seq<byte>, id: seq<byte>, length: seq<byte>, parts: seq<seq<byte>>, outs: seq<seq<byte>>,
               depth: nat, cs: seq<Tlv>)
    returns (c: Tlv)
    requires JoinsParts(x, y, id, length, parts, outs) && depth <= 500
    requires TagOctets(id) && ConstructedBit(id) && AreParts(cs, parts, outs, depth + 1)
    ensures Grammatical(c) && Nested(c, depth) && Flatten(c) == x && Encode(Meaning(c)) == y
  {
    if length == [128] {
      c := Indefinite(id, cs);
    } else {
      c := Definite(id, length, cs);
    }
  }

  /** Every encoding of the grammar is one of the rules'. */
  lemma {:induction false} RulesAreComplete(c: Tlv, depth: nat)
    requires Grammatical(c) && Nested(c, depth)
    ensures Becomes(Flatten(c), Encode(Meaning(c)), depth)
    decreases c
  {
    var x, y := Flatten(c), Encode(Meaning(c));
    match c {
      case Primitive(tag, length, content) =>
        IdentifierOctets(tag, false);
        assert LengthField(c) == length && Body(c) == content;
        assert Encode(Meaning(c)) == tag + EncodedLength(|content|) + content;
        assert KeepsContents(x, y, tag, length, content);
      case Definite(tag, length, cs) =>
        ConstructedIsComplete(c, depth);
      case Indefinite(tag, cs) =>
        ConstructedIsComplete(c, depth);
    }
  }

  lemma ConstructedIsComplete(c: Tlv, depth: nat)
    requires Grammatical(c) && Nested(c, depth) && !c.Primitive?
    ensures Becomes(Flatten(c), Encode(Meaning(c)), depth)
    decreases c, 0
  {
    var x, y, cs := Flatten(c), Encode(Meaning(c)), c.parts;
    var parts, outs := Map(Flatten, cs), Map(Encode, MeaningAll(cs));
    IdentifierOctets(c.tag, true);
    ListsFlatten(cs);
    forall i | 0 <= i < |cs|
      ensures |parts[i]| < |x| && Becomes(parts[i], outs[i], depth + 1)
    {
      PartShorterThan(cs, i);
      MeaningAllAt(cs, i);
      RulesAreComplete(cs[i], depth + 1);
    }
    assert JoinsParts(x, y, c.tag, LengthField(c), parts, outs);
    assert PartsBecome(parts, outs, depth, |x|);
  }

  lemma {:induction false} ListsFlatten(cs: seq<Tlv>)
    ensures FlattenAll(cs) == Concat(Map(Flatten, cs))
    ensures EncodeAll(MeaningAll(cs)) == Concat(Map(Encode, MeaningAll(cs)))
  {
    if cs == [] {
    } else {
      ListsFlatten(cs[1..]);
      FirstOfMap(Flatten, cs);
      FirstOfMap(Encode, MeaningAll(cs));
      assert MeaningAll(cs)[1..] == MeaningAll(cs[1..]);
    }
  }

  lemma {:induction false} PartShorterThan(cs: seq<Tlv>, i: nat)
    requires i < |cs|
    ensures |Flatten(cs[i])| <= |FlattenAll(cs)|
  {
    if i == 0 {
    } else {
      PartShorterThan(cs[1..], i - 1);
    }
  }

  /** The transcoder succeeds exactly where the rules apply to the start of its input, with their result. */
  lemma TranscodesByTheRules(x: seq<byte>, y: seq<byte>)
    ensures Transcode(x) == Ok(y) <==> exists k | 0 <= k <= |x| :: Becomes(x[..k], y, 0)
  {
    if Transcode(x) == Ok(y) {
      var c :| StartsWith(x, c, 0) && y == Encode(Meaning(c));
      RulesAreComplete(c, 0);
      assert Becomes(x[..|Flatten(c)|], y, 0);
    }
    if k :| 0 <= k <= |x| && Becomes(x[..k], y, 0) {
      var c := RulesAreSound(x[..k], y, 0);
      TranscodeIs(x, c);
    }
  }

  // ---------- tags of several octets ----------

  /** A primitive object with a tag of any number of octets is left as it is. */
  lemma LongTagUnchanged(first: byte, more: seq<byte>, last: byte, content: seq<byte>)
    requires first % 32 == 31 && first / 32 % 2 == 0 && last < 128 && forall i | 0 <= i < |more| :: more[i] >= 128
    requires |content| < 0x8000_0000
    ensures var s := [first] + more + [last] + EncodedLength(|content|) + content; Transcode(s) == Ok(s)
  {
    var id := [first] + more + [last];
    var s := id + EncodedLength(|content|) + content;
    EncodedLengthAccepted(|content|);
    assert Identifier(id, false);
    assert KeepsContents(s, s, id, EncodedLength(|content|), content);
    TranscodedWhole(s, s);
  }

  /** A constructed one with such a tag, in definite or indefinite form, has its parts transcoded. */
  lemma LongTagJoins(first: byte, more: seq<byte>, last: byte, parts: seq<seq<byte>>, outs: seq<seq<byte>>)
    requires first % 32 == 31 && first / 32 % 2 == 1 && last < 128 && forall i | 0 <= i < |more| :: more[i] >= 128
    requires |parts| == |outs| && forall i | 0 <= i < |parts| :: Becomes(parts[i], outs[i], 1)
    requires |Concat(parts)| < 0x8000_0000
    ensures var id, out := [first] + more + [last], EncodedLength(|Concat(outs)|) + Concat(outs);
            && Transcode(id + EncodedLength(|Concat(parts)|) + Concat(parts)) == Ok(id + out)
            && ((forall i | 0 <= i < |parts| :: !TwoZeros(parts[i])) ==>
                  Transcode(id + [128] + (Concat(parts) + [0, 0])) == Ok(id + out))
  {
    var id := [first] + more + [last];
    assert Identifier(id, true);
    PartsInDefiniteForm(id, parts, outs);
    if forall i | 0 <= i < |parts| :: !TwoZeros(parts[i]) {
      PartsInIndefiniteForm(id, parts, outs);
    }
  }

  lemma PartsInDefiniteForm(id: seq<byte>, parts: seq<seq<byte>>, outs: seq<seq<byte>>)
    requires Identifier(id, true) && |parts| == |outs| && forall i | 0 <= i < |parts| :: Becomes(parts[i], outs[i], 1)
    requires |Concat(parts)| < 0x8000_0000
    ensures Transcode(id + EncodedLength(|Concat(parts)|) + Concat(parts))
         == Ok(id + (EncodedLength(|Concat(outs)|) + Concat(outs)))
  {
    var length := EncodedLength(|Concat(parts)|);
    EncodedLengthAccepted(|Concat(parts)|);
    assert length[0] != 128;
    PartsTranscoded(id + length + Concat(parts), id, length, parts, outs);
  }

  lemma PartsInIndefiniteForm(id: seq<byte>, parts: seq<seq<byte>>, outs: seq<seq<byte>>)
    requires Identifier(id, true) && |parts| == |outs| && forall i | 0 <= i < |parts| :: Becomes(parts[i], outs[i], 1)
    requires forall i | 0 <= i < |parts| :: !TwoZeros(parts[i])
    ensures Transcode(id + [128] + (Concat(parts) + [0, 0])) == Ok(id + (EncodedLength(|Concat(outs)|) + Concat(outs)))
  {
    PartsTranscoded(id + [128] + (Concat(parts) + [0, 0]), id, [128], parts, outs);
  }

  lemma PartsTranscoded(x: seq<byte>, id: seq<byte>, length: seq<byte>, parts: seq<seq<byte>>, outs: seq<seq<byte>>)
    requires |parts| == |outs| && forall i | 0 <= i < |parts| :: Becomes(parts[i], outs[i], 1)
    requires JoinsParts(x, id + EncodedLength(|Concat(outs)|) + Concat(outs), id, length, parts, outs)
    ensures Transcode(x) == Ok(id + (EncodedLength(|Concat(outs)|) + Concat(outs)))
  {
    var y := id + EncodedLength(|Concat(outs)|) + Concat(outs);
    forall i | 0 <= i < |parts|
      ensures |parts[i]| < |x|
    {
      PartOfConcat(parts, i);
    }
    assert PartsBecome(parts, outs, 0, |x|);
    TranscodedWhole(x, y);
    assert y == id + (EncodedLength(|Concat(outs)|) + Concat(outs));
  }

  lemma {:induction false} PartOfConcat(parts: seq<seq<byte>>, i: nat)
    requires i < |parts|
    ensures |parts[i]| <= |Concat(parts)|
  {
    if i == 0 {
    } else {
      PartOfConcat(parts[1..], i - 1);
    }
  }

  lemma TranscodedWhole(x: seq<byte>, y: seq<byte>)
    requires Becomes(x, y, 0)
    ensures Transcode(x) == Ok(y)
  {
    assert x[..|x|] == x;
    TranscodesByTheRules(x, y);
  }
}
