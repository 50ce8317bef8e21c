/** The language that ber.go reads, stated without reference to the parser: objects, their
    encodings in every accepted length form, and the fact that an encoding determines its
    own end and its reading (sections 8.1.2 to 8.1.5 of ITU-T X.690). */
module Grammar {
  import opened Bytes
  import opened Lengths

  const MAX_NESTING_DEPTH: nat := 500

  /** asn1Primitive and asn1Structured. */
  datatype Obj =
    | Prim(tag: seq<byte>, content: seq<byte>)
    | Cons(tag: seq<byte>, kids: seq<Obj>)

  /** An encoding with its length octets spelled out. */
  datatype Tlv =
    | Primitive(tag: seq<byte>, length: seq<byte>, content: seq<byte>)
    | Definite(tag: seq<byte>, length: seq<byte>, parts: seq<Tlv>)
    | Indefinite(tag: seq<byte>, parts: seq<Tlv>)

  /** Identifier octets: one octet, or an octet with all five low bits set, any number of
      octets with the top bit set and one without it. */
  predicate TagOctets(t: seq<byte>) {
    && |t| >= 1
    && if t[0] % 32 != 31 then |t| == 1 else
         && |t| >= 2
         && t[|t| - 1] < 128
         && forall i :: 1 <= i < |t| - 1 ==> t[i] >= 128
  }

  /** tag & 0x20 != 0 */
  predicate ConstructedBit(t: seq<byte>)
    requires |t| >= 1
  {
    t[0] / 32 % 2 == 1
  }

  predicate EndOfContents(s: seq<byte>) {
    |s| >= 2 && s[0] == 0 && s[1] == 0
  }

  const EOC: seq<byte> := [0, 0]

  /** The length octets that stand between the tag and the contents. */
  function LengthField(c: Tlv): seq<byte> {
    if c.Indefinite? then [128] else c.length
  }

  /** The octets of an encoding. */
  function Flatten(c: Tlv): seq<byte>
    decreases c, 2
  {
    c.tag + LengthField(c) + Body(c)
  }

  /** What follows the length octets. */
  function Body(c: Tlv): seq<byte>
    decreases c, 1
  {
    match c
    case Primitive(_, _, content) => content
    case Definite(_, _, parts) => FlattenAll(parts)
    case Indefinite(_, parts) => FlattenAll(parts) + EOC
  }

  function FlattenAll(cs: seq<Tlv>): (bs: seq<byte>)
    decreases cs, 0
  {
    if cs == [] then [] else Flatten(cs[0]) + FlattenAll(cs[1..])
  }

  /** The object that an encoding denotes. */
  function Meaning(c: Tlv): Obj
    decreases c, 1
  {
    match c
    case Primitive(tag, _, content) => Prim(tag, content)
    case Definite(tag, _, parts) => Cons(tag, MeaningAll(parts))
    case Indefinite(tag, parts) => Cons(tag, MeaningAll(parts))
  }

  function MeaningAll(cs: seq<Tlv>): (os: seq<Obj>)
    ensures |os| == |cs|
    decreases cs, 0
  {
    if cs == [] then [] else [Meaning(cs[0])] + MeaningAll(cs[1..])
  }

  /** The rules of the encoding: identifier octets agree with the form, length octets
      with the contents, and nothing inside an indefinite form looks like its end. */
  predicate Grammatical(c: Tlv) {
    && TagOctets(c.tag)
    && match c
       case Primitive(tag, length, content) =>
         !ConstructedBit(tag) && DefiniteLength(length, |content|)
       case Definite(tag, length, parts) =>
         && ConstructedBit(tag)
         && DefiniteLength(length, |FlattenAll(parts)|)
         && forall i | 0 <= i < |parts| :: Grammatical(parts[i])
       case Indefinite(tag, parts) =>
         && ConstructedBit(tag)
         && forall i | 0 <= i < |parts| :: Grammatical(parts[i]) && !EndOfContents(Flatten(parts[i]))
  }

  /** Every part of the encoding, itself at `depth`, is at most at the maximal depth. */
  predicate Nested(c: Tlv, depth: nat) {
    && depth <= MAX_NESTING_DEPTH
    && (!c.Primitive? ==> forall i | 0 <= i < |c.parts| :: Nested(c.parts[i], depth + 1))
  }

  /** `c` is an encoding the parser may find at the start of `s`, at `depth`. */
  predicate StartsWith(s: seq<byte>, c: Tlv, depth: nat) {
    Grammatical(c) && Nested(c, depth) && Starts(s, Flatten(c))
  }

  // ---------- elementary facts ----------

  lemma FlattenSize(c: Tlv)
    requires Grammatical(c)
    ensures |Flatten(c)| >= 2
  {
  }

  lemma {:induction false} FlattenAllAppend(cs: seq<Tlv>, ds: seq<Tlv>)
    ensures FlattenAll(cs + ds) == FlattenAll(cs) + FlattenAll(ds)
  {
    if cs == [] {
      assert cs + ds == ds;
    } else {
      assert (cs + ds)[1..] == cs[1..] + ds;
      FlattenAllAppend(cs[1..], ds);
    }
  }

  lemma FlattenAllSnoc(cs: seq<Tlv>, c: Tlv)
    ensures FlattenAll(cs + [c]) == FlattenAll(cs) + Flatten(c)
  {
    FlattenAllAppend(cs, [c]);
    assert FlattenAll([c]) == Flatten(c);
  }

  lemma {:induction false} MeaningAllAppend(cs: seq<Tlv>, ds: seq<Tlv>)
    ensures MeaningAll(cs + ds) == MeaningAll(cs) + MeaningAll(ds)
  {
    if cs == [] {
      assert cs + ds == ds;
    } else {
      assert (cs + ds)[1..] == cs[1..] + ds;
      MeaningAllAppend(cs[1..], ds);
    }
  }

  lemma {:induction false} MeaningAllAt(cs: seq<Tlv>, i: nat)
    requires i < |cs|
    ensures MeaningAll(cs)[i] == Meaning(cs[i])
  {
    if i == 0 {
    } else {
      MeaningAllAt(cs[1..], i - 1);
    }
  }

  // ---------- unambiguity ----------

  lemma TagUnique(s: seq<byte>, t1: seq<byte>, t2: seq<byte>)
    requires TagOctets(t1) && TagOctets(t2)
    requires Starts(s, t1) && Starts(s, t2)
    ensures t1 == t2
  {
    assert t1 == s[..|t1|] && t2 == s[..|t2|];
    if |t1| <= |t2| {
      TagClosed(t1, t2);
    } else {
      TagClosed(t2, t1);
    }
  }

  lemma TagClosed(t1: seq<byte>, t2: seq<byte>)
    requires TagOctets(t1) && TagOctets(t2)
    requires t1 <= t2
    ensures t1 == t2
  {
    assert t1[0] == t2[0] && t1[|t1| - 1] == t2[|t1| - 1];
  }

  /** Length octets with what they announce. */
  predicate LengthToken(field: seq<byte>, length: nat, indefinite: bool) {
    if indefinite then field == [128] else DefiniteLength(field, length)
  }

  /** A header found at a place is the header of every encoding found there. */
  lemma HeaderUnique(s: seq<byte>, c: Tlv, tag: seq<byte>, field: seq<byte>, length: nat, indefinite: bool)
    requires Grammatical(c) && Starts(s, Flatten(c))
    requires TagOctets(tag) && LengthToken(field, length, indefinite) && Starts(s, tag + field)
    ensures c.tag == tag && LengthField(c) == field
    ensures c.Indefinite? == indefinite && c.Primitive? == !ConstructedBit(tag)
    ensures Starts(s[|tag| + |field|..], Body(c))
    ensures !indefinite ==> |Body(c)| == length
  {
    GrammaticalHeader(s, c);
    StartsBoth(s, tag, field);
    StartsBoth(s, c.tag, LengthField(c));
    TagUnique(s, c.tag, tag);
    TokenUnique(s[|tag|..], LengthField(c), |Body(c)|, c.Indefinite?, field, length, indefinite);
  }

  lemma GrammaticalHeader(s: seq<byte>, c: Tlv)
    requires Grammatical(c) && Starts(s, Flatten(c))
    ensures LengthToken(LengthField(c), |Body(c)|, c.Indefinite?)
    ensures TagOctets(c.tag) && c.Primitive? == !ConstructedBit(c.tag)
    ensures Starts(s, c.tag + LengthField(c)) && Starts(s[|c.tag| + |LengthField(c)|..], Body(c))
  {
    StartsBoth(s, c.tag + LengthField(c), Body(c));
  }

  lemma TokenUnique(s: seq<byte>, f1: seq<byte>, l1: nat, i1: bool, f2: seq<byte>, l2: nat, i2: bool)
    requires LengthToken(f1, l1, i1) && LengthToken(f2, l2, i2)
    requires Starts(s, f1) && Starts(s, f2)
    ensures f1 == f2 && i1 == i2 && (!i1 ==> l1 == l2)
  {
    assert f1[0] == s[0] == f2[0];
    if !i1 && !i2 {
      DefiniteLengthUnique(s, f1, l1, f2, l2);
    }
  }

  /** X.690 read as the parser reads it is unambiguous: at one place stands one encoding.
      In particular no encoding is a proper prefix of a different one. */
  lemma {:induction false} Unambiguous(s: seq<byte>, c: Tlv, d: Tlv)
    requires Grammatical(c) && Grammatical(d)
    requires Starts(s, Flatten(c)) && Starts(s, Flatten(d))
    ensures c == d
    decreases c, 1
  {
    var rest := SameHeader(s, c, d);
    match c {
      case Primitive(_, _, content) =>
        assert content == rest[..|content|] == d.content;
      case Definite(_, _, parts) =>
        Comparable(rest, parts, d.parts);
        if parts <= d.parts {
          LongerList(parts, d.parts);
        } else {
          LongerList(d.parts, parts);
        }
      case Indefinite(_, parts) =>
        StartsBoth(rest, FlattenAll(parts), EOC);
        StartsBoth(rest, FlattenAll(d.parts), EOC);
        Comparable(rest, parts, d.parts);
        ClosedList(rest, parts, d.parts);
        ClosedList(rest, d.parts, parts);
    }
  }

  lemma SameHeader(s: seq<byte>, c: Tlv, d: Tlv) returns (rest: seq<byte>)
    requires Grammatical(c) && Grammatical(d)
    requires Starts(s, Flatten(c)) && Starts(s, Flatten(d))
    ensures c.tag == d.tag && LengthField(c) == LengthField(d)
    ensures c.Indefinite? == d.Indefinite? && c.Primitive? == d.Primitive?
    ensures Starts(rest, Body(c)) && Starts(rest, Body(d))
    ensures !c.Indefinite? ==> |Body(c)| == |Body(d)|
  {
    GrammaticalHeader(s, d);
    HeaderUnique(s, c, d.tag, LengthField(d), |Body(d)|, d.Indefinite?);
    rest := s[|d.tag| + |LengthField(d)|..];
  }

  /** Of two lists of encodings found at the same place one continues the other. */
  lemma {:induction false} Comparable(s: seq<byte>, cs: seq<Tlv>, ds: seq<Tlv>)
    requires forall i | 0 <= i < |cs| :: Grammatical(cs[i])
    requires forall i | 0 <= i < |ds| :: Grammatical(ds[i])
    requires Starts(s, FlattenAll(cs)) && Starts(s, FlattenAll(ds))
    ensures cs <= ds || ds <= cs
    decreases cs, 0
  {
    if cs == [] || ds == [] {
    } else {
      StartsBoth(s, Flatten(cs[0]), FlattenAll(cs[1..]));
      StartsBoth(s, Flatten(ds[0]), FlattenAll(ds[1..]));
      Unambiguous(s, cs[0], ds[0]);
      Comparable(s[|Flatten(cs[0])|..], cs[1..], ds[1..]);
      assert cs == [cs[0]] + cs[1..] && ds == [ds[0]] + ds[1..];
    }
  }

  /** What a longer list adds. */
  lemma LongerList(cs: seq<Tlv>, ds: seq<Tlv>)
    requires cs <= ds
    requires forall i | 0 <= i < |ds| :: Grammatical(ds[i])
    ensures |FlattenAll(cs)| <= |FlattenAll(ds)|
    ensures |cs| < |ds| ==> |FlattenAll(cs)| < |FlattenAll(ds)|
  {
    assert ds == cs + ds[|cs|..];
    FlattenAllAppend(cs, ds[|cs|..]);
    if |cs| < |ds| {
      FlattenSize(ds[|cs|]);
    }
  }

  /** Where the shorter list ends, the next encoding of the longer one starts. */
  lemma NextInList(s: seq<byte>, cs: seq<Tlv>, ds: seq<Tlv>)
    requires cs <= ds && |cs| < |ds|
    requires Starts(s, FlattenAll(ds))
    ensures Starts(s, FlattenAll(cs))
    ensures Starts(s[|FlattenAll(cs)|..], Flatten(ds[|cs|]))
  {
    var next, rest := ds[|cs|], ds[|cs| + 1..];
    assert ds[|cs|..] == [next] + rest && ds == cs + ds[|cs|..];
    FlattenAllAppend(cs, ds[|cs|..]);
    StartsBoth(s, FlattenAll(cs), FlattenAll(ds[|cs|..]));
    StartsBoth(s[|FlattenAll(cs)|..], Flatten(next), FlattenAll(rest));
  }

  lemma StartsLikeEnd(bs: seq<byte>, s: seq<byte>)
    requires |bs| >= 2 && Starts(s, bs) && Starts(s, EOC)
    ensures EndOfContents(bs)
  {
    assert bs[0] == s[0] == EOC[0] && bs[1] == s[1] == EOC[1];
  }

  /** A list that the end-of-contents octets follow is not continued by encodings
      that do not look like them. */
  lemma ClosedList(s: seq<byte>, cs: seq<Tlv>, ds: seq<Tlv>)
    requires Starts(s, FlattenAll(cs)) && Starts(s[|FlattenAll(cs)|..], EOC)
    requires Starts(s, FlattenAll(ds))
    requires forall i | 0 <= i < |ds| :: Grammatical(ds[i]) && !EndOfContents(Flatten(ds[i]))
    ensures cs <= ds ==> cs == ds
  {
    if cs <= ds && |cs| < |ds| {
      NextInList(s, cs, ds);
      FlattenSize(ds[|cs|]);
      StartsLikeEnd(Flatten(ds[|cs|]), s[|FlattenAll(cs)|..]);
    }
  }
}
