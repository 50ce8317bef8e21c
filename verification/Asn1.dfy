/** What the program relies on of the encoding/asn1 package: marshalled elements, and
    unmarshalling into a byte slice. */
module Asn1 {
  import opened Bytes
  import opened Sequences
  import opened Lengths
  import opened Grammar
  import opened BerPrinter

  /** Contents octets of the type 1.2.840.113549.1.7.1. */
  const DATA: seq<byte> := [0x2A, 0x86, 0x48, 0x86, 0xF7, 0x0D, 1, 7, 1]

  /** One element: tag octet, shortest length octets, contents. */
  function Element(tag: byte, content: seq<byte>): seq<byte> {
    [tag] + EncodedLength(|content|) + content
  }

  /** The encoder of ber.go prints the same element. */
  lemma ElementIsPrinted(tag: byte, content: seq<byte>)
    ensures Element(tag, content) == Encode(Prim([tag], content))
  {
    var o := Prim([tag], content);
    assert Contents(o) == content;
    assert Encode(o) == o.tag + EncodedLength(|Contents(o)|) + Contents(o);
  }

  /** No element is a proper prefix of another one with the same tag. */
  lemma ElementUnique(s: seq<byte>, tag: byte, c: seq<byte>, d: seq<byte>)
    requires |c| < 0x8000_0000_0000_0000 && |d| < 0x8000_0000_0000_0000
    requires Starts(s, Element(tag, c)) && Starts(s, Element(tag, d))
    ensures c == d
  {
    var e, f := EncodedLength(|c|), EncodedLength(|d|);
    StartsBoth(s, [tag] + e, c);
    StartsBoth(s, [tag] + f, d);
    StartsBoth(s, [tag], e);
    StartsBoth(s, [tag], f);
    EncodedLengthUnique(s[1..], |c|, |d|);
  }

  /** A constructed element with printed parts is printed, too. */
  lemma ElementOfParts(tag: byte, parts: seq<Obj>)
    ensures Element(tag, EncodeAll(parts)) == Encode(Cons([tag], parts))
  {
    var o := Cons([tag], parts);
    assert Contents(o) == EncodeAll(parts);
    assert Encode(o) == o.tag + EncodedLength(|Contents(o)|) + Contents(o);
  }

  /** How long an element with so many contents octets is. */
  function ElementSize(n: nat): nat {
    1 + |EncodedLength(n)| + n
  }

  lemma ElementHasSize(tag: byte, content: seq<byte>)
    ensures |Element(tag, content)| == ElementSize(|content|)
  {
  }

  // ---------- reading elements ----------

  /** The number of octets of a tag in the high-tag-number form. */
  function HighTagSize(bs: seq<byte>, i: nat): (n: Option<nat>)
    requires i <= |bs|
    ensures n.Some? ==> i < n.value <= |bs|
    decreases |bs| - i
  {
    if i == |bs| then None else if bs[i] < 128 then Some(i + 1) else HighTagSize(bs, i + 1)
  }

  function TagSize(bs: seq<byte>): (n: Option<nat>)
    ensures n.Some? ==> 1 <= n.value <= |bs|
  {
    if bs == [] then None else if bs[0] % 32 != 31 then Some(1) else HighTagSize(bs, 1)
  }

  /** The number that the octets of a tag after the first one denote. */
  function TagNumber(bs: seq<byte>): nat {
    if bs == [] then 0 else TagNumber(bs[..|bs| - 1]) * 128 + bs[|bs| - 1] % 128
  }

  /** A tag number from 31 to 2^31 - 1 where further octets hold it, in as few of them as can. */
  predicate ShortestTag(tag: seq<byte>) {
    tag != [] && (|tag| > 1 ==> |tag| <= 6 && tag[1] != 128 && 31 <= TagNumber(tag[1..]) < 0x8000_0000)
  }

  /** The one length field with this value, for a length below 2^31. */
  predicate ShortestField(field: seq<byte>) {
    field != [] && FieldValue(field) < 0x8000_0000 && field == EncodedLength(FieldValue(field))
  }

  /** The element at the front: its tag, its contents, and what follows it. Tags and lengths are
      below 2^31 and written in their shortest form. */
  function ReadElement(bs: seq<byte>): (r: Option<(seq<byte>, seq<byte>, seq<byte>)>)
    ensures r.Some? ==> |r.value.2| < |bs|
  {
    var size := TagSize(bs);
    if size.None? || size.value == |bs| || !ShortestTag(bs[..size.value]) then None else
      var k := size.value;
      var start := k + FieldSize(bs[k]);
      if start > |bs| || !ShortestField(bs[k..start]) then None else
        var end := start + FieldValue(bs[k..start]);
        if end > |bs| then None else Some((bs[..k], bs[start..end], bs[end..]))
  }

  lemma {:induction false} HighTagEnds(t: seq<byte>, rest: seq<byte>, i: nat)
    requires 1 <= i < |t| && t[|t| - 1] < 128
    requires forall j :: 1 <= j < |t| - 1 ==> t[j] >= 128
    ensures HighTagSize(t + rest, i) == Some(|t|)
    decreases |t| - i
  {
    if i == |t| - 1 {
    } else {
      HighTagEnds(t, rest, i + 1);
    }
  }

  lemma TagEnds(t: seq<byte>, rest: seq<byte>)
    requires TagOctets(t)
    ensures TagSize(t + rest) == Some(|t|)
  {
    if t[0] % 32 == 31 {
      HighTagEnds(t, rest, 1);
    }
  }

  /** What was written is read, whatever follows, exactly if its tag is a shortest one and it is not too long. */
  lemma ReadWritten(tag: seq<byte>, content: seq<byte>, rest: seq<byte>)
    requires TagOctets(tag) && |content| < 0x8000_0000_0000_0000
    ensures ReadElement(tag + EncodedLength(|content|) + content + rest)
         == if ShortestTag(tag) && |content| < 0x8000_0000 then Some((tag, content, rest)) else None
  {
    var field := EncodedLength(|content|);
    EncodedField(|content|);
    TagEnds(tag, field + content + rest);
    Spliced(tag, field, content, rest);
  }

  lemma Spliced(tag: seq<byte>, field: seq<byte>, content: seq<byte>, rest: seq<byte>)
    requires field != [] && FieldSize(field[0]) == |field| && FieldValue(field) == |content|
    requires tag != [] && TagSize(tag + (field + content + rest)) == Some(|tag|)
    ensures ReadElement(tag + field + content + rest)
         == if ShortestTag(tag) && ShortestField(field) then Some((tag, content, rest)) else None
  {
    assert tag + field + content + rest == tag + (field + content + rest);
    Stretches(tag, field, content, rest);
    ReadIs(tag + field + content + rest, |tag|, |tag| + |field|, |tag| + |field| + |content|);
  }

  lemma ReadIs(bs: seq<byte>, k: nat, start: nat, end: nat)
    requires k < start <= end <= |bs| && TagSize(bs) == Some(k)
    requires FieldSize(bs[k]) == start - k && FieldValue(bs[k..start]) == end - start
    ensures ReadElement(bs)
         == if ShortestTag(bs[..k]) && ShortestField(bs[k..start]) then Some((bs[..k], bs[start..end], bs[end..])) else None
  {
  }

  lemma Stretches(tag: seq<byte>, field: seq<byte>, content: seq<byte>, rest: seq<byte>)
    requires field != []
    ensures var bs, start, end := tag + field + content + rest, |tag| + |field|, |tag| + |field| + |content|;
            && bs[..|tag|] == tag && bs[|tag|] == field[0] && bs[|tag|..start] == field
            && bs[start..end] == content && bs[end..] == rest
  {
  }

  /** Only what was written is read. */
  lemma WrittenRead(bs: seq<byte>)
    requires ReadElement(bs).Some?
    ensures var (tag, content, rest) := ReadElement(bs).value;
            |content| < 0x8000_0000 && bs == tag + EncodedLength(|content|) + content + rest
  {
    var k := TagSize(bs).value;
    var start := k + FieldSize(bs[k]);
    var field := bs[k..start];
    var length := FieldValue(field);
    assert ReadElement(bs) == Some((bs[..k], bs[start..start + length], bs[start + length..]));
    ShortestIs(field, length);
    Cut(bs, k, start, start + length);
  }

  lemma ShortestIs(field: seq<byte>, length: nat)
    requires ShortestField(field) && length == FieldValue(field)
    ensures length < 0x8000_0000 && field == EncodedLength(length)
  {
  }

  lemma Cut(bs: seq<byte>, i: nat, j: nat, k: nat)
    requires i <= j <= k <= |bs|
    ensures bs == bs[..i] + bs[i..j] + bs[j..k] + bs[k..]
  {
  }

  /** asn1.Unmarshal of an element with a one-octet tag: its contents, and what follows it. */
  function UnmarshalElement(tag: byte, bs: seq<byte>): (r: Option<(seq<byte>, seq<byte>)>)
    ensures r.Some? ==> |r.value.1| < |bs|
  {
    var e := ReadElement(bs);
    if e.Some? && e.value.0 == [tag] then Some((e.value.1, e.value.2)) else None
  }

  /** Marshalling is undone, whatever follows. */
  lemma UnmarshalMarshal(tag: byte, content: seq<byte>, rest: seq<byte>)
    requires tag % 32 != 31 && |content| < 0x8000_0000
    ensures UnmarshalElement(tag, Element(tag, content) + rest) == Some((content, rest))
  {
    ReadWritten([tag], content, rest);
  }

  lemma UnmarshalAlone(tag: byte, content: seq<byte>)
    requires tag % 32 != 31 && |content| < 0x8000_0000
    ensures UnmarshalElement(tag, Element(tag, content)) == Some((content, []))
  {
    UnmarshalMarshal(tag, content, []);
    assert Element(tag, content) + [] == Element(tag, content);
  }

  /** Nothing but a marshalled element is unmarshalled. */
  lemma MarshalUnmarshal(tag: byte, bs: seq<byte>)
    requires UnmarshalElement(tag, bs).Some?
    ensures var (content, rest) := UnmarshalElement(tag, bs).value;
            |content| < 0x8000_0000 && bs == Element(tag, content) + rest
  {
    WrittenRead(bs);
  }

  /** asn1.Unmarshal into a raw value: all octets of the element, and what follows it. */
  function RawElement(bs: seq<byte>): (r: Option<(seq<byte>, seq<byte>)>)
    ensures r.Some? ==> |r.value.1| < |bs| && bs == r.value.0 + r.value.1
  {
    match ReadElement(bs)
    case None => None
    case Some((_, _, rest)) =>
      WrittenRead(bs);
      Some((bs[..|bs| - |rest|], rest))
  }

  /** Objects that are read when they have been printed. */
  predicate Readable(o: Obj) {
    ShortestTag(o.tag) && |Contents(o)| < 0x8000_0000
  }

  /** Of the printed objects, exactly those are read, whatever follows. */
  lemma PrintedIsRaw(o: Obj, rest: seq<byte>)
    requires WellFormed(o) && |Contents(o)| < 0x8000_0000_0000_0000
    ensures ReadElement(Encode(o) + rest) == if Readable(o) then Some((o.tag, Contents(o), rest)) else None
    ensures RawElement(Encode(o) + rest) == if Readable(o) then Some((Encode(o), rest)) else None
  {
    ReadWritten(o.tag, Contents(o), rest);
    var bs := Encode(o) + rest;
    assert bs[..|bs| - |rest|] == Encode(o);
  }

  // ---------- OCTET STRINGs ----------

  /** asn1.Marshal of a byte slice. */
  function OctetString(content: seq<byte>): seq<byte> {
    Element(4, content)
  }

  /** asn1.Unmarshal into a byte slice. */
  function UnmarshalOctets(bs: seq<byte>): (r: Option<(seq<byte>, seq<byte>)>)
    ensures r.Some? ==> |r.value.1| < |bs|
  {
    UnmarshalElement(4, bs)
  }

  // ---------- integers and lists of elements ----------

  /** The shortest two's-complement octets of an integer. */
  function IntegerOctets(n: int): (bs: seq<byte>)
    ensures |bs| >= 1
    decreases if n < 0 then -n else n
  {
    if -128 <= n < 128 then [n % 256] else IntegerOctets(n / 256) + [n % 256]
  }

  /** The integer that octets denote. */
  function IntegerValue(bs: seq<byte>): int
    requires bs != []
  {
    if |bs| == 1 then if bs[0] < 128 then bs[0] else bs[0] - 256
    else IntegerValue(bs[..|bs| - 1]) * 256 + bs[|bs| - 1]
  }

  /** The nine first bits are not all alike. */
  predicate ShortestInteger(bs: seq<byte>) {
    bs != [] && (|bs| > 1 ==> !(bs[0] == 0 && bs[1] < 128) && !(bs[0] == 255 && bs[1] >= 128))
  }

  /** asn1.Unmarshal of the contents of an INTEGER into a big integer. */
  function UnmarshalBig(bs: seq<byte>): Option<int> {
    if ShortestInteger(bs) then Some(IntegerValue(bs)) else None
  }

  /** asn1.Unmarshal of the contents of an INTEGER into an int. */
  function UnmarshalInteger(bs: seq<byte>): Option<int> {
    if |bs| > 8 then None else UnmarshalBig(bs)
  }

  /** Every integer is read as it was written. */
  lemma {:induction false} IntegerRead(n: int)
    ensures UnmarshalBig(IntegerOctets(n)) == Some(n)
    ensures |IntegerOctets(n)| == 1 <==> -128 <= n < 128
    decreases if n < 0 then -n else n
  {
    var bs := IntegerOctets(n);
    if -128 <= n < 128 {
    } else {
      var m, front := n / 256, IntegerOctets(n / 256);
      IntegerRead(m);
      assert bs[..|bs| - 1] == front && bs[0] == front[0];
      if |bs| > 2 {
        assert bs[1] == front[1];
      }
    }
  }

  /** The elements that fill the octets. */
  function UnmarshalAll(bs: seq<byte>): Option<seq<seq<byte>>>
    decreases |bs|
  {
    if bs == [] then Some([]) else
      match ReadElement(bs)
      case None => None
      case Some((_, _, rest)) =>
        match UnmarshalAll(rest)
        case None => None
        case Some(more) => Some([bs[..|bs| - |rest|]] + more)
  }

  predicate AllReadable(os: seq<Obj>) {
    forall i | 0 <= i < |os| :: Readable(os[i])
  }

  /** Printed objects in a row are told apart again, exactly if each of them can be read. */
  lemma {:induction false} UnmarshalAllPrinted(os: seq<Obj>)
    requires forall i | 0 <= i < |os| :: WellFormed(os[i]) && |Contents(os[i])| < 0x8000_0000_0000_0000
    ensures UnmarshalAll(EncodeAll(os)) == if AllReadable(os) then Some(Map(Encode, os)) else None
  {
    if os == [] {
    } else {
      UnmarshalAllPrinted(os[1..]);
      PrintedIsRaw(os[0], EncodeAll(os[1..]));
      FirstOfAll(Encode(os[0]), EncodeAll(os[1..]));
      FirstReadable(os);
    }
  }

  lemma FirstReadable(os: seq<Obj>)
    requires os != []
    ensures AllReadable(os) <==> Readable(os[0]) && AllReadable(os[1..])
    ensures Map(Encode, os) == [Encode(os[0])] + Map(Encode, os[1..])
  {
    FirstOfMap(Encode, os);
    FirstHolds(Readable, os);
  }

  lemma FirstOfAll(e: seq<byte>, rest: seq<byte>)
    requires e != [] && (ReadElement(e + rest).Some? ==> ReadElement(e + rest).value.2 == rest)
    ensures UnmarshalAll(e + rest)
         == if ReadElement(e + rest).Some? && UnmarshalAll(rest).Some? then Some([e] + UnmarshalAll(rest).value) else None
  {
    assert (e + rest)[..|e + rest| - |rest|] == e;
  }
}
