/** The transcoder of ber.go: what it computes on every input, and its laws. */
module Ber2Der {
  import opened Bytes
  import opened Lengths
  import opened Grammar
  import opened BerParser
  import opened BerPrinter

  /** The minimal definite form of the one object that an encoding at the start of `x` denotes. */
  ghost function Transcode(x: seq<byte>): Result<seq<byte>> {
    if exists c :: StartsWith(x, c, 0) then
      var c :| StartsWith(x, c, 0);
      Ok(Encode(Meaning(c)))
    else
      Err
  }

  lemma TranscodeIs(x: seq<byte>, c: Tlv)
    requires StartsWith(x, c, 0)
    ensures Transcode(x) == Ok(Encode(Meaning(c)))
  {
    var d :| StartsWith(x, d, 0) && Transcode(x) == Ok(Encode(Meaning(d)));
    Unambiguous(x, c, d);
  }

  /** Runs in linear space and time: the parser is called once for every two octets of the
      input at most and once more, and no output octet is copied more than 501 times. */
  method Ber2Der(ber: seq<byte>) returns (r: Result<seq<byte>>, ghost calls: nat, ghost written: nat)
    ensures r == Transcode(ber)
    ensures 2 * calls <= |ber| + 2
    ensures r.Ok? ==> written <= 501 * |r.value|
  {
    calls, written := 0, 0;
    if |ber| == 0 {
      NoRoom(ber, 0, 0);
      assert ber[0..] == ber;
      return Err, calls, written;
    }
    var out := new Buffer();
    var read, c, n := ReadObject(ber, 0, 0);
    calls := n;
    assert ber[0..] == ber;
    if read.Err? {
      return Err, calls, written;
    }
    TranscodeIs(ber, c);
    written := EncodeTo(read.value.0, out);
    CopiesBound(c);
    assert out.data == Encode(read.value.0);
    return Ok(out.data), calls, written;
  }

  /** The depth limit bounds the work of printing what was read. */
  lemma CopiesBound(c: Tlv)
    requires Nested(c, 0)
    ensures Written(Meaning(c)) <= 501 * |Encode(Meaning(c))|
  {
    var o := Meaning(c);
    WrittenBound(o);
    NestedHeight(c, 0);
    Times(Height(o) + 1, 501, |Encode(o)|);
  }

  lemma Times(a: nat, b: nat, n: nat)
    requires a <= b
    ensures a * n <= b * n
  {
  }

  // ---------- what the parser yields ----------

  /** What the parser yields has tags that fit. */
  lemma {:induction false} MeaningWellFormed(c: Tlv)
    requires Grammatical(c)
    ensures WellFormed(Meaning(c))
    decreases c
  {
    if c.Primitive? {
    } else {
      forall i | 0 <= i < |c.parts|
        ensures WellFormed(Meaning(c).kids[i])
      {
        MeaningAllAt(c.parts, i);
        MeaningWellFormed(c.parts[i]);
      }
    }
  }

  /** The depth limit of the parser is a limit on the height of what it yields. */
  lemma {:induction false} NestedHeight(c: Tlv, depth: nat)
    ensures Nested(c, depth) <==> depth + Height(Meaning(c)) <= MAX_NESTING_DEPTH
    decreases c, 1
  {
    if c.Primitive? {
    } else {
      NestedHeightAll(c.parts, depth);
    }
  }

  lemma {:induction false} NestedHeightAll(cs: seq<Tlv>, depth: nat)
    ensures (depth <= MAX_NESTING_DEPTH && forall i | 0 <= i < |cs| :: Nested(cs[i], depth + 1))
            <==> depth + HeightAll(MeaningAll(cs)) <= MAX_NESTING_DEPTH
    decreases cs, 0
  {
    if cs == [] {
    } else {
      NestedHeight(cs[0], depth + 1);
      NestedHeightAll(cs[1..], depth);
      assert cs == [cs[0]] + cs[1..];
      assert MeaningAll(cs)[0] == Meaning(cs[0]) && MeaningAll(cs)[1..] == MeaningAll(cs[1..]);
      var rest := cs[1..];
      if forall i | 0 <= i < |rest| :: Nested(rest[i], depth + 1) {
        forall i | 1 <= i < |cs|
          ensures Nested(cs[i], depth + 1)
        {
          assert cs[i] == rest[i - 1];
        }
      }
    }
  }

  // ---------- round trip ----------

  /** Exactly what is printed from an object can be read back: objects of height at most 500 whose
      contents stay below 2^31 octets. They are read back as themselves; others are rejected. */
  lemma PrintedIsRead(o: Obj)
    requires WellFormed(o) && |Encode(o)| < 0x8000_0000_0000_0000
    ensures var fits := Height(o) <= MAX_NESTING_DEPTH && |Contents(o)| < 0x8000_0000;
            && (fits ==> StartsWith(Encode(o), Canonical(o), 0))
            && Transcode(Encode(o)) == if fits then Ok(Encode(o)) else Err
  {
    if |Contents(o)| < 0x8000_0000 {
      PrintedShort(o);
    } else {
      PrintedLong(o);
    }
  }

  lemma PrintedShort(o: Obj)
    requires WellFormed(o) && |Contents(o)| < 0x8000_0000
    ensures if Height(o) <= MAX_NESTING_DEPTH
            then StartsWith(Encode(o), Canonical(o), 0) && Transcode(Encode(o)) == Ok(Encode(o))
            else Nothing(Encode(o), 0)
  {
    var c, s := Canonical(o), Encode(o);
    CanonicalPrints(o);
    CanonicalGrammatical(o);
    NestedHeight(c, 0);
    assert s[..|s|] == s;
    if Nested(c, 0) {
      TranscodeIs(s, c);
    } else {
      forall d | StartsWith(s, d, 0)
        ensures false
      {
        Unambiguous(s, c, d);
      }
    }
  }

  lemma PrintedLong(o: Obj)
    requires WellFormed(o) && 0x8000_0000 <= |Contents(o)| < 0x8000_0000_0000_0000
    ensures Nothing(Encode(o), 0)
  {
    LongRejected(o.tag, Contents(o));
    assert Encode(o) == o.tag + (EncodedLength(|Contents(o)|) + Contents(o));
  }

  /** Contents of 2^31 octets or more are never read, whatever they are. */
  lemma LongRejected(tag: seq<byte>, content: seq<byte>)
    requires TagOctets(tag) && 0x8000_0000 <= |content| < 0x8000_0000_0000_0000
    ensures var s := tag + (EncodedLength(|content|) + content); Nothing(s, 0) && Transcode(s).Err?
  {
    var s := tag + (EncodedLength(|content|) + content);
    forall d | StartsWith(s, d, 0)
      ensures false
    {
      TooLong(tag, content, d);
    }
  }

  /** Length octets for 2^31 or more are never accepted. */
  lemma TooLong(tag: seq<byte>, content: seq<byte>, d: Tlv)
    requires TagOctets(tag) && 0x8000_0000 <= |content| < 0x8000_0000_0000_0000
    requires Grammatical(d)
    ensures !Starts(tag + (EncodedLength(|content|) + content), Flatten(d))
  {
    var rest := EncodedLength(|content|) + content;
    if Starts(tag + rest, Flatten(d)) {
      LengthAfterTag(tag, rest, d);
      NotALength(|content|, content, LengthField(d), |Body(d)|, d.Indefinite?);
    }
  }

  lemma LengthAfterTag(tag: seq<byte>, rest: seq<byte>, d: Tlv)
    requires TagOctets(tag) && Grammatical(d) && Starts(tag + rest, Flatten(d))
    ensures Starts(rest, LengthField(d)) && LengthToken(LengthField(d), |Body(d)|, d.Indefinite?)
  {
    var s := tag + rest;
    GrammaticalHeader(s, d);
    StartsBoth(s, d.tag, LengthField(d));
    assert s[..|tag|] == tag;
    TagUnique(s, d.tag, tag);
    assert s[|tag|..] == rest;
  }

  lemma NotALength(n: nat, tail: seq<byte>, field: seq<byte>, length: nat, indefinite: bool)
    requires 0x8000_0000 <= n < 0x8000_0000_0000_0000
    requires LengthToken(field, length, indefinite)
    ensures !Starts(EncodedLength(n) + tail, field)
  {
    if Starts(EncodedLength(n) + tail, field) {
      WrittenField(n, tail, field, length, indefinite);
      EncodedLengthAccepted(n);
    }
  }

  /** Length octets accepted where a length was written are those that were written. */
  lemma WrittenField(n: nat, tail: seq<byte>, field: seq<byte>, length: nat, indefinite: bool)
    requires 128 <= n < 0x8000_0000_0000_0000
    requires LengthToken(field, length, indefinite) && Starts(EncodedLength(n) + tail, field)
    ensures field == EncodedLength(n) && DefiniteLength(field, length)
  {
    var k, s := |LengthOctets(n)|, EncodedLength(n) + tail;
    AtMostEight(n);
    assert field[0] == s[0] == 128 + k;
    assert field == s[..k + 1] == EncodedLength(n);
  }

  /** Transcoding is idempotent exactly where the contents of the output stay below 2^31 octets,
      in particular on outputs below 2^31 octets; a longer output is rejected. */
  lemma Idempotent(x: seq<byte>, c: Tlv, y: seq<byte>)
    requires StartsWith(x, c, 0) && Transcode(x) == Ok(y) && |y| < 0x8000_0000_0000_0000
    ensures Transcode(y) == if |Contents(Meaning(c))| < 0x8000_0000 then Ok(y) else Err
    ensures |y| < 0x8000_0000 ==> Transcode(y) == Ok(y)
  {
    TranscodeIs(x, c);
    MeaningWellFormed(c);
    NestedHeight(c, 0);
    PrintedIsRead(Meaning(c));
  }

  /** Transcoding leaves what it reads as it is exactly when that is in minimal definite form. */
  lemma UnchangedIfMinimal(x: seq<byte>, c: Tlv)
    requires StartsWith(x, c, 0) && |Flatten(c)| < 0x8000_0000_0000_0000
    ensures Transcode(x) == Ok(Flatten(c)) <==> exists o :: WellFormed(o) && Flatten(c) == Encode(o)
  {
    var s := Flatten(c);
    TranscodeIs(x, c);
    MeaningWellFormed(c);
    assert s[..|s|] == s;
    if o :| WellFormed(o) && s == Encode(o) {
      PrintedIsRead(o);
      TranscodeIs(s, c);
    }
  }

  /** An empty element in indefinite form is not left as it is. */
  lemma EmptyIndefinite()
    ensures Transcode([48, 128, 0, 0]) == Ok([48, 0])
  {
    var x: seq<byte>, c := [48, 128, 0, 0], Indefinite([48], []);
    assert Flatten(c) == x && x[..4] == x;
    assert StartsWith(x, c, 0);
    TranscodeIs(x, c);
    var o := Cons([48], []);
    assert Meaning(c) == o && Contents(o) == [];
    assert Encode(o) == [48, 0];
  }

  /** Two inputs are transcoded alike exactly when they denote the same object. */
  lemma SameOutput(x1: seq<byte>, c1: Tlv, x2: seq<byte>, c2: Tlv)
    requires StartsWith(x1, c1, 0) && StartsWith(x2, c2, 0)
    requires |Encode(Meaning(c1))| < 0x8000_0000_0000_0000
    ensures Transcode(x1) == Transcode(x2) <==> Meaning(c1) == Meaning(c2)
  {
    TranscodeIs(x1, c1);
    TranscodeIs(x2, c2);
    if Transcode(x1) == Transcode(x2) {
      MeaningWellFormed(c1);
      MeaningWellFormed(c2);
      EncodeInjective(Meaning(c1), Meaning(c2));
    }
  }

  /** An object is determined by what is printed for it. */
  lemma EncodeInjective(o1: Obj, o2: Obj)
    requires WellFormed(o1) && WellFormed(o2) && |Encode(o1)| < 0x8000_0000_0000_0000
    requires Encode(o1) == Encode(o2)
    ensures o1 == o2
  {
    var s := Encode(o1);
    assert s[..|s|] == s;
    PrintedUnique(s, o1, o2);
  }

  /** At one place one object only is printed, whatever its size. */
  lemma {:induction false} PrintedUnique(s: seq<byte>, o1: Obj, o2: Obj)
    requires WellFormed(o1) && WellFormed(o2)
    requires |Encode(o1)| < 0x8000_0000_0000_0000 && |Encode(o2)| < 0x8000_0000_0000_0000
    requires Starts(s, Encode(o1)) && Starts(s, Encode(o2))
    ensures o1 == o2
    decreases o1, 1
  {
    SameTagAndContents(s, o1, o2);
    if o1.Prim? {
    } else {
      PrintedAllUnique(EncodeAll(o1.kids), o1.kids, o2.kids);
    }
  }

  lemma SameTagAndContents(s: seq<byte>, o1: Obj, o2: Obj)
    requires WellFormed(o1) && WellFormed(o2)
    requires |Encode(o1)| < 0x8000_0000_0000_0000 && |Encode(o2)| < 0x8000_0000_0000_0000
    requires Starts(s, Encode(o1)) && Starts(s, Encode(o2))
    ensures o1.tag == o2.tag && Contents(o1) == Contents(o2)
  {
    var e1, e2 := EncodedLength(|Contents(o1)|), EncodedLength(|Contents(o2)|);
    StartsBoth(s, o1.tag + e1, Contents(o1));
    StartsBoth(s, o2.tag + e2, Contents(o2));
    StartsBoth(s, o1.tag, e1);
    StartsBoth(s, o2.tag, e2);
    TagUnique(s, o1.tag, o2.tag);
    EncodedLengthUnique(s[|o1.tag|..], |Contents(o1)|, |Contents(o2)|);
  }

  lemma {:induction false} PrintedAllUnique(s: seq<byte>, os1: seq<Obj>, os2: seq<Obj>)
    requires forall i | 0 <= i < |os1| :: WellFormed(os1[i])
    requires forall i | 0 <= i < |os2| :: WellFormed(os2[i])
    requires s == EncodeAll(os1) == EncodeAll(os2) && |s| < 0x8000_0000_0000_0000
    ensures os1 == os2
    decreases os1, 0
  {
    if os1 == [] || os2 == [] {
    } else {
      assert s[..|Encode(os1[0])|] == Encode(os1[0]) && s[..|Encode(os2[0])|] == Encode(os2[0]);
      PrintedUnique(s, os1[0], os2[0]);
      assert s[|Encode(os1[0])|..] == EncodeAll(os1[1..]) == EncodeAll(os2[1..]);
      PrintedAllUnique(EncodeAll(os1[1..]), os1[1..], os2[1..]);
      assert os1 == [os1[0]] + os1[1..] && os2 == [os2[0]] + os2[1..];
    }
  }

  // ---------- locality ----------

  /** What stands in a stretch of one buffer stands in the same stretch of another, so the
      parser finds it there, with the same end; octets behind the end do not matter. */
  lemma Locality(ber: seq<byte>, other: seq<byte>, offset: nat, c: Tlv, depth: nat)
    requires offset <= |ber| && StartsWith(ber[offset..], c, depth)
    requires var end := offset + |Flatten(c)|; end <= |other| && ber[offset..end] == other[offset..end]
    ensures StartsWith(other[offset..], c, depth)
    ensures forall d :: StartsWith(other[offset..], d, depth) ==> d == c
  {
    var n := |Flatten(c)|;
    assert ber[offset..][..n] == ber[offset..offset + n];
    assert other[offset..][..n] == other[offset..offset + n];
    forall d | StartsWith(other[offset..], d, depth)
      ensures d == c
    {
      Unambiguous(other[offset..], d, c);
    }
  }

  /** Under a definite parent the outcome, success or failure, does not depend on octets behind the
      parent's declared end. */
  lemma ParentsEnd(x: seq<byte>, y: seq<byte>, tag: seq<byte>, field: seq<byte>, length: nat, depth: nat)
    requires TagOctets(tag) && DefiniteLength(field, length) && Starts(x, tag + field)
    requires var end := |tag| + |field| + length; end <= |x| && end <= |y| && x[..end] == y[..end]
    ensures forall c :: StartsWith(x, c, depth) <==> StartsWith(y, c, depth)
    ensures depth == 0 ==> Transcode(x) == Transcode(y)
  {
    var h, end := tag + field, |tag| + |field| + length;
    assert y[..|h|] == y[..end][..|h|] == x[..end][..|h|] == x[..|h|];
    forall c
      ensures StartsWith(x, c, depth) <==> StartsWith(y, c, depth)
    {
      if StartsWith(x, c, depth) {
        SameStretch(x, y, tag, field, length, c);
      }
      if StartsWith(y, c, depth) {
        SameStretch(y, x, tag, field, length, c);
      }
    }
    SameEncodings(x, y, depth);
  }

  lemma SameStretch(x: seq<byte>, y: seq<byte>, tag: seq<byte>, field: seq<byte>, length: nat, c: Tlv)
    requires TagOctets(tag) && DefiniteLength(field, length) && Starts(x, tag + field)
    requires var end := |tag| + |field| + length; end <= |x| && end <= |y| && x[..end] == y[..end]
    requires Grammatical(c) && Starts(x, Flatten(c))
    ensures Starts(y, Flatten(c))
  {
    HeaderUnique(x, c, tag, field, length, false);
  }

  lemma SameEncodings(x: seq<byte>, y: seq<byte>, depth: nat)
    requires forall c :: StartsWith(x, c, depth) <==> StartsWith(y, c, depth)
    ensures depth == 0 ==> Transcode(x) == Transcode(y)
  {
    if c :| depth == 0 && StartsWith(x, c, depth) {
      TranscodeIs(x, c);
      TranscodeIs(y, c);
    }
  }

  /** Octets after the first object are ignored. */
  lemma TrailingIgnored(x: seq<byte>, z: seq<byte>)
    requires Transcode(x).Ok?
    ensures Transcode(x + z) == Transcode(x)
  {
    var c :| StartsWith(x, c, 0);
    var n := |Flatten(c)|;
    assert (x + z)[..n] == x[..n];
    TranscodeIs(x, c);
    TranscodeIs(x + z, c);
  }

  /** Nothing shorter than the first object will do. */
  lemma ShorterRejected(x: seq<byte>, c: Tlv, k: nat)
    requires StartsWith(x, c, 0) && k < |Flatten(c)|
    ensures Transcode(x[..k]) == Err
  {
    forall d | StartsWith(x[..k], d, 0)
      ensures false
    {
      assert x[..k][..|Flatten(d)|] == x[..|Flatten(d)|];
      Unambiguous(x, c, d);
    }
  }

  lemma PrefixFree(c: Tlv, d: Tlv)
    requires Grammatical(c) && Grammatical(d) && Starts(Flatten(d), Flatten(c))
    ensures c == d
  {
    assert Flatten(d)[..|Flatten(d)|] == Flatten(d);
    Unambiguous(Flatten(d), c, d);
  }

  // ---------- no amplification ----------

  /** Below 2^31 octets the output is at most twice as long as what was read. */
  lemma {:induction false} AtMostTwice(c: Tlv)
    requires Grammatical(c) && |Flatten(c)| < 0x8000_0000
    ensures |Encode(Meaning(c))| <= 2 * |Flatten(c)|
    decreases c, 1
  {
    var n := |Contents(Meaning(c))|;
    match c {
      case Primitive(_, length, content) =>
        EncodedLengthShortest(length, |content|);
      case Definite(_, length, parts) =>
        AtMostTwiceAll(parts);
        var m := |FlattenAll(parts)|;
        EncodedLengthShortest(length, m);
        EncodedLengthGrowth(m, 2 * m);
        EncodedLengthGrowth(n, 2 * m);
      case Indefinite(_, parts) =>
        AtMostTwiceAll(parts);
        LengthOctetsAtMost(n, 4);
    }
  }

  lemma {:induction false} AtMostTwiceAll(cs: seq<Tlv>)
    requires forall i | 0 <= i < |cs| :: Grammatical(cs[i])
    requires |FlattenAll(cs)| < 0x8000_0000
    ensures |EncodeAll(MeaningAll(cs))| <= 2 * |FlattenAll(cs)|
    decreases cs, 0
  {
    if cs == [] {
    } else {
      AtMostTwice(cs[0]);
      AtMostTwiceAll(cs[1..]);
      assert MeaningAll(cs)[1..] == MeaningAll(cs[1..]);
    }
  }

  lemma LengthOctetsAtMost(n: nat, k: nat)
    requires k >= 1 && n < Pow256(k)
    ensures |EncodedLength(n)| <= k + 1
  {
    var m := |LengthOctets(n)|;
    LengthOctetsAre(n, m);
    if m > k {
      Pow256Monotone(k, m - 1);
    }
  }

  /** Up to 65539 octets the output is no longer than what was read. */
  lemma {:induction false} NeverLonger(c: Tlv)
    requires Grammatical(c) && |Flatten(c)| <= 65539
    ensures |Encode(Meaning(c))| <= |Flatten(c)|
    decreases c, 1
  {
    var n := |Contents(Meaning(c))|;
    match c {
      case Primitive(_, length, content) =>
        EncodedLengthShortest(length, |content|);
      case Definite(_, length, parts) =>
        NeverLongerAll(parts);
        EncodedLengthShortest(length, |FlattenAll(parts)|);
        EncodedLengthGrowth(n, |FlattenAll(parts)|);
      case Indefinite(_, parts) =>
        NeverLongerAll(parts);
        assert Pow256(2) == 65536;
        LengthOctetsAtMost(n, 2);
    }
  }

  lemma {:induction false} NeverLongerAll(cs: seq<Tlv>)
    requires forall i | 0 <= i < |cs| :: Grammatical(cs[i])
    requires |FlattenAll(cs)| <= 65539
    ensures |EncodeAll(MeaningAll(cs))| <= |FlattenAll(cs)|
    decreases cs, 0
  {
    if cs == [] {
    } else {
      NeverLonger(cs[0]);
      NeverLongerAll(cs[1..]);
      assert MeaningAll(cs)[1..] == MeaningAll(cs[1..]);
    }
  }

  /** An object whose contents stay below 65536 octets is no longer than any encoding of it. */
  lemma {:induction false} SmallNeverLonger(c: Tlv)
    requires Grammatical(c) && |Contents(Meaning(c))| < 65536
    ensures |Encode(Meaning(c))| <= |Flatten(c)|
    decreases c, 1
  {
    var n := |Contents(Meaning(c))|;
    match c {
      case Primitive(_, length, content) =>
        EncodedLengthShortest(length, |content|);
      case Definite(_, length, parts) =>
        SmallNeverLongerAll(parts);
        EncodedLengthShortest(length, |FlattenAll(parts)|);
        EncodedLengthGrowth(n, |FlattenAll(parts)|);
      case Indefinite(_, parts) =>
        SmallNeverLongerAll(parts);
        assert Pow256(2) == 65536;
        LengthOctetsAtMost(n, 2);
    }
  }

  lemma {:induction false} SmallNeverLongerAll(cs: seq<Tlv>)
    requires forall i | 0 <= i < |cs| :: Grammatical(cs[i])
    requires |EncodeAll(MeaningAll(cs))| < 65536
    ensures |EncodeAll(MeaningAll(cs))| <= |FlattenAll(cs)|
    decreases cs, 0
  {
    if cs == [] {
    } else {
      assert MeaningAll(cs)[0] == Meaning(cs[0]) && MeaningAll(cs)[1..] == MeaningAll(cs[1..]);
      SmallNeverLonger(cs[0]);
      SmallNeverLongerAll(cs[1..]);
    }
  }

  /** Only objects with contents of 65536 octets and more grow, by two octets each; on a level there is one of
      them for every 65536 octets at most. */
  lemma {:induction false} Growth(c: Tlv)
    requires Grammatical(c) && |Flatten(c)| < 0x8000_0000
    ensures var o := Meaning(c); 65536 * (|Encode(o)| - |Flatten(c)|) <= 2 * (Height(o) + 1) * |Encode(o)|
    decreases c, 1
  {
    var o := Meaning(c);
    var n := |Contents(o)|;
    if n < 65536 || c.Primitive? {
      LeafOrSmall(c);
      NoGrowth(|Encode(o)|, |Flatten(c)|, Height(o) + 1);
    } else {
      GrowthAll(c.parts, HeightAll(o.kids));
      GrowthOfParent(c, HeightAll(o.kids));
    }
  }

  lemma LeafOrSmall(c: Tlv)
    requires Grammatical(c) && (|Contents(Meaning(c))| < 65536 || c.Primitive?)
    ensures |Encode(Meaning(c))| <= |Flatten(c)|
  {
    if c.Primitive? {
      EncodedLengthShortest(c.length, |c.content|);
    } else {
      SmallNeverLonger(c);
    }
  }

  lemma NoGrowth(out: nat, read: nat, h: nat)
    requires out <= read
    ensures 65536 * (out - read) <= 2 * h * out
  {
    assert 2 * h * out >= 0;
  }

  lemma GrowthOfParent(c: Tlv, h: nat)
    requires Grammatical(c) && !c.Primitive? && |FlattenAll(c.parts)| < 0x8000_0000
    requires var n := |Contents(Meaning(c))|; n >= 65536 && 65536 * (n - |FlattenAll(c.parts)|) <= 2 * h * n
    ensures var o := Meaning(c); 65536 * (|Encode(o)| - |Flatten(c)|) <= 2 * (h + 1) * |Encode(o)|
  {
    var o := Meaning(c);
    AtMostTwiceAll(c.parts);
    OwnGrowth(c);
    GrowthAdds(|Encode(o)|, |Flatten(c)|, |Contents(o)|, |FlattenAll(c.parts)|, h);
  }

  /** The length octets of an object grow by two octets at most, where its parts at most double. */
  lemma OwnGrowth(c: Tlv)
    requires Grammatical(c) && !c.Primitive? && |FlattenAll(c.parts)| < 0x8000_0000
    requires |Contents(Meaning(c))| <= 2 * |FlattenAll(c.parts)|
    ensures |Encode(Meaning(c))| - |Contents(Meaning(c))| <= |Flatten(c)| - |FlattenAll(c.parts)| + 2
  {
    var n, m := |Contents(Meaning(c))|, |FlattenAll(c.parts)|;
    if c.Definite? {
      EncodedLengthShortest(c.length, m);
      EncodedLengthGrowth(m, 2 * m);
      EncodedLengthGrowth(n, 2 * m);
    } else {
      assert Pow256(4) == 0x1_0000_0000;
      LengthOctetsAtMost(n, 4);
    }
  }

  lemma GrowthAdds(out: nat, read: nat, n: nat, m: nat, h: nat)
    requires 65536 * (n - m) <= 2 * h * n && 65536 <= n <= out && out - n <= read - m + 2
    ensures 65536 * (out - read) <= 2 * (h + 1) * out
  {
    assert 2 * h * n <= 2 * h * out;
    assert 2 * (h + 1) * out == 2 * h * out + 2 * out;
  }

  lemma {:induction false} GrowthAll(cs: seq<Tlv>, h: nat)
    requires forall i | 0 <= i < |cs| :: Grammatical(cs[i])
    requires |FlattenAll(cs)| < 0x8000_0000 && HeightAll(MeaningAll(cs)) <= h
    ensures var n := |EncodeAll(MeaningAll(cs))|; 65536 * (n - |FlattenAll(cs)|) <= 2 * h * n
    decreases cs, 0
  {
    if cs == [] {
    } else {
      var o, rest := Meaning(cs[0]), MeaningAll(cs[1..]);
      assert MeaningAll(cs)[0] == o && MeaningAll(cs)[1..] == rest;
      Growth(cs[0]);
      GrowthAll(cs[1..], h);
      GrowthBeside(|Encode(o)|, |Flatten(cs[0])|, Height(o) + 1, |EncodeAll(rest)|, |FlattenAll(cs[1..])|, h);
    }
  }

  lemma GrowthBeside(a: nat, b: nat, g: nat, n: nat, m: nat, h: nat)
    requires 65536 * (a - b) <= 2 * g * a && g <= h && 65536 * (n - m) <= 2 * h * n
    ensures 65536 * (a + n - (b + m)) <= 2 * h * (a + n)
  {
    assert 2 * g * a <= 2 * h * a;
    assert 2 * h * (a + n) == 2 * h * a + 2 * h * n;
  }

  /** The depth limit keeps the growth below a 64th. */
  lemma AtMostA64th(c: Tlv)
    requires StartsWith(Flatten(c), c, 0) && |Flatten(c)| < 0x8000_0000
    ensures |Encode(Meaning(c))| <= |Flatten(c)| + |Flatten(c)| / 64
  {
    var o := Meaning(c);
    Growth(c);
    NestedHeight(c, 0);
    Times(2 * (Height(o) + 1), 1002, |Encode(o)|);
    assert 64 * (|Encode(o)| - |Flatten(c)|) <= |Flatten(c)|;
  }

  /** No input makes the transcoder produce more than the bounds; inputs below the first bound are never expanded
      at all. */
  lemma NoAmplification(x: seq<byte>, y: seq<byte>)
    requires Transcode(x) == Ok(y)
    ensures |x| <= 65539 ==> |y| <= |x|
    ensures |x| < 0x8000_0000 ==> |y| <= |x| + |x| / 64
  {
    var c :| StartsWith(x, c, 0) && y == Encode(Meaning(c));
    assert Flatten(c)[..|Flatten(c)|] == Flatten(c);
    if |x| <= 65539 {
      NeverLonger(c);
    }
    if |x| < 0x8000_0000 {
      AtMostA64th(c);
      Quotients(|Flatten(c)|, |x|);
    }
  }

  lemma Quotients(m: nat, n: nat)
    requires m <= n
    ensures m / 64 <= n / 64
  {
  }

  /** 65539 is the last such bound: some input of 65540 octets becomes one octet longer. */
  lemma FirstExpansion() returns (x: seq<byte>)
    ensures |x| == 65540 && Transcode(x).Ok? && |Transcode(x).value| == 65541
  {
    var content: seq<byte> := seq(65532, _ => 0);
    var inner := Prim([4], content);
    WholeLength(65532, 2);
    WholeLength(65536, 3);
    var part := Canonical(inner);
    CanonicalPrints(inner);
    CanonicalGrammatical(inner);
    assert |Flatten(part)| == 65536;
    var c := Indefinite([48], [part]);
    assert FlattenAll([part]) == Flatten(part);
    assert Flatten(part)[0] == 4;
    x := Flatten(c);
    assert x[..|x|] == x;
    assert StartsWith(x, c, 0);
    TranscodeIs(x, c);
    assert MeaningAll([part]) == [inner];
    assert EncodeAll([inner]) == Encode(inner);
  }

  lemma WholeLength(n: nat, k: nat)
    requires n >= 128 && n < Pow256(k) && k >= 1 && Pow256(k - 1) <= n
    ensures |EncodedLength(n)| == k + 1
  {
    LengthOctetsAre(n, |LengthOctets(n)|);
    OctetCountUnique(n, k, |LengthOctets(n)|);
  }
}
