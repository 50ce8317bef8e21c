/** The DER printer of ber.go: every object in its minimal definite form
    (section 10.1 of ITU-T X.690). */
module BerPrinter {
  import opened Bytes
  import opened Lengths
  import opened Grammar

  /** Tag, minimal length octets, contents. */
  function Encode(o: Obj): (bs: seq<byte>)
    decreases o, 1
  {
    o.tag + EncodedLength(|Contents(o)|) + Contents(o)
  }

  function Contents(o: Obj): (bs: seq<byte>)
    decreases o, 0
  {
    match o
    case Prim(_, content) => content
    case Cons(_, kids) => EncodeAll(kids)
  }

  function EncodeAll(os: seq<Obj>): (bs: seq<byte>)
    decreases os, 0
  {
    if os == [] then [] else Encode(os[0]) + EncodeAll(os[1..])
  }

  lemma {:induction false} EncodeAllSnoc(os: seq<Obj>, o: Obj)
    ensures EncodeAll(os + [o]) == EncodeAll(os) + Encode(o)
  {
    if os == [] {
      assert os + [o] == [o];
    } else {
      assert (os + [o])[1..] == os[1..] + [o];
      EncodeAllSnoc(os[1..], o);
    }
  }

  // ---------- the work of the nested buffers ----------

  /** Levels of constructed encodings below an object. */
  function Height(o: Obj): nat
    decreases o, 1
  {
    match o
    case Prim(_, _) => 0
    case Cons(_, kids) => HeightAll(kids)
  }

  /** One more than the greatest height in a list, or 0. */
  function HeightAll(os: seq<Obj>): nat
    decreases os, 0
  {
    if os == [] then 0 else
      var h, t := Height(os[0]) + 1, HeightAll(os[1..]);
      if h > t then h else t
  }

  lemma {:induction false} HeightAllAt(os: seq<Obj>, i: nat)
    requires i < |os|
    ensures Height(os[i]) + 1 <= HeightAll(os)
  {
    if i == 0 {
    } else {
      HeightAllAt(os[1..], i - 1);
    }
  }

  /** Octets that go through a buffer when an object is printed: its own, once in its
      parts' buffer and once more when that buffer is copied. */
  function Written(o: Obj): nat
    decreases o, 1
  {
    |Encode(o)| + if o.Cons? then WrittenAll(o.kids) else 0
  }

  function WrittenAll(os: seq<Obj>): nat
    decreases os, 0
  {
    if os == [] then 0 else Written(os[0]) + WrittenAll(os[1..])
  }

  lemma {:induction false} WrittenAllSnoc(os: seq<Obj>, o: Obj)
    ensures WrittenAll(os + [o]) == WrittenAll(os) + Written(o)
  {
    if os == [] {
      assert os + [o] == [o];
    } else {
      assert (os + [o])[1..] == os[1..] + [o];
      WrittenAllSnoc(os[1..], o);
    }
  }

  /** A copy for each level is all the work there is. */
  lemma {:induction false} WrittenBound(o: Obj)
    ensures Written(o) <= (Height(o) + 1) * |Encode(o)|
    decreases o, 1
  {
    if o.Prim? {
    } else {
      WrittenAllBound(o.kids, HeightAll(o.kids));
      assert Contents(o) == EncodeAll(o.kids);
      OneMoreLevel(WrittenAll(o.kids), HeightAll(o.kids), |EncodeAll(o.kids)|, |Encode(o)|);
    }
  }

  lemma OneMoreLevel(w: nat, h: nat, inner: nat, outer: nat)
    requires w <= h * inner && inner <= outer
    ensures outer + w <= (h + 1) * outer
  {
    assert h * inner <= h * outer;
  }

  lemma {:induction false} WrittenAllBound(os: seq<Obj>, h: nat)
    requires HeightAll(os) <= h
    ensures WrittenAll(os) <= h * |EncodeAll(os)|
    decreases os, 0
  {
    if os == [] {
    } else {
      WrittenBound(os[0]);
      WrittenAllBound(os[1..], h);
      SideBySide(Written(os[0]), Height(os[0]) + 1, |Encode(os[0])|, WrittenAll(os[1..]), h, |EncodeAll(os[1..])|);
    }
  }

  lemma SideBySide(v: nat, g: nat, m: nat, w: nat, h: nat, n: nat)
    requires v <= g * m && g <= h && w <= h * n
    ensures v + w <= h * (m + n)
  {
    assert g * m <= h * m;
    assert h * (m + n) == h * m + h * n;
  }

  /** Appends the encoding of `o` to the buffer; `written` counts the octets that go through
      all the buffers this takes. */
  method EncodeTo(o: Obj, out: Buffer) returns (ghost written: nat)
    modifies out
    ensures out.data == old(out.data) + Encode(o)
    ensures written == Written(o)
    decreases o, 1
  {
    match o {
      case Prim(tag, content) =>
        EncodePrimitive(tag, content, out);
        written := |out.data| - |old(out.data)|;
      case Cons(tag, kids) =>
        written := EncodeStructured(tag, kids, out);
    }
  }

  method EncodePrimitive(tag: seq<byte>, content: seq<byte>, out: Buffer)
    modifies out
    ensures out.data == old(out.data) + Encode(Prim(tag, content))
  {
    out.Write(tag);
    EncodeLength(out, |content|);
    out.Write(content);
  }

  /** The parts are first written to a buffer of their own, to learn their length. */
  method EncodeStructured(tag: seq<byte>, kids: seq<Obj>, out: Buffer) returns (ghost written: nat)
    modifies out
    ensures out.data == old(out.data) + Encode(Cons(tag, kids))
    ensures written == Written(Cons(tag, kids))
    decreases kids, 0
  {
    var inner := new Buffer();
    written := 0;
    for i := 0 to |kids|
      invariant fresh(inner) && out.data == old(out.data)
      invariant inner.data == EncodeAll(kids[..i])
      invariant written == WrittenAll(kids[..i])
    {
      var n := EncodeTo(kids[i], inner);
      written := written + n;
      EncodeAllSnoc(kids[..i], kids[i]);
      WrittenAllSnoc(kids[..i], kids[i]);
      assert kids[..i + 1] == kids[..i] + [kids[i]];
    }
    assert kids[..|kids|] == kids;
    assert Contents(Cons(tag, kids)) == inner.data;
    out.Write(tag);
    EncodeLength(out, |inner.data|);
    out.Write(inner.data);
    written := written + |out.data| - |old(out.data)|;
  }

  // ---------- the printed form as an encoding ----------

  /** Objects whose tags fit their form. */
  predicate WellFormed(o: Obj) {
    && TagOctets(o.tag)
    && ConstructedBit(o.tag) == o.Cons?
    && (o.Cons? ==> forall i | 0 <= i < |o.kids| :: WellFormed(o.kids[i]))
  }

  /** The encoding that is printed. */
  function Canonical(o: Obj): (c: Tlv)
    decreases o, 1
  {
    match o
    case Prim(tag, content) => Primitive(tag, EncodedLength(|content|), content)
    case Cons(tag, kids) => Definite(tag, EncodedLength(|EncodeAll(kids)|), CanonicalAll(kids))
  }

  function CanonicalAll(os: seq<Obj>): (cs: seq<Tlv>)
    ensures |cs| == |os|
    decreases os, 0
  {
    if os == [] then [] else [Canonical(os[0])] + CanonicalAll(os[1..])
  }

  lemma {:induction false} CanonicalAllAt(os: seq<Obj>, i: nat)
    requires i < |os|
    ensures CanonicalAll(os)[i] == Canonical(os[i])
  {
    if i == 0 {
    } else {
      CanonicalAllAt(os[1..], i - 1);
    }
  }

  /** The printed encoding is what is printed, and denotes what was to be printed. */
  lemma {:induction false} CanonicalPrints(o: Obj)
    ensures Flatten(Canonical(o)) == Encode(o)
    ensures Meaning(Canonical(o)) == o
    decreases o, 1
  {
    if o.Prim? {
    } else {
      CanonicalAllPrints(o.kids);
    }
  }

  lemma {:induction false} CanonicalAllPrints(os: seq<Obj>)
    ensures FlattenAll(CanonicalAll(os)) == EncodeAll(os)
    ensures MeaningAll(CanonicalAll(os)) == os
    decreases os, 0
  {
    if os == [] {
    } else {
      CanonicalPrints(os[0]);
      CanonicalAllPrints(os[1..]);
      assert CanonicalAll(os)[1..] == CanonicalAll(os[1..]);
    }
  }

  lemma {:induction false} PartShorter(os: seq<Obj>, i: nat)
    requires i < |os|
    ensures |Encode(os[i])| <= |EncodeAll(os)|
  {
    if i == 0 {
    } else {
      PartShorter(os[1..], i - 1);
    }
  }

  /** What is printed is grammatical when no length reaches 2^31. */
  lemma {:induction false} CanonicalGrammatical(o: Obj)
    requires WellFormed(o) && |Contents(o)| < 0x8000_0000
    ensures Grammatical(Canonical(o))
    decreases o
  {
    var c := Canonical(o);
    CanonicalPrints(o);
    EncodedLengthAccepted(|Contents(o)|);
    if o.Prim? {
    } else {
      CanonicalAllPrints(o.kids);
      forall i | 0 <= i < |o.kids|
        ensures Grammatical(c.parts[i])
      {
        PartShorter(o.kids, i);
        CanonicalAllAt(o.kids, i);
        CanonicalGrammatical(o.kids[i]);
      }
    }
  }

  lemma {:induction false} CanonicalNested(o: Obj, depth: nat)
    requires depth + Height(o) <= MAX_NESTING_DEPTH
    ensures Nested(Canonical(o), depth)
    decreases o
  {
    if o.Prim? {
    } else {
      forall i | 0 <= i < |o.kids|
        ensures Nested(Canonical(o).parts[i], depth + 1)
      {
        HeightAllAt(o.kids, i);
        CanonicalAllAt(o.kids, i);
        CanonicalNested(o.kids[i], depth + 1);
      }
    }
  }

  // ---------- short lists ----------

  lemma PrintedTwo(a: Obj, b: Obj)
    ensures EncodeAll([a, b]) == Encode(a) + Encode(b)
  {
    assert [a, b][1..] == [b];
    PrintedOne(b);
  }

  lemma PrintedOne(a: Obj)
    ensures EncodeAll([a]) == Encode(a)
  {
    assert [a][1..] == [];
  }

  lemma PrintedThree(a: Obj, b: Obj, c: Obj)
    ensures EncodeAll([a, b, c]) == Encode(a) + (Encode(b) + Encode(c))
  {
    assert [a, b, c][1..] == [b, c];
    PrintedTwo(b, c);
  }

  lemma PrintedFour(a: Obj, b: Obj, c: Obj, d: Obj)
    ensures EncodeAll([a, b, c, d]) == Encode(a) + (Encode(b) + (Encode(c) + Encode(d)))
  {
    assert [a, b, c, d][1..] == [b, c, d];
    PrintedThree(b, c, d);
  }

  lemma PrintedFive(a: Obj, b: Obj, c: Obj, d: Obj, more: seq<Obj>)
    ensures EncodeAll([a, b, c, d] + more) == Encode(a) + (Encode(b) + (Encode(c) + (Encode(d) + EncodeAll(more))))
  {
    FirstPrinted(d, more);
    FirstPrinted(c, [d] + more);
    FirstPrinted(b, [c] + ([d] + more));
    FirstPrinted(a, [b] + ([c] + ([d] + more)));
    assert [a, b, c, d] + more == [a] + ([b] + ([c] + ([d] + more)));
  }

  lemma FirstPrinted(a: Obj, more: seq<Obj>)
    ensures EncodeAll([a] + more) == Encode(a) + EncodeAll(more)
  {
    assert ([a] + more)[1..] == more;
  }

  lemma {:induction false} HeightAllIs(os: seq<Obj>, h: nat)
    ensures HeightAll(os) <= h <==> forall i | 0 <= i < |os| :: Height(os[i]) + 1 <= h
  {
    if os == [] {
    } else {
      HeightAllIs(os[1..], h);
      assert os == [os[0]] + os[1..];
      if HeightAll(os) <= h {
        forall i | 0 <= i < |os|
          ensures Height(os[i]) + 1 <= h
        {
          if i > 0 {
            assert os[i] == os[1..][i - 1];
          }
        }
      }
    }
  }
}
