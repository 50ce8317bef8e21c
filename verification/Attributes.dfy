/** The attributes of pkcs7.go: collected in a list, ordered by their encodings, and turned into
    the octets that are signed (section 5.4 of RFC 5652). */
module Attributes {
  import opened Bytes
  import opened Sequences
  import opened Grammar
  import opened BerPrinter
  import opened Asn1
  import opened SetOrder

  /** A type and a value as a caller gives them: the contents octets of the type, and what
      asn1.Marshal makes of the value, or None where marshalling the attribute fails. */
  datatype Entry = Entry(kind: seq<byte>, value: Option<seq<byte>>)

  /** A type and the contents of the SET of its values. */
  datatype Attribute = Attribute(kind: seq<byte>, value: seq<byte>)

  function Marshalled(a: Attribute): seq<byte> {
    Element(48, Element(6, a.kind) + Element(49, a.value))
  }

  /** Its encoding is a slice of a Go program. */
  predicate Fits(a: Attribute) {
    |Marshalled(a)| < 0x8000_0000_0000_0000
  }

  datatype Sortable = Sortable(sortKey: seq<byte>, attribute: Attribute)

  function SortKey(s: Sortable): seq<byte> {
    s.sortKey
  }

  function Decorate(a: Attribute): Sortable {
    Sortable(Marshalled(a), a)
  }

  function Undecorate(s: Sortable): Attribute {
    s.attribute
  }

  // ---------- the list and its ordered form ----------

  predicate AllMarshal(es: seq<Entry>) {
    forall i | 0 <= i < |es| :: es[i].value.Some?
  }

  function AttributeOf(e: Entry): Attribute
    requires e.value.Some?
  {
    Attribute(e.kind, e.value.value)
  }

  function AttributesOf(es: seq<Entry>): (r: seq<Attribute>)
    requires AllMarshal(es)
    ensures |r| == |es|
  {
    Map(AttributeOf, es)
  }

  /** What is stored for the entries, in ascending order of their encodings. */
  function Ordered(es: seq<Entry>): Result<seq<Attribute>> {
    if AllMarshal(es) then Ok(Sorting(AttributesOf(es), Marshalled)) else Err
  }

  class AttributeList {
    var types: seq<seq<byte>>
    var values: seq<Option<seq<byte>>>

    predicate Valid()
      reads this
    {
      |types| == |values|
    }

    function Entries(): (es: seq<Entry>)
      requires Valid()
      reads this
      ensures |es| == |types|
    {
      seq(|types|, i requires 0 <= i < |types| reads this requires Valid() => Entry(types[i], values[i]))
    }

    constructor ()
      ensures Valid() && Entries() == []
    {
      types, values := [], [];
    }

    /** Adds the attribute, maintaining insertion order. */
    method Add(kind: seq<byte>, value: Option<seq<byte>>)
      requires Valid()
      modifies this
      ensures Valid() && Entries() == old(Entries()) + [Entry(kind, value)]
    {
      types := types + [kind];
      values := values + [value];
    }

    method ForMarshalling() returns (r: Result<seq<Attribute>>)
      requires Valid()
      ensures r == Ordered(Entries())
    {
      var sortables := new Sortable[|types|];
      var i := 0;
      while i < |types|
        invariant 0 <= i <= |types| && Valid() && Entries() == old(Entries())
        invariant AllMarshal(Entries()[..i])
        invariant sortables[..i] == Map(Decorate, AttributesOf(Entries()[..i]))
      {
        if values[i].None? {
          assert Entries()[i].value.None?;
          return Err;
        }
        var attr := Attribute(types[i], values[i].value);
        sortables[i] := Sortable(Marshalled(attr), attr);
        assert Entries()[..i + 1] == Entries()[..i] + [Entry(types[i], values[i])];
        i := i + 1;
      }
      assert Entries()[..i] == Entries() && sortables[..i] == sortables[..];
      DecoratedSorting(AttributesOf(Entries()));
      Sort(sortables, SortKey);
      return Ok(Map(Undecorate, sortables[..]));
    }
  }

  /** Sorting by the stored keys is sorting by the encodings. */
  lemma DecoratedSorting(attrs: seq<Attribute>)
    ensures Map(Undecorate, Sorting(Map(Decorate, attrs), SortKey)) == Sorting(attrs, Marshalled)
  {
    MapSorting(Decorate, attrs, SortKey, Marshalled);
  }

  /** An attribute is a SEQUENCE of its type and a SET of its one value, as the encoder of ber.go prints it. */
  lemma MarshalledIsPrinted(kind: seq<byte>, value: Obj)
    ensures Marshalled(Attribute(kind, Encode(value))) == Encode(Cons([48], [Prim([6], kind), Cons([49], [value])]))
  {
    PrintedOne(value);
    ElementIsPrinted(6, kind);
    ElementOfParts(49, [value]);
    PrintedTwo(Prim([6], kind), Cons([49], [value]));
    ElementOfParts(48, [Prim([6], kind), Cons([49], [value])]);
  }

  // ---------- laws of the order ----------

  /** The encoding of an attribute tells the attribute, and where it ends. */
  lemma MarshalledUnique(s: seq<byte>, a: Attribute, b: Attribute)
    requires Fits(a) && Fits(b) && Starts(s, Marshalled(a)) && Starts(s, Marshalled(b))
    ensures a == b
  {
    var k, l := Element(6, a.kind), Element(6, b.kind);
    var v, w := Element(49, a.value), Element(49, b.value);
    ElementUnique(s, 48, k + v, l + w);
    assert (k + v)[..|k|] == k && (k + v)[..|l|] == l;
    ElementUnique(k + v, 6, a.kind, b.kind);
    assert v == (k + v)[|k|..] == w;
    assert v[..|v|] == v;
    ElementUnique(v, 49, a.value, b.value);
  }

  /** Different attributes are ordered alike by sort.Sort and by section 11.6 of ITU-T X.690. */
  lemma MarshalledOrdersAgree(a: Attribute, b: Attribute)
    requires Fits(a) && Fits(b)
    ensures Less(Marshalled(a), Marshalled(b)) <==> PaddedLess(Marshalled(a), Marshalled(b))
  {
    var k, l := Marshalled(a), Marshalled(b);
    assert k[..|k|] == k && l[..|l|] == l;
    if Starts(k, l) {
      MarshalledUnique(k, a, b);
    }
    if Starts(l, k) {
      MarshalledUnique(l, a, b);
    }
    OrdersAgree(k, l);
  }

  lemma MarshalledKeysTell(attrs: seq<Attribute>)
    requires forall i | 0 <= i < |attrs| :: Fits(attrs[i])
    ensures KeysTell(attrs, Marshalled)
  {
    forall i, j | 0 <= i < |attrs| && 0 <= j < |attrs| && Marshalled(attrs[i]) == Marshalled(attrs[j])
      ensures attrs[i] == attrs[j]
    {
      var k := Marshalled(attrs[i]);
      assert k[..|k|] == k;
      MarshalledUnique(k, attrs[i], attrs[j]);
    }
  }

  /** What is stored is what was added, in ascending order, and nothing else is. */
  lemma OrderedIs(es: seq<Entry>, r: seq<Attribute>)
    requires AllMarshal(es) && forall i | 0 <= i < |es| :: Fits(AttributeOf(es[i]))
    ensures Ordered(es) == Ok(r) <==>
            multiset(r) == multiset(AttributesOf(es)) && Ascending(r, Marshalled)
  {
    var attrs := AttributesOf(es);
    SortingSorts(attrs, Marshalled);
    if multiset(r) == multiset(attrs) && Ascending(r, Marshalled) {
      MarshalledKeysTell(attrs);
      SortingOfPermutation(attrs, r, Marshalled);
      SortingSettled(r, Marshalled);
    }
  }

  /** The order of the calls of Add does not matter. */
  lemma AddOrderIrrelevant(es: seq<Entry>, fs: seq<Entry>)
    requires multiset(es) == multiset(fs)
    requires forall i | 0 <= i < |es| && es[i].value.Some? :: Fits(AttributeOf(es[i]))
    ensures Ordered(es) == Ordered(fs)
  {
    forall i | 0 <= i < |es|
      ensures es[i] in multiset(fs)
    {
      assert es[i] in multiset(es);
    }
    forall i | 0 <= i < |fs|
      ensures fs[i] in multiset(es)
    {
      assert fs[i] in multiset(fs);
    }
    if AllMarshal(es) && AllMarshal(fs) {
      MapPermutation(AttributeOf, es, fs);
      MarshalledKeysTell(AttributesOf(es));
      SortingOfPermutation(AttributesOf(es), AttributesOf(fs), Marshalled);
    }
  }

  // ---------- the octets that are signed ----------

  /** What is signed, and what the verifier computes from the parsed attributes. */
  function SignedOctets(attrs: seq<Attribute>): seq<byte> {
    EncodedSet(Map(Marshalled, attrs))
  }

  /** Sorting the set again changes nothing: the attributes are signed in the order in which
      they are stored. */
  lemma SignedAsStored(es: seq<Entry>, r: seq<Attribute>)
    requires Ordered(es) == Ok(r)
    ensures SignedOctets(r) == Element(49, Concat(Map(Marshalled, r)))
  {
    SortingSorts(AttributesOf(es), Marshalled);
    var keys := Map(Marshalled, r);
    assert Ascending(keys, Itself);
    SortingSettled(keys, Itself);
  }

  /** The octets that are signed are the same for the same attributes in any order, and
      for no other attributes. */
  lemma SignedOctetsTell(a: seq<Attribute>, b: seq<Attribute>)
    requires forall i | 0 <= i < |a| :: Fits(a[i])
    requires forall i | 0 <= i < |b| :: Fits(b[i])
    requires |SignedOctets(a)| < 0x8000_0000_0000_0000
    ensures SignedOctets(a) == SignedOctets(b) <==> multiset(a) == multiset(b)
  {
    var k, l := Map(Marshalled, a), Map(Marshalled, b);
    if multiset(a) == multiset(b) {
      MapPermutation(Marshalled, a, b);
      SortingOfPermutation(k, l, Itself);
    }
    if SignedOctets(a) == SignedOctets(b) {
      SameSet(a, b);
      MarshalledKeysTell(a + b);
      assert Tells(Marshalled, a, b) by {
        forall i, j | 0 <= i < |a| && 0 <= j < |b| && Marshalled(a[i]) == Marshalled(b[j])
          ensures a[i] == b[j]
        {
          assert (a + b)[i] == a[i] && (a + b)[|a| + j] == b[j];
        }
      }
      MapPermuted(Marshalled, a, b);
    }
  }

  lemma SameSet(a: seq<Attribute>, b: seq<Attribute>)
    requires forall i | 0 <= i < |a| :: Fits(a[i])
    requires forall i | 0 <= i < |b| :: Fits(b[i])
    requires |SignedOctets(a)| < 0x8000_0000_0000_0000 && SignedOctets(a) == SignedOctets(b)
    ensures multiset(Map(Marshalled, a)) == multiset(Map(Marshalled, b))
  {
    var c, d := Sorting(a, Marshalled), Sorting(b, Marshalled);
    MapSorting(Marshalled, a, Itself, Marshalled);
    MapSorting(Marshalled, b, Itself, Marshalled);
    SortingSorts(a, Marshalled);
    SortingSorts(b, Marshalled);
    MapPermutation(Marshalled, a, c);
    MapPermutation(Marshalled, b, d);
    var s := SignedOctets(a);
    assert s[..|s|] == s;
    ElementUnique(s, 49, Concat(Map(Marshalled, c)), Concat(Map(Marshalled, d)));
    SortedFit(a);
    SortedFit(b);
    ConcatUnique(c, d);
  }

  lemma SortedFit(a: seq<Attribute>)
    requires forall i | 0 <= i < |a| :: Fits(a[i])
    ensures var c := Sorting(a, Marshalled); forall i | 0 <= i < |c| :: Fits(c[i])
  {
    var c := Sorting(a, Marshalled);
    SortingSorts(a, Marshalled);
    forall i | 0 <= i < |c|
      ensures Fits(c[i])
    {
      assert c[i] in multiset(a);
    }
  }

  /** Encodings of attributes one after the other tell the attributes. */
  lemma {:induction false} ConcatUnique(c: seq<Attribute>, d: seq<Attribute>)
    requires forall i | 0 <= i < |c| :: Fits(c[i])
    requires forall i | 0 <= i < |d| :: Fits(d[i])
    requires Concat(Map(Marshalled, c)) == Concat(Map(Marshalled, d))
    ensures c == d
  {
    if c == [] || d == [] {
    } else {
      var x, y := Concat(Map(Marshalled, c[1..])), Concat(Map(Marshalled, d[1..]));
      ConcatMarshalled(c);
      ConcatMarshalled(d);
      SameFront(c[0], x, d[0], y);
      ConcatUnique(c[1..], d[1..]);
      SameHeadAndTail(c, d);
    }
  }

  lemma ConcatMarshalled(c: seq<Attribute>)
    requires c != []
    ensures Concat(Map(Marshalled, c)) == Marshalled(c[0]) + Concat(Map(Marshalled, c[1..]))
  {
    assert Map(Marshalled, c)[1..] == Map(Marshalled, c[1..]);
  }

  lemma SameFront(a: Attribute, x: seq<byte>, b: Attribute, y: seq<byte>)
    requires Fits(a) && Fits(b) && Marshalled(a) + x == Marshalled(b) + y
    ensures a == b && x == y
  {
    var s, k := Marshalled(a) + x, |Marshalled(a)|;
    assert s[..|Marshalled(b)|] == Marshalled(b) && s[..k] == Marshalled(a);
    MarshalledUnique(s, a, b);
    assert x == s[k..] == y;
  }
}
