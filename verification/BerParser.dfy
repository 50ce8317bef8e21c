/** The recursive-descent parser of ber.go, proved sound and complete for the grammar. */
module BerParser {
  import opened Bytes
  import opened Lengths
  import opened Grammar

  /** Where the contents start and, in a definite form, how long they are. */
  datatype Extent = Extent(start: nat, length: nat, indefinite: bool)

  /** A header that was read: its tag, the extent of the contents, and the buffer that they
      are confined to. */
  datatype Header = Header(tag: seq<byte>, extent: Extent, buffer: seq<byte>)

  /** The identifier octets at `offset`; they must be followed by at least one more octet. */
  method ReadTag(ber: seq<byte>, offset: nat) returns (r: Result<nat>)
    requires offset < |ber|
    ensures r.Ok? ==> offset < r.value < |ber| && TagOctets(ber[offset..r.value])
    ensures r.Err? ==> forall t :: TagOctets(t) && Starts(ber[offset..], t) ==> |t| == |ber| - offset
  {
    var b := ber[offset];
    var end := offset + 1;
    if end >= |ber| {
      return Err;
    }
    if b % 32 == 31 {
      while ber[end] >= 128
        invariant offset < end < |ber|
        invariant forall i :: offset < i < end ==> ber[i] >= 128
        decreases |ber| - end
      {
        end := end + 1;
        if end >= |ber| {
          return Err;
        }
      }
      end := end + 1;
      if end >= |ber| {
        forall t | TagOctets(t) && Starts(ber[offset..], t)
          ensures |t| == |ber| - offset
        {
          TagUnique(ber[offset..], t, ber[offset..]);
        }
        return Err;
      }
    }
    return Ok(end);
  }

  /** The length octets at `offset`, in any accepted form, whose contents fit the buffer. */
  method ReadLength(ber: seq<byte>, offset: nat) returns (r: Result<Extent>)
    requires offset < |ber|
    ensures r.Ok? ==>
              && offset < r.value.start
              && r.value.start + r.value.length <= |ber|
              && LengthToken(ber[offset..r.value.start], r.value.length, r.value.indefinite)
              && (r.value.indefinite ==> r.value.length == 0)
    ensures r.Err? ==> forall field, length: nat, indefinite ::
                         LengthToken(field, length, indefinite) && Starts(ber[offset..], field) ==>
                           |field| + (if indefinite then 2 else length) > |ber| - offset
  {
    var l := ber[offset];
    var start := offset + 1;
    if l >= 128 && start >= |ber| {
      return Err;
    }
    var length: nat := 0;
    var indefinite := false;
    if l > 128 {
      var numberOfBytes := l - 128;
      if numberOfBytes > 4 {
        return Err;
      }
      if numberOfBytes == 4 && ber[start] > 0x7F {
        return Err;
      }
      if start + numberOfBytes > |ber| {
        return Err;
      }
      if ber[start] == 0 && (numberOfBytes == 1 || ber[start + 1] <= 0x7F) {
        return Err;
      }
      var first := start;
      for i := 0 to numberOfBytes
        invariant start == first + i
        invariant length == BigEndian(ber[first..start])
      {
        assert ber[first..start + 1][..i] == ber[first..start];
        length := length * 256 + ber[start];
        start := start + 1;
      }
      assert ber[offset..start][1..] == ber[first..start];
    } else if l == 128 {
      indefinite := true;
    } else {
      length := l;
    }
    assert LengthToken(ber[offset..start], length, indefinite);
    if length > |ber| - start {
      forall field, n: nat, indef | LengthToken(field, n, indef) && Starts(ber[offset..], field)
        ensures |field| + (if indef then 2 else n) > |ber| - offset
      {
        assert field[0] == ber[offset..][0];
        DefiniteLengthUnique(ber[offset..], field, n, ber[offset..start], length);
      }
      return Err;
    }
    return Ok(Extent(start, length, indefinite));
  }

  method IsIndefiniteTermination(ber: seq<byte>, offset: nat) returns (r: Result<bool>)
    ensures r.Err? <==> |ber| - offset < 2
    ensures r.Ok? ==> (r.value <==> Starts(ber[offset..], EOC))
  {
    if |ber| - offset < 2 {
      return Err;
    }
    assert ber[offset..][..2] == [ber[offset], ber[offset + 1]];
    return Ok(ber[offset] == 0 && ber[offset + 1] == 0);
  }

  // ---------- what a header commits to ----------

  /** A header at the start of `s` with these length octets, and the room it leaves for
      contents: as many octets as announced, or everything that follows. */
  ghost predicate HeaderAt(h: Header, s: seq<byte>, field: seq<byte>, room: seq<byte>) {
    match h
    case Header(tag, Extent(start, length, indefinite), buffer) =>
      && TagOctets(tag)
      && LengthToken(field, length, indefinite)
      && Starts(s, tag + field)
      && |tag| + |field| + length <= |s|
      && room == (if indefinite then s[|tag| + |field|..] else s[|tag| + |field|..|tag| + |field| + length])
      && start <= |buffer| && room == buffer[start..]
      && (indefinite ==> length == 0)
  }

  /** Every encoding at the start of `s` has that header and lives in that room. */
  lemma HeaderFixed(h: Header, s: seq<byte>, field: seq<byte>, room: seq<byte>, d: Tlv)
    requires HeaderAt(h, s, field, room)
    requires Grammatical(d) && Starts(s, Flatten(d))
    ensures d.Indefinite? == h.extent.indefinite && d.Primitive? == !ConstructedBit(h.tag)
    ensures Starts(room, Body(d))
    ensures !h.extent.indefinite ==> Body(d) == room
  {
    HeaderUnique(s, d, h.tag, field, h.extent.length, h.extent.indefinite);
  }

  /** Parts read from the room at `depth`: whole encodings, none of which looks like an end of
      contents where that would end the object. */
  ghost predicate PartsRead(parts: seq<Tlv>, indefinite: bool, room: seq<byte>, depth: nat) {
    && (forall i | 0 <= i < |parts| :: Grammatical(parts[i]) && Nested(parts[i], depth) && (indefinite ==> !EndOfContents(Flatten(parts[i]))))
    && Starts(room, FlattenAll(parts))
  }

  /** Parts read from the room of an object are its first parts, and if they are not all
      of them another encoding follows. */
  lemma NextPart(parts: seq<Tlv>, indefinite: bool, room: seq<byte>, depth: nat, d: Tlv) returns (next: Tlv)
    requires PartsRead(parts, indefinite, room, depth + 1)
    requires Grammatical(d) && Nested(d, depth) && !d.Primitive? && d.Indefinite? == indefinite
    requires Starts(room, Body(d)) && (!indefinite ==> Body(d) == room)
    requires var left := room[|FlattenAll(parts)|..]; if indefinite then !Starts(left, EOC) else left != []
    ensures StartsWith(room[|FlattenAll(parts)|..], next, depth + 1)
  {
    if indefinite {
      StartsBoth(room, FlattenAll(d.parts), EOC);
      Comparable(room, parts, d.parts);
      ClosedList(room, d.parts, parts);
    } else {
      Comparable(room, parts, d.parts);
      if d.parts <= parts {
        LongerList(d.parts, parts);
      }
    }
    NextInList(room, parts, d.parts);
    next := d.parts[|parts|];
  }

  ghost predicate Nothing(s: seq<byte>, depth: nat) {
    forall d :: !StartsWith(s, d, depth)
  }

  /** When neither the end nor another part can be read, no object can be read. */
  lemma Stuck(h: Header, s: seq<byte>, field: seq<byte>, room: seq<byte>, parts: seq<Tlv>, depth: nat)
    requires HeaderAt(h, s, field, room) && ConstructedBit(h.tag)
    requires PartsRead(parts, h.extent.indefinite, room, depth + 1)
    requires var left := room[|FlattenAll(parts)|..];
             && (if h.extent.indefinite then !Starts(left, EOC) else left != [])
             && Nothing(left, depth + 1)
    ensures Nothing(s, depth)
  {
    forall d | StartsWith(s, d, depth)
      ensures false
    {
      HeaderFixed(h, s, field, room, d);
      var next := NextPart(parts, h.extent.indefinite, room, depth, d);
    }
  }

  /** A grammatical encoding with that header and a body that the room holds was found. */
  lemma EncodingFound(h: Header, s: seq<byte>, field: seq<byte>, room: seq<byte>, c: Tlv, depth: nat)
    requires HeaderAt(h, s, field, room)
    requires Grammatical(c) && Nested(c, depth)
    requires c.tag == h.tag && LengthField(c) == field && Starts(room, Body(c))
    ensures StartsWith(s, c, depth)
    ensures |Flatten(c)| == |h.tag| + |field| + |Body(c)|
  {
    var rest := s[|h.tag + field|..];
    assert Starts(rest, Body(c)) by {
      assert room == rest[..|room|];
    }
    StartsBoth(s, h.tag + field, Body(c));
  }

  /** The contents of a primitive encoding are not looked into. */
  lemma Leaf(h: Header, s: seq<byte>, field: seq<byte>, room: seq<byte>, depth: nat)
    returns (c: Tlv)
    requires HeaderAt(h, s, field, room) && !h.extent.indefinite && !ConstructedBit(h.tag)
    requires depth <= MAX_NESTING_DEPTH
    ensures StartsWith(s, c, depth)
    ensures Meaning(c) == Prim(h.tag, room)
    ensures |Flatten(c)| == |h.tag| + |field| + |room|
  {
    c := Primitive(h.tag, field, room);
    EncodingFound(h, s, field, room, c, depth);
  }

  /** When the parts fill the room, or an end of contents follows them, they make an encoding. */
  lemma Complete(h: Header, s: seq<byte>, field: seq<byte>, room: seq<byte>, parts: seq<Tlv>, depth: nat)
    returns (c: Tlv)
    requires HeaderAt(h, s, field, room) && ConstructedBit(h.tag)
    requires PartsRead(parts, h.extent.indefinite, room, depth + 1)
    requires depth <= MAX_NESTING_DEPTH
    requires var left := room[|FlattenAll(parts)|..]; if h.extent.indefinite then Starts(left, EOC) else left == []
    ensures StartsWith(s, c, depth)
    ensures Meaning(c) == Cons(h.tag, MeaningAll(parts))
    ensures |Flatten(c)| == |h.tag| + |field| + |FlattenAll(parts)| + if h.extent.indefinite then 2 else 0
  {
    if h.extent.indefinite {
      c := Indefinite(h.tag, parts);
      StartsBoth(room, FlattenAll(parts), EOC);
    } else {
      c := Definite(h.tag, field, parts);
      assert FlattenAll(parts) == room;
    }
    EncodingFound(h, s, field, room, c, depth);
  }

  lemma PartAdded(parts: seq<Tlv>, indefinite: bool, room: seq<byte>, depth: nat, part: Tlv)
    requires PartsRead(parts, indefinite, room, depth)
    requires var left := room[|FlattenAll(parts)|..];
             StartsWith(left, part, depth) && (indefinite ==> !Starts(left, EOC))
    ensures PartsRead(parts + [part], indefinite, room, depth)
    ensures MeaningAll(parts + [part]) == MeaningAll(parts) + [Meaning(part)]
    ensures |FlattenAll(parts + [part])| == |FlattenAll(parts)| + |Flatten(part)|
  {
    FlattenAllSnoc(parts, part);
    MeaningAllAppend(parts, [part]);
    assert MeaningAll([part]) == [Meaning(part)];
    var left := room[|FlattenAll(parts)|..];
    StartsBoth(room, FlattenAll(parts), Flatten(part));
    if indefinite && EndOfContents(Flatten(part)) {
      EndIsPrefix(Flatten(part), left);
    }
  }

  lemma EndIsPrefix(bs: seq<byte>, s: seq<byte>)
    requires EndOfContents(bs) && Starts(s, bs)
    ensures Starts(s, EOC)
  {
    assert s[..2] == [bs[0], bs[1]] == EOC;
  }

  /** No object starts with a tag that no length octets can follow. */
  lemma NoLength(s: seq<byte>, tag: seq<byte>, depth: nat)
    requires TagOctets(tag) && Starts(s, tag)
    requires forall field, length: nat, indefinite ::
               LengthToken(field, length, indefinite) && Starts(s[|tag|..], field) ==>
                 |field| + (if indefinite then 2 else length) > |s| - |tag|
    ensures Nothing(s, depth)
  {
    forall d | StartsWith(s, d, depth)
      ensures false
    {
      GrammaticalHeader(s, d);
      StartsBoth(s, d.tag, LengthField(d));
      TagUnique(s, d.tag, tag);
    }
  }

  lemma NoRoom(ber: seq<byte>, offset: nat, depth: nat)
    requires offset >= |ber|
    ensures offset == |ber| ==> Nothing(ber[offset..], depth)
  {
    forall d | offset == |ber| && StartsWith(ber[offset..], d, depth)
      ensures false
    {
      FlattenSize(d);
    }
  }

  /** No object is a tag and nothing else. */
  lemma NoTag(s: seq<byte>, depth: nat)
    requires forall t :: TagOctets(t) && Starts(s, t) ==> |t| == |s|
    ensures Nothing(s, depth)
  {
    forall d | StartsWith(s, d, depth)
      ensures false
    {
      GrammaticalHeader(s, d);
      StartsBoth(s, d.tag, LengthField(d));
    }
  }

  /** The indefinite form is for constructed encodings only. */
  lemma NoIndefinitePrimitive(h: Header, s: seq<byte>, field: seq<byte>, room: seq<byte>, depth: nat)
    requires HeaderAt(h, s, field, room) && h.extent.indefinite && !ConstructedBit(h.tag)
    ensures Nothing(s, depth)
  {
    forall d | StartsWith(s, d, depth)
      ensures false
    {
      HeaderFixed(h, s, field, room, d);
    }
  }

  // ---------- the parser ----------

  /** The header of the object at `offset` and the buffer that its contents are confined to. */
  method ReadHeader(ber: seq<byte>, offset: nat)
    returns (r: Result<Header>, ghost field: seq<byte>, ghost room: seq<byte>)
    requires offset < |ber|
    ensures r.Err? ==> forall depth: nat :: Nothing(ber[offset..], depth)
    ensures r.Ok? ==> HeaderAt(r.value, ber[offset..], field, room)
    ensures r.Ok? ==> var Header(tag, e, buffer) := r.value;
                      && offset + 2 <= e.start == offset + |tag| + |field|
                      && e.start + e.length <= |buffer| <= |ber|
                      && (!e.indefinite ==> e.start + e.length == |buffer|)
  {
    field, room := [], [];
    var tagEnd := ReadTag(ber, offset);
    if tagEnd.Err? {
      forall depth: nat
        ensures Nothing(ber[offset..], depth)
      {
        NoTag(ber[offset..], depth);
      }
      return Err, field, room;
    }
    var tag := ber[offset..tagEnd.value];
    var extent := ReadLength(ber, tagEnd.value);
    if extent.Err? {
      assert ber[offset..][|tag|..] == ber[tagEnd.value..];
      forall depth: nat
        ensures Nothing(ber[offset..], depth)
      {
        NoLength(ber[offset..], tag, depth);
      }
      return Err, field, room;
    }
    var e := extent.value;
    var h := Header(tag, e, if e.indefinite then ber else ber[..e.start + e.length]);
    field, room := ber[tagEnd.value..e.start], h.buffer[e.start..];
    HeaderRead(ber, offset, tagEnd.value, h, field, room);
    return Ok(h), field, room;
  }

  lemma HeaderRead(ber: seq<byte>, offset: nat, tagEnd: nat, h: Header, field: seq<byte>, room: seq<byte>)
    requires var Extent(start, length, indefinite) := h.extent;
             && offset < tagEnd < start <= start + length <= |ber|
             && TagOctets(ber[offset..tagEnd]) && h.tag == ber[offset..tagEnd]
             && LengthToken(field, length, indefinite) && field == ber[tagEnd..start]
             && (indefinite ==> length == 0)
             && h.buffer == (if indefinite then ber else ber[..start + length])
             && room == h.buffer[start..]
    ensures HeaderAt(h, ber[offset..], field, room)
  {
    var Extent(start, length, indefinite) := h.extent;
    var s := ber[offset..];
    assert s[..start - offset] == h.tag + field;
    assert s[start - offset..] == ber[start..];
    assert s[start - offset..start - offset + length] == ber[..start + length][start..];
  }

  /** Reads one object at `offset`. It succeeds exactly when an encoding that the grammar
      allows at this depth stands there, and returns what that encoding denotes and where
      it ends; `c` is the encoding and `calls` counts the calls of this method. */
  method ReadObject(ber: seq<byte>, offset: nat, depth: nat)
    returns (r: Result<(Obj, nat)>, ghost c: Tlv, ghost calls: nat)
    ensures r.Ok? ==> offset + 2 <= r.value.1 <= |ber|
    ensures r.Ok? ==> StartsWith(ber[offset..], c, depth)
    ensures r.Ok? ==> r.value.0 == Meaning(c)
    ensures r.Ok? ==> r.value.1 == offset + |Flatten(c)|
    ensures r.Err? && offset <= |ber| ==> Nothing(ber[offset..], depth)
    ensures 2 * calls <= if r.Ok? then r.value.1 - offset else if offset < |ber| then |ber| - offset + 2 else 2
    decreases if offset < |ber| then |ber| - offset else 0, 0
  {
    c, calls := Primitive([], [], []), 1;
    if depth > MAX_NESTING_DEPTH {
      return Err, c, calls;
    }
    if offset >= |ber| {
      NoRoom(ber, offset, depth);
      return Err, c, calls;
    }
    var header, field, room := ReadHeader(ber, offset);
    if header.Err? {
      return Err, c, calls;
    }
    ghost var n;
    r, c, n := ReadContents(header.value, depth, ber[offset..], field, room);
    calls := calls + n;
  }

  /** The rest of ReadObject, in a buffer that ends with the object when its length is known. */
  method ReadContents(header: Header, depth: nat, ghost s: seq<byte>, ghost field: seq<byte>, ghost room: seq<byte>)
    returns (r: Result<(Obj, nat)>, ghost c: Tlv, ghost calls: nat)
    requires depth <= MAX_NESTING_DEPTH
    requires HeaderAt(header, s, field, room)
    requires header.extent.start + header.extent.length <= |header.buffer|
    requires !header.extent.indefinite ==> header.extent.start + header.extent.length == |header.buffer|
    ensures r.Ok? ==> header.extent.start <= r.value.1 <= |header.buffer|
    ensures r.Ok? ==> StartsWith(s, c, depth)
    ensures r.Ok? ==> r.value.0 == Meaning(c)
    ensures r.Ok? ==> r.value.1 == header.extent.start - |header.tag| - |field| + |Flatten(c)|
    ensures r.Err? ==> Nothing(s, depth)
    ensures 2 * calls <= if r.Ok? then r.value.1 - header.extent.start else |header.buffer| - header.extent.start + 2
    decreases |header.buffer| - header.extent.start, 2
  {
    var Header(tag, extent, buffer) := header;
    c, calls := Primitive([], [], []), 0;
    var constructed := ConstructedBit(tag);
    if extent.indefinite && !constructed {
      NoIndefinitePrimitive(header, s, field, room, depth);
      return Err, c, calls;
    }
    if !constructed {
      var contentEnd := extent.start + extent.length;
      c := Leaf(header, s, field, room, depth);
      assert buffer[extent.start..contentEnd] == room;
      return Ok((Prim(tag, buffer[extent.start..contentEnd]), contentEnd)), c, calls;
    }
    var subObjects, parts, n := ReadParts(buffer, extent, depth, room);
    calls := n;
    if subObjects.Err? {
      Stuck(header, s, field, room, parts, depth);
      return Err, c, calls;
    }
    c := Complete(header, s, field, room, parts, depth);
    return Ok((Cons(tag, subObjects.value.0), subObjects.value.1)), c, calls;
  }

  /** The loop over the parts of a constructed encoding. It ends where the parts fill the room or the
      end of contents stands, or where neither that nor another part can be read. */
  method ReadParts(buffer: seq<byte>, extent: Extent, depth: nat, ghost room: seq<byte>)
    returns (r: Result<(seq<Obj>, nat)>, ghost parts: seq<Tlv>, ghost calls: nat)
    requires extent.start + extent.length <= |buffer| && room == buffer[extent.start..]
    requires !extent.indefinite ==> extent.start + extent.length == |buffer|
    ensures PartsRead(parts, extent.indefinite, room, depth + 1)
    ensures var left := room[|FlattenAll(parts)|..];
            if r.Ok? then if extent.indefinite then Starts(left, EOC) else left == []
            else (if extent.indefinite then !Starts(left, EOC) else left != []) && Nothing(left, depth + 1)
    ensures r.Ok? ==> r.value.0 == MeaningAll(parts)
    ensures r.Ok? ==> r.value.1 == extent.start + |FlattenAll(parts)| + if extent.indefinite then 2 else 0
    ensures 2 * calls <= if r.Ok? then |FlattenAll(parts)| else |buffer| - extent.start + 2
    decreases |buffer| - extent.start, 1
  {
    var Extent(start, length, indefinite) := extent;
    var contentEnd := start + length;
    var subObjects: seq<Obj> := [];
    var offset := start;
    parts, calls := [], 0;
    while offset < contentEnd || indefinite
      invariant start <= offset <= |buffer|
      invariant PartsRead(parts, indefinite, room, depth + 1) && |FlattenAll(parts)| == offset - start
      invariant subObjects == MeaningAll(parts)
      invariant 2 * calls <= offset - start
      decreases |buffer| - offset
    {
      assert room[offset - start..] == buffer[offset..];
      if indefinite {
        var terminated := IsIndefiniteTermination(buffer, offset);
        if terminated.Err? {
          return Err, parts, calls;
        }
        if terminated.value {
          break;
        }
      }
      var subObject, part, n := ReadObject(buffer, offset, depth + 1);
      calls := calls + n;
      if subObject.Err? {
        return Err, parts, calls;
      }
      PartAdded(parts, indefinite, room, depth + 1, part);
      parts := parts + [part];
      subObjects := subObjects + [subObject.value.0];
      offset := subObject.value.1;
    }
    if indefinite {
      contentEnd := offset + 2;
    }
    return Ok((subObjects, contentEnd)), parts, calls;
  }
}
