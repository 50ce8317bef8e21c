/** Sorting by encoded octets, as pkcs7.go and the asn1 package sort the elements of a SET OF,
    and the order of section 11.6 of ITU-T X.690. */
module SetOrder {
  import opened Bytes
  import opened Sequences
  import opened Asn1
  import opened Grammar
  import opened Ber2Der

  /** bytes.Compare(a, b) < 0 */
  predicate Less(a: seq<byte>, b: seq<byte>) {
    b != [] && (a == [] || a[0] < b[0] || (a[0] == b[0] && Less(a[1..], b[1..])))
  }

  predicate AtMost(a: seq<byte>, b: seq<byte>) {
    !Less(b, a)
  }

  /** Of two different strings exactly one is less. */
  lemma {:induction false} LessTotal(a: seq<byte>, b: seq<byte>)
    ensures Less(a, b) <==> a != b && !Less(b, a)
  {
    if a == [] || b == [] {
    } else {
      assert a == [a[0]] + a[1..] && b == [b[0]] + b[1..];
      LessTotal(a[1..], b[1..]);
    }
  }

  lemma {:induction false} AtMostTransitive(a: seq<byte>, b: seq<byte>, c: seq<byte>)
    requires AtMost(a, b) && AtMost(b, c)
    ensures AtMost(a, c)
  {
    if a == [] || b == [] || c == [] {
    } else if a[0] == b[0] == c[0] {
      AtMostTransitive(a[1..], b[1..], c[1..]);
    }
  }

  // ---------- sorting ----------

  ghost predicate Ascending<T(!new)>(s: seq<T>, key: T -> seq<byte>) {
    forall i, j | 0 <= i < j < |s| :: AtMost(key(s[i]), key(s[j]))
  }

  /** Puts x behind the last element of a sorted list that is not greater. */
  function Insert<T>(s: seq<T>, x: T, key: T -> seq<byte>): seq<T> {
    if s == [] || !Less(key(x), key(s[|s| - 1])) then s + [x] else
      Insert(s[..|s| - 1], x, key) + [s[|s| - 1]]
  }

  function Sorting<T>(s: seq<T>, key: T -> seq<byte>): seq<T> {
    if s == [] then [] else Insert(Sorting(s[..|s| - 1], key), s[|s| - 1], key)
  }

  lemma {:induction false} InsertKeeps<T>(s: seq<T>, x: T, key: T -> seq<byte>)
    ensures multiset(Insert(s, x, key)) == multiset(s) + multiset{x}
    ensures |Insert(s, x, key)| == |s| + 1
  {
    if s == [] {
    } else {
      assert s == s[..|s| - 1] + [s[|s| - 1]];
      InsertKeeps(s[..|s| - 1], x, key);
    }
  }

  lemma NoneAbove<T(!new)>(s: seq<T>, x: T, key: T -> seq<byte>)
    requires s != [] && Ascending(s, key) && AtMost(key(s[|s| - 1]), key(x))
    ensures forall i | 0 <= i < |s| :: AtMost(key(s[i]), key(x))
  {
    var last := s[|s| - 1];
    forall i | 0 <= i < |s|
      ensures AtMost(key(s[i]), key(x))
    {
      LessTotal(key(last), key(last));
      AtMostTransitive(key(s[i]), key(last), key(x));
    }
  }

  lemma {:induction false} InsertAscends<T(!new)>(s: seq<T>, x: T, key: T -> seq<byte>)
    requires Ascending(s, key)
    ensures Ascending(Insert(s, x, key), key)
  {
    if s == [] {
    } else {
      var front, last := s[..|s| - 1], s[|s| - 1];
      if Less(key(x), key(last)) {
        InsertAscends(front, x, key);
        var r := Insert(front, x, key);
        forall i | 0 <= i < |r|
          ensures AtMost(key(r[i]), key(last))
        {
          InsertKeeps(front, x, key);
          LessTotal(key(x), key(last));
          assert r[i] in multiset(r);
          assert r[i] in front || r[i] == x;
        }
      } else {
        NoneAbove(s, x, key);
      }
    }
  }

  /** The sorted list is a permutation of the list, in ascending order. */
  lemma {:induction false} SortingSorts<T(!new)>(s: seq<T>, key: T -> seq<byte>)
    ensures multiset(Sorting(s, key)) == multiset(s)
    ensures Ascending(Sorting(s, key), key)
  {
    if s == [] {
    } else {
      assert s == s[..|s| - 1] + [s[|s| - 1]];
      SortingSorts(s[..|s| - 1], key);
      InsertKeeps(Sorting(s[..|s| - 1], key), s[|s| - 1], key);
      InsertAscends(Sorting(s[..|s| - 1], key), s[|s| - 1], key);
    }
  }

  /** Different elements have different keys. */
  ghost predicate KeysTell<T(!new)>(s: seq<T>, key: T -> seq<byte>) {
    forall i, j | 0 <= i < |s| && 0 <= j < |s| && key(s[i]) == key(s[j]) :: s[i] == s[j]
  }

  /** Where keys tell elements apart, there is one ascending order only: any way of sorting
      gives the same list. */
  lemma {:induction false} AscendingUnique<T(!new)>(s: seq<T>, t: seq<T>, key: T -> seq<byte>)
    requires multiset(s) == multiset(t) && Ascending(s, key) && Ascending(t, key)
    requires KeysTell(s, key)
    ensures s == t
  {
    SameSize(s, t);
    if s == [] {
    } else {
      var front, last := s[..|s| - 1], s[|s| - 1];
      var front', last' := t[..|t| - 1], t[|t| - 1];
      SameLast(s, t, key);
      WithoutLast(s, key);
      WithoutLast(t, key);
      AscendingUnique(front, front', key);
    }
  }

  lemma WithoutLast<T(!new)>(s: seq<T>, key: T -> seq<byte>)
    requires s != [] && Ascending(s, key)
    ensures var front, last := s[..|s| - 1], s[|s| - 1];
            && s == front + [last] && multiset(front) == multiset(s) - multiset{last}
            && Ascending(front, key) && (KeysTell(s, key) ==> KeysTell(front, key))
  {
    assert s == s[..|s| - 1] + [s[|s| - 1]];
  }

  lemma SameLast<T(!new)>(s: seq<T>, t: seq<T>, key: T -> seq<byte>)
    requires s != [] && t != [] && multiset(s) == multiset(t) && Ascending(s, key) && Ascending(t, key)
    requires KeysTell(s, key)
    ensures s[|s| - 1] == t[|t| - 1]
  {
    var last, last' := s[|s| - 1], t[|t| - 1];
    assert last in multiset(t) && last' in multiset(s);
    var i :| 0 <= i < |t| && t[i] == last;
    var j :| 0 <= j < |s| && s[j] == last';
    LessTotal(key(last), key(last'));
    LessTotal(key(last), key(last));
  }

  /** So the order in which the elements came does not matter. */
  lemma SortingOfPermutation<T(!new)>(s: seq<T>, t: seq<T>, key: T -> seq<byte>)
    requires multiset(s) == multiset(t)
    requires KeysTell(s, key)
    ensures Sorting(s, key) == Sorting(t, key)
  {
    var r := Sorting(s, key);
    SortingSorts(s, key);
    SortingSorts(t, key);
    assert KeysTell(r, key) by {
      forall i, j | 0 <= i < |r| && 0 <= j < |r| && key(r[i]) == key(r[j])
        ensures r[i] == r[j]
      {
        assert r[i] in multiset(s) && r[j] in multiset(s);
        var k :| 0 <= k < |s| && s[k] == r[i];
        var l :| 0 <= l < |s| && s[l] == r[j];
      }
    }
    AscendingUnique(r, Sorting(t, key), key);
  }

  /** Sorting again changes nothing. */
  lemma {:induction false} SortingSettled<T(!new)>(s: seq<T>, key: T -> seq<byte>)
    requires Ascending(s, key)
    ensures Sorting(s, key) == s
  {
    if s == [] {
    } else {
      var front, last := s[..|s| - 1], s[|s| - 1];
      assert s == front + [last];
      SortingSettled(front, key);
    }
  }

  // ---------- mapped lists ----------

  /** Sorting by a key of the image is sorting by that key of the original. */
  lemma {:induction false} MapSorting<A(!new), B>(f: A -> B, s: seq<A>, key: B -> seq<byte>, key': A -> seq<byte>)
    requires forall x :: key(f(x)) == key'(x)
    ensures Sorting(Map(f, s), key) == Map(f, Sorting(s, key'))
  {
    if s == [] {
    } else {
      var front := s[..|s| - 1];
      MapSorting(f, front, key, key');
      assert Map(f, s)[..|s| - 1] == Map(f, front);
      MapInsert(f, Sorting(front, key'), s[|s| - 1], key, key');
    }
  }

  lemma {:induction false} MapInsert<A(!new), B>(f: A -> B, s: seq<A>, x: A, key: B -> seq<byte>, key': A -> seq<byte>)
    requires forall x :: key(f(x)) == key'(x)
    ensures Insert(Map(f, s), f(x), key) == Map(f, Insert(s, x, key'))
  {
    if s == [] || !Less(key'(x), key'(s[|s| - 1])) {
      assert Map(f, s + [x]) == Map(f, s) + [f(x)];
    } else {
      var front, last := s[..|s| - 1], s[|s| - 1];
      MapInsert(f, front, x, key, key');
      assert Map(f, s)[..|s| - 1] == Map(f, front);
      var r := Insert(front, x, key');
      assert Map(f, r + [last]) == Map(f, r) + [f(last)];
    }
  }

  // ---------- sets ----------

  function Itself(bs: seq<byte>): seq<byte> {
    bs
  }

  /** asn1.Marshal of a SET OF: the elements in ascending order. */
  function EncodedSet(elements: seq<seq<byte>>): seq<byte> {
    Element(49, Concat(Sorting(elements, Itself)))
  }

  /** The order of its elements makes no difference to the size of a set. */
  lemma {:induction false} ConcatSize(s: seq<seq<byte>>, t: seq<seq<byte>>)
    requires multiset(s) == multiset(t)
    ensures |Concat(s)| == |Concat(t)|
  {
    SameSize(s, t);
    if s == [] {
    } else {
      assert s[0] in multiset(t);
      var i :| 0 <= i < |t| && t[i] == s[0];
      RemovedKeeps(s, 0);
      RemovedKeeps(t, i);
      ConcatSize(Removed(s, 0), Removed(t, i));
      ConcatWithout(s, 0);
      ConcatWithout(t, i);
    }
  }

  lemma {:induction false} ConcatWithout(s: seq<seq<byte>>, i: nat)
    requires i < |s|
    ensures |Concat(s)| == |Concat(Removed(s, i))| + |s[i]|
  {
    if i == 0 {
      assert Removed(s, 0) == s[1..];
    } else {
      ConcatWithout(s[1..], i - 1);
      assert Removed(s, i) == [s[0]] + Removed(s[1..], i - 1);
    }
  }

  // ---------- sorting in place ----------

  method Swap<T>(a: array<T>, i: nat, j: nat)
    requires i < a.Length && j < a.Length
    modifies a
    ensures a[..] == old(a[..])[i := old(a[j])][j := old(a[i])]
  {
    a[i], a[j] := a[j], a[i];
  }

  /** Moves the element at i to the left, past all that are greater. */
  method SiftLeft<T>(a: array<T>, i: nat, key: T -> seq<byte>)
    requires i < a.Length
    modifies a
    ensures a[..] == Insert(old(a[..i]), old(a[i]), key) + old(a[i + 1..])
  {
    var j := i;
    ghost var before, x, after := a[..i], a[i], a[i + 1..];
    ghost var tail: seq<T> := [];
    assert before[..i] == before && Insert(before, x, key) == Insert(before, x, key) + tail;
    while j > 0 && Less(key(a[j]), key(a[j - 1]))
      invariant 0 <= j <= i
      invariant a[..] == before[..j] + [x] + tail + after
      invariant Insert(before, x, key) == Insert(before[..j], x, key) + tail
    {
      InsertPast(before, x, j, tail, key);
      Slide(before, x, j, tail, after);
      Swap(a, j, j - 1);
      tail := [before[j - 1]] + tail;
      j := j - 1;
    }
    assert Insert(before[..j], x, key) == before[..j] + [x];
  }

  lemma Slide<T>(before: seq<T>, x: T, j: nat, tail: seq<T>, after: seq<T>)
    requires 0 < j <= |before|
    ensures var s := before[..j] + [x] + tail + after;
            && s[j - 1] == before[j - 1] && s[j] == x
            && s[j := s[j - 1]][j - 1 := s[j]] == before[..j - 1] + [x] + ([before[j - 1]] + tail) + after
  {
  }

  lemma InsertPast<T>(s: seq<T>, x: T, j: nat, tail: seq<T>, key: T -> seq<byte>)
    requires 0 < j <= |s| && Less(key(x), key(s[j - 1]))
    ensures Insert(s[..j], x, key) + tail == Insert(s[..j - 1], x, key) + ([s[j - 1]] + tail)
  {
    assert s[..j][..j - 1] == s[..j - 1];
  }

  method Sort<T>(a: array<T>, key: T -> seq<byte>)
    modifies a
    ensures a[..] == Sorting(old(a[..]), key)
  {
    ghost var was := a[..];
    var i := 0;
    while i < a.Length
      invariant 0 <= i <= a.Length
      invariant a[..] == Sorting(was[..i], key) + was[i..]
    {
      SortStep(was, i, a[..], key);
      SiftLeft(a, i, key);
      i := i + 1;
    }
    assert was[..i] == was;
  }

  lemma SortStep<T>(was: seq<T>, i: nat, s: seq<T>, key: T -> seq<byte>)
    requires i < |was| && s == Sorting(was[..i], key) + was[i..]
    ensures |s| == |was|
    ensures Insert(s[..i], s[i], key) + s[i + 1..] == Sorting(was[..i + 1], key) + was[i + 1..]
  {
    SortingLength(was[..i], key);
    assert s[..i] == Sorting(was[..i], key) && s[i + 1..] == was[i + 1..];
    assert was[..i + 1][..i] == was[..i];
  }

  lemma {:induction false} SortingLength<T>(s: seq<T>, key: T -> seq<byte>)
    ensures |Sorting(s, key)| == |s|
  {
    if s == [] {
    } else {
      SortingLength(s[..|s| - 1], key);
      InsertKeeps(Sorting(s[..|s| - 1], key), s[|s| - 1], key);
    }
  }

  // ---------- the order of section 11.6 of ITU-T X.690 ----------

  function Zeros(n: nat): (z: seq<byte>)
    ensures |z| == n
  {
    if n == 0 then [] else [0] + Zeros(n - 1)
  }

  /** The shorter one is padded with zero octets. */
  predicate PaddedLess(a: seq<byte>, b: seq<byte>) {
    var n := if |a| < |b| then |b| else |a|;
    Less(a + Zeros(n - |a|), b + Zeros(n - |b|))
  }

  /** The first difference decides. */
  lemma {:induction false} FirstDifference(a: seq<byte>, b: seq<byte>, k: nat)
    requires k < |a| && k < |b| && a[..k] == b[..k] && a[k] != b[k]
    ensures Less(a, b) <==> a[k] < b[k]
  {
    if k == 0 {
    } else {
      assert a[0] == a[..k][0] == b[..k][0] == b[0];
      assert a[1..][..k - 1] == a[..k][1..] == b[..k][1..] == b[1..][..k - 1];
      FirstDifference(a[1..], b[1..], k - 1);
    }
  }

  /** The two orders agree on strings of which neither is a proper prefix of the other. */
  lemma OrdersAgree(a: seq<byte>, b: seq<byte>)
    requires Starts(a, b) || Starts(b, a) ==> a == b
    ensures Less(a, b) <==> PaddedLess(a, b)
  {
    if a == b {
      LessTotal(a, a);
      LessTotal(a + Zeros(0), a + Zeros(0));
    } else {
      var n := if |a| < |b| then |b| else |a|;
      var p, q := a + Zeros(n - |a|), b + Zeros(n - |b|);
      var k := Differ(a, b, 0);
      assert p[..k] == a[..k] && q[..k] == b[..k];
      FirstDifference(a, b, k);
      FirstDifference(p, q, k);
    }
  }

  lemma {:induction false} Differ(a: seq<byte>, b: seq<byte>, from: nat) returns (k: nat)
    requires from <= |a| && from <= |b| && a[..from] == b[..from]
    requires !Starts(a, b) && !Starts(b, a)
    ensures k < |a| && k < |b| && a[..k] == b[..k] && a[k] != b[k]
    decreases |a| - from
  {
    assert a[..|a|] == a && b[..|b|] == b;
    if from == |a| || from == |b| {
      assert false;
    } else if a[from] != b[from] {
      k := from;
    } else {
      assert a[..from + 1] == a[..from] + [a[from]] && b[..from + 1] == b[..from] + [b[from]];
      k := Differ(a, b, from + 1);
    }
  }

  /** Encodings are such strings. */
  lemma EncodingOrdersAgree(c: Tlv, d: Tlv)
    requires Grammatical(c) && Grammatical(d)
    ensures Less(Flatten(c), Flatten(d)) <==> PaddedLess(Flatten(c), Flatten(d))
  {
    if Starts(Flatten(c), Flatten(d)) {
      PrefixFree(d, c);
    }
    if Starts(Flatten(d), Flatten(c)) {
      PrefixFree(c, d);
    }
    OrdersAgree(Flatten(c), Flatten(d));
  }
}
