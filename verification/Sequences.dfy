/** Lists: regrouping, mapping, and permutations. */
module Sequences {

  lemma Associative<T>(a: seq<T>, b: seq<T>, c: seq<T>)
    ensures a + (b + c) == (a + b) + c
  {
  }

  function Concat<T>(parts: seq<seq<T>>): seq<T> {
    if parts == [] then [] else parts[0] + Concat(parts[1..])
  }

  lemma SameHeadAndTail<T>(s: seq<T>, t: seq<T>)
    requires s != [] && t != [] && s[0] == t[0] && s[1..] == t[1..]
    ensures s == t
  {
    assert s == [s[0]] + s[1..] && t == [t[0]] + t[1..];
  }

  function Map<A, B>(f: A --> B, s: seq<A>): (r: seq<B>)
    requires forall i | 0 <= i < |s| :: f.requires(s[i])
    ensures |r| == |s|
    ensures forall i | 0 <= i < |s| :: r[i] == f(s[i])
  {
    seq(|s|, i requires 0 <= i < |s| && f.requires(s[i]) => f(s[i]))
  }

  lemma FirstOfMap<A, B>(f: A -> B, s: seq<A>)
    requires s != []
    ensures Map(f, s) == [f(s[0])] + Map(f, s[1..])
  {
  }

  lemma FirstHolds<T>(p: T -> bool, s: seq<T>)
    requires s != []
    ensures (forall i | 0 <= i < |s| :: p(s[i])) <==> p(s[0]) && forall i | 0 <= i < |s| - 1 :: p(s[1..][i])
  {
    var rest := s[1..];
    if p(s[0]) && forall i | 0 <= i < |rest| :: p(rest[i]) {
      forall i | 0 <= i < |s|
        ensures p(s[i])
      {
        assert i > 0 ==> s[i] == rest[i - 1];
      }
    }
  }

  lemma SameSize<T>(s: seq<T>, t: seq<T>)
    requires multiset(s) == multiset(t)
    ensures |s| == |t|
  {
    assert |s| == |multiset(s)| == |multiset(t)| == |t|;
  }

  /** A permutation of a list is mapped to a permutation of the image. */
  lemma {:induction false} MapPermutation<A, B>(f: A --> B, s: seq<A>, t: seq<A>)
    requires forall i | 0 <= i < |s| :: f.requires(s[i])
    requires forall i | 0 <= i < |t| :: f.requires(t[i])
    requires multiset(s) == multiset(t)
    ensures multiset(Map(f, s)) == multiset(Map(f, t))
  {
    SameSize(s, t);
    if s == [] {
    } else {
      assert s[0] in multiset(t);
      var i :| 0 <= i < |t| && t[i] == s[0];
      RemovedKeeps(s, 0);
      RemovedKeeps(t, i);
      MapPermutation(f, Removed(s, 0), Removed(t, i));
      MapWithout(f, s, 0);
      MapWithout(f, t, i);
    }
  }

  function Removed<T>(s: seq<T>, i: nat): seq<T>
    requires i < |s|
  {
    s[..i] + s[i + 1..]
  }

  lemma RemovedKeeps<T>(s: seq<T>, i: nat)
    requires i < |s|
    ensures multiset(s) == multiset(Removed(s, i)) + multiset{s[i]}
    ensures multiset(Removed(s, i)) == multiset(s) - multiset{s[i]}
  {
    assert s == s[..i] + [s[i]] + s[i + 1..];
  }

  lemma MapWithout<A, B>(f: A --> B, s: seq<A>, i: nat)
    requires forall j | 0 <= j < |s| :: f.requires(s[j])
    requires i < |s|
    ensures multiset(Map(f, s)) == multiset(Map(f, Removed(s, i))) + multiset{f(s[i])}
    ensures multiset(Map(f, Removed(s, i))) == multiset(Map(f, s)) - multiset{f(s[i])}
  {
    RemovedKeeps(Map(f, s), i);
    assert Map(f, Removed(s, i)) == Removed(Map(f, s), i);
  }

  /** Every two elements of the lists are told apart by the map. */
  ghost predicate Tells<A(!new), B>(f: A --> B, s: seq<A>, t: seq<A>)
    requires forall i | 0 <= i < |s| :: f.requires(s[i])
    requires forall i | 0 <= i < |t| :: f.requires(t[i])
  {
    forall i, j | 0 <= i < |s| && 0 <= j < |t| && f(s[i]) == f(t[j]) :: s[i] == t[j]
  }

  lemma TellsRemoved<A(!new), B>(f: A --> B, s: seq<A>, t: seq<A>, i: nat, j: nat)
    requires forall k | 0 <= k < |s| :: f.requires(s[k])
    requires forall k | 0 <= k < |t| :: f.requires(t[k])
    requires Tells(f, s, t) && i < |s| && j < |t|
    ensures Tells(f, Removed(s, i), Removed(t, j))
  {
  }

  /** Only a permutation is, if the map is injective. */
  lemma {:induction false} MapPermuted<A(!new), B>(f: A --> B, s: seq<A>, t: seq<A>)
    requires forall i | 0 <= i < |s| :: f.requires(s[i])
    requires forall i | 0 <= i < |t| :: f.requires(t[i])
    requires Tells(f, s, t) && multiset(Map(f, s)) == multiset(Map(f, t))
    ensures multiset(s) == multiset(t)
  {
    SameSize(Map(f, s), Map(f, t));
    if s == [] {
    } else {
      assert Map(f, s)[0] in multiset(Map(f, t));
      var i :| 0 <= i < |t| && Map(f, t)[i] == f(s[0]);
      MapWithout(f, s, 0);
      MapWithout(f, t, i);
      TellsRemoved(f, s, t, 0, i);
      MapPermuted(f, Removed(s, 0), Removed(t, i));
      RemovedKeeps(s, 0);
      RemovedKeeps(t, i);
    }
  }
}
