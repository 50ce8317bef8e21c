/** What the step counters and the initial value leave in a wrapped key, for ciphers simple enough to say so; and, for
    every cipher, the wrapped key from the blocks that the cipher yields one after the other. */
module KeyWrapLaws {
  import opened Bytes
  import opened Sequences
  import opened ShiftRegisters
  import opened KeyWrap

  // ---------- the counter ----------

  /** The counter goes into the word bit by bit. */
  lemma XorCounterIs(word: seq<byte>, t: nat)
    requires |word| == 8 && t < 0x1_0000_0000_0000_0000
    ensures BigEndian(XorCounter(word, t)) == Xor(BigEndian(word), t)
  {
    var n := BigEndian(word);
    OctetsOfBigEndian(word);
    InWidth(n, t);
    BigEndianOfOctets(Xor(n, t), 8);
  }

  lemma InWidth(a: nat, b: nat)
    requires a < Pow256(8) && b < 0x1_0000_0000_0000_0000
    ensures Xor(a, b) < Pow256(8) && b % TWO_64 == b
  {
    assert Pow256(8) == TWO_64;
    Pow2Of8(8);
    XorWidth(a, b, 64);
  }

  lemma {:induction false} XorAssociative(a: nat, b: nat, c: nat)
    ensures Xor(Xor(a, b), c) == Xor(a, Xor(b, c))
    decreases a + b + c
  {
    if a == 0 && b == 0 && c == 0 {
    } else {
      XorAssociative(a / 2, b / 2, c / 2);
      LastBits(a, b, c, Xor(a, b), Xor(b, c));
    }
  }

  lemma LastBits(a: nat, b: nat, c: nat, p: nat, q: nat)
    requires p == Xor(a, b) && q == Xor(b, c)
    requires Xor(Xor(a / 2, b / 2), c / 2) == Xor(a / 2, Xor(b / 2, c / 2))
    ensures Xor(p, c) == Xor(a, q)
  {
    XorBits(a, b);
    XorBits(b, c);
    XorBits(p, c);
    XorBits(a, q);
    Parity(a, b, c, p, q);
    SameNumber(Xor(p, c), Xor(a, q));
  }

  lemma Parity(a: nat, b: nat, c: nat, p: nat, q: nat)
    requires p % 2 == (a + b) % 2 && q % 2 == (b + c) % 2
    ensures (p + c) % 2 == (a + q) % 2
  {
  }

  lemma SameNumber(m: nat, n: nat)
    requires m / 2 == n / 2 && m % 2 == n % 2
    ensures m == n
  {
  }

  lemma {:induction false} XorSelf(a: nat)
    ensures Xor(a, a) == 0
  {
    if a == 0 {
    } else {
      XorSelf(a / 2);
    }
  }

  lemma {:induction false} XorZero(a: nat)
    ensures Xor(a, 0) == a && Xor(0, a) == a
  {
    if a == 0 {
    } else {
      XorZero(a / 2);
    }
  }

  /** Two numbers that differ in the last bit only, */
  lemma XorNext(a: nat, b: nat)
    requires a / 2 == b / 2 && (a + b) % 2 == 1
    ensures Xor(a, b) == 1
  {
    XorBits(a, b);
    XorSelf(a / 2);
    SameNumber(Xor(a, b), 1);
  }

  /** and 1 and an even number. */
  lemma XorOne(one: nat, b: nat)
    requires one == 1 && b % 2 == 0
    ensures Xor(one, b) == b + 1
  {
    XorBits(one, b);
    XorZero(b / 2);
    SameNumber(Xor(one, b), b + 1);
  }

  /** What the counters 1 to t come to, exclusive-ored: four in a row cancel each other. */
  function Counters(t: nat): nat {
    if t % 4 == 0 then t else if t % 4 == 1 then 1 else if t % 4 == 2 then t + 1 else 0
  }

  lemma CountersBefore(t: nat)
    requires t >= 1
    ensures t % 4 == 0 ==> Counters(t - 1) == 0 && Counters(t) == t
    ensures t % 4 == 1 ==> Counters(t - 1) == t - 1 && Counters(t) == 1 && (t - 1) / 2 == t / 2 && (t - 1 + t) % 2 == 1
    ensures t % 4 == 2 ==> Counters(t - 1) == 1 && Counters(t) == t + 1 && t % 2 == 0
    ensures t % 4 == 3 ==> Counters(t - 1) == t && Counters(t) == 0
  {
  }

  lemma NextCounter(t: nat, before: nat, after: nat)
    requires t >= 1 && before == Counters(t - 1) && after == Counters(t)
    ensures Xor(before, t) == after
  {
    CountersBefore(t);
    if t % 4 == 0 {
      XorZero(t);
    } else if t % 4 == 1 {
      XorNext(before, t);
    } else if t % 4 == 2 {
      XorOne(before, t);
    } else {
      XorSelf(t);
    }
  }

  /** What the counters of six rounds of n steps come to. */
  function CountersUpTo(n: nat): nat {
    if n % 2 == 0 then 6 * n else 6 * n + 1
  }

  lemma CountersOfRounds(n: nat)
    ensures Counters(6 * n) == CountersUpTo(n)
  {
    var k := n / 2;
    if n % 2 == 0 {
      Quarter(6 * n, 3 * k, 0);
    } else {
      Quarter(6 * n, 3 * k + 1, 2);
    }
  }

  lemma Quarter(t: nat, q: nat, r: nat)
    requires t == 4 * q + r && r < 4
    ensures t % 4 == r
  {
  }

  // ---------- the first word ----------

  /** Under this key the cipher leaves the first half of every block alone, */
  ghost predicate KeepsFirst(aes: Aes, kek: seq<byte>) {
    forall block | |block| == 16 :: |aes.encrypt(kek, block)| == 16 && aes.encrypt(kek, block)[..8] == block[..8]
  }

  /** or the second half. */
  ghost predicate KeepsSecond(aes: Aes, kek: seq<byte>) {
    forall block | |block| == 16 :: |aes.encrypt(kek, block)| == 16 && aes.encrypt(kek, block)[8..] == block[8..]
  }

  lemma FirstWordStep(aes: Aes, kek: seq<byte>, s: Registers<seq<byte>>, t: nat)
    requires aes.Permutes() && KeepsFirst(aes, kek) && |s.r| >= 1 && |s.a| == 8 && WordsOnly(s.r)
    requires t < 0x1_0000_0000_0000_0000
    ensures BigEndian(Shift(AesMixer(aes, kek), s, t).a) == Xor(BigEndian(s.a), t)
  {
    assert (s.a + s.r[0])[..8] == s.a;
    assert Mix(aes, kek, s.a, s.r[0], t).0 == XorCounter(s.a, t);
    XorCounterIs(s.a, t);
  }

  lemma {:induction false} FirstWord(aes: Aes, kek: seq<byte>, s: Registers<seq<byte>>, t: nat)
    requires aes.Permutes() && KeepsFirst(aes, kek) && |s.r| >= 1 && |s.a| == 8 && WordsOnly(s.r)
    requires t < 0x1_0000_0000_0000_0000
    ensures BigEndian(ShiftRun(AesMixer(aes, kek), s, t).a) == Xor(BigEndian(s.a), Counters(t))
  {
    if t == 0 {
      XorZero(BigEndian(s.a));
    } else {
      ShiftRunWords(aes, kek, s, t - 1);
      FirstWord(aes, kek, s, t - 1);
      FirstWordStep(aes, kek, ShiftRun(AesMixer(aes, kek), s, t - 1), t);
      XorAssociative(BigEndian(s.a), Counters(t - 1), t);
      NextCounter(t, Counters(t - 1), Counters(t));
    }
  }

  /** Where the first half of a block is left alone, the first word of the wrapped key is A6 A6 A6 A6 A6 A6 A6 A6 with
      the counters 1 to 6n in it, which come to 6n for even n and to 6n + 1 for odd n. */
  lemma FirstWordOfWrapped(aes: Aes, kek: seq<byte>, plaintext: seq<byte>)
    requires aes.Permutes() && KeepsFirst(aes, kek) && Wrap(aes, kek, plaintext).Ok?
    requires |plaintext| < 0x8000_0000_0000_0000
    ensures |Wrap(aes, kek, plaintext).value| == |plaintext| + 8
    ensures BigEndian(Wrap(aes, kek, plaintext).value[..8])
         == Xor(BigEndian([0xA6, 0xA6, 0xA6, 0xA6, 0xA6, 0xA6, 0xA6, 0xA6]), CountersUpTo(|plaintext| / 8))
  {
    var n := |plaintext| / 8;
    var start := Registers(INITIAL_VALUE, Words(plaintext));
    var end := ShiftRun(AesMixer(aes, kek), start, 6 * n);
    UnwrapWrap(aes, kek, plaintext);
    ShiftRunWords(aes, kek, start, 6 * n);
    FirstWord(aes, kek, start, 6 * n);
    assert Pack(end)[..8] == end.a;
    CountersOfRounds(n);
  }

  // ---------- the other words ----------

  /** The mixer leaves the second of two words of eight octets alone. */
  ghost predicate KeepsWord(m: Mixer<seq<byte>>) {
    forall a, w, t: nat | |a| == 8 && |w| == 8 :: var b := m.mix(a, w, t); |b.0| == 8 && b.1 == w
  }

  lemma MixerKeeps(aes: Aes, kek: seq<byte>)
    requires aes.Permutes() && KeepsSecond(aes, kek)
    ensures KeepsWord(AesMixer(aes, kek))
  {
    forall a: seq<byte>, w: seq<byte>, t: nat | |a| == 8 && |w| == 8
      ensures var b := AesMixer(aes, kek).mix(a, w, t); |b.0| == 8 && b.1 == w
    {
      assert (a + w)[8..] == w;
      assert AesMixer(aes, kek).mix(a, w, t) == Mix(aes, kek, a, w, t);
    }
  }

  lemma PassKeeps(m: Mixer<seq<byte>>, ws: seq<seq<byte>>, i: nat, t: nat)
    requires KeepsWord(m) && 1 <= i < |ws| && WordsOnly(ws)
    ensures var ws' := Pass(m, ws, i, t); WordsOnly(ws') && ws'[1..] == ws[1..]
  {
    var b := m.mix(ws[0], ws[i], t);
    assert Pass(m, ws, i, t) == ws[0 := b.0];
  }

  lemma {:induction false} PassesKeep(m: Mixer<seq<byte>>, ws: seq<seq<byte>>, k: nat, t: nat)
    requires KeepsWord(m) && k < |ws| && WordsOnly(ws)
    ensures var ws' := Passes(m, ws, k, t); WordsOnly(ws') && ws'[1..] == ws[1..]
  {
    if k == 0 {
    } else {
      PassesKeep(m, ws, k - 1, t);
      PassKeeps(m, Passes(m, ws, k - 1, t), k, t + k);
    }
  }

  lemma {:induction false} RoundsKeep(m: Mixer<seq<byte>>, ws: seq<seq<byte>>, n: nat, j: nat)
    requires KeepsWord(m) && |ws| == n + 1 && WordsOnly(ws)
    ensures var ws' := Rounds(m, ws, n, j); WordsOnly(ws') && ws'[1..] == ws[1..]
  {
    if j == 0 {
    } else {
      RoundsKeep(m, ws, n, j - 1);
      PassesKeep(m, Rounds(m, ws, n, j - 1), n, Steps(n, j - 1));
    }
  }

  /** Where the second half of a block is left alone, the other words of the wrapped key are the plaintext. */
  lemma OtherWordsOfWrapped(aes: Aes, kek: seq<byte>, plaintext: seq<byte>)
    requires aes.Permutes() && KeepsSecond(aes, kek) && Wrap(aes, kek, plaintext).Ok?
    ensures |Wrap(aes, kek, plaintext).value| == |plaintext| + 8 && Wrap(aes, kek, plaintext).value[8..] == plaintext
  {
    var n, start := |plaintext| / 8, INITIAL_VALUE + plaintext;
    var ws := Rounds(AesMixer(aes, kek), Words(start), n, 6);
    MixerKeeps(aes, kek);
    RoundsKeep(AesMixer(aes, kek), Words(start), n, 6);
    WordsJoin(ws);
    WrapInPlace(aes, kek, plaintext, n, Concat(ws));
    WordsBehind(plaintext);
    assert Concat(ws) == ws[0] + Concat(ws[1..]);
  }

  lemma WordsBehind(plaintext: seq<byte>)
    requires |plaintext| % 8 == 0
    ensures Words(INITIAL_VALUE + plaintext)[1..] == Words(plaintext) && Concat(Words(plaintext)) == plaintext
  {
    var start := INITIAL_VALUE + plaintext;
    WordsTail(start);
    assert start[8..] == plaintext;
    JoinWords(plaintext);
  }

  /** A cipher that leaves blocks as they are shows the counters and nothing else. */
  lemma WrappedByNoCipher(aes: Aes, kek: seq<byte>, plaintext: seq<byte>)
    requires aes.Permutes() && (forall block | |block| == 16 :: aes.encrypt(kek, block) == block)
    requires |kek| == 16 || |kek| == 24 || |kek| == 32
    requires 16 <= |plaintext| < 0x8000_0000_0000_0000 && |plaintext| % 8 == 0
    ensures Wrap(aes, kek, plaintext)
         == Ok(Octets(Xor(BigEndian([0xA6, 0xA6, 0xA6, 0xA6, 0xA6, 0xA6, 0xA6, 0xA6]), CountersUpTo(|plaintext| / 8)), 8) + plaintext)
  {
    FirstWordOfWrapped(aes, kek, plaintext);
    OtherWordsOfWrapped(aes, kek, plaintext);
    var c := Wrap(aes, kek, plaintext).value;
    OctetsOfBigEndian(c[..8]);
    assert c == c[..8] + c[8..];
  }

  // ---------- with any cipher ----------

  /** What the cipher yields. */
  type Block = b: seq<byte> | |b| == 16 witness seq(16, _ => 0)

  /** A as the step behind the last block leaves it: the initial value, or the first half of the block with the number of
      the step in it. */
  function LastA(bs: seq<Block>): (a: seq<byte>)
    ensures |a| == 8
  {
    if bs == [] then [0xA6, 0xA6, 0xA6, 0xA6, 0xA6, 0xA6, 0xA6, 0xA6] else XorCounter(bs[|bs| - 1][..8], |bs|)
  }

  /** The word that step t + 1 takes: word t of the plaintext in the first round, then the second half of the block that
      was yielded one round before. */
  function WordTaken(ws: seq<seq<byte>>, bs: seq<Block>, t: nat): seq<byte>
    requires t < |bs| + |ws|
  {
    if t < |ws| then ws[t] else bs[t - |ws|][8..]
  }

  /** These are the blocks that the cipher yields step by step. */
  ghost predicate Yielded(aes: Aes, kek: seq<byte>, ws: seq<seq<byte>>, bs: seq<Block>)
    decreases |bs|
  {
    && ws != []
    && (bs != [] ==>
          var former := bs[..|bs| - 1];
          && Yielded(aes, kek, ws, former)
          && bs[|bs| - 1] == aes.encrypt(kek, LastA(former) + WordTaken(ws, former, |former|)))
  }

  /** The registers hold A and the words that the next steps take. */
  ghost predicate Held(s: Registers<seq<byte>>, ws: seq<seq<byte>>, bs: seq<Block>) {
    s.a == LastA(bs) && |s.r| == |ws| && forall k | 0 <= k < |ws| :: s.r[k] == WordTaken(ws, bs, |bs| + k)
  }

  lemma {:induction false} RegistersHold(aes: Aes, kek: seq<byte>, m: Mixer<seq<byte>>, ws: seq<seq<byte>>, bs: seq<Block>)
    requires aes.Permutes() && WordsOnly(ws) && Yielded(aes, kek, ws, bs) && m == AesMixer(aes, kek)
    ensures Held(ShiftRun(m, Registers(INITIAL_VALUE, ws), |bs|), ws, bs)
    decreases |bs|
  {
    if bs == [] {
      FirstRegisters(ws);
    } else {
      var front, block := bs[..|bs| - 1], bs[|bs| - 1];
      RegistersHold(aes, kek, m, ws, front);
      assert bs == front + [block];
      NextRegisters(aes, kek, m, ShiftRun(m, Registers(INITIAL_VALUE, ws), |front|), ws, front, block);
    }
  }

  lemma FirstRegisters(ws: seq<seq<byte>>)
    ensures Held(Registers(INITIAL_VALUE, ws), ws, [])
  {
  }

  lemma NextRegisters(aes: Aes, kek: seq<byte>, m: Mixer<seq<byte>>, s: Registers<seq<byte>>, ws: seq<seq<byte>>,
                      bs: seq<Block>, block: Block)
    requires aes.Permutes() && WordsOnly(ws) && ws != [] && Held(s, ws, bs) && m == AesMixer(aes, kek)
    requires block == aes.encrypt(kek, LastA(bs) + WordTaken(ws, bs, |bs|))
    ensures Held(Shift(m, s, |bs| + 1), ws, bs + [block])
  {
    var t := |bs|;
    assert s.r[0] == WordTaken(ws, bs, t + 0);
    assert m.mix(s.a, s.r[0], t + 1) == (XorCounter(block[..8], t + 1), block[8..]);
    assert Shift(m, s, t + 1) == Registers(XorCounter(block[..8], t + 1), s.r[1..] + [block[8..]]);
    NextWords(s.r, ws, bs, block);
  }

  lemma NextWords(r: seq<seq<byte>>, ws: seq<seq<byte>>, bs: seq<Block>, block: Block)
    requires |r| == |ws| >= 1 && forall k | 0 <= k < |ws| :: r[k] == WordTaken(ws, bs, |bs| + k)
    ensures var r' := r[1..] + [block[8..]]; forall k | 0 <= k < |ws| :: r'[k] == WordTaken(ws, bs + [block], |bs| + 1 + k)
  {
    var r' := r[1..] + [block[8..]];
    forall k | 0 <= k < |ws|
      ensures r'[k] == WordTaken(ws, bs + [block], |bs| + 1 + k)
    {
      assert k < |ws| - 1 ==> r'[k] == r[k + 1];
    }
  }

  lemma {:induction false} BlocksExist(aes: Aes, kek: seq<byte>, ws: seq<seq<byte>>, t: nat) returns (bs: seq<Block>)
    requires aes.Permutes() && WordsOnly(ws) && ws != []
    ensures |bs| == t && Yielded(aes, kek, ws, bs)
  {
    if t == 0 {
      bs := [];
    } else {
      var front := BlocksExist(aes, kek, ws, t - 1);
      var block := aes.encrypt(kek, LastA(front) + WordTaken(ws, front, t - 1));
      bs := front + [block];
      assert bs[..t - 1] == front;
    }
  }

  /** The words that another round would take. */
  function WordsLeft(ws: seq<seq<byte>>, bs: seq<Block>): seq<seq<byte>> {
    seq(|ws|, k requires 0 <= k < |ws| => WordTaken(ws, bs, |bs| + k))
  }

  lemma BlocksWrap(aes: Aes, kek: seq<byte>, plaintext: seq<byte>, bs: seq<Block>)
    requires aes.Permutes() && Wrap(aes, kek, plaintext).Ok?
    requires |bs| == 6 * |Words(plaintext)| && Yielded(aes, kek, Words(plaintext), bs)
    ensures Wrap(aes, kek, plaintext) == Ok(LastA(bs) + Concat(WordsLeft(Words(plaintext), bs)))
  {
    var m, ws := AesMixer(aes, kek), Words(plaintext);
    RegistersHold(aes, kek, m, ws, bs);
    HeldWords(ShiftRun(m, Registers(INITIAL_VALUE, ws), |bs|), ws, bs);
  }

  lemma HeldWords(s: Registers<seq<byte>>, ws: seq<seq<byte>>, bs: seq<Block>)
    requires Held(s, ws, bs)
    ensures Pack(s) == LastA(bs) + Concat(WordsLeft(ws, bs))
  {
    assert s.r == WordsLeft(ws, bs);
  }

  /** Wrapping succeeds exactly for keys of 16, 24 or 32 octets and at least two words, and its result is that of six
      rounds of steps: each of them encrypts A and a word, and leaves the counter in A and the rest for the next round. */
  lemma WrappedExactly(aes: Aes, kek: seq<byte>, plaintext: seq<byte>, c: seq<byte>)
    requires aes.Permutes()
    ensures Wrap(aes, kek, plaintext) == Ok(c) <==>
            && |plaintext| >= 16 && |plaintext| % 8 == 0 && (|kek| == 16 || |kek| == 24 || |kek| == 32)
            && exists bs :: && |bs| == 6 * |Words(plaintext)| && Yielded(aes, kek, Words(plaintext), bs)
                            && c == LastA(bs) + Concat(WordsLeft(Words(plaintext), bs))
  {
    if |plaintext| >= 16 && |plaintext| % 8 == 0 && (|kek| == 16 || |kek| == 24 || |kek| == 32) {
      var ws := Words(plaintext);
      var found := BlocksExist(aes, kek, ws, 6 * |ws|);
      BlocksWrap(aes, kek, plaintext, found);
      forall bs | |bs| == 6 * |ws| && Yielded(aes, kek, ws, bs)
        ensures Wrap(aes, kek, plaintext) == Ok(LastA(bs) + Concat(WordsLeft(ws, bs)))
      {
        BlocksWrap(aes, kek, plaintext, bs);
      }
    }
  }
}
