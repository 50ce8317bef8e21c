/** The AES key wrap of kem.go: loops over one array, in place, against the shift-register
    description in section 2.2 of RFC 3394. */
module KeyWrap {
  import opened Bytes
  import opened Sequences
  import opened ShiftRegisters

  /** The block cipher with its key schedule: for each key a permutation of 16-octet blocks
      and its inverse. */
  datatype Aes = Aes(
    encrypt: (seq<byte>, seq<byte>) -> seq<byte>,
    decrypt: (seq<byte>, seq<byte>) -> seq<byte>)
  {
    ghost predicate Permutes() {
      && (forall key, block | |block| == 16 :: |encrypt(key, block)| == 16 && decrypt(key, encrypt(key, block)) == block)
      && (forall key, block | |block| == 16 :: |decrypt(key, block)| == 16 && encrypt(key, decrypt(key, block)) == block)
    }
  }

  /** Key lengths that aes.NewCipher takes. */
  predicate AesKey(key: seq<byte>) {
    |key| == 16 || |key| == 24 || |key| == 32
  }

  const INITIAL_VALUE: seq<byte> := [0xA6, 0xA6, 0xA6, 0xA6, 0xA6, 0xA6, 0xA6, 0xA6]

  const TWO_64: nat := 0x1_0000_0000_0000_0000

  /** A big-endian 64-bit word exclusive-ored with a step counter. */
  function XorCounter(word: seq<byte>, t: nat): (w: seq<byte>)
    ensures |w| == 8
  {
    Octets(Xor(BigEndian(word), t % TWO_64), 8)
  }

  lemma XorCounterTwice(word: seq<byte>, t: nat)
    requires |word| == 8
    ensures XorCounter(XorCounter(word, t), t) == word
  {
    var n, k := BigEndian(word), t % TWO_64;
    OctetsOfBigEndian(word);
    assert Pow256(8) == TWO_64;
    Pow2Of8(8);
    XorWidth(n, k, 64);
    BigEndianOfOctets(Xor(n, k), 8);
    XorTwice(n, k);
  }

  // ---------- the step ----------

  /** The step of section 2.2.1: AES on A and a word, then the counter into A. Anything but
      64-bit words is left alone. */
  function Mix(aes: Aes, kek: seq<byte>, a: seq<byte>, w: seq<byte>, t: nat): (b: (seq<byte>, seq<byte>))
    requires aes.Permutes()
    ensures |a| == 8 && |w| == 8 ==> |b.0| == 8 && |b.1| == 8
  {
    if |a| == 8 && |w| == 8 then
      var b := aes.encrypt(kek, a + w);
      (XorCounter(b[..8], t), b[8..])
    else
      (a, w)
  }

  /** The step of section 2.2.2: the counter out of A, then AES back. */
  function Unmix(aes: Aes, kek: seq<byte>, a: seq<byte>, w: seq<byte>, t: nat): (b: (seq<byte>, seq<byte>))
    requires aes.Permutes()
    ensures |a| == 8 && |w| == 8 ==> |b.0| == 8 && |b.1| == 8
  {
    if |a| == 8 && |w| == 8 then
      var b := aes.decrypt(kek, XorCounter(a, t) + w);
      (b[..8], b[8..])
    else
      (a, w)
  }

  lemma UnmixMix(aes: Aes, kek: seq<byte>, a: seq<byte>, w: seq<byte>, t: nat)
    requires aes.Permutes()
    ensures var b := Mix(aes, kek, a, w, t); Unmix(aes, kek, b.0, b.1, t) == (a, w)
  {
    if |a| == 8 && |w| == 8 {
      var b := aes.encrypt(kek, a + w);
      XorCounterTwice(b[..8], t);
      assert b[..8] + b[8..] == b;
      assert (a + w)[..8] == a && (a + w)[8..] == w;
    }
  }

  lemma MixUnmix(aes: Aes, kek: seq<byte>, a: seq<byte>, w: seq<byte>, t: nat)
    requires aes.Permutes()
    ensures var b := Unmix(aes, kek, a, w, t); Mix(aes, kek, b.0, b.1, t) == (a, w)
  {
    if |a| == 8 && |w| == 8 {
      var x := XorCounter(a, t);
      var b := aes.decrypt(kek, x + w);
      XorCounterTwice(a, t);
      assert b[..8] + b[8..] == b;
      assert (x + w)[..8] == x && (x + w)[8..] == w;
    }
  }

  function AesMixer(aes: Aes, kek: seq<byte>): (m: Mixer<seq<byte>>)
    requires aes.Permutes()
    ensures m.Inverse()
    ensures forall a, w, t: nat :: m.mix(a, w, t) == Mix(aes, kek, a, w, t)
    ensures forall a, w, t: nat :: m.unmix(a, w, t) == Unmix(aes, kek, a, w, t)
  {
    var m := Mixer((a: seq<byte>, w: seq<byte>, t: nat) => Mix(aes, kek, a, w, t),
                   (a: seq<byte>, w: seq<byte>, t: nat) => Unmix(aes, kek, a, w, t));
    assert m.Inverse() by {
      forall a, w, t: nat
        ensures var b := m.mix(a, w, t); m.unmix(b.0, b.1, t) == (a, w)
        ensures var b := m.unmix(a, w, t); m.mix(b.0, b.1, t) == (a, w)
      {
        UnmixMix(aes, kek, a, w, t);
        MixUnmix(aes, kek, a, w, t);
      }
    }
    m
  }

  // ---------- octets and words ----------

  /** The 64-bit words of a string of octets. */
  function Words(s: seq<byte>): (ws: seq<seq<byte>>)
    requires |s| % 8 == 0
    ensures |ws| == |s| / 8
    ensures forall i | 0 <= i < |ws| :: ws[i] == s[8 * i..8 * i + 8]
  {
    seq(|s| / 8, i requires 0 <= i < |s| / 8 => s[8 * i..8 * i + 8])
  }

  lemma WordsTail(s: seq<byte>)
    requires |s| % 8 == 0 && |s| >= 8
    ensures Words(s) == [s[..8]] + Words(s[8..])
  {
    forall i | 0 <= i < |s| / 8 - 1
      ensures Words(s)[i + 1] == Words(s[8..])[i]
    {
      Slid(s, 8 * i);
      assert 8 * (i + 1) == 8 * i + 8;
    }
  }

  lemma Slid(s: seq<byte>, k: nat)
    requires k + 16 <= |s|
    ensures s[8..][k..k + 8] == s[k + 8..k + 16]
  {
  }

  lemma {:induction false} JoinWords(s: seq<byte>)
    requires |s| % 8 == 0
    ensures Concat(Words(s)) == s
    decreases |s|
  {
    if s == [] {
    } else {
      WordsTail(s);
      JoinWords(s[8..]);
    }
  }

  lemma {:induction false} WordsJoin(ws: seq<seq<byte>>)
    requires forall i | 0 <= i < |ws| :: |ws[i]| == 8
    ensures |Concat(ws)| == 8 * |ws| && Words(Concat(ws)) == ws
  {
    if ws == [] {
    } else {
      WordsJoin(ws[1..]);
      var s := Concat(ws);
      assert s[..8] == ws[0] && s[8..] == Concat(ws[1..]);
      WordsTail(s);
    }
  }

  lemma WordReplaced(s: seq<byte>, i: nat, w: seq<byte>)
    requires |s| % 8 == 0 && 8 * i + 8 <= |s| && |w| == 8
    ensures var r := s[..8 * i] + w + s[8 * i + 8..];
            |r| == |s| && Words(r) == Words(s)[i := w]
  {
    var r := s[..8 * i] + w + s[8 * i + 8..];
    forall k | 0 <= k < |s| / 8
      ensures Words(r)[k] == Words(s)[i := w][k]
    {
      if k < i {
        assert r[8 * k..8 * k + 8] == s[8 * k..8 * k + 8];
      } else if k > i {
        assert r[8 * k..8 * k + 8] == s[8 * k..8 * k + 8];
      }
    }
  }

  // ---------- registers and octets ----------

  predicate WordsOnly(ws: seq<seq<byte>>) {
    forall i | 0 <= i < |ws| :: |ws[i]| == 8
  }

  function Pack(s: Registers<seq<byte>>): seq<byte> {
    s.a + Concat(s.r)
  }

  function Unpack(c: seq<byte>): (s: Registers<seq<byte>>)
    requires |c| % 8 == 0 && |c| >= 16
    ensures |s.r| == |c| / 8 - 1
  {
    Registers(c[..8], Words(c[8..]))
  }

  lemma UnpackPack(s: Registers<seq<byte>>)
    requires |s.a| == 8 && WordsOnly(s.r) && |s.r| >= 1
    ensures |Pack(s)| == 8 * |s.r| + 8 && Unpack(Pack(s)) == s
  {
    WordsJoin(s.r);
    assert Pack(s)[..8] == s.a && Pack(s)[8..] == Concat(s.r);
  }

  lemma PackUnpack(c: seq<byte>)
    requires |c| % 8 == 0 && |c| >= 16
    ensures Pack(Unpack(c)) == c
  {
    JoinWords(c[8..]);
    assert c[..8] + c[8..] == c;
  }

  /** Steps keep words of 64 bits. */
  lemma {:induction false} ShiftRunWords(aes: Aes, kek: seq<byte>, s: Registers<seq<byte>>, t: nat)
    requires aes.Permutes() && |s.r| >= 1 && |s.a| == 8 && WordsOnly(s.r)
    ensures var s' := ShiftRun(AesMixer(aes, kek), s, t); |s'.a| == 8 && WordsOnly(s'.r)
  {
    if t == 0 {
    } else {
      ShiftRunWords(aes, kek, s, t - 1);
    }
  }

  lemma UnshiftWords(aes: Aes, kek: seq<byte>, s: Registers<seq<byte>>, t: nat)
    requires aes.Permutes() && |s.r| >= 1 && |s.a| == 8 && WordsOnly(s.r)
    ensures var s' := Unshift(AesMixer(aes, kek), s, t); |s'.a| == 8 && WordsOnly(s'.r)
  {
    var b := Unmix(aes, kek, s.a, s.r[|s.r| - 1], t);
    assert |b.0| == 8 && |b.1| == 8;
  }

  lemma {:induction false} UnshiftRunWords(aes: Aes, kek: seq<byte>, s: Registers<seq<byte>>, t: nat)
    requires aes.Permutes() && |s.r| >= 1 && |s.a| == 8 && WordsOnly(s.r)
    ensures var s' := UnshiftRun(AesMixer(aes, kek), s, t); |s'.a| == 8 && WordsOnly(s'.r)
    decreases t
  {
    if t == 0 {
    } else {
      UnshiftWords(aes, kek, s, t);
      UnshiftRunWords(aes, kek, Unshift(AesMixer(aes, kek), s, t), t - 1);
    }
  }

  // ---------- the description of section 2.2 ----------

  /** Shift 6n times, starting from the initial value and the plaintext. */
  function Wrap(aes: Aes, kek: seq<byte>, plaintext: seq<byte>): Result<seq<byte>>
    requires aes.Permutes()
  {
    if |plaintext| < 16 || |plaintext| % 8 != 0 || !AesKey(kek) then Err else
      var start := Registers(INITIAL_VALUE, Words(plaintext));
      Ok(Pack(ShiftRun(AesMixer(aes, kek), start, 6 * (|plaintext| / 8))))
  }

  /** Shift 6n times back and check for the initial value. */
  function Unwrap(aes: Aes, kek: seq<byte>, ciphertext: seq<byte>): Result<seq<byte>>
    requires aes.Permutes()
  {
    if |ciphertext| < 24 || |ciphertext| % 8 != 0 || !AesKey(kek) then Err else
      var n := |ciphertext| / 8 - 1;
      var s := UnshiftRun(AesMixer(aes, kek), Unpack(ciphertext), 6 * n);
      if s.a == INITIAL_VALUE then Ok(Concat(s.r)) else Err
  }

  /** Every wrapped key is unwrapped to what was wrapped. */
  lemma UnwrapWrap(aes: Aes, kek: seq<byte>, plaintext: seq<byte>)
    requires aes.Permutes()
    ensures Wrap(aes, kek, plaintext).Ok? <==> |plaintext| >= 16 && |plaintext| % 8 == 0 && AesKey(kek)
    ensures Wrap(aes, kek, plaintext).Ok? ==>
              && |Wrap(aes, kek, plaintext).value| == |plaintext| + 8
              && Unwrap(aes, kek, Wrap(aes, kek, plaintext).value) == Ok(plaintext)
  {
    if Wrap(aes, kek, plaintext).Ok? {
      var n, m := |plaintext| / 8, AesMixer(aes, kek);
      var start := Registers(INITIAL_VALUE, Words(plaintext));
      ShiftRunWords(aes, kek, start, 6 * n);
      UnpackPack(ShiftRun(m, start, 6 * n));
      UnshiftShiftRun(m, start, 6 * n);
      JoinWords(plaintext);
    }
  }

  /** Every accepted ciphertext is what wrapping its plaintext gives: unwrapping accepts
      exactly what wrapping produces. */
  lemma WrapUnwrap(aes: Aes, kek: seq<byte>, ciphertext: seq<byte>)
    requires aes.Permutes()
    ensures Unwrap(aes, kek, ciphertext).Ok? ==> Wrap(aes, kek, Unwrap(aes, kek, ciphertext).value) == Ok(ciphertext)
    ensures Unwrap(aes, kek, ciphertext).Ok? <==> exists p :: Wrap(aes, kek, p) == Ok(ciphertext)
  {
    if Unwrap(aes, kek, ciphertext).Ok? {
      WrapAccepted(aes, kek, ciphertext);
    }
    forall p | Wrap(aes, kek, p) == Ok(ciphertext)
      ensures Unwrap(aes, kek, ciphertext) == Ok(p)
    {
      UnwrapWrap(aes, kek, p);
    }
  }

  lemma WrapAccepted(aes: Aes, kek: seq<byte>, ciphertext: seq<byte>)
    requires aes.Permutes() && Unwrap(aes, kek, ciphertext).Ok?
    ensures Wrap(aes, kek, Unwrap(aes, kek, ciphertext).value) == Ok(ciphertext)
  {
    var n, m := |ciphertext| / 8 - 1, AesMixer(aes, kek);
    var end := Unpack(ciphertext);
    var s := UnshiftRun(m, end, 6 * n);
    UnshiftRunWords(aes, kek, end, 6 * n);
    WordsJoin(s.r);
    ShiftUnshiftRun(m, end, 6 * n);
    PackUnpack(ciphertext);
  }

  // ---------- the description in place ----------

  lemma Unpacked(c: seq<byte>)
    requires |c| % 8 == 0 && |c| >= 16
    ensures |Words(c)| >= 2 && Turned(Words(c), 0) == Unpack(c)
  {
    WordsTail(c);
    FullTurn(Words(c), |Words(c)| - 1);
  }

  /** An array that went through six rounds in place holds the wrapped key. */
  lemma WrapInPlace(aes: Aes, kek: seq<byte>, plaintext: seq<byte>, n: nat, c: seq<byte>)
    requires aes.Permutes() && AesKey(kek)
    requires n >= 2 && |plaintext| == 8 * n && |c| == 8 * n + 8
    requires Words(c) == Rounds(AesMixer(aes, kek), Words(INITIAL_VALUE + plaintext), n, 6)
    ensures Wrap(aes, kek, plaintext) == Ok(c)
  {
    var start := INITIAL_VALUE + plaintext;
    assert start[..8] == INITIAL_VALUE && start[8..] == plaintext;
    Unpacked(start);
    Unpacked(c);
    RoundsShift(AesMixer(aes, kek), Words(start), n, 6);
    SixRounds(n);
    PackUnpack(c);
  }

  /** An array that went back through six rounds in place holds the registers of the description. */
  lemma RegistersBack(aes: Aes, kek: seq<byte>, ciphertext: seq<byte>, n: nat, c: seq<byte>)
    requires aes.Permutes()
    requires n >= 2 && |ciphertext| == 8 * n + 8 && |c| == 8 * n + 8
    requires Words(c) == RoundsBack(AesMixer(aes, kek), Words(ciphertext), n, 6, 0)
    ensures Unpack(c) == UnshiftRun(AesMixer(aes, kek), Unpack(ciphertext), 6 * n)
  {
    var m := AesMixer(aes, kek);
    Unpacked(ciphertext);
    Unpacked(c);
    var s := UnshiftRun(m, Unpack(ciphertext), 6 * n);
    SixRounds(n);
    ShiftUnshiftRun(m, Unpack(ciphertext), 6 * n);
    RoundsBackUnshift(m, s, Words(ciphertext), n, 6, 0);
  }

  /** It tells whether the ciphertext is accepted, and holds the plaintext. */
  lemma UnwrapInPlace(aes: Aes, kek: seq<byte>, ciphertext: seq<byte>, n: nat, c: seq<byte>)
    requires aes.Permutes() && AesKey(kek)
    requires n >= 2 && |ciphertext| == |c| == 8 * n + 8 && |c| % 8 == 0 && |c| / 8 - 1 == n
    requires Words(c) == RoundsBack(AesMixer(aes, kek), Words(ciphertext), n, 6, 0)
    ensures Unwrap(aes, kek, ciphertext) == if c[..8] == INITIAL_VALUE then Ok(c[8..]) else Err
  {
    RegistersBack(aes, kek, ciphertext, n, c);
    JoinWords(c[8..]);
  }

  /** Octets 0 to 7 and those of word i are overwritten. */
  lemma Stored(c: seq<byte>, i: nat, a: seq<byte>, w: seq<byte>, c1: seq<byte>, c2: seq<byte>)
    requires |c| % 8 == 0 && i >= 1 && 8 * i + 8 <= |c| && |a| == 8 && |w| == 8
    requires c1 == a + c[8..] && c2 == c1[..8 * i] + w + c1[8 * i + 8..]
    ensures |c2| == |c| && Words(c2) == Words(c)[0 := a][i := w]
  {
    WordReplaced(c, 0, a);
    assert c1 == c[..8 * 0] + a + c[8 * 0 + 8..];
    WordReplaced(c1, i, w);
  }

  /** What a step of the wrapping loop stores makes the next pass of the round. */
  lemma WrapStored(aes: Aes, kek: seq<byte>, start: seq<seq<byte>>, i: nat, t: nat, c: seq<byte>, c1: seq<byte>, c2: seq<byte>)
    requires aes.Permutes() && i >= 1 && |c| % 8 == 0 && 8 * i + 8 <= |c| == 8 * |start|
    requires Words(c) == Passes(AesMixer(aes, kek), start, i - 1, t)
    requires var b := aes.encrypt(kek, c[..8] + c[8 * i..8 * i + 8]);
             c1 == XorCounter(b[..8], t + i) + c[8..] && c2 == c1[..8 * i] + b[8..] + c1[8 * i + 8..]
    ensures |c2| == |c| && Words(c2) == Passes(AesMixer(aes, kek), start, i, t)
  {
    var b := aes.encrypt(kek, c[..8] + c[8 * i..8 * i + 8]);
    assert Words(c)[0] == c[..8] && Words(c)[i] == c[8 * i..8 * i + 8];
    Stored(c, i, XorCounter(b[..8], t + i), b[8..], c1, c2);
    NextPass(AesMixer(aes, kek), start, Words(c), Words(c2), i, t);
  }

  /** What a step of the unwrapping loop stores takes the last pass back. */
  lemma UnwrapStored(aes: Aes, kek: seq<byte>, start: seq<seq<byte>>, n: nat, i: nat, t: nat,
                     c: seq<byte>, c1: seq<byte>, c2: seq<byte>)
    requires aes.Permutes() && i >= 1 && |c| % 8 == 0 && 8 * i + 8 <= |c| == 8 * |start| && |start| == n + 1
    requires Words(c) == PassesBack(AesMixer(aes, kek), start, n, i, t)
    requires var b := aes.decrypt(kek, XorCounter(c[..8], t + i) + c[8 * i..8 * i + 8]);
             c1 == b[..8] + c[8..] && c2 == c1[..8 * i] + b[8..] + c1[8 * i + 8..]
    ensures |c2| == |c| && Words(c2) == PassesBack(AesMixer(aes, kek), start, n, i - 1, t)
  {
    var b := aes.decrypt(kek, XorCounter(c[..8], t + i) + c[8 * i..8 * i + 8]);
    assert Words(c)[0] == c[..8] && Words(c)[i] == c[8 * i..8 * i + 8];
    Stored(c, i, b[..8], b[8..], c1, c2);
    NextPassBack(AesMixer(aes, kek), start, Words(c), Words(c2), n, i, t);
  }

  // ---------- the loops over one array ----------

  /** copy(dst[lo:], src) */
  method Copy(dst: array<byte>, lo: nat, src: seq<byte>)
    requires lo + |src| <= dst.Length
    modifies dst
    ensures dst[..] == old(dst[..lo]) + src + old(dst[lo + |src|..])
  {
    forall k | 0 <= k < |src| {
      dst[lo + k] := src[k];
    }
  }

  /** The body of the inner loop of aesKeyWrap. */
  method WrapStep(aes: Aes, kek: seq<byte>, output: array<byte>, buffer: array<byte>, i: nat, t: nat, ghost start: seq<seq<byte>>)
    requires aes.Permutes()
    requires output != buffer && buffer.Length == 16
    requires output.Length % 8 == 0 && i >= 1 && 8 * i + 8 <= output.Length == 8 * |start|
    requires Words(output[..]) == Passes(AesMixer(aes, kek), start, i - 1, t)
    modifies output, buffer
    ensures Words(output[..]) == Passes(AesMixer(aes, kek), start, i, t)
  {
    ghost var c := output[..];
    Copy(buffer, 0, output[..8]);
    Copy(buffer, 8, output[i * 8..(i + 1) * 8]);
    assert buffer[..] == c[..8] + c[8 * i..8 * i + 8];
    var b := aes.encrypt(kek, buffer[..]);
    Copy(buffer, 0, b);
    assert buffer[..] == b;
    Copy(output, 0, XorCounter(buffer[..8], t + i));
    ghost var c1 := output[..];
    Copy(output, i * 8, buffer[8..]);
    WrapStored(aes, kek, start, i, t, c, c1, output[..]);
  }

  /** The inner loop of aesKeyWrap, after step t. */
  method WrapRound(aes: Aes, kek: seq<byte>, output: array<byte>, buffer: array<byte>, n: nat, t: nat)
    requires aes.Permutes()
    requires output != buffer && buffer.Length == 16 && output.Length == 8 * n + 8
    modifies output, buffer
    ensures Words(output[..]) == Passes(AesMixer(aes, kek), old(Words(output[..])), n, t)
  {
    ghost var start := Words(output[..]);
    var i := 1;
    while i <= n
      invariant 1 <= i <= n + 1
      invariant Words(output[..]) == Passes(AesMixer(aes, kek), start, i - 1, t)
    {
      WrapStep(aes, kek, output, buffer, i, t, start);
      i := i + 1;
    }
  }

  /** Wraps into a new array; the plaintext is left as it is. */
  method AesKeyWrap(aes: Aes, kek: seq<byte>, plaintext: array<byte>) returns (r: Result<array<byte>>)
    requires aes.Permutes()
    ensures r.Ok? ==> fresh(r.value)
    ensures match Wrap(aes, kek, plaintext[..])
            case Err => r.Err?
            case Ok(c) => r.Ok? && r.value[..] == c
  {
    if plaintext.Length < 16 || plaintext.Length % 8 != 0 {
      return Err;
    }
    if !AesKey(kek) {
      return Err;
    }
    var n := plaintext.Length / 8;
    var output := new byte[plaintext.Length + 8];
    Copy(output, 0, INITIAL_VALUE);
    Copy(output, 8, plaintext[..]);
    var buffer := new byte[16];
    ghost var m, ws := AesMixer(aes, kek), Words(INITIAL_VALUE + plaintext[..]);
    assert output[..] == INITIAL_VALUE + plaintext[..];
    for j := 0 to 6
      invariant Words(output[..]) == Rounds(m, ws, n, j)
    {
      WrapRound(aes, kek, output, buffer, n, Steps(n, j));
    }
    WrapInPlace(aes, kek, plaintext[..], n, output[..]);
    return Ok(output);
  }

  /** The body of the inner loop of aesKeyUnwrap. */
  method UnwrapStep(aes: Aes, kek: seq<byte>, working: array<byte>, buffer: array<byte>, i: nat, t: nat,
                    ghost start: seq<seq<byte>>, ghost n: nat)
    requires aes.Permutes()
    requires working != buffer && buffer.Length == 16
    requires working.Length % 8 == 0 && i >= 1 && 8 * i + 8 <= working.Length == 8 * |start| && |start| == n + 1
    requires Words(working[..]) == PassesBack(AesMixer(aes, kek), start, n, i, t)
    modifies working, buffer
    ensures Words(working[..]) == PassesBack(AesMixer(aes, kek), start, n, i - 1, t)
  {
    ghost var c := working[..];
    Copy(buffer, 0, XorCounter(working[..8], t + i));
    Copy(buffer, 8, working[i * 8..(i + 1) * 8]);
    assert buffer[..] == XorCounter(c[..8], t + i) + c[8 * i..8 * i + 8];
    var b := aes.decrypt(kek, buffer[..]);
    Copy(buffer, 0, b);
    assert buffer[..] == b;
    Copy(working, 0, buffer[..8]);
    ghost var c1 := working[..];
    Copy(working, i * 8, buffer[8..]);
    UnwrapStored(aes, kek, start, n, i, t, c, c1, working[..]);
  }

  /** The inner loop of aesKeyUnwrap, back to after step t. */
  method UnwrapRound(aes: Aes, kek: seq<byte>, working: array<byte>, buffer: array<byte>, n: nat, t: nat)
    requires aes.Permutes()
    requires working != buffer && buffer.Length == 16 && working.Length == 8 * n + 8 && working.Length % 8 == 0
    modifies working, buffer
    ensures Words(working[..]) == PassesBack(AesMixer(aes, kek), old(Words(working[..])), n, 0, t)
  {
    ghost var start := Words(working[..]);
    var i := n;
    while i >= 1
      invariant 0 <= i <= n
      invariant Words(working[..]) == PassesBack(AesMixer(aes, kek), start, n, i, t)
    {
      UnwrapStep(aes, kek, working, buffer, i, t, start, n);
      i := i - 1;
    }
  }

  /** The outer loop of aesKeyUnwrap. */
  method UnwrapRounds(aes: Aes, kek: seq<byte>, working: array<byte>, n: nat)
    requires aes.Permutes() && AesKey(kek)
    requires n >= 2 && working.Length == 8 * n + 8 && working.Length % 8 == 0 && working.Length / 8 - 1 == n
    modifies working
    ensures Unwrap(aes, kek, old(working[..])) == if working[..8] == INITIAL_VALUE then Ok(working[8..]) else Err
  {
    var buffer := new byte[16];
    ghost var was := working[..];
    var j := 5;
    while j >= 0
      invariant -1 <= j <= 5
      invariant Words(working[..]) == RoundsBack(AesMixer(aes, kek), Words(was), n, 6, j + 1)
    {
      UnwrapRound(aes, kek, working, buffer, n, Steps(n, j));
      j := j - 1;
    }
    UnwrapInPlace(aes, kek, was, n, working[..]);
    assert working[..8] == working[..][..8] && working[8..] == working[..][8..];
  }

  /** Unwraps in a copy; the ciphertext is left as it is. */
  method AesKeyUnwrap(aes: Aes, kek: seq<byte>, ciphertext: array<byte>) returns (r: Result<array<byte>>)
    requires aes.Permutes()
    ensures r.Ok? ==> fresh(r.value)
    ensures match Unwrap(aes, kek, ciphertext[..])
            case Err => r.Err?
            case Ok(p) => r.Ok? && r.value[..] == p
  {
    if ciphertext.Length < 24 || ciphertext.Length % 8 != 0 {
      return Err;
    }
    if !AesKey(kek) {
      return Err;
    }
    var n := ciphertext.Length / 8 - 1;
    var working := new byte[ciphertext.Length];
    Copy(working, 0, ciphertext[..]);
    assert working[..] == ciphertext[..];
    UnwrapRounds(aes, kek, working, n);
    if working[..8] != INITIAL_VALUE {
      return Err;
    }
    var plaintext := Rest(working);
    return Ok(plaintext);
  }

  /** append([]byte(nil), working[8:]...) */
  method Rest(working: array<byte>) returns (plaintext: array<byte>)
    requires working.Length >= 8
    ensures fresh(plaintext) && plaintext[..] == working[8..]
  {
    plaintext := new byte[working.Length - 8];
    Copy(plaintext, 0, working[8..]);
  }
}
